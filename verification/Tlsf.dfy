/** The TLSF allocator over one pool (lib/tlsf/tlsf.c, 32-bit build): the kernel heap behind kmalloc. */
module Tlsf {
  import opened Words
  import opened TlsfMapping
  import opened TlsfLayout
  import opened TlsfLists
  import opened TlsfMemory
  import opened TlsfIndex
  import opened TlsfCoalesce
  import opened TlsfPayload
  import opened TlsfBits
  import opened TlsfBytes

  class Heap {
    // the control structure
    var flBitmap: nat
    const slBitmap: array<Word>
    const blocks: array<int>
    const blockNull: int

    // word-addressed memory, holding the pool and the links of block_null
    var mem: Memory

    // the pool's first block header and its sentinel
    ghost var base: int
    ghost var end: int

    // the abstract heap
    ghost var layout: Layout
    ghost var lists: Table
    ghost var out: set<int>

    /** Headers encode the layout, which tiles the pool. */
    ghost predicate PoolOk(stale: set<int>)
      reads this
    {
      Tiled(layout, base, end) && Mapped(mem, base, end, blockNull) && Encoded(mem, layout, base, stale)
    }

    /** Lists, heads and bitmaps agree with the layout. */
    ghost predicate IndexOk()
      reads this, slBitmap, blocks
    {
      && slBitmap as object != blocks
      && Listed(layout, lists, out) && AllLinked(mem, lists, blockNull)
      && Headed(blocks[..], lists, blockNull) && Mirrored(flBitmap, slBitmap[..], lists)
    }

    /** The heap between two calls. */
    ghost predicate Valid()
      reads this, slBitmap, blocks
    {
      PoolOk({}) && IndexOk() && out == {} && Coalesced(layout, base)
    }

    /** The control structure before a pool is added. */
    ghost predicate Empty()
      reads this, slBitmap, blocks
    {
      && IndexOk() && layout == map[] && out == {} && (forall c :: 0 <= c < |lists| ==> lists[c] == [])
      && 0 < blockNull && blockNull + CONTROL_SIZE < WORD && blockNull % 4 == 0
      && blockNull + 8 in mem && blockNull + 12 in mem
    }

    /** tlsf_create: clear the control structure and point all lists at block_null. */
    constructor (at: nat, store: Memory)
      requires 0 < at && at + CONTROL_SIZE < WORD && at % 4 == 0
      ensures Empty() && blockNull == at && fresh(slBitmap) && fresh(blocks)
      ensures mem == store[at + 8 := at][at + 12 := at]
    {
      blockNull := at;
      flBitmap := 0;
      slBitmap := new Word[FL_INDEX_COUNT](i => 0);
      blocks := new int[CLASSES](i => at);
      mem := store[at + 8 := at][at + 12 := at];
      base, end := 0, 0;
      layout, lists, out := map[], seq(CLASSES, i => []), {};
      new;
      NothingListed(flBitmap, slBitmap[..], blocks[..], lists, mem, at);
    }

    /** tlsf_add_pool for the heap's one pool.  A misaligned pool, or one whose size is out of range (also by
        unsigned wrap-around), is refused; otherwise all of it is one free block. */
    method AddPool(pool: nat, bytes: nat) returns (r: nat)
      requires Empty() && bytes < WORD && blockNull + CONTROL_SIZE <= pool && pool + bytes + 16 <= WORD
      requires forall a {:trigger a in mem} :: pool <= a < pool + bytes && a % 4 == 0 ==> a in mem
      requires PoolBytes(bytes) != BLOCK_SIZE_MAX
      modifies this`mem, this`flBitmap, this`lists, this`out, this`layout, this`base, this`end, slBitmap, blocks
      ensures r == 0 <==> pool % 4 != 0 || !(20 <= bytes < 0x4000_000c)
      ensures r == 0 ==> Empty() && mem == old(mem)
      ensures r != 0 ==> PoolBytes(bytes) <= bytes - 8 < PoolBytes(bytes) + 4
      ensures r != 0 ==> r == pool && Valid() && layout.Keys == {pool - 4, pool + PoolBytes(bytes)} && base == pool - 4
                         && layout[pool - 4] == Block(PoolBytes(bytes), true, 0) && Used(layout) == map[]
    {
      var poolBytes := PoolBytes(bytes);
      PoolBytesAre(bytes);
      FourIsAlignment();
      AlignDownIsGreatestMultiple((bytes - POOL_OVERHEAD) % WORD, ALIGN_SIZE);
      if pool % ALIGN_SIZE != 0 { return 0; }
      if poolBytes < BLOCK_SIZE_MIN || poolBytes > BLOCK_SIZE_MAX { return 0; }
      hide Mirrored, Headed, AllLinked, Listed, Class, AlignDown, Coalesced, Tiled, Mapped, Encoded;
      PoolRoom(mem, blockNull, pool, bytes, poolBytes);
      var next := FormatPool(pool, poolBytes);
      BlockInsert(pool - BLOCK_HEADER_OVERHEAD);
      r := pool;
    }

    /** Write the headers of the pool's one free block and of its sentinel.  (The source puts the block on its list
        in between; the words involved are different ones, so that here the insertion comes last.) */
    method FormatPool(pool: nat, poolBytes: int) returns (next: int)
      requires Empty() && blockNull + CONTROL_SIZE <= pool && pool % 4 == 0 && pool + poolBytes + 16 <= WORD
      requires BLOCK_SIZE_MIN <= poolBytes < BLOCK_SIZE_MAX && poolBytes % 4 == 0
      requires pool in mem && pool + poolBytes + 4 in mem && pool + poolBytes in mem
      requires forall a {:trigger a in mem} :: pool <= a <= pool + poolBytes + 4 && a % 4 == 0 ==> a in mem
      modifies this`mem, this`out, this`layout, this`base, this`end
      ensures next == pool + poolBytes && base == pool - 4 && end == next && out == {pool - 4}
      ensures layout == map[pool - 4 := Block(poolBytes, true, 0), next := Block(0, false, pool - 4)]
      ensures PoolOk({}) && IndexOk() && Coalesced(layout, base) && Used(layout) == map[]
    {
      hide Mirrored, Headed, AllLinked, Listed, Class, SizeOf, FreeBit, PrevFreeBit, Enc, SetSize, SetFreeBit,
        SetPrevFreeBit,
        Tiled, Mapped, Encoded, Coalesced, Used;
      // the first header's prev_phys_block falls outside the pool; it is never used
      var block := pool - BLOCK_HEADER_OVERHEAD;
      ghost var m0 := mem;
      InSetters(mem, block, poolBytes, true, false);
      BlockSetSize(block, poolBytes);
      BlockSetFree(block);
      BlockSetPrevUsed(block);
      FirstHeader(m0, mem, block, poolBytes);
      next := BlockLinkNext(block);
      ghost var m1 := mem;
      InSetters(mem, next, 0, false, true);
      BlockSetSize(next, 0);
      BlockSetUsed(next);
      BlockSetPrevFree(next);
      SentinelHeader(m1, mem, next);
      base, end := block, next;
      layout := map[block := Block(poolBytes, true, 0), next := Block(0, false, block)];
      out := {block};
      InitialPool(m0, mem, layout, blockNull, block, next, poolBytes);
      InitialIndex(m0, mem, layout, lists, blockNull, block, next);
    }

    // ----- header words

    method BlockSize(block: int) returns (size: int)
      requires block + 4 in mem
      ensures size == SizeOf(mem[block + 4])
    {
      FlagMask();
      HeaderReads(mem[block + 4]);
      size := And(mem[block + 4], Not(Or(FREE_BIT, PREV_FREE_BIT)));
    }

    method BlockIsFree(block: int) returns (free: bool)
      requires block + 4 in mem
      ensures free == FreeBit(mem[block + 4])
    {
      HeaderReads(mem[block + 4]);
      free := And(mem[block + 4], FREE_BIT) != 0;
    }

    method BlockIsPrevFree(block: int) returns (free: bool)
      requires block + 4 in mem
      ensures free == PrevFreeBit(mem[block + 4])
    {
      HeaderReads(mem[block + 4]);
      free := And(mem[block + 4], PREV_FREE_BIT) != 0;
    }

    method BlockSetSize(block: int, size: int)
      requires block + 4 in mem && 0 <= size && size % 4 == 0 && size + 3 < WORD
      modifies this`mem
      ensures mem == SetSize(old(mem), block, size)
    {
      FlagMask();
      SizeWrite(mem[block + 4], size);
      var oldsize := mem[block + 4];
      mem := mem[block + 4 := Or(size, And(oldsize, Or(FREE_BIT, PREV_FREE_BIT)))];
    }

    method BlockSetFree(block: int)
      requires block + 4 in mem
      modifies this`mem
      ensures mem == SetFreeBit(old(mem), block, true)
    {
      HeaderWrites(mem[block + 4]);
      mem := mem[block + 4 := Or(mem[block + 4], FREE_BIT)];
    }

    method BlockSetUsed(block: int)
      requires block + 4 in mem
      modifies this`mem
      ensures mem == SetFreeBit(old(mem), block, false)
    {
      HeaderWrites(mem[block + 4]);
      mem := mem[block + 4 := And(mem[block + 4], Not(FREE_BIT))];
    }

    method BlockSetPrevFree(block: int)
      requires block + 4 in mem
      modifies this`mem
      ensures mem == SetPrevFreeBit(old(mem), block, true)
    {
      HeaderWrites(mem[block + 4]);
      mem := mem[block + 4 := Or(mem[block + 4], PREV_FREE_BIT)];
    }

    method BlockSetPrevUsed(block: int)
      requires block + 4 in mem
      modifies this`mem
      ensures mem == SetPrevFreeBit(old(mem), block, false)
    {
      HeaderWrites(mem[block + 4]);
      mem := mem[block + 4 := And(mem[block + 4], Not(PREV_FREE_BIT))];
    }

    /** Header arithmetic: the payload starts 8 past the header, and the next header 4 before the payload's end. */
    method BlockNext(block: int) returns (next: int)
      requires block + 4 in mem
      ensures next == NextOf(mem, block)
    {
      var size := BlockSize(block);
      next := (block + BLOCK_START_OFFSET) + (size - BLOCK_HEADER_OVERHEAD);
    }

    method BlockLinkNext(block: int) returns (next: int)
      requires block + 4 in mem && 0 <= block < WORD
      modifies this`mem
      ensures next == NextOf(old(mem), block) && mem == LinkNext(old(mem), block)
    {
      next := BlockNext(block);
      mem := mem[next := block];
    }

    method BlockMarkAsFree(block: int)
      requires block + 4 in mem && 0 <= block < WORD && NextOf(mem, block) + 4 in mem
      modifies this`mem
      ensures mem == MarkFree(old(mem), block)
    {
      var next := BlockLinkNext(block);
      BlockSetPrevFree(next);
      BlockSetFree(block);
    }

    method BlockMarkAsUsed(block: int)
      requires block + 4 in mem && NextOf(mem, block) + 4 in mem
      modifies this`mem
      ensures mem == MarkUsed(old(mem), block)
    {
      var next := BlockNext(block);
      BlockSetPrevUsed(next);
      BlockSetUsed(block);
    }

    // ----- free lists

    method RemoveFreeBlock(block: int, fl: nat, sl: nat, ghost stale: set<int>)
      requires PoolOk(stale) && IndexOk()
      requires block in layout && layout[block].free && block !in out
      requires fl < FL_INDEX_COUNT && sl < SL_INDEX_COUNT && fl * 32 + sl == Class(layout[block].size)
      modifies this`mem, this`flBitmap, this`lists, this`out, slBitmap, blocks
      ensures PoolOk(stale) && IndexOk() && out == old(out) + {block}
      ensures fl * 32 + sl < |old(lists)| && TakenOff(old(lists), lists, fl * 32 + sl, block)
      ensures PayloadsKept(layout, old(mem), mem, {})
    {
      hide Tiled, Mapped, Encoded, Listed, AllLinked, Linked, Mirrored, PayloadsKept, Class, LinkTarget, NextLink,
        PrevLink, Bit, Pow2, And, Shl;
      InRange(layout, lists, out);
      ghost var c, k := OnListIndex(layout, lists, out, block);
      Neighbours(mem, layout, base, end, blockNull, stale, lists, out, c, k);
      ghost var l := lists[c];
      ReadLinks(mem, block);
      var prev: Word := mem[block + 12];
      var next: Word := mem[block + 8];
      RemoveSteps(mem, layout, base, end, blockNull, stale, lists, out, c, k, prev, next, blocks[..]);
      ghost var heads0, sl0 := blocks[..], slBitmap[..];
      mem := mem[next + 12 := prev];
      mem := mem[prev + 8 := next];
      lists, out := lists[c := Without(l, k)], out + {block};
      assert TakenOff(old(lists), lists, c, block);

      // only a head is known to the table and the bitmaps
      TableIndex(fl, sl);
      assert blocks[c] == At(l, 0, blockNull) == l[0];
      if blocks[fl * 32 + sl] == block {
        assert k == 0;
        blocks[fl * 32 + sl] := next;
        assert blocks[..] == heads0[c := next];
        if next == blockNull {
          OnlyElement(l, blockNull);
          assert Without(l, k) == [];
          BitmapShape(flBitmap, sl0, old(lists));
          MirrorClear(flBitmap, sl0, old(lists), fl, sl);
          OneShifted(sl);
          OneShifted(fl);
          AndBound(slBitmap[fl], Not(Shl(1, sl)));
          slBitmap[fl] := And(slBitmap[fl], Not(Shl(1, sl)));
          assert slBitmap[..] == sl0[fl := And(sl0[fl], Not(Pow2(sl)))];
          // the whole row has become empty
          if slBitmap[fl] == 0 {
            flBitmap := And(flBitmap, Not(Shl(1, fl)));
          }
        } else {
          assert |l| > 1;
          MirrorKeep(flBitmap, sl0, old(lists), c, Without(l, k));
          assert slBitmap[..] == sl0;
        }
      } else {
        assert k > 0;
        assert blocks[..] == heads0;
        MirrorKeep(flBitmap, sl0, old(lists), c, Without(l, k));
        assert slBitmap[..] == sl0;
      }
    }

    method InsertFreeBlock(block: int, fl: nat, sl: nat, ghost stale: set<int>)
      requires PoolOk(stale) && IndexOk()
      requires block in layout && layout[block].free && block in out
      requires fl < FL_INDEX_COUNT && sl < SL_INDEX_COUNT && fl * 32 + sl == Class(layout[block].size)
      modifies this`mem, this`flBitmap, this`lists, this`out, slBitmap, blocks
      ensures PoolOk(stale) && IndexOk() && out == old(out) - {block}
      ensures fl * 32 + sl < |old(lists)| && lists == old(lists)[fl * 32 + sl := [block] + old(lists)[fl * 32 + sl]]
      ensures PayloadsKept(layout, old(mem), mem, {})
    {
      hide Tiled, Mapped, Encoded, Listed, AllLinked, Linked, Mirrored, PayloadsKept, Class, LinkTarget, NextLink,
        PrevLink, Bit, Pow2, And, Or, Shl;
      ghost var c := fl * 32 + sl;
      InRange(layout, lists, out);
      BlockMapped(mem, layout, base, end, blockNull, block);
      ListedTarget(layout, base, lists, out, blockNull, c, 0);
      TableIndex(fl, sl);
      var current := blocks[fl * 32 + sl];
      TargetWord(mem, layout, base, end, blockNull, current);
      BlockMapped(mem, layout, base, end, blockNull, block);
      ghost var heads0, sl0 := blocks[..], slBitmap[..];
      InsertSteps(mem, layout, base, end, blockNull, stale, lists, out, c, block, current, heads0);
      mem := mem[block + 8 := current];
      mem := mem[block + 12 := blockNull];
      mem := mem[current + 12 := block];
      blocks[fl * 32 + sl] := block;
      assert blocks[..] == heads0[c := block];
      MirrorSet(flBitmap, sl0, lists, fl, sl, [block] + lists[c]);
      OneShifted(sl);
      OneShifted(fl);
      BitmapRoom(flBitmap, sl0, lists, fl, sl);
      flBitmap := Or(flBitmap, Shl(1, fl));
      slBitmap[fl] := Or(slBitmap[fl], Shl(1, sl));
      assert slBitmap[..] == sl0[fl := Or(sl0[fl], Pow2(sl))];
      lists, out := lists[c := [block] + lists[c]], out - {block};
    }

    /** The first block of the first nonempty list at or after (fl, sl), or 0 if all of those lists are empty. */
    method SearchSuitableBlock(fl: nat, sl: nat) returns (block: int, fli: nat, sli: nat)
      requires IndexOk() && 0 < blockNull && fl < FL_INDEX_COUNT && sl < SL_INDEX_COUNT
      requires forall c, i {:trigger lists[c][i]} :: 0 <= c < CLASSES && 0 <= i < |lists[c]| ==> lists[c][i] > 0
      ensures fli < FL_INDEX_COUNT && sli < SL_INDEX_COUNT && |lists| == CLASSES
      ensures block == 0 ==> EmptyFrom(lists, fl * 32 + sl, CLASSES)
      ensures block != 0 ==> var c := fli * 32 + sli;
                fl * 32 + sl <= c < CLASSES && EmptyFrom(lists, fl * 32 + sl, c) && lists[c] != []
                && block == lists[c][0]
    {
      hide Listed, AllLinked, Headed, Mirrored, Bit, Pow2, And, Shl, Class;
      ghost var sls := slBitmap[..];
      fli, sli := fl, sl;
      InRange(layout, lists, out);
      MirroredShape(flBitmap, sls, lists);
      BitsFrom(slBitmap[fl], sl);
      var slMap := And(slBitmap[fl], Shl(WORD - 1, sl));
      if slMap == 0 {
        RowEmptyFrom(flBitmap, sls, lists, fl, sl);
        // nothing in this row: look at the rows above
        BitsFrom(flBitmap, fl + 1);
        var flMap := And(flBitmap, Shl(WORD - 1, fl + 1));
        if flMap == 0 {
          RowsEmptyFrom(flBitmap, sls, lists, fl, sl, FL_INDEX_COUNT);
          return 0, fl, sl;
        }
        fli := Ffs(flMap);
        HighBitsClearBelow(flBitmap, sls, lists, fli);
        RowsEmptyFrom(flBitmap, sls, lists, fl, sl, fli);
        slMap := slBitmap[fli];
        RowNotEmpty(flBitmap, sls, lists, fli);
        sli := Ffs(slMap);
        RowStart(flBitmap, sls, lists, fl, sl, fli, sli);
      } else {
        sli := Ffs(slMap);
        RowPart(flBitmap, sls, lists, fl, sl, sli);
      }
      HeadOf(blocks[..], lists, blockNull, fli * 32 + sli);
      block := blocks[fli * 32 + sli];
    }

    // ----- blocks

    method BlockRemove(block: int)
      requires PoolOk({}) && IndexOk() && block in layout && layout[block].free && block !in out
      modifies this`mem, this`flBitmap, this`lists, this`out, slBitmap, blocks
      ensures PoolOk({}) && IndexOk() && out == old(out) + {block}
      ensures TakenOff(old(lists), lists, Class(layout[block].size), block)
      ensures PayloadsKept(layout, old(mem), mem, {})
    {
      hide Tiled, Mapped, Encoded, Listed, AllLinked, Headed, Mirrored, PayloadsKept, Class, MappingInsert;
      FreeBlockFacts(mem, layout, base, end, blockNull, {}, block);
      var size := BlockSize(block);
      var fl, sl := MapInsert(size);
      RemoveFreeBlock(block, fl, sl, {});
    }

    method BlockInsert(block: int)
      requires PoolOk({}) && IndexOk() && block in layout && layout[block].free && block in out
      modifies this`mem, this`flBitmap, this`lists, this`out, slBitmap, blocks
      ensures PoolOk({}) && IndexOk() && out == old(out) - {block}
      ensures Class(layout[block].size) < |old(lists)|
      ensures lists == old(lists)[Class(layout[block].size) := [block] + old(lists)[Class(layout[block].size)]]
      ensures PayloadsKept(layout, old(mem), mem, {})
    {
      hide Tiled, Mapped, Encoded, Listed, AllLinked, Headed, Mirrored, PayloadsKept, Class, MappingInsert;
      FreeBlockFacts(mem, layout, base, end, blockNull, {}, block);
      var size := BlockSize(block);
      var fl, sl := MapInsert(size);
      InsertFreeBlock(block, fl, sl, {});
    }

    method BlockCanSplit(block: int, size: int) returns (can: bool)
      requires block + 4 in mem
      ensures can <==> SizeOf(mem[block + 4]) >= BLOCK_HEADER_SIZE + size
    {
      var bsize := BlockSize(block);
      can := bsize >= BLOCK_HEADER_SIZE + size;
    }

    /** Split a block that is on no list in two, the second of which is free, on no list, and does not yet know
        its predecessor's state. */
    method BlockSplit(block: int, size: int) returns (remaining: int)
      requires PoolOk({}) && IndexOk() && block in layout && block != end && (layout[block].free ==> block in out)
      requires size % 4 == 0 && size >= BLOCK_SIZE_MIN && layout[block].size >= size + BLOCK_HEADER_SIZE
      modifies this`mem, this`layout, this`out
      ensures remaining == block + size + 4 && remaining !in old(layout) && Next(old(layout), block) in old(layout)
      ensures layout == Split(old(layout), block, size, true) && out == old(out) + {remaining}
      ensures PoolOk({remaining}) && IndexOk()
      ensures PayloadsKept(old(layout), old(mem), mem, {block})
      ensures !old(layout[block]).free ==> Kept(old(mem), mem, block + 8, size)
    {
      hide Tiled, Mapped, Encoded, Listed, AllLinked, Headed, Mirrored, PayloadsKept, Class, SplitSizes, MarkFree,
        SizeOf, NextOf, Kept, LinksKept;
      SplitReady(mem, layout, base, end, blockNull, block, size);
      SplitEncoded(mem, layout, base, end, blockNull, block, size);
      NextPrev(layout, base, end, block);
      remaining := (block + BLOCK_START_OFFSET) + (size - BLOCK_HEADER_OVERHEAD);
      ghost var m0 := mem;
      var bsize := BlockSize(block);
      var remainSize := bsize - (size + BLOCK_HEADER_OVERHEAD);
      FourDivides(bsize, size);
      BlockSetSize(remaining, remainSize);
      InSetSize(m0, remaining, remainSize, block + 4);
      BlockSetSize(block, size);
      assert mem == SplitSizes(m0, block, size) by { SplitSizesIs(m0, block, size, remainSize); }
      BlockMarkAsFree(remaining);
      SplitIndexed(m0, mem, layout, lists, out, blockNull, block, size);
      layout, out := Split(layout, block, size, true), out + {remaining};
    }

    /** Merge a just-freed block with a free predecessor. */
    method BlockMergePrev(block: int) returns (merged: int)
      requires PoolOk({}) && IndexOk() && block in layout && block != end && layout[block].free && block in out
      requires out == {block} && CoalescedBut(layout, base, block)
      modifies this`mem, this`flBitmap, this`lists, this`out, this`layout, slBitmap, blocks
      ensures PoolOk({}) && IndexOk() && merged in layout && merged != end && layout[merged].free && out == {merged}
      ensures CoalescedBut(layout, base, merged) && !PrevFree(layout, base, merged)
      ensures PayloadsKept(old(layout), old(mem), mem, {}) && Used(layout) == Used(old(layout))
    {
      hide Tiled, Mapped, Encoded, Listed, AllLinked, Headed, Mirrored, PayloadsKept, Class, SizeOf, NextOf, Kept,
        LinksKept, CoalescedBut, PrevFree,
        AbsorbSize, LinkNext, Used;
      HeaderFacts(mem, layout, base, end, blockNull, {}, block);
      var prevFree := BlockIsPrevFree(block);
      if !prevFree {
        PayloadsSame(layout, mem);
        return block;
      }
      ghost var h := layout;
      NotBase(h, base, block);
      MergePrevCoalesced(h, base, end, block);
      var prev := mem[block];
      PrevIsFree(h, base, block);
      HeaderFacts(mem, h, base, end, blockNull, {}, prev);
      ghost var m0 := mem;
      BlockRemove(prev);
      Absorbable(mem, h, base, end, blockNull, prev);
      AbsorbEncoded(mem, h, base, end, blockNull, prev);
      ghost var m1 := mem;
      BlockAbsorb(prev, block);
      NextPrev(h, base, end, prev);
      NextPrev(h, base, end, block);
      AbsorbIndexed(m1, mem, h, lists, out, blockNull, prev);
      PayloadsKeptTrans(h, m0, m1, mem, {});
      UsedAbsorbFree(h, prev);
      layout, out := Absorb(h, prev), out - {block};
      merged := prev;
    }

    /** Add the size of the following block to prev, leaving its flags, and link the block after it. */
    method BlockAbsorb(prev: int, block: int)
      requires prev + 4 in mem && block + 4 in mem && 0 <= prev < WORD
      requires 0 <= mem[prev + 4] + SizeOf(mem[block + 4]) + 4 < WORD
      modifies this`mem
      ensures mem == LinkNext(AbsorbSize(old(mem), prev, block), prev)
    {
      var bsize := BlockSize(block);
      mem := mem[prev + 4 := mem[prev + 4] + bsize + BLOCK_HEADER_OVERHEAD];
      var next := BlockLinkNext(prev);
    }

    /** Merge a block with a free successor.  If the block is used, the block after the merge is left with a
        stale view of its predecessor. */
    method BlockMergeNext(block: int)
      requires PoolOk({}) && IndexOk() && block in layout && block != end && (layout[block].free ==> block in out)
      requires CoalescedBut(layout, base, block) && Next(layout, block) in layout && Next(layout, block) !in out
      modifies this`mem, this`flBitmap, this`lists, this`out, this`layout, slBitmap, blocks
      ensures block in layout && layout[block].free == old(layout[block].free) && out == old(out) && IndexOk()
      ensures CoalescedBut(layout, base, block) && PrevFree(layout, base, block) == PrevFree(old(layout), base, block)
      ensures Next(layout, block) in layout && !layout[Next(layout, block)].free
      ensures PayloadsKept(old(layout), old(mem), mem, {})
      ensures var h := old(layout); var n := Next(h, block);
              if h[n].free
                then n != end && Next(h, n) in h && layout == Absorb(h, block)
                && PoolOk(if h[block].free then {} else {Next(h, n)})
              else layout == h && PoolOk({})
    {
      hide Tiled, Mapped, Encoded, Listed, AllLinked, Headed, Mirrored, PayloadsKept, Class, SizeOf, NextOf, Kept,
        LinksKept, CoalescedBut, PrevFree,
        AbsorbSize, LinkNext;
      HeaderFacts(mem, layout, base, end, blockNull, {}, block);
      var next := BlockNext(block);
      var nextFree := BlockIsFree(next);
      if !nextFree {
        PayloadsSame(layout, mem);
        return;
      }
      ghost var h := layout;
      MergeNextCoalesced(h, base, end, block);
      ghost var m0 := mem;
      BlockRemove(next);
      Absorbable(mem, h, base, end, blockNull, block);
      AbsorbEncoded(mem, h, base, end, blockNull, block);
      ghost var m1 := mem;
      BlockAbsorb(block, next);
      AbsorbIndexed(m1, mem, h, lists, out, blockNull, block);
      PayloadsKeptTrans(h, m0, m1, mem, {});
      layout, out := Absorb(h, block), out - {next};
    }

    /** Trim any trailing space off a free block that is on no list, and return it to the pool. */
    method BlockTrimFree(block: int, size: int)
      requires PoolOk({}) && IndexOk() && block in layout && block != end && layout[block].free && block in out
      requires out == {block}
      requires CoalescedBut(layout, base, block) && Next(layout, block) in layout && !layout[Next(layout, block)].free
      requires size % 4 == 0 && BLOCK_SIZE_MIN <= size <= layout[block].size
      modifies this`mem, this`flBitmap, this`lists, this`out, this`layout, slBitmap, blocks
      ensures PoolOk({}) && IndexOk() && block in layout && layout[block].free && out == {block}
      ensures CoalescedBut(layout, base, block) && Used(layout) == Used(old(layout))
      ensures layout[block].size
              == if old(layout[block].size) >= BLOCK_HEADER_SIZE + size then size else old(layout[block].size)
      ensures PayloadsKept(old(layout), old(mem), mem, {})
    {
      hide Tiled, Mapped, Encoded, Listed, AllLinked, Headed, Mirrored, PayloadsKept, Class, SizeOf, NextOf, Kept,
        LinksKept, CoalescedBut, PrevFree,
        AbsorbSize, LinkNext, Used, SetPrevFreeBit;
      ghost var h := layout;
      HeaderFacts(mem, h, base, end, blockNull, {}, block);
      var canSplit := BlockCanSplit(block, size);
      if !canSplit {
        PayloadsSame(layout, mem);
        return;
      }
      ghost var m0 := mem;
      SplitCoalesced(h, base, end, block, size, block);
      NextPrev(h, base, end, block);
      var remaining := BlockSplit(block, size);
      UsedSplitFree(h, block, size);
      PayloadsFreed(h, m0, mem, block);
      ghost var m1 := mem;
      SplitNeighbours(h, layout, base, end, block, size);
      HeaderFacts(mem, layout, base, end, blockNull, {remaining}, block);
      LinkNextEncoded(mem, layout, base, end, blockNull, {remaining}, block);
      var next := BlockLinkNext(block);
      ghost var m2 := mem;
      HeaderFacts(mem, layout, base, end, blockNull, {remaining}, remaining);
      PrevFlagEncoded(mem, layout, base, end, blockNull, {remaining}, remaining, true);
      BlockSetPrevFree(remaining);
      ghost var m3 := mem;
      assert {remaining} - {remaining} == {};
      LinksKeptTrans(layout, m1, m2, m3);
      AllLinkedFrame(layout, m1, m3, lists, out, blockNull);
      BlockInsert(remaining);
      PayloadsKeptTrans(layout, m1, m2, m3, {});
      PayloadsKeptTrans(layout, m1, m3, mem, {});
      SplitPayloads(h, layout, m1, mem, block, size);
      PayloadsKeptTrans(h, m0, m1, mem, {});
    }

    /** Trim any trailing space off a used block, and return it to the pool. */
    method BlockTrimUsed(block: int, size: int)
      requires PoolOk({}) && IndexOk() && out == {} && Coalesced(layout, base)
      requires block in Used(layout) && size % 4 == 0 && BLOCK_SIZE_MIN <= size <= layout[block].size
      modifies this`mem, this`flBitmap, this`lists, this`out, this`layout, slBitmap, blocks
      ensures Valid() && block in Used(layout) && Used(layout) == Used(old(layout))[block := Used(layout)[block]]
      ensures Used(layout)[block] == Trimmed(old(layout[block].size), size)
      ensures HeldKept(Used(old(layout))[block := size], old(mem), mem)
    {
      hide Tiled, Mapped, Encoded, Listed, AllLinked, Headed, Mirrored, PayloadsKept, Class, SizeOf, NextOf, Kept,
        LinksKept, CoalescedBut, Coalesced,
        PrevFree, HeldKept, Used, SetPrevFreeBit;
      ghost var h := layout;
      UsedBlock(h, base, end, block);
      HeaderFacts(mem, h, base, end, blockNull, {}, block);
      var canSplit := BlockCanSplit(block, size);
      if !canSplit {
        HeldSame(Used(h)[block := size], mem);
        assert Used(h)[block := Used(h)[block]] == Used(h);
        return;
      }
      ghost var m0 := mem;
      CoalescedIsBut(h, base, block);
      SplitCoalesced(h, base, end, block, size, block + size + 4);
      NextPrev(h, base, end, block);
      var remaining := BlockSplit(block, size);
      UsedSplitUsed(h, block, size);
      HeldCut(h, m0, mem, block, size);
      ghost var used, m1, h1 := Used(layout), mem, layout;
      SplitNeighbours(h, h1, base, end, block, size);
      HeaderFacts(mem, h1, base, end, blockNull, {remaining}, remaining);
      PrevFlagEncoded(mem, h1, base, end, blockNull, {remaining}, remaining, false);
      BlockSetPrevUsed(remaining);
      assert {remaining} - {remaining} == {};
      ghost var m2 := mem;
      AllLinkedFrame(h1, m1, m2, lists, out, blockNull);
      HeldFrom(used, h1, m1, m2);
      // the surplus may now have a free neighbour
      BlockMergeNext(remaining);
      ghost var m3 := mem;
      HeldFrom(used, h1, m2, m3);
      if layout != h1 {
        NextPrev(h1, base, end, remaining);
        NextPrev(h1, base, end, Next(h1, remaining));
        UsedAbsorbFree(h1, remaining);
      }
      CoalescedAround(layout, base, end, remaining);
      BlockInsert(remaining);
      HeldFrom(used, layout, m3, mem);
      HeldKeptTrans(used, m0, m1, m2);
      HeldKeptTrans(used, m0, m2, m3);
      HeldKeptTrans(used, m0, m3, mem);
    }

    /** Cut `size` bytes, header included, off the front of a free block, and return them to the pool. */
    method BlockTrimFreeLeading(block: int, size: int) returns (remaining: int)
      requires PoolOk({}) && IndexOk() && block in layout && block != end && layout[block].free && out == {block}
      requires CoalescedBut(layout, base, block) && !PrevFree(layout, base, block)
      requires Next(layout, block) in layout && !layout[Next(layout, block)].free
      requires size % 4 == 0 && BLOCK_HEADER_SIZE <= size && layout[block].size >= BLOCK_HEADER_SIZE + size
      modifies this`mem, this`flBitmap, this`lists, this`out, this`layout, slBitmap, blocks
      ensures PoolOk({}) && IndexOk() && remaining == block + size && remaining in layout && remaining != end
      ensures layout[remaining].free && out == {remaining} && layout[remaining].size == old(layout[block].size) - size
      ensures CoalescedBut(layout, base, remaining) && Next(layout, remaining) in layout
      ensures !layout[Next(layout, remaining)].free
      ensures Used(layout) == Used(old(layout)) && HeldKept(Used(layout), old(mem), mem)
    {
      hide Tiled, Mapped, Encoded, Listed, AllLinked, Headed, Mirrored, PayloadsKept, Class, SizeOf, NextOf, Kept,
        LinksKept, CoalescedBut,
        PrevFree, HeldKept, Used, SetPrevFreeBit, LinkNext;
      ghost var h := layout;
      HeaderFacts(mem, h, base, end, blockNull, {}, block);
      // the request includes the gap, so that there is room; the rear part is wanted
      var canSplit := BlockCanSplit(block, size);
      assert canSplit;
      ghost var m0 := mem;
      SplitCoalesced(h, base, end, block, size - BLOCK_HEADER_OVERHEAD, block + size);
      NextPrev(h, base, end, block);
      remaining := BlockSplit(block, size - BLOCK_HEADER_OVERHEAD);
      UsedSplitFree(h, block, size - 4);
      PayloadsFreed(h, m0, mem, block);
      ghost var used, m1, h1 := Used(layout), mem, layout;
      HeldFrom(used, h, m0, m1);
      SplitNeighbours(h, h1, base, end, block, size - 4);
      HeaderFacts(mem, h1, base, end, blockNull, {remaining}, remaining);
      PrevFlagEncoded(mem, h1, base, end, blockNull, {remaining}, remaining, true);
      BlockSetPrevFree(remaining);
      ghost var m2 := mem;
      assert {remaining} + {remaining} == {remaining};
      HeaderFacts(mem, h1, base, end, blockNull, {remaining}, block);
      LinkNextEncoded(mem, h1, base, end, blockNull, {remaining}, block);
      var next := BlockLinkNext(block);
      ghost var m3 := mem;
      RefreshPrev(m2, m3, h1, base, remaining);
      LinksKeptTrans(h1, m1, m2, m3);
      AllLinkedFrame(h1, m1, m3, lists, out, blockNull);
      HeldFrom(used, h1, m1, m2);
      HeldFrom(used, h1, m2, m3);
      BlockInsert(block);
      HeldFrom(used, h1, m3, mem);
      HeldKeptTrans(used, m0, m1, m2);
      HeldKeptTrans(used, m0, m2, m3);
      HeldKeptTrans(used, m0, m3, mem);
    }

    // ----- the interface

    /** Take a block of at least `size` bytes off the lists, or answer 0. */
    method BlockLocateFree(size: nat) returns (block: int)
      requires Valid() && size % 4 == 0 && size <= MAX_REQUEST
      modifies this`mem, this`flBitmap, this`lists, this`out, slBitmap, blocks
      ensures block == 0 <==> NoneFits(layout, size)
      ensures block == 0 ==> Valid() && mem == old(mem)
      ensures block != 0 ==> PoolOk({}) && IndexOk() && out == {block} && block in layout && layout[block].free
                             && 0 < size <= layout[block].size && block > 0
      ensures HeldKept(Used(layout), old(mem), mem)
    {
      hide Tiled, Mapped, Encoded, Listed, AllLinked, Headed, Mirrored, PayloadsKept, Class, Coalesced, EmptyFrom,
        HeldKept, Used, Log2, MappingInsert,
        SearchRound, NoneFits;
      block := 0;
      HeldSame(Used(layout), mem);
      if size == 0 {
        NothingFits(layout);
        return;
      }
      SearchInTableIff(size);
      var fl, sl := MapSearch(size);
      ClassInterval(size + SearchRound(size));
      ListedPositive(mem, layout, base, end, blockNull, lists, out);
      ghost var start := fl * 32 + sl;
      assert start == SearchStart(size);
      block, fl, sl := SearchSuitableBlock(fl, sl);
      if block == 0 {
        EmptyMeansNoneFits(layout, lists, out, size);
        return;
      }
      FoundFits(mem, layout, base, end, blockNull, lists, out, fl * 32 + sl, start, size);
      FreeBlockFacts(mem, layout, base, end, blockNull, {}, block);
      TableIndex(fl, sl);
      ghost var m0 := mem;
      RemoveFreeBlock(block, fl, sl, {});
      HeldFrom(Used(layout), layout, m0, mem);
    }

    /** Trim the block, mark it used, and answer its payload's address; 0 for no block. */
    method BlockPrepareUsed(block: int, size: nat) returns (p: int)
      requires block == 0 ==> Valid()
      requires block != 0 ==>
                 PoolOk({}) && IndexOk() && block in layout && block != end && layout[block].free && out == {block}
                              && CoalescedBut(layout, base, block) && Next(layout, block) in layout
                              && !layout[Next(layout, block)].free
                              && size % 4 == 0 && BLOCK_SIZE_MIN <= size <= layout[block].size
      modifies this`mem, this`flBitmap, this`lists, this`out, this`layout, slBitmap, blocks
      ensures Valid() && HeldKept(Used(old(layout)), old(mem), mem)
      ensures block == 0 ==> p == 0 && layout == old(layout) && mem == old(mem)
      ensures block != 0 ==> p == block + BLOCK_START_OFFSET && block !in Used(old(layout)) && block in Used(layout)
                             && Used(layout) == Used(old(layout))[block := Used(layout)[block]]
                             && size <= Used(layout)[block] < size + 16
    {
      hide Tiled, Mapped, Encoded, Listed, AllLinked, Headed, Mirrored, PayloadsKept, Class, SizeOf, NextOf, Kept,
        LinksKept, CoalescedBut, Coalesced,
        PrevFree, HeldKept, Used, MarkUsed;
      p := 0;
      HeldSame(Used(layout), mem);
      if block != 0 {
        ghost var used, h0, m0 := Used(layout), layout, mem;
        UsedMarkUsed(layout, block);
        BlockTrimFree(block, size);
        HeldFrom(used, h0, m0, mem);
        ghost var h, m1 := layout, mem;
        UsedMarkUsed(h, block);
        HeaderFacts(mem, h, base, end, blockNull, {}, block);
        MarkUsedEncoded(mem, h, base, end, blockNull, {}, block);
        BlockMarkAsUsed(block);
        assert {} - {Next(h, block)} == {};
        HeldFrom(used, h, m1, mem);
        HeldKeptTrans(used, m0, m1, mem);
        WithFreeTiled(h, base, end, block, false);
        WithFreeIndexed(m1, mem, h, lists, out, blockNull, block, false);
        MarkUsedCoalesced(h, base, end, block);
        layout, out := WithFree(h, block, false), out - {block};
        p := block + BLOCK_START_OFFSET;
      }
    }

    /** Allocate at least `size` bytes.  The answer is 0 exactly for a request of nothing, a request at or above
        the size limit, and when no free block's class is at or after the class searched. */
    method Malloc(size: nat) returns (p: int)
      requires Valid() && Request(size) <= MAX_REQUEST
      modifies this`mem, this`flBitmap, this`lists, this`out, this`layout, slBitmap, blocks
      ensures Valid() && HeldKept(Used(old(layout)), old(mem), mem)
      ensures p == 0 <==> NoneFits(old(layout), Request(size))
      ensures p == 0 ==> layout == old(layout) && mem == old(mem)
      ensures p != 0 ==> Allocated(Used(old(layout)), Used(layout), p, size) && p % 4 == 0
      ensures p != 0 ==>
                && Used(layout)[p - 8] < Request(size) + 16
                && FreeBytes(layout, base, end) == FreeBytes(old(layout), base, end) - Used(layout)[p - 8] - 4
      ensures p == 0 && Request(size) > 0 ==>
                forall b :: b in layout && layout[b].free ==> 32 * layout[b].size < 33 * Request(size)
    {
      hide Tiled, Mapped, Encoded, Listed, AllLinked, Headed, Mirrored, Class, CoalescedBut, Coalesced, PrevFree,
        HeldKept, Used, NoneFits, AlignUp;
      RequestCovers(size);
      var adjust := AdjustRequestSize(size, ALIGN_SIZE);
      ghost var h, m0 := layout, mem;
      var block := BlockLocateFree(adjust);
      ghost var m1 := mem;
      if block != 0 {
        FreeBlockFacts(mem, layout, base, end, blockNull, {}, block);
        HeaderFacts(mem, layout, base, end, blockNull, {}, block);
        NeighboursUsed(layout, base, end, block);
      }
      p := BlockPrepareUsed(block, adjust);
      HeldKeptTrans(Used(old(layout)), m0, m1, mem);
      if block != 0 {
        TakenBytes(h, layout, base, end, block);
      } else if adjust > 0 {
        NoneIsGood(mem, layout, base, end, blockNull, adjust);
      }
    }

    /** Free a payload, merging it with free neighbours.  Nothing else that is held changes. */
    method Free(ptr: int)
      requires Valid() && (ptr != 0 ==> ptr - BLOCK_START_OFFSET in Used(layout))
      modifies this`mem, this`flBitmap, this`lists, this`out, this`layout, slBitmap, blocks
      ensures Valid()
      ensures ptr == 0 ==> layout == old(layout) && mem == old(mem)
      ensures ptr != 0 ==> Used(layout) == Used(old(layout)) - {ptr - BLOCK_START_OFFSET}
      ensures ptr != 0 ==>
                FreeBytes(layout, base, end) == FreeBytes(old(layout), base, end) + Used(old(layout))[ptr - 8] + 4
      ensures HeldKept(Used(layout), old(mem), mem)
    {
      hide Tiled, Mapped, Encoded, Listed, AllLinked, Headed, Mirrored, PayloadsKept, Class, SizeOf, NextOf, Kept,
        LinksKept, CoalescedBut, Coalesced,
        PrevFree, HeldKept, Used, MarkFree;
      HeldSame(Used(layout), mem);
      if ptr != 0 {
        var block := ptr - BLOCK_START_OFFSET;
        ghost var h, m0 := layout, mem;
        UsedBlock(h, base, end, block);
        UsedMarkFree(h, block);
        HeaderFacts(mem, h, base, end, blockNull, {}, block);
        CoalescedIsBut(h, base, block);
        MarkFreeEncoded(mem, h, base, end, blockNull, {}, block);
        assert {} - {Next(h, block)} == {};
        BlockMarkAsFree(block);
        ghost var m1 := mem;
        PayloadsAreHeldBut(h, m0, m1, block);
        WithFreeTiled(h, base, end, block, true);
        WithFreeIndexed(m0, mem, h, lists, out, blockNull, block, true);
        WithFreeCoalescedBut(h, base, end, block, true);
        layout, out := WithFree(h, block, true), out + {block};
        ghost var used, h1 := Used(layout), layout;
        block := BlockMergePrev(block);
        ghost var m2, h2 := mem, layout;
        HeldFrom(used, h1, m1, m2);
        NextPrev(h2, base, end, block);
        NextNotSelf(h2, base, end, block);
        BlockMergeNext(block);
        ghost var m3 := mem;
        HeldFrom(used, h2, m2, m3);
        if layout != h2 {
          NextPrev(h2, base, end, Next(h2, block));
          UsedAbsorbFree(h2, block);
        }
        CoalescedAround(layout, base, end, block);
        BlockInsert(block);
        HeldFrom(used, layout, m3, mem);
        HeldKeptTrans(used, m0, m1, m2);
        HeldKeptTrans(used, m0, m2, m3);
        HeldKeptTrans(used, m0, m3, mem);
        GivenBytes(h, layout, base, end, ptr - BLOCK_START_OFFSET);
      }
    }

    /** Allocate at least `size` bytes at a multiple of `align`. */
    method Memalign(align: nat, size: nat) returns (p: int)
      requires Valid() && IsAlignment(align) && AlignedRequest(size, align) <= MAX_REQUEST
      modifies this`mem, this`flBitmap, this`lists, this`out, this`layout, slBitmap, blocks
      ensures Valid() && HeldKept(Used(old(layout)), old(mem), mem)
      ensures p == 0 <==> NoneFits(old(layout), AlignedRequest(size, align))
      ensures p == 0 ==> layout == old(layout) && mem == old(mem)
      ensures p != 0 ==> Allocated(Used(old(layout)), Used(layout), p, size) && p % align == 0
      ensures p != 0 ==>
                && Used(layout)[p - 8] < Request(size) + 16
                && FreeBytes(layout, base, end) == FreeBytes(old(layout), base, end) - Used(layout)[p - 8] - 4
      ensures p == 0 && AlignedRequest(size, align) > 0 ==>
                forall b :: b in layout && layout[b].free ==>
                  32 * layout[b].size < 33 * (Request(size) + 2 * align + 16)
    {
      hide Tiled, Mapped, Encoded, Listed, AllLinked, Headed, Mirrored, Class, CoalescedBut, Coalesced, PrevFree,
        HeldKept, Used, NoneFits, AlignUp,
        IsAlignment;
      RequestCovers(size);
      AlignmentBound(align);
      AlignedRequestCovers(size, align);
      var adjust := AdjustRequestSize(size, ALIGN_SIZE);
      var gapMinimum := BLOCK_HEADER_SIZE;
      var sizeWithGap := AdjustRequestSize(adjust + align + gapMinimum, align);
      // every block is aligned to four already
      var alignedSize := if adjust > 0 && align > ALIGN_SIZE then sizeWithGap else adjust;
      ghost var h, used, m0 := layout, Used(layout), mem;
      var block := BlockLocateFree(alignedSize);
      ghost var m1 := mem;
      HeldSame(used, m1);
      if block != 0 {
        FreeBlockFacts(mem, layout, base, end, blockNull, {}, block);
        HeaderFacts(mem, layout, base, end, blockNull, {}, block);
        NeighboursUsed(layout, base, end, block);
        var ptr := block + BLOCK_START_OFFSET;
        var aligned, gap := AlignmentGap(ptr, align, adjust, layout[block].size);
        if gap > 0 {
          block := BlockTrimFreeLeading(block, gap);
        }
      }
      ghost var m2 := mem;
      p := BlockPrepareUsed(block, adjust);
      HeldKeptTrans(used, m0, m1, m2);
      HeldKeptTrans(used, m0, m2, mem);
      if block != 0 {
        TakenBytes(h, layout, base, end, block);
      } else if alignedSize > 0 {
        NoneIsGood(mem, layout, base, end, blockNull, alignedSize);
      }
    }

    /** The owner of a payload writes one of its words. */
    method Store(ptr: int, offset: nat, v: Word)
      requires Valid() && ptr - BLOCK_START_OFFSET in Used(layout) && offset < Used(layout)[ptr - BLOCK_START_OFFSET]
      requires offset % 4 == 0
      modifies this`mem
      ensures Valid() && mem == old(mem)[ptr + offset := v]
      ensures HeldKept(Used(layout) - {ptr - BLOCK_START_OFFSET}, old(mem), mem)
    {
      hide Tiled, Mapped, Encoded, Listed, AllLinked, Headed, Mirrored, Coalesced, HeldKept, Used;
      PayloadWrite(mem, layout, base, end, blockNull, lists, out, ptr - BLOCK_START_OFFSET, ptr + offset, v);
      mem := mem[ptr + offset := v];
    }

    /** Resize a payload.  The result holds the first min(old size, request) bytes of the old payload, wherever it
        ends up.  The answer is 0 when the payload is freed, and when it would have to move and no free block fits;
        then nothing has changed. */
    method Realloc(ptr: int, size: nat) returns (p: int)
      requires Valid() && (ptr != 0 ==> ptr - BLOCK_START_OFFSET in Used(layout))
      requires ptr != 0 ==> size < BLOCK_SIZE_MAX
      requires ptr == 0 || MustMove(layout, ptr - BLOCK_START_OFFSET, Request(size)) ==> Request(size) <= MAX_REQUEST
      modifies this`mem, this`flBitmap, this`lists, this`out, this`layout, slBitmap, blocks
      ensures Valid()
      ensures ptr == 0 ==> (p == 0 <==> NoneFits(old(layout), Request(size)))
                           && (p != 0 ==>
                                 Allocated(Used(old(layout)), Used(layout), p, size)
                                 && HeldKept(Used(old(layout)), old(mem), mem))
      ensures ptr != 0 && size == 0 ==> p == 0 && Used(layout) == Used(old(layout)) - {ptr - BLOCK_START_OFFSET}
      ensures ptr != 0 && size > 0 ==>
                (p == 0 <==>
                 MustMove(old(layout), ptr - BLOCK_START_OFFSET, Request(size)) && NoneFits(old(layout), Request(size)))
      ensures ptr != 0 && size > 0 && p != 0 ==>
                && Allocated(Used(old(layout)) - {ptr - BLOCK_START_OFFSET}, Used(layout), p, size)
                && Copied(old(mem), ptr, mem, p, Min(Used(old(layout))[ptr - BLOCK_START_OFFSET], size))
                && FreeBytes(layout, base, end)
                   == FreeBytes(old(layout), base, end) + Used(old(layout))[ptr - 8] - Used(layout)[p - 8]
      ensures p != 0 ==> p - 8 in Used(layout) && Used(layout)[p - 8] < Request(size) + 16
      ensures ptr != 0 ==> HeldKept(Used(old(layout)) - {ptr - BLOCK_START_OFFSET}, old(mem), mem)
      ensures p == 0 && (ptr == 0 || size > 0) ==> layout == old(layout) && mem == old(mem)
    {
      hide Tiled, Mapped, Encoded, Listed, AllLinked, Headed, Mirrored, PayloadsKept, Class, SizeOf, NextOf, Kept,
        LinksKept, CoalescedBut, Coalesced,
        PrevFree, HeldKept, Used, MarkUsed, NoneFits, AlignUp, Copied, Readable, Allocated;
      p := 0;
      RequestCovers(size);
      if ptr != 0 && size == 0 {
        Free(ptr);
        HeldFreed(Used(old(layout)), Used(layout), old(mem), mem, ptr - BLOCK_START_OFFSET);
      } else if ptr == 0 {
        p := Malloc(size);
        if p != 0 { IsHeld(Used(old(layout)), Used(layout), p, size); }
      } else {
        var block := ptr - BLOCK_START_OFFSET;
        ghost var h, m0, used := layout, mem, Used(layout);
        UsedBlock(h, base, end, block);
        HeaderFacts(mem, h, base, end, blockNull, {}, block);
        var next := BlockNext(block);
        var cursize := BlockSize(block);
        var nextSize := BlockSize(next);
        var combined := cursize + nextSize + BLOCK_HEADER_OVERHEAD;
        var adjust := AdjustRequestSize(size, ALIGN_SIZE);
        var nextFree := BlockIsFree(next);
        // no room here: move
        if adjust > cursize && (!nextFree || adjust > combined) {
          p := Malloc(size);
          if p != 0 {
            GrowthIsWhole(size, cursize);
            var minsize := if cursize < size then cursize else size;
            ghost var m1 := mem;
            MovePayload(h, base, end, used, Used(layout), m0, m1, block, p, size, minsize);
            PayloadMapped(m1, layout, base, end, blockNull, block, minsize);
            CopyWordsCopies(m1, p, ptr, minsize);
            CopyWordsHarmless(m1, layout, base, end, blockNull, lists, out, p - BLOCK_START_OFFSET, ptr, minsize);
            mem := CopyWords(mem, p, ptr, minsize);
            ghost var m2, used1 := mem, Used(layout);
            Free(ptr);
            MovedPayload(used, used1, Used(layout), m0, m1, m2, mem, block, p, size, minsize);
            ReplacedFrom(h, layout, base, end, block, p, size);
          } else {
            HeldNothing(used - {block}, m0);
          }
        } else {
          ghost var m1 := mem;
          HeldNothing(used, m0);
          if adjust > cursize {
            GrowInPlace(block);
            m1 := mem;
          } else {
            assert used[block := used[block]] == used;
          }
          ghost var used1 := Used(layout);
          UsedBlock(layout, base, end, block);
          BlockTrimUsed(block, adjust);
          ResizedInPlace(used, used1, Used(layout), m0, m1, mem, block, adjust, size);
          p := ptr;
          ReplacedFrom(h, layout, base, end, block, p, size);
        }
      }
    }

    /** Absorb the free block after a used one. */
    method GrowInPlace(block: int)
      requires Valid() && block in Used(layout) && Next(layout, block) in layout && layout[Next(layout, block)].free
      modifies this`mem, this`flBitmap, this`lists, this`out, this`layout, slBitmap, blocks
      ensures Valid() && block in Used(layout)
      ensures Used(layout) == Used(old(layout))[block := old(layout[block].size + layout[Next(layout, block)].size + 4)]
      ensures HeldKept(Used(old(layout)), old(mem), mem)
    {
      hide Tiled, Mapped, Encoded, Listed, AllLinked, Headed, Mirrored, PayloadsKept, Class, SizeOf, NextOf, Kept,
        LinksKept, CoalescedBut, Coalesced,
        PrevFree, HeldKept, Used, MarkUsed;
      ghost var h, m0, used := layout, mem, Used(layout);
      UsedBlock(h, base, end, block);
      CoalescedIsBut(h, base, block);
      MergeNextCoalesced(h, base, end, block);
      UsedAbsorbUsed(h, block);
      BlockMergeNext(block);
      ghost var h1, m1 := layout, mem;
      HeldFrom(used, h, m0, m1);
      HeaderFacts(mem, h1, base, end, blockNull, {Next(h1, block)}, block);
      MarkUsedEncoded(mem, h1, base, end, blockNull, {Next(h1, block)}, block);
      BlockMarkAsUsed(block);
      assert {Next(h1, block)} - {Next(h1, block)} == {};
      WithFreeTiled(h1, base, end, block, false);
      WithFreeIndexed(m1, mem, h1, lists, out, blockNull, block, false);
      MarkUsedCoalesced(h1, base, end, block);
      assert WithFree(h1, block, false) == h1;
      GrownPayloads(h, h1, m1, mem, block);
      HeldKeptTrans(used, m0, m1, mem);
    }
  }

  /** What is left of a used block of that size when it is trimmed. */
  function Trimmed(cur: nat, size: nat): nat {
    if cur >= BLOCK_HEADER_SIZE + size then size else cur
  }

  /** A payload that tlsf_realloc resizes where it is holds the request exactly if that is below the largest block
      size; a larger request counts as one of zero bytes, and the block is cut down to nothing. */
  lemma ResizedHoldsIff(cur: nat, combined: nat, nextFree: bool, size: nat)
    requires size > 0 && cur < BLOCK_SIZE_MAX && !(Request(size) > cur && (!nextFree || Request(size) > combined))
    ensures Trimmed(if Request(size) > cur then combined else cur, Request(size)) >= size <==> size < BLOCK_SIZE_MAX
    ensures size >= BLOCK_SIZE_MAX ==>
              Request(size) == 0 && Trimmed(cur, Request(size)) == if cur >= BLOCK_HEADER_SIZE then 0 else cur
  {
    RequestCovers(size);
  }

  /** sizeof(control_t): block_null, the bitmaps and the heads. */
  const CONTROL_SIZE: nat := 16 + 4 + 4 * FL_INDEX_COUNT + 4 * CLASSES
  const POOL_OVERHEAD: nat := 2 * BLOCK_HEADER_OVERHEAD

  /** The payload of a pool's first block. */
  function PoolBytes(bytes: nat): int {
    AlignDown((bytes - POOL_OVERHEAD) % WORD, ALIGN_SIZE)
  }

  /** Two header words and the alignment are all that a pool loses. */
  lemma PoolBytesAre(bytes: nat)
    requires bytes < WORD
    ensures 12 <= PoolBytes(bytes) <= 0x4000_0000 <==> 20 <= bytes < 0x4000_000c
    ensures bytes >= 8 ==> PoolBytes(bytes) <= bytes - 8 < PoolBytes(bytes) + 4
  {
    FourIsAlignment();
    AlignDownIsGreatestMultiple((bytes - POOL_OVERHEAD) % WORD, ALIGN_SIZE);
    hide AlignDown;
    if bytes < 8 {
      assert (bytes - POOL_OVERHEAD) % WORD == bytes - 8 + WORD;
    } else {
      assert (bytes - POOL_OVERHEAD) % WORD == bytes - 8;
    }
  }

  lemma NothingListed(fl: nat, sl: seq<nat>, heads: seq<int>, lists: Table, m: Memory, nil: int)
    requires fl == 0 && |sl| == FL_INDEX_COUNT && (forall f :: 0 <= f < |sl| ==> sl[f] == 0)
    requires |heads| == CLASSES && (forall c :: 0 <= c < |heads| ==> heads[c] == nil)
    requires |lists| == CLASSES && forall c :: 0 <= c < |lists| ==> lists[c] == []
    ensures Mirrored(fl, sl, lists) && Headed(heads, lists, nil) && AllLinked(m, lists, nil) && Listed(map[], lists, {})
  {
    hide Bit;
    forall f | 0 <= f < FL_INDEX_COUNT ensures !Bit(fl, f) { ZeroBits(f); }
    forall f, s | 0 <= f < FL_INDEX_COUNT && 0 <= s < SL_INDEX_COUNT
      ensures Bit(sl[f], s) <==> lists[f * 32 + s] != []
    {
      ZeroBits(s);
    }
  }

  lemma PoolRoom(m: Memory, nil: int, pool: nat, bytes: nat, poolBytes: int)
    requires 0 < nil && nil + CONTROL_SIZE <= pool && pool + bytes + 16 <= WORD && bytes < WORD
    requires forall a {:trigger a in m} :: pool <= a < pool + bytes && a % 4 == 0 ==> a in m
    requires poolBytes == PoolBytes(bytes) && BLOCK_SIZE_MIN <= poolBytes < BLOCK_SIZE_MAX && pool % 4 == 0
    ensures poolBytes % 4 == 0 && poolBytes + 8 <= bytes
    ensures pool in m && pool + poolBytes + 4 in m && pool + poolBytes in m
    ensures forall a {:trigger a in m} :: pool <= a <= pool + poolBytes + 4 && a % 4 == 0 ==> a in m
  {
    FourIsAlignment();
    AlignDownIsGreatestMultiple((bytes - POOL_OVERHEAD) % WORD, ALIGN_SIZE);
  }

  lemma FirstHeader(m: Memory, m': Memory, b: int, size: int)
    requires b + 4 in m && 0 <= size && size % 4 == 0 && size + 3 < WORD
    requires m' == SetPrevFreeBit(SetFreeBit(SetSize(m, b, size), b, true), b, false)
    ensures b + 4 in m' && SizeOf(m'[b + 4]) == size && FreeBit(m'[b + 4]) && !PrevFreeBit(m'[b + 4])
    ensures NextOf(m', b) == b + size + 4 && m'.Keys == m.Keys && forall a :: a in m && a != b + 4 ==> m'[a] == m[a]
  {
    var w := HeaderWord(m, b);
    EncDecode(size, FreeBit(w), PrevFreeBit(w));
    EncDecode(size, true, PrevFreeBit(w));
    EncDecode(size, true, false);
  }

  lemma InSetters(m: Memory, b: int, size: int, free: bool, prevFree: bool)
    requires b + 4 in m
    ensures b + 4 in SetSize(m, b, size) && b + 4 in SetFreeBit(SetSize(m, b, size), b, free)
  {}

  lemma SentinelHeader(m: Memory, m': Memory, b: int)
    requires b + 4 in m && m' == SetPrevFreeBit(SetFreeBit(SetSize(m, b, 0), b, false), b, true)
    ensures b + 4 in m' && SizeOf(m'[b + 4]) == 0 && !FreeBit(m'[b + 4]) && PrevFreeBit(m'[b + 4])
    ensures m'.Keys == m.Keys && forall a :: a in m && a != b + 4 ==> m'[a] == m[a]
  {
    var w := HeaderWord(m, b);
    EncDecode(0, FreeBit(w), PrevFreeBit(w));
    EncDecode(0, false, PrevFreeBit(w));
    EncDecode(0, false, true);
  }

  lemma InitialPool(m0: Memory, m: Memory, h: Layout, nil: int, b: int, next: int, size: int)
    requires h == map[b := Block(size, true, 0), next := Block(0, false, b)] && next == b + size + 4
    requires 0 < b && b % 4 == 0 && size % 4 == 0 && BLOCK_SIZE_MIN <= size < BLOCK_SIZE_MAX && next + 16 <= WORD
    requires 0 < nil && nil + 16 <= b && nil % 4 == 0 && nil + 8 in m0 && nil + 12 in m0
    requires forall a {:trigger a in m0} :: b + 4 <= a <= next + 4 && a % 4 == 0 ==> a in m0
    requires m.Keys == m0.Keys
    requires b + 4 in m && SizeOf(m[b + 4]) == size && FreeBit(m[b + 4]) && !PrevFreeBit(m[b + 4])
    requires next + 4 in m && SizeOf(m[next + 4]) == 0 && !FreeBit(m[next + 4]) && PrevFreeBit(m[next + 4])
    requires next in m && m[next] == b
    ensures Tiled(h, b, next) && Mapped(m, b, next, nil) && Encoded(m, h, b, {}) && Coalesced(h, b) && Used(h) == map[]
  {
    hide SizeOf, FreeBit, PrevFreeBit;
    assert Encoded(m, h, b, {}) by {
      assert HeaderEncoded(m, h, b, b, false);
      assert PrevFree(h, b, next);
      assert HeaderEncoded(m, h, b, next, false);
      forall a | a in h ensures HeaderEncoded(m, h, b, a, a in {}) {
        if a == b {} else { assert a == next; }
      }
    }
  }

  lemma InitialIndex(m0: Memory, m: Memory, h: Layout, lists: Table, nil: int, b: int, next: int)
    requires Listed(map[], lists, {}) && (forall c :: 0 <= c < |lists| ==> lists[c] == [])
    requires h.Keys == {b, next} && !h[next].free
    ensures Listed(h, lists, {b}) && AllLinked(m, lists, nil)
  {}

  /** The class a search for `size` bytes starts from; past the table for a request that is not searched. */
  function SearchStart(size: nat): (c: nat)
    ensures c <= CLASSES
  {
    if 0 < size <= MAX_REQUEST then
      SearchInTableIff(size);
      ClassInterval(size + SearchRound(size));
      MappingSearch(size).Flat()
    else CLASSES
  }

  /** No free block is in a class that a search for `size` bytes may take from. */
  ghost predicate NoneFits(h: Layout, size: nat) {
    forall b {:trigger h[b]} :: b in h && h[b].free ==> Class(h[b].size) < SearchStart(size)
  }

  /** p is the payload of a new block of at least `size` bytes, and every block held before is still held. */
  ghost predicate Allocated(before: map<int, int>, after: map<int, int>, p: int, size: nat) {
    var b := p - BLOCK_START_OFFSET;
    b !in before && b in after && after == before[b := after[b]] && after[b] >= size
  }

  /** Listed blocks have positive addresses. */
  lemma ListedPositive(m: Memory, h: Layout, base: int, end: int, nil: int, lists: Table, out: set<int>)
    requires Tiled(h, base, end) && Mapped(m, base, end, nil) && Listed(h, lists, out)
    ensures 0 < nil
    ensures forall c, i {:trigger lists[c][i]} :: 0 <= c < CLASSES && 0 <= i < |lists[c]| ==> lists[c][i] > 0
  {
    hide Class;
    forall c, i | 0 <= c < CLASSES && 0 <= i < |lists[c]| ensures lists[c][i] > 0 {
      assert OnList(h, lists[c][i], c, out);
    }
  }

  lemma EmptyMeansNoneFits(h: Layout, lists: Table, out: set<int>, size: nat)
    requires Listed(h, lists, out) && out == {} && 0 < size <= MAX_REQUEST
    requires EmptyFrom(lists, SearchStart(size), CLASSES)
    ensures NoneFits(h, size)
  {
    hide Class, SearchStart;
    forall b | b in h && h[b].free ensures Class(h[b].size) < SearchStart(size) {
      assert b in lists[Class(h[b].size)];
    }
  }

  lemma IsHeld(before: map<int, int>, after: map<int, int>, p: int, size: nat)
    requires Allocated(before, after, p, size)
    ensures p - 8 in after
  {}

  lemma ReplacedFrom(h: Layout, h': Layout, base: int, end: int, b: int, p: int, size: nat)
    requires Tiled(h, base, end) && Tiled(h', base, end) && b in Used(h) && Allocated(Used(h) - {b}, Used(h'), p, size)
    ensures p - 8 in Used(h')
    ensures FreeBytes(h', base, end) == FreeBytes(h, base, end) + Used(h)[b] - Used(h')[p - 8]
  {
    hide Tiled, Used, FreeBytes;
    ReplacedBytes(h, h', base, end, b, p - 8);
  }

  /** Where nothing fits, every free block is less than a thirty-second larger than the request. */
  lemma NoneIsGood(m: Memory, h: Layout, base: int, end: int, nil: int, size: nat)
    requires Tiled(h, base, end) && Mapped(m, base, end, nil) && Encoded(m, h, base, {})
    requires NoneFits(h, size) && 0 < size <= MAX_REQUEST
    ensures forall b :: b in h && h[b].free ==> 32 * h[b].size < 33 * size
  {
    hide Tiled, Mapped, Encoded, MappingInsert, SearchRound;
    forall b | b in h && h[b].free ensures 32 * h[b].size < 33 * size {
      FreeBlockFacts(m, h, base, end, nil, {}, b);
      if 33 * size <= 32 * h[b].size { GoodFit(size, h[b].size); }
    }
  }

  /** The block found by a search is large enough, and its existence refutes NoneFits. */
  lemma FoundFits(m: Memory, h: Layout, base: int, end: int, nil: int, lists: Table, out: set<int>, c: nat, start: nat,
                  size: nat)
    requires Tiled(h, base, end) && Mapped(m, base, end, nil) && Encoded(m, h, base, {}) && Listed(h, lists, out)
    requires out == {}
    requires c < CLASSES && lists[c] != [] && 0 < size <= MAX_REQUEST && size % 4 == 0
    requires start == SearchStart(size) && start <= c
    ensures var b := lists[c][0];
            b in h && h[b].free && b !in out && Class(h[b].size) == c && size <= h[b].size && b > 0
    ensures !NoneFits(h, size)
  {
    hide Class, MappingInsert, SearchRound, Tiled, Mapped, Encoded, Log2;
    var b := lists[c][0];
    assert OnList(h, b, c, out);
    FreeBlockFacts(m, h, base, end, nil, {}, b);
    ClassOf(h[b].size);
    SearchInTableIff(size);
    SearchedClassFits(size, h[b].size);
  }

  lemma ClassOf(size: nat)
    requires size < BLOCK_SIZE_MAX
    ensures Class(size) == MappingInsert(size).Flat()
  {}

  lemma NothingFits(h: Layout)
    ensures NoneFits(h, 0)
  {
    hide Class;
  }

  lemma NextNotSelf(h: Layout, base: int, end: int, b: int)
    requires Tiled(h, base, end) && b in h && b != end
    ensures Next(h, b) != b
  {}

  /** What memalign asks of the heap. */
  function AlignedRequest(size: nat, align: nat): nat
    requires IsAlignment(align)
  {
    AlignmentBound(align);
    if Request(size) > 0 && align > ALIGN_SIZE then AdjustRequestSize(Request(size) + align + BLOCK_HEADER_SIZE, align)
      else Request(size)
  }

  lemma AlignmentBound(align: nat)
    requires IsAlignment(align)
    ensures 0 < align <= 0x8000_0000 && align < WORD
  {
    var k: nat :| k < 32 && align == Pow2(k);
    Pow2Values();
    if k < 31 { Pow2Mono(k, 31); }
  }

  /** How far past its payload's start memalign moves into a block: to the first aligned address if that leaves
      no gap or a gap that can be a block, else to a later one.  Either way the block keeps room for the request
      behind the gap, and room to split the gap off. */
  method AlignmentGap(ptr: nat, align: nat, ghost adjust: nat, ghost size: nat) returns (aligned: int, gap: int)
    requires IsAlignment(align) && Multiple(ptr, 4) && adjust >= BLOCK_SIZE_MIN
    requires ptr + size <= WORD && size >= adjust && (align > ALIGN_SIZE ==> size >= adjust + align + BLOCK_HEADER_SIZE)
    ensures aligned >= 0 && gap == aligned - ptr && Multiple(aligned, align) && (gap == 0 || GapFits(gap, adjust, size))
  {
    hide AlignUp, IsAlignment, GapFits, Multiple;
    FirstAligned(ptr, align);
    aligned := AlignUp(ptr, align);
    FourApart(aligned, ptr);
    gap := aligned - ptr;
    // a gap that cannot be a block is widened
    if gap > 0 && gap < BLOCK_HEADER_SIZE {
      SmallGapMoves(ptr, aligned, align, adjust, size);
      var gapRemain := BLOCK_HEADER_SIZE - gap;
      var offset := if gapRemain > align then gapRemain else align;
      var nextAligned := aligned + offset;
      aligned := AlignUp(nextAligned, align);
      gap := aligned - ptr;
    } else if gap > 0 {
      LargeGapFits(gap, align, adjust, size);
    }
  }

  lemma FirstAligned(ptr: nat, align: nat)
    requires IsAlignment(align) && Multiple(ptr, 4) && ptr < WORD && (align > ALIGN_SIZE ==> ptr + align <= WORD)
    ensures 0 < align < WORD
    ensures var a := AlignUp(ptr, align);
            Multiple(a, align) && Multiple(a, 4) && ptr <= a < ptr + align && (align <= ALIGN_SIZE ==> a == ptr)
  {
    hide AlignUp, IsAlignment;
    AlignmentBound(align);
    if align <= ALIGN_SIZE {
      SmallAlignment(align);
      AlignUpExact(ptr, align);
    } else {
      hide Multiple;
      LargeAlignment(align);
      AlignUpIsLeastMultiple(ptr, align);
      MultipleOfMultiple(AlignUp(ptr, align), align, 4);
    }
  }

  lemma FourApart(a: nat, b: nat)
    requires Multiple(a, 4) && Multiple(b, 4)
    ensures (a - b) % 4 == 0
  {}

  lemma LargeGapFits(gap: int, align: nat, adjust: nat, size: nat)
    requires BLOCK_HEADER_SIZE <= gap < align && gap % 4 == 0 && size >= adjust + align + BLOCK_HEADER_SIZE
    ensures GapFits(gap, adjust, size)
  {}

  lemma SmallGapMoves(ptr: nat, aligned: nat, align: nat, adjust: nat, size: nat)
    requires IsAlignment(align) && align > ALIGN_SIZE && 0 < align < WORD && adjust >= BLOCK_SIZE_MIN
    requires Multiple(ptr, 4)
    requires Multiple(aligned, align) && Multiple(aligned, 4) && ptr < aligned < ptr + BLOCK_HEADER_SIZE
    requires aligned < ptr + align
    requires ptr + size <= WORD && size >= adjust + align + BLOCK_HEADER_SIZE
    ensures var gap := aligned - ptr;
            var offset := if BLOCK_HEADER_SIZE - gap > align then BLOCK_HEADER_SIZE - gap else align;
            var moved := AlignUp(aligned + offset, align);
            Multiple(moved, align) && GapFits(moved - ptr, adjust, size)
  {
    hide AlignUp, IsAlignment, Multiple;
    var gap := aligned - ptr;
    LargeAlignment(align);
    FourApart(aligned, ptr);
    if align >= BLOCK_HEADER_SIZE {
      NextMultiple(aligned, align);
      AlignUpExact(aligned + align, align);
      MultipleOfMultiple(aligned + align, align, 4);
      FourApart(aligned + align, ptr);
    } else {
      var moved := AlignUp(aligned + 12, 8);
      FourOnly(gap);
      AlignUpIsLeastMultiple(aligned + 12, 8);
      MultipleOfMultiple(moved, 8, 4);
      FourApart(moved, ptr);
      FourOnly2(moved - ptr);
    }
  }

  lemma FourOnly(gap: int)
    requires gap % 4 == 0 && 0 < gap < 8
    ensures gap == 4
  {}

  lemma FourOnly2(gap: int)
    requires gap % 4 == 0 && 16 <= gap < 24
    ensures gap <= 20
  {}

  predicate GapFits(gap: int, adjust: nat, size: nat) {
    gap >= BLOCK_HEADER_SIZE && gap % 4 == 0 && size >= BLOCK_HEADER_SIZE + gap && size - gap >= adjust
  }

  lemma NextMultiple(x: nat, d: nat)
    requires Multiple(x, d)
    ensures Multiple(x + d, d)
  {
    DivModIdentity(x, d);
    assert d * (x / d + 1) == d * (x / d) + d;
    DivModUnique(x + d, d, x / d + 1, 0);
  }

  lemma AlignedRequestCovers(size: nat, align: nat)
    requires IsAlignment(align)
    ensures var a := AlignedRequest(size, align);
            && a % 4 == 0 && (0 < a <= MAX_REQUEST ==> Request(size) > 0)
            && (align > ALIGN_SIZE && 0 < a <= MAX_REQUEST ==> a >= Request(size) + align + BLOCK_HEADER_SIZE)
            && (align <= 4 ==> a == Request(size)) && (align > 4 ==> a < Request(size) + 2 * align + 16)
  {
    hide AlignUp, IsAlignment;
    RequestCovers(size);
    AlignmentBound(align);
    var r := Request(size) + align + BLOCK_HEADER_SIZE;
    if Request(size) > 0 && align > ALIGN_SIZE && r < BLOCK_SIZE_MAX {
      AlignUpIsLeastMultiple(r, align);
      LargeAlignment(align);
      MultipleOfMultiple(AlignUp(r, align), align, 4);
    }
  }

  // ----- what realloc keeps

  function Min(a: int, b: int): int { if a < b then a else b }

  /** A used block cannot satisfy the request in place: it is too small, and its successor is used or too small. */
  ghost predicate MustMove(h: Layout, b: int, adjust: int) {
    && b in h && adjust > h[b].size
    && (Next(h, b) in h && h[Next(h, b)].free ==> adjust > h[b].size + h[Next(h, b)].size + 4)
  }

  /** A request that outgrows a block asks for all of it to be copied. */
  lemma GrowthIsWhole(size: nat, cursize: int)
    requires cursize % 4 == 0 && cursize >= BLOCK_SIZE_MIN && Request(size) > cursize
    ensures cursize < size
  {
    hide AlignUp;
    RequestCovers(size);
    BelowNextFour(size, Request(size), cursize);
  }

  lemma BelowNextFour(size: int, r: int, c: int)
    requires r % 4 == 0 && c % 4 == 0 && c < r < size + 4
    ensures c < size
  {}

  lemma HeldFreed(used: map<int, int>, used': map<int, int>, m: Memory, m': Memory, b: int)
    requires HeldKept(used', m, m') && used' == used - {b}
    ensures HeldKept(used - {b}, m, m')
  {}

  /** The facts realloc needs between its malloc and its memcpy. */
  lemma MovePayload(h: Layout, base: int, end: int, used: map<int, int>, used1: map<int, int>, m0: Memory, m1: Memory,
                    b: int, p: int, size: nat, n: int)
    requires used == Used(h) && b in used && Allocated(used, used1, p, size) && n == used[b] && n < size
    requires HeldKept(used, m0, m1)
    ensures p - 8 in used1 && p - 8 != b && n <= used1[p - 8] && b in used1 && used1[b] == n && Kept(m0, m1, b + 8, n)
  {
    hide Kept;
    HeldOf(used, m0, m1, b);
  }

  lemma MovedPayload(used: map<int, int>, used1: map<int, int>, used2: map<int, int>, m0: Memory, m1: Memory,
                     m2: Memory, m3: Memory,
                     b: int, p: int, size: nat, n: int)
    requires b in used && used[b] == n && n < size && Allocated(used, used1, p, size) && used2 == used1 - {b}
    requires p - 8 != b
    requires HeldKept(used, m0, m1) && HeldKept(used1 - {p - 8}, m1, m2) && HeldKept(used2, m2, m3)
    requires Copied(m1, b + 8, m2, p, n)
    ensures Allocated(used - {b}, used2, p, size) && Copied(m0, b + 8, m3, p, Min(n, size))
    ensures HeldKept(used - {b}, m0, m3)
  {
    hide HeldKept;
    HeldKeptSub(used - {b}, used, m0, m1);
    HeldKeptSub(used - {b}, used1 - {p - 8}, m1, m2);
    HeldKeptSub(used - {b}, used2, m2, m3);
    HeldKeptTrans(used - {b}, m0, m1, m2);
    HeldKeptTrans(used - {b}, m0, m2, m3);
    HeldOf(used, m0, m1, b);
    HeldOf(used2, m2, m3, p - 8);
    forall a | p <= a < p + n && (a - p) % 4 == 0 ensures Fetch(m3, a) == Fetch(m0, a - p + (b + 8)) {
      assert Fetch(m3, a) == Fetch(m2, a) == Fetch(m1, a - p + (b + 8));
      assert Fetch(m1, a - p + (b + 8)) == Fetch(m0, a - p + (b + 8));
    }
  }

  lemma ResizedInPlace(used: map<int, int>, used1: map<int, int>, used2: map<int, int>, m0: Memory, m1: Memory,
                       m2: Memory, b: int, adjust: int, size: nat)
    requires b in used && b in used1 && used1 == used[b := used1[b]] && used1[b] >= used[b]
    requires size <= adjust <= used1[b]
    requires b in used2 && used2 == used1[b := used2[b]] && used2[b] >= adjust
    requires HeldKept(used, m0, m1) && HeldKept(used1[b := adjust], m1, m2)
    ensures Allocated(used - {b}, used2, b + 8, size) && Copied(m0, b + 8, m2, b + 8, Min(used[b], size))
    ensures HeldKept(used - {b}, m0, m2)
  {
    hide HeldKept;
    HeldKeptSub(used - {b}, used, m0, m1);
    HeldKeptSub(used - {b}, used1[b := adjust], m1, m2);
    HeldKeptTrans(used - {b}, m0, m1, m2);
    HeldOf(used, m0, m1, b);
    HeldOf(used1[b := adjust], m1, m2, b);
    var n := Min(used[b], size);
    forall a | b + 8 <= a < b + 8 + n ensures Fetch(m2, a) == Fetch(m0, a) {
      assert Fetch(m2, a) == Fetch(m1, a);
      assert Fetch(m1, a) == Fetch(m0, a);
    }
  }

  /** Marking a grown block used changes no payload held before it grew. */
  lemma GrownPayloads(h: Layout, h1: Layout, m: Memory, m': Memory, b: int)
    requires PayloadsKept(h1, m, m', {}) && b in h && !h[b].free && Next(h, b) in h && h[Next(h, b)].free
    requires Next(h, Next(h, b)) in h
    requires b < Next(h, b) < Next(h, Next(h, b)) && h1 == Absorb(h, b) && h[Next(h, b)].size >= 0
    ensures HeldKept(Used(h), m, m')
  {
    forall u | u in Used(h) ensures Kept(m, m', u + 8, Used(h)[u]) {
      assert u in h1 && !h1[u].free && h1[u].size >= h[u].size;
      assert Kept(m, m', u + 8, h1[u].size);
    }
  }

  lemma HeldSame(used: map<int, int>, m: Memory)
    ensures HeldKept(used, m, m)
  {}

  /** Flag first, back pointer second: together they make the view of the predecessor right. */
  lemma RefreshPrev(m: Memory, m': Memory, h: Layout, base: int, a: int)
    requires a in h && PrevFree(h, base, a) && PrevFreeBit(HeaderWord(m, a)) && HeaderWord(m', a) == HeaderWord(m, a)
    requires Fetch(m', a) == h[a].prev && Encoded(m', h, base, {a})
    ensures Encoded(m', h, base, {})
  {
    HeaderAt(m', h, base, {a}, a);
    Refresh(m', h, base, {a}, a);
    assert {a} - {a} == {};
  }

  lemma NotBase(h: Layout, base: int, b: int)
    requires PrevFree(h, base, b)
    ensures b != base
  {}

  lemma PrevIsFree(h: Layout, base: int, b: int)
    requires PrevFree(h, base, b)
    ensures b in h && h[b].prev in h && h[h[b].prev].free
  {}

  lemma PayloadsSame(h: Layout, m: Memory)
    ensures PayloadsKept(h, m, m, {})
  {}

  /** A frame that spares a free block spares nobody's payload. */
  lemma PayloadsFreed(h: Layout, m: Memory, m': Memory, b: int)
    requires PayloadsKept(h, m, m', {b}) && b in h && h[b].free
    ensures PayloadsKept(h, m, m', {})
  {
    hide Kept;
  }

  /** What a split of block b leaves before, at and behind the new block. */
  ghost predicate SplitAround(h: Layout, h': Layout, base: int, end: int, b: int, size: int) {
    && b in h && b in h' && h'[b].free == h[b].free && Next(h', b) == b + size + 4
    && Next(h, b) in h && Next(h, b) in h' && h'[Next(h, b)].free == h[Next(h, b)].free
    && var r := b + size + 4;
       r in h' && r != end && h'[r].free && h'[r].prev == b && Next(h', r) == Next(h, b)
       && PrevFree(h', base, r) == h[b].free
  }

  /** The two parts of a split, as neighbours. */
  lemma SplitNeighbours(h: Layout, h': Layout, base: int, end: int, b: int, size: int)
    requires Tiled(h, base, end) && b in h && b != end && Next(h, b) in h && b + size + 4 !in h
    requires h' == Split(h, b, size, true) && Tiled(h', base, end) && size >= 0
    requires 0 <= h[b].size && h[b].size >= size + BLOCK_HEADER_SIZE
    ensures SplitAround(h, h', base, end, b, size)
  {
    Ends(h, base, end);
    Ends(h', base, end);
    NotTheBase(h, base, end, b);
    hide Tiled;
  }

  lemma NotTheBase(h: Layout, base: int, end: int, b: int)
    requires Tiled(h, base, end) && b in h
    ensures base <= b
  {}

  /** A frame over the layout after a split is one over the layout before, if the split block was free. */
  lemma SplitPayloads(h: Layout, h': Layout, m: Memory, m': Memory, b: int, size: int)
    requires b in h && h[b].free && Next(h, b) in h && Next(h, b) != b && b + size + 4 !in h
    requires h' == Split(h, b, size, true)
    requires PayloadsKept(h', m, m', {})
    ensures PayloadsKept(h, m, m', {})
  {
    hide PayloadsKept;
    PayloadsKeptSub(h, h', m, m', {}, {});
  }

  /** Two adjacent blocks fit in one size word. */
  lemma Absorbable(m: Memory, h: Layout, base: int, end: int, nil: int, p: int)
    requires Tiled(h, base, end) && Mapped(m, base, end, nil) && Encoded(m, h, base, {})
    requires p in h && p != end && Next(h, p) != end && Next(h, p) in h
    ensures p + 4 in m && Next(h, p) + 4 in m && 0 <= p < WORD && 0 <= m[p + 4] + SizeOf(m[Next(h, p) + 4]) + 4 < WORD
  {
    hide Tiled, Mapped, Encoded;
    HeaderFacts(m, h, base, end, nil, {}, p);
    HeaderFacts(m, h, base, end, nil, {}, Next(h, p));
  }

  lemma FourDivides(a: int, b: int)
    requires a % 4 == 0 && b % 4 == 0
    ensures (a - (b + 4)) % 4 == 0
  {}

  lemma InSetSize(m: Memory, b: int, size: int, a: int)
    requires a in m
    ensures a in SetSize(m, b, size)
  {}

  lemma SplitSizesIs(m: Memory, b: int, size: int, remain: int)
    requires b + 4 in m && remain == SizeOf(m[b + 4]) - (size + 4)
    ensures SplitSizes(m, b, size) == SetSize(SetSize(m, b + size + 4, remain), b, size)
  {}

  /** A free block's size is its header's, and selects a class inside the table. */
  lemma FreeBlockFacts(m: Memory, h: Layout, base: int, end: int, nil: int, stale: set<int>, b: int)
    requires Tiled(h, base, end) && Mapped(m, base, end, nil) && Encoded(m, h, base, stale) && b in h && h[b].free
    ensures b != end && b + 4 in m && SizeOf(m[b + 4]) == h[b].size && BLOCK_SIZE_MIN <= h[b].size < BLOCK_SIZE_MAX
    ensures h[b].size % 4 == 0
    ensures var i := MappingInsert(h[b].size);
            i.fl < FL_INDEX_COUNT && i.sl < SL_INDEX_COUNT && i.fl * 32 + i.sl == Class(h[b].size)
    ensures b + 8 in m && 0 < base <= b < WORD
  {
    hide MappingInsert;
    Ends(h, base, end);
    hide Tiled;
    HeaderFacts(m, h, base, end, nil, stale, b);
    BlockMapped(m, h, base, end, nil, b);
    ClassInterval(h[b].size);
  }

  lemma ReadLinks(m: Memory, b: int)
    requires b + 8 in m && b + 12 in m
    ensures NextLink(m, b) == m[b + 8] && PrevLink(m, b) == m[b + 12]
  {}

  /** One list has lost one block, and no other list has changed. */
  ghost predicate TakenOff(before: seq<seq<int>>, after: seq<seq<int>>, c: nat, block: int) {
    c < |before|
    && exists k: nat {:trigger before[c][k]} ::
         k < |before[c]| && before[c][k] == block && after == before[c := Without(before[c], k)]
  }

  lemma OnlyElement(l: seq<int>, nil: int)
    requires l != [] && At(l, 1, nil) == nil && forall i :: 0 <= i < |l| ==> l[i] != nil
    ensures |l| == 1
  {}

  lemma TableIndex(fl: nat, sl: nat)
    requires fl < FL_INDEX_COUNT && sl < SL_INDEX_COUNT
    ensures 0 <= fl * 32 + sl < CLASSES
  {}

  lemma TargetWord(m: Memory, h: Layout, base: int, end: int, nil: int, x: int)
    requires Tiled(h, base, end) && Mapped(m, base, end, nil) && LinkTarget(h, base, nil, x)
    ensures 0 < x < WORD
  {}

  lemma BitmapShape(fl: nat, sl: seq<nat>, lists: Table)
    requires Mirrored(fl, sl, lists)
    ensures |sl| == FL_INDEX_COUNT
  {}

  lemma BitmapRoom(fl: nat, sl: seq<nat>, lists: Table, f: nat, s: nat)
    requires Mirrored(fl, sl, lists) && f < FL_INDEX_COUNT && s < SL_INDEX_COUNT
    ensures |sl| == FL_INDEX_COUNT && Or(sl[f], Pow2(s)) < WORD
  {
    Pow2Is32();
    SetBit(sl[f], s, 32);
  }

  // ----- what the bitmaps say about the lists

  /** All lists from class c up to class d are empty. */
  ghost predicate EmptyFrom(lists: Table, c: int, d: int) {
    forall e {:trigger lists[e]} :: 0 <= e < |lists| && c <= e < d ==> lists[e] == []
  }

  lemma MirroredShape(fl: nat, sl: seq<nat>, lists: Table)
    requires Mirrored(fl, sl, lists)
    ensures |sl| == FL_INDEX_COUNT && |lists| == CLASSES && fl < WORD && forall f :: 0 <= f < |sl| ==> sl[f] < WORD
  {
    Pow2Is32();
    Pow2Mono(FL_INDEX_COUNT, 32);
  }

  lemma HeadOf(heads: seq<int>, lists: Table, nil: int, c: nat)
    requires Headed(heads, lists, nil) && c < |lists|
    ensures c < |heads| && heads[c] == At(lists[c], 0, nil)
  {}

  lemma HighBitsClearBelow(fl: nat, sl: seq<nat>, lists: Table, f: nat)
    requires Mirrored(fl, sl, lists) && Bit(fl, f)
    ensures f < FL_INDEX_COUNT
  {
    if f >= FL_INDEX_COUNT { HighBitsClear(fl, FL_INDEX_COUNT, f); }
  }

  /** A row whose bits from s up are clear has only empty lists from column s up. */
  lemma RowEmptyFrom(fl: nat, sl: seq<nat>, lists: Table, f: nat, s: nat)
    requires Mirrored(fl, sl, lists) && f < FL_INDEX_COUNT && s < SL_INDEX_COUNT
    requires forall i: nat {:trigger Bit(sl[f], i)} :: s <= i < 32 ==> !Bit(sl[f], i)
    ensures EmptyFrom(lists, f * 32 + s, (f + 1) * 32)
  {
    hide Bit;
    forall e | f * 32 + s <= e < (f + 1) * 32 ensures lists[e] == [] {
      var t := e - f * 32;
      assert Bit(sl[f], t) <==> lists[f * 32 + t] != [];
    }
  }

  lemma ZeroRow(fl: nat, sl: seq<nat>, lists: Table, f: nat)
    requires Mirrored(fl, sl, lists) && f < FL_INDEX_COUNT && !Bit(fl, f)
    ensures EmptyFrom(lists, f * 32, (f + 1) * 32)
  {
    assert sl[f] == 0;
    forall i: nat | i < 32 ensures !Bit(sl[f], i) { ZeroBits(i); }
    RowEmptyFrom(fl, sl, lists, f, 0);
  }

  /** Rows f+1 to g-1 with clear first-level bits extend the empty stretch. */
  lemma {:induction false} RowsEmptyFrom(fl: nat, sl: seq<nat>, lists: Table, f: nat, s: nat, g: nat)
    requires Mirrored(fl, sl, lists) && f < g <= FL_INDEX_COUNT && s < SL_INDEX_COUNT
    requires EmptyFrom(lists, f * 32 + s, (f + 1) * 32)
    requires forall i: nat {:trigger Bit(fl, i)} :: f + 1 <= i < g ==> !Bit(fl, i)
    ensures EmptyFrom(lists, f * 32 + s, g * 32)
  {
    hide Mirrored, Bit;
    if g > f + 1 {
      RowsEmptyFrom(fl, sl, lists, f, s, g - 1);
      ZeroRow(fl, sl, lists, g - 1);
    }
  }

  lemma RowNotEmpty(fl: nat, sl: seq<nat>, lists: Table, f: nat)
    requires Mirrored(fl, sl, lists) && f < FL_INDEX_COUNT && Bit(fl, f)
    ensures 0 < sl[f] < WORD
  {}

  lemma RowStart(fl: nat, sl: seq<nat>, lists: Table, f: nat, s: nat, g: nat, t: nat)
    requires Mirrored(fl, sl, lists) && f < g < FL_INDEX_COUNT && s < SL_INDEX_COUNT && t < SL_INDEX_COUNT
    requires EmptyFrom(lists, f * 32 + s, g * 32)
    requires Bit(sl[g], t) && forall i: nat {:trigger Bit(sl[g], i)} :: i < t ==> !Bit(sl[g], i)
    ensures lists[g * 32 + t] != [] && EmptyFrom(lists, f * 32 + s, g * 32 + t)
  {
    hide Bit;
    forall e | f * 32 + s <= e < g * 32 + t ensures lists[e] == [] {
      if e >= g * 32 {
        var u := e - g * 32;
        assert Bit(sl[g], u) <==> lists[g * 32 + u] != [];
      }
    }
  }

  lemma RowPart(fl: nat, sl: seq<nat>, lists: Table, f: nat, s: nat, t: nat)
    requires Mirrored(fl, sl, lists) && f < FL_INDEX_COUNT && s < SL_INDEX_COUNT && s <= t < SL_INDEX_COUNT
    requires Bit(sl[f], t) && forall i: nat {:trigger Bit(sl[f], i)} :: s <= i < t ==> !Bit(sl[f], i)
    ensures lists[f * 32 + t] != [] && EmptyFrom(lists, f * 32 + s, f * 32 + t)
  {
    hide Bit;
    forall e | f * 32 + s <= e < f * 32 + t ensures lists[e] == [] {
      var u := e - f * 32;
      assert Bit(sl[f], u) <==> lists[f * 32 + u] != [];
    }
  }
}
