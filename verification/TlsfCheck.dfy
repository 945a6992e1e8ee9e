/** The allocator's own consistency checks (tlsf_check and tlsf_check_pool, lib/tlsf/tlsf.c:710-825) find nothing
    wrong with a valid heap, and what a walk over the pool visits. */
module TlsfCheck {
  import opened Words
  import opened TlsfMapping
  import opened TlsfLayout
  import opened TlsfLists
  import opened TlsfMemory
  import opened TlsfBits
  import opened TlsfIndex
  import opened TlsfCoalesce
  import opened Tlsf

  // ----- the blocks of a pool in address order

  /** The blocks from a up to the sentinel, in address order. */
  ghost function BlocksFrom(h: Layout, a: int, end: int): seq<int>
    decreases end - a
  {
    if a in h && a < end && a < Next(h, a) then [a] + BlocksFrom(h, Next(h, a), end) else []
  }

  /** Payload plus header bytes of these blocks. */
  ghost function Extent(h: Layout, bs: seq<int>): int {
    if bs == [] || bs[0] !in h then 0 else h[bs[0]].size + 4 + Extent(h, bs[1..])
  }

  /** Walking from block to block visits every block of the pool once, in increasing order, and their sizes with
      one header word each add up to the pool: in every layout, whatever was split or merged to get there. */
  lemma BlocksTile(h: Layout, base: int, end: int)
    requires Tiled(h, base, end)
    ensures var bs := BlocksFrom(h, base, end);
            && Extent(h, bs) == end - base && Increasing(bs)
            && forall b :: b in bs <==> b in h && b != end
  {
    Ends(h, base, end);
    TileSum(h, base, end, base);
    TileMembers(h, base, end, base);
    hide Tiled;
    forall b | b in h ensures base <= b <= end { InPool(h, base, end, b); }
  }

  ghost predicate Increasing(bs: seq<int>) {
    forall i, j :: 0 <= i < j < |bs| ==> bs[i] < bs[j]
  }

  lemma {:induction false} TileSum(h: Layout, base: int, end: int, a: int)
    requires Tiled(h, base, end) && a in h
    ensures Extent(h, BlocksFrom(h, a, end)) == end - a
    decreases end - a
  {
    Ends(h, base, end);
    InPool(h, base, end, a);
    hide Tiled;
    if a != end {
      NextPrev(h, base, end, a);
      var n := Next(h, a);
      InPool(h, base, end, n);
      TileSum(h, base, end, n);
      assert BlocksFrom(h, a, end)[1..] == BlocksFrom(h, n, end);
    }
  }

  ghost predicate CoversFrom(h: Layout, bs: seq<int>, a: int, end: int) {
    forall b {:trigger b in bs} {:trigger b in h} :: b in bs <==> b in h && a <= b < end
  }

  lemma {:induction false} TileMembers(h: Layout, base: int, end: int, a: int)
    requires Tiled(h, base, end) && a in h
    ensures Increasing(BlocksFrom(h, a, end)) && CoversFrom(h, BlocksFrom(h, a, end), a, end)
    decreases end - a
  {
    hide Tiled, Increasing, CoversFrom;
    Ends(h, base, end);
    InPool(h, base, end, a);
    if a != end {
      NextPrev(h, base, end, a);
      var n := Next(h, a);
      InPool(h, base, end, n);
      TileMembers(h, base, end, n);
      CoversPrepend(h, base, end, a, BlocksFrom(h, n, end));
    } else {
      CoversNothing(h, end);
    }
  }

  lemma CoversNothing(h: Layout, end: int)
    ensures Increasing([]) && CoversFrom(h, [], end, end)
  {}

  lemma CoversPrepend(h: Layout, base: int, end: int, a: int, rest: seq<int>)
    requires Tiled(h, base, end) && a in h && a < end && a < Next(h, a)
    requires Increasing(rest) && CoversFrom(h, rest, Next(h, a), end)
    ensures Increasing([a] + rest) && CoversFrom(h, [a] + rest, a, end)
  {
    hide Tiled;
    Prepend(a, Next(h, a), rest);
    forall b ensures b in [a] + rest <==> b in h && a <= b < end {
      if b in h && a < b { NotBetween(h, base, end, a, b); }
    }
  }

  lemma Prepend(a: int, n: int, rest: seq<int>)
    requires a < n && Increasing(rest) && forall b :: b in rest ==> n <= b
    ensures Increasing([a] + rest)
  {
    var bs := [a] + rest;
    forall i, j | 0 <= i < j < |bs| ensures bs[i] < bs[j] {
      assert bs[j] == rest[j - 1] && rest[j - 1] in rest;
      if i > 0 { assert bs[i] == rest[i - 1]; }
    }
  }

  lemma InPool(h: Layout, base: int, end: int, a: int)
    requires Tiled(h, base, end) && a in h
    ensures base <= a <= end
  {}

  lemma NotBetween(h: Layout, base: int, end: int, a: int, b: int)
    requires Tiled(h, base, end) && a in h && b in h && a < b
    ensures Next(h, a) <= b
  {}

  // ----- tlsf_check_pool

  /** What the walker is told about one block. */
  datatype Visit = Visit(ptr: int, size: int, used: bool)

  ghost function VisitOf(h: Layout, b: int): Visit
    requires b in h
  {
    Visit(b + BLOCK_START_OFFSET, h[b].size, !h[b].free)
  }

  ghost function Visits(h: Layout, a: int, end: int): seq<Visit>
    decreases end - a
  {
    if a in h && a < end && a < Next(h, a) then [VisitOf(h, a)] + Visits(h, Next(h, a), end) else []
  }

  method CheckPool(heap: Heap, pool: int) returns (status: int, walk: seq<Visit>)
    requires heap.Valid() && pool == heap.base + BLOCK_HEADER_OVERHEAD
    ensures status == 0 && walk == Visits(heap.layout, heap.base, heap.end)
  {
    hide Tiled, Mapped, Encoded, Listed, AllLinked, Headed, Mirrored, SizeOf, NextOf, Coalesced, FreeBit, PrevFreeBit;
    ghost var h, base, end := heap.layout, heap.base, heap.end;
    var block := pool - BLOCK_HEADER_OVERHEAD;
    Ends(h, base, end);
    var prevStatus := false;
    status, walk := 0, [];
    var size := LastSize(heap, block);
    while size != 0
      invariant heap.Valid() && block in h && status == 0
      invariant size == h[block].size && (size == 0 <==> block == end)
      invariant prevStatus == PrevFree(h, base, block)
      invariant walk + Visits(h, block, end) == Visits(h, base, end)
      decreases end - block
    {
      HeaderFacts(heap.mem, h, base, end, heap.blockNull, {}, block);
      var thisPrevStatus := heap.BlockIsPrevFree(block);
      var thisStatus := heap.BlockIsFree(block);
      if prevStatus != thisPrevStatus { status := status - 1; }
      walk := walk + [Visit(block + BLOCK_START_OFFSET, size, !thisStatus)];
      prevStatus := thisStatus;
      InPool(h, base, end, block);
      ghost var was := block;
      block := heap.BlockNext(block);
      NextPrev(h, base, end, was);
      InPool(h, base, end, block);
      assert Visits(h, was, end) == [VisitOf(h, was)] + Visits(h, block, end);
      size := LastSize(heap, block);
    }
    assert Visits(h, end, end) == [];
  }

  /** The size in a block's header, which is zero for the sentinel only. */
  method LastSize(heap: Heap, block: int) returns (size: int)
    requires heap.Valid() && block in heap.layout
    ensures size == heap.layout[block].size && (size == 0 <==> block == heap.end)
  {
    hide Tiled, Mapped, Encoded, Listed, AllLinked, Headed, Mirrored, SizeOf, NextOf, Coalesced, FreeBit, PrevFreeBit;
    HeaderAt(heap.mem, heap.layout, heap.base, {}, block);
    Ends(heap.layout, heap.base, heap.end);
    if block != heap.end { HeaderFacts(heap.mem, heap.layout, heap.base, heap.end, heap.blockNull, {}, block); }
    size := heap.BlockSize(block);
  }

  // ----- tlsf_check

  lemma BitTest(w: Word, i: nat)
    requires i < 32
    ensures And(w, Shl(1, i)) != 0 <==> Bit(w, i)
  {
    OneShifted(i);
    Pow2Values();
    hide Shl, And, Bit, Pow2;
    var r := And(w, Pow2(i));
    BitOfPow2(i, i);
    BitAnd(w, Pow2(i), i);
    if r == 0 {
      ZeroBits(i);
    } else {
      AndBound(w, Pow2(i));
      var j := SomeBitSet(r, 32);
      BitAnd(w, Pow2(i), j);
      BitOfPow2(i, j);
    }
  }

  /** Everything tlsf_check insists on for a listed block. */
  lemma ListedBlockFacts(m: Memory, h: Layout, base: int, end: int, nil: int, lists: Table, i: nat, j: nat, k: nat)
    requires Tiled(h, base, end) && Mapped(m, base, end, nil) && Encoded(m, h, base, {}) && Coalesced(h, base)
    requires Listed(h, lists, {}) && AllLinked(m, lists, nil) && i < FL_INDEX_COUNT && j < SL_INDEX_COUNT
    requires k < |lists[i * 32 + j]|
    ensures var b := lists[i * 32 + j][k];
            && b in h && b != end && h[b].free && b != nil && b + 4 in m && b + 8 in m && Next(h, b) + 4 in m
            && NextOf(m, b) == Next(h, b)
            && FreeBit(m[b + 4]) && !PrevFreeBit(m[b + 4]) && !FreeBit(m[Next(h, b) + 4])
            && PrevFreeBit(m[Next(h, b) + 4])
            && SizeOf(m[b + 4]) == h[b].size && BLOCK_SIZE_MIN <= h[b].size < BLOCK_SIZE_MAX
            && MappingInsert(h[b].size) == Index(i, j)
            && m[b + 8] == At(lists[i * 32 + j], k + 1, nil)
  {
    hide Tiled, Mapped, Encoded, Class, Coalesced, MappingInsert, NextOf, Listed, AllLinked, SizeOf, FreeBit,
      PrevFreeBit;
    InRange(h, lists, {});
    TableIndex(i, j);
    var b := lists[i * 32 + j][k];
    OnListAt(h, lists, {}, i * 32 + j, k);
    FreeBlockFacts(m, h, base, end, nil, {}, b);
    HeaderFacts(m, h, base, end, nil, {}, b);
    NeighboursUsed(h, base, end, b);
    Neighbours(m, h, base, end, nil, {}, lists, {}, i * 32 + j, k);
    HeaderAt(m, h, base, {}, Next(h, b));
    ReadNext(m, b);
    var x := MappingInsert(h[b].size);
    FlatUnique(x.fl, x.sl, i, j);
    NextIsPrevFree(h, base, end, b);
  }

  lemma OnListAt(h: Layout, lists: Table, out: set<int>, c: nat, k: nat)
    requires Listed(h, lists, out) && c < CLASSES && k < |lists[c]|
    ensures OnList(h, lists[c][k], c, out)
  {
    hide Class;
  }

  lemma ReadNext(m: Memory, b: int)
    requires b + 8 in m
    ensures NextLink(m, b) == m[b + 8]
  {}

  lemma NextIsPrevFree(h: Layout, base: int, end: int, b: int)
    requires Tiled(h, base, end) && b in h && b != end && h[b].free
    ensures PrevFree(h, base, Next(h, b))
  {
    NextPrev(h, base, end, b);
    InPool(h, base, end, b);
  }

  /** tlsf_check counts its complaints downwards from zero; a valid heap gives no reason for any. */
  method Check(heap: Heap) returns (status: int)
    requires heap.Valid()
    ensures status == 0
  {
    hide Tiled, Mapped, Encoded, Listed, AllLinked, Headed, Mirrored, Coalesced;
    status := 0;
    for i := 0 to FL_INDEX_COUNT
      invariant status == 0
    {
      for j := 0 to SL_INDEX_COUNT
        invariant status == 0
      {
        var s := CheckList(heap, i, j);
        status := status + s;
      }
    }
  }

  /** The body of tlsf_check's loops, for one list. */
  method CheckList(heap: Heap, i: nat, j: nat) returns (status: int)
    requires heap.Valid() && i < FL_INDEX_COUNT && j < SL_INDEX_COUNT
    ensures status == 0
  {
    hide Tiled, Mapped, Encoded, Listed, AllLinked, Headed, Mirrored, Coalesced, SizeOf, FreeBit, PrevFreeBit, NextOf,
      Class, MappingInsert, And, Shl, Bit;
    ghost var h, lists, nil := heap.layout, heap.lists, heap.blockNull;
    ghost var sls := heap.slBitmap[..];
    MirroredShape(heap.flBitmap, sls, lists);
    InRange(h, lists, {});
    TableIndex(i, j);
    HeadOf(heap.blocks[..], lists, nil, i * 32 + j);
    MirrorAt(heap.flBitmap, sls, lists, i, j);
    BitTest(heap.flBitmap, i);
    BitTest(heap.slBitmap[i], j);
    status := 0;
    var flMap := And(heap.flBitmap, Shl(1, i));
    var slList := heap.slBitmap[i];
    var slMap := And(slList, Shl(1, j));
    var block := heap.blocks[i * 32 + j];
    if flMap == 0 && slMap != 0 { status := status - 1; }
    if slMap == 0 {
      if block != heap.blockNull { status := status - 1; }
      return;
    }
    ListedBlockFacts(heap.mem, h, heap.base, heap.end, nil, lists, i, j, 0);
    if slList == 0 { status := status - 1; }
    if block == heap.blockNull { status := status - 1; }
    ghost var k := 0;
    while block != heap.blockNull
      invariant 0 <= k <= |lists[i * 32 + j]| && block == At(lists[i * 32 + j], k, nil)
      invariant status == 0
      decreases |lists[i * 32 + j]| - k
    {
      ListedBlockFacts(heap.mem, h, heap.base, heap.end, nil, lists, i, j, k);
      var isFree := heap.BlockIsFree(block);
      var prevFree := heap.BlockIsPrevFree(block);
      var next := heap.BlockNext(block);
      var nextFree := heap.BlockIsFree(next);
      var nextPrevFree := heap.BlockIsPrevFree(next);
      var size := heap.BlockSize(block);
      if !isFree { status := status - 1; }
      if prevFree { status := status - 1; }
      if nextFree { status := status - 1; }
      if !nextPrevFree { status := status - 1; }
      if size < BLOCK_SIZE_MIN { status := status - 1; }
      var fli, sli := MapInsert(size);
      if !(fli == i && sli == j) { status := status - 1; }
      block := heap.mem[block + 8];
      k := k + 1;
    }
  }

  lemma MirrorAt(fl: nat, sl: seq<nat>, lists: Table, i: nat, j: nat)
    requires Mirrored(fl, sl, lists) && i < FL_INDEX_COUNT && j < SL_INDEX_COUNT
    ensures Bit(sl[i], j) <==> lists[i * 32 + j] != []
    ensures Bit(sl[i], j) ==> sl[i] != 0 && Bit(fl, i)
  {
    if sl[i] == 0 { ZeroBits(j); }
  }
}
