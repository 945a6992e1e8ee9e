/** Coalescing, and what each layout operation does to the blocks that clients hold. */
module TlsfCoalesce {
  import opened Words
  import opened TlsfMapping
  import opened TlsfLayout
  import opened TlsfLists
  import opened TlsfMemory

  /** The used blocks and their sizes: what the clients of the heap hold. */
  ghost function Used(h: Layout): map<int, int> {
    map a | a in h && !h[a].free && h[a].size > 0 :: h[a].size
  }

  /** No two neighbours are both free, except around x. */
  ghost predicate CoalescedBut(h: Layout, base: int, x: int) {
    forall a {:trigger h[a].prev} :: a in h && a != base && h[a].free && a != x && h[a].prev != x ==>
      !PrevFree(h, base, a)
  }

  ghost predicate Coalesced(h: Layout, base: int) {
    forall a {:trigger h[a].prev} :: a in h && a != base && h[a].free ==> !PrevFree(h, base, a)
  }

  // ----- coalescing

  lemma CoalescedAround(h: Layout, base: int, end: int, x: int)
    requires Tiled(h, base, end) && CoalescedBut(h, base, x) && x in h && x != end
    requires !PrevFree(h, base, x) && Next(h, x) in h && !h[Next(h, x)].free
    ensures Coalesced(h, base)
  {
    hide Apart, Bounded;
    forall a | a in h && a != base && h[a].free ensures !PrevFree(h, base, a) {}
  }

  lemma NeighboursUsed(h: Layout, base: int, end: int, x: int)
    requires Tiled(h, base, end) && Coalesced(h, base) && x in h && x != end && h[x].free
    ensures CoalescedBut(h, base, x) && !PrevFree(h, base, x) && Next(h, x) in h && !h[Next(h, x)].free
  {
    hide Apart;
    NextPrev(h, base, end, x);
    Ends(h, base, end);
    assert base <= x;
    assert h[Next(h, x)].prev == x;
  }

  lemma WithFreeCoalescedBut(h: Layout, base: int, end: int, x: int, free: bool)
    requires Tiled(h, base, end) && x in h && x != end && CoalescedBut(h, base, x)
    ensures CoalescedBut(WithFree(h, x, free), base, x)
  {
    var h' := WithFree(h, x, free);
    forall a | a in h' && a != base && h'[a].free && a != x && h'[a].prev != x ensures !PrevFree(h', base, a) {
      assert h[a].prev == h'[a].prev;
      assert !PrevFree(h, base, a);
    }
  }

  /** Marking a block used removes every adjacency it was part of. */
  lemma MarkUsedCoalesced(h: Layout, base: int, end: int, x: int)
    requires Tiled(h, base, end) && x in h && x != end && CoalescedBut(h, base, x)
    ensures Coalesced(WithFree(h, x, false), base)
  {
    var h' := WithFree(h, x, false);
    forall a | a in h' && a != base && h'[a].free ensures !PrevFree(h', base, a) {
      assert h[a].prev == h'[a].prev;
      assert h[a].prev != x ==> !PrevFree(h, base, a);
    }
  }

  lemma CoalescedIsBut(h: Layout, base: int, x: int)
    requires Coalesced(h, base)
    ensures CoalescedBut(h, base, x)
  {}

  lemma MergePrevCoalesced(h: Layout, base: int, end: int, b: int)
    requires Tiled(h, base, end) && b in h && b != end && b != base && h[b].free && CoalescedBut(h, base, b)
    requires PrevFree(h, base, b)
    ensures var p := h[b].prev; p in h && p != end && Next(h, p) == b && b in h && Next(h, b) in h && p != b
    ensures var p := h[b].prev; CoalescedBut(Absorb(h, p), base, p) && !PrevFree(Absorb(h, p), base, p)
  {
    hide Apart;
    var p := h[b].prev;
    assert Next(h, p) == b;
    NextPrev(h, base, end, p);
    NextPrev(h, base, end, b);
    var h' := Absorb(h, p);
    forall a | a in h' && a != base && h'[a].free && a != p && h'[a].prev != p ensures !PrevFree(h', base, a) {
      assert h'[a].prev == h[a].prev;
      NotNext(h, base, end, a, b);
      assert !PrevFree(h, base, a);
    }
    if p != base {
      assert Next(h, h[p].prev) == p;
      assert h[p].prev != b by { NotNext2(h, base, end, p, b); }
      assert !PrevFree(h, base, p);
      assert h'[p].prev == h[p].prev;
    }
  }

  lemma NotNext2(h: Layout, base: int, end: int, p: int, b: int)
    requires Tiled(h, base, end) && p in h && b in h && p != end && Next(h, p) == b && b != end && p != base
    ensures h[p].prev != b
  {
    NextPrev(h, base, end, b);
    NextPrev(h, base, end, p);
    assert Next(h, h[p].prev) == p;
  }

  lemma MergeNextCoalesced(h: Layout, base: int, end: int, b: int)
    requires Tiled(h, base, end) && b in h && b != end && CoalescedBut(h, base, b)
    requires Next(h, b) in h && h[Next(h, b)].free
    ensures Next(h, b) != end && Next(h, Next(h, b)) in h && b < Next(h, b) < Next(h, Next(h, b))
    ensures var h' := Absorb(h, b);
            && CoalescedBut(h', base, b) && PrevFree(h', base, b) == PrevFree(h, base, b)
            && Next(h', b) == Next(h, Next(h, b)) && Next(h', b) in h' && !h'[Next(h', b)].free
  {
    hide Apart;
    Ends(h, base, end);
    var n := Next(h, b);
    NextPrev(h, base, end, b);
    NextPrev(h, base, end, n);
    var nn := Next(h, n);
    var h' := Absorb(h, b);
    assert base <= b;
    assert !PrevFree(h, base, nn) || !h[nn].free;
    forall a | a in h' && a != base && h'[a].free && a != b && h'[a].prev != b ensures !PrevFree(h', base, a) {
      assert h'[a].prev == h[a].prev;
      NotNext(h, base, end, a, n);
      assert !PrevFree(h, base, a);
    }
    if b != base { NotNext(h, base, end, b, n); assert h'[b].prev == h[b].prev;
                  assert h[b].prev != b by { assert Next(h, h[b].prev) == b; } }
  }

  /** After a split, the adjacency is around the first part and around the second. */
  lemma SplitCoalesced(h: Layout, base: int, end: int, b: int, size: int, x: int)
    requires Tiled(h, base, end) && b in h && b != end && CoalescedBut(h, base, b)
    requires size % 4 == 0 && size >= BLOCK_SIZE_MIN && h[b].size >= size + BLOCK_HEADER_SIZE
    requires Next(h, b) in h
    requires (x == b && !h[Next(h, b)].free) || (x == b + size + 4 && (!h[b].free || !PrevFree(h, base, b)))
    ensures var h' := Split(h, b, size, true);
            && CoalescedBut(h', base, x) && Next(h', b + size + 4) == Next(h, b) && Next(h', b) == b + size + 4
            && h'[Next(h, b)].free == h[Next(h, b)].free && PrevFree(h', base, b) == PrevFree(h, base, b)
  {
    hide Apart;
    var r, n := b + size + 4, Next(h, b);
    SplitFresh2(h, base, end, b, size);
    NextPrev(h, base, end, b);
    Ends(h, base, end);
    assert base <= b;
    var h' := Split(h, b, size, true);
    forall a | a in h' && a != base && h'[a].free && a != x && h'[a].prev != x ensures !PrevFree(h', base, a) {
      if a != r && a != n {
        assert h'[a].prev == h[a].prev;
        NotNext(h, base, end, a, b);
        if a == b { assert PrevFree(h', base, b) == PrevFree(h, base, b); } else { assert !PrevFree(h, base, a); }
      }
    }
  }

  lemma SplitFresh2(h: Layout, base: int, end: int, b: int, size: int)
    requires Tiled(h, base, end) && b in h && size >= 0 && h[b].size > size
    ensures b + size + 4 !in h
  {
    SplitFresh(h, b, size);
  }

  // ----- used blocks

  lemma UsedSplitFree(h: Layout, b: int, size: int)
    requires b in h && h[b].free && Next(h, b) in h && Next(h, b) != b && b + size + 4 !in h
    ensures Used(Split(h, b, size, true)) == Used(h)
  {}

  lemma UsedSplitUsed(h: Layout, b: int, size: int)
    requires b in h && !h[b].free && size > 0 && Next(h, b) in h && Next(h, b) != b && b + size + 4 !in h
    ensures Used(Split(h, b, size, true)) == Used(h)[b := size]
  {}

  lemma UsedAbsorbFree(h: Layout, p: int)
    requires p in h && h[p].free && Next(h, p) in h && h[Next(h, p)].free && Next(h, Next(h, p)) in h
    requires p < Next(h, p) < Next(h, Next(h, p))
    ensures Used(Absorb(h, p)) == Used(h)
  {}

  lemma UsedAbsorbUsed(h: Layout, p: int)
    requires p in h && !h[p].free && h[p].size > 0 && Next(h, p) in h && h[Next(h, p)].free && Next(h, Next(h, p)) in h
    requires p < Next(h, p) < Next(h, Next(h, p))
    ensures Used(Absorb(h, p)) == Used(h)[p := h[p].size + h[Next(h, p)].size + 4]
  {}

  lemma UsedMarkUsed(h: Layout, b: int)
    requires b in h && h[b].free && h[b].size > 0
    ensures b !in Used(h) && Used(WithFree(h, b, false)) == Used(h)[b := h[b].size]
  {}

  lemma UsedMarkFree(h: Layout, b: int)
    requires b in h && !h[b].free && h[b].size > 0
    ensures b in Used(h) && Used(h)[b] == h[b].size && Used(WithFree(h, b, true)) == Used(h) - {b}
  {}

  /** Payloads of the blocks that stay used are comparable across layouts. */
  ghost predicate HeldKept(used: map<int, int>, m: Memory, m': Memory) {
    forall b {:trigger used[b]} :: b in used ==> Kept(m, m', b + 8, used[b])
  }

  lemma PayloadsAreHeld(h: Layout, m: Memory, m': Memory)
    requires PayloadsKept(h, m, m', {})
    ensures HeldKept(Used(h), m, m')
  {
    hide Kept;
  }

  lemma PayloadsAreHeldBut(h: Layout, m: Memory, m': Memory, b: int)
    requires PayloadsKept(h, m, m', {b})
    ensures HeldKept(Used(h) - {b}, m, m')
  {
    hide Kept;
  }

  lemma HeldKeptTrans(used: map<int, int>, m: Memory, m': Memory, m'': Memory)
    requires HeldKept(used, m, m') && HeldKept(used, m', m'')
    ensures HeldKept(used, m, m'')
  {
    hide Kept;
    forall b | b in used ensures Kept(m, m'', b + 8, used[b]) {
      KeptTrans(m, m', m'', b + 8, used[b]);
    }
  }

  lemma HeldKeptSub(used: map<int, int>, more: map<int, int>, m: Memory, m': Memory)
    requires HeldKept(more, m, m') && forall b :: b in used ==> b in more && more[b] == used[b]
    ensures HeldKept(used, m, m')
  {
    hide Kept;
    forall b | b in used ensures Kept(m, m', b + 8, used[b]) {
      assert Kept(m, m', b + 8, more[b]);
    }
  }

  lemma HeldOf(used: map<int, int>, m: Memory, m': Memory, b: int)
    requires HeldKept(used, m, m') && b in used
    ensures Kept(m, m', b + 8, used[b])
  {}

  /** A frame over a layout with these used blocks is a frame over the held blocks. */
  lemma HeldFrom(used: map<int, int>, h: Layout, m: Memory, m': Memory)
    requires Used(h) == used && PayloadsKept(h, m, m', {})
    ensures HeldKept(used, m, m')
  {
    PayloadsAreHeld(h, m, m');
  }

  /** Held blocks when one of them is cut to n bytes. */
  lemma HeldCut(h: Layout, m: Memory, m': Memory, b: int, n: int)
    requires PayloadsKept(h, m, m', {b}) && Kept(m, m', b + 8, n)
    ensures HeldKept(Used(h)[b := n], m, m')
  {
    hide Kept;
  }

  lemma UsedBlock(h: Layout, base: int, end: int, b: int)
    requires Tiled(h, base, end) && b in Used(h)
    ensures b in h && !h[b].free && b != end && Used(h)[b] == h[b].size && h[b].size >= BLOCK_SIZE_MIN
    ensures h[b].size % 4 == 0
  {
    assert Next(h, b) in h;
  }
}
