/** What the header operations of lib/tlsf/tlsf.c write to memory, and that the words keep encoding the layout. */
module TlsfMemory {
  import opened Words
  import opened TlsfMapping
  import opened TlsfLayout
  import opened TlsfLists

  /** block_next: the address after the block, from its size word. */
  function NextOf(m: Memory, b: int): int {
    b + SizeOf(HeaderWord(m, b)) + 4
  }

  /** The size word at b + 4 with new parts.  (Like the operations below: no change where the word would not fit
      or the address is not mapped, which the invariant excludes.) */
  function SetHeader(m: Memory, b: int, size: int, free: bool, prevFree: bool): Memory {
    if 0 <= size && size + 3 < WORD then m[b + 4 := Enc(size, free, prevFree)] else m
  }

  function SetFreeBit(m: Memory, b: int, free: bool): Memory {
    var w := HeaderWord(m, b);
    SetHeader(m, b, SizeOf(w), free, PrevFreeBit(w))
  }

  function SetPrevFreeBit(m: Memory, b: int, prevFree: bool): Memory {
    var w := HeaderWord(m, b);
    SetHeader(m, b, SizeOf(w), FreeBit(w), prevFree)
  }

  function SetSize(m: Memory, b: int, size: int): Memory {
    var w := HeaderWord(m, b);
    SetHeader(m, b, size, FreeBit(w), PrevFreeBit(w))
  }

  /** block_link_next. */
  function LinkNext(m: Memory, b: int): Memory {
    if 0 <= b < WORD then m[NextOf(m, b) := b] else m
  }

  /** block_mark_as_free. */
  function MarkFree(m: Memory, b: int): Memory {
    SetFreeBit(SetPrevFreeBit(LinkNext(m, b), NextOf(m, b), true), b, true)
  }

  /** block_mark_as_used. */
  function MarkUsed(m: Memory, b: int): Memory {
    SetFreeBit(SetPrevFreeBit(m, NextOf(m, b), false), b, false)
  }

  // ----- reading a block through its header

  /** Everything the source may rely on about the headers of a block and its successor. */
  lemma HeaderFacts(m: Memory, h: Layout, base: int, end: int, nil: int, stale: set<int>, b: int)
    requires Tiled(h, base, end) && Mapped(m, base, end, nil) && Encoded(m, h, base, stale)
    requires b in h && b != end
    ensures b + 4 in m && SizeOf(m[b + 4]) == h[b].size && FreeBit(m[b + 4]) == h[b].free
    ensures NextOf(m, b) == Next(h, b) && Next(h, b) in h && Next(h, b) + 4 in m && Next(h, b) in m
    ensures h[b].size % 4 == 0 && BLOCK_SIZE_MIN <= h[b].size < BLOCK_SIZE_MAX && h[Next(h, b)].prev == b
    ensures SizeOf(m[Next(h, b) + 4]) == h[Next(h, b)].size && FreeBit(m[Next(h, b) + 4]) == h[Next(h, b)].free
    ensures 0 < base <= b && b + 16 <= Next(h, b) <= end && end + 16 <= WORD && b % 4 == 0 && Next(h, b) % 4 == 0
    ensures b !in stale ==> PrevFreeBit(m[b + 4]) == PrevFree(h, base, b)
    ensures b !in stale && PrevFree(h, base, b) ==>
              b in m && m[b] == h[b].prev && h[b].prev in h && h[b].prev != end && Next(h, h[b].prev) == b
  {
    hide Apart;
    var n := Next(h, b);
    assert n in h;
    assert HeaderEncoded(m, h, base, b, b in stale);
    assert HeaderEncoded(m, h, base, n, n in stale);
  }

  // ----- frames

  /** List links of the blocks of h are the same in both memories. */
  ghost predicate LinksKept(h: Layout, m: Memory, m': Memory) {
    forall f {:trigger NextLink(m', f)} {:trigger PrevLink(m', f)} :: f in h ==>
      NextLink(m', f) == NextLink(m, f) && PrevLink(m', f) == PrevLink(m, f)
  }

  lemma AllLinkedFrame(h: Layout, m: Memory, m': Memory, lists: Table, out: set<int>, nil: int)
    requires Listed(h, lists, out) && AllLinked(m, lists, nil) && LinksKept(h, m, m')
    ensures AllLinked(m', lists, nil)
  {
    hide Listed, AllLinked, NextLink, PrevLink;
    AllLinkedFrameFree(h, m, m', lists, out, nil);
  }

  lemma AllLinkedFrameFree(h: Layout, m: Memory, m': Memory, lists: Table, out: set<int>, nil: int)
    requires Listed(h, lists, out) && AllLinked(m, lists, nil)
    requires forall f {:trigger NextLink(m', f)} {:trigger PrevLink(m', f)} :: f in h && h[f].free ==>
               NextLink(m', f) == NextLink(m, f) && PrevLink(m', f) == PrevLink(m, f)
    ensures AllLinked(m', lists, nil)
  {
    hide Class, NextLink, PrevLink, Linked;
    forall c | 0 <= c < |lists| ensures Linked(m', lists[c], nil) {
      forall i | 0 <= i < |lists[c]|
        ensures NextLink(m', lists[c][i]) == NextLink(m, lists[c][i])
        ensures PrevLink(m', lists[c][i]) == PrevLink(m, lists[c][i])
      {
        assert OnList(h, lists[c][i], c, out);
      }
      LinkedFrame(m, m', lists[c], nil);
    }
  }

  /** A payload word of block u is no header word, no link word of another block, and the back pointer only of
      the block after u. */
  lemma PayloadWord(h: Layout, base: int, end: int, u: int, w: int, a: int)
    requires Tiled(h, base, end) && u in h && u != end && u + 8 <= w < Next(h, u) + 4 && a in h
    ensures w != a + 4
    ensures a != u ==> w != a + 8 && w != a + 12
    ensures a != Next(h, u) ==> w != a
  {
    assert Next(h, u) in h;
    if a < u { HeadersApart(h, base, end, a, u); }
    if u < a { HeadersApart(h, base, end, u, a); }
    if Next(h, u) < a { HeadersApart(h, base, end, Next(h, u), a); }
  }

  lemma HeadersFar(h: Layout, base: int, end: int, a: int, b: int)
    requires Tiled(h, base, end) && a in h && b in h
    ensures Far(a, b)
  {
    if a < b { HeadersApart(h, base, end, a, b); }
    if b < a { HeadersApart(h, base, end, b, a); }
  }

  lemma PayloadsKeptTrans(h: Layout, m: Memory, m': Memory, m'': Memory, but: set<int>)
    requires PayloadsKept(h, m, m', but) && PayloadsKept(h, m', m'', but)
    ensures PayloadsKept(h, m, m'', but)
  {
    forall u | u in h && !h[u].free && u !in but ensures Kept(m, m'', u + 8, h[u].size) {
      assert Kept(m, m', u + 8, h[u].size) && Kept(m', m'', u + 8, h[u].size);
      forall w | u + 8 <= w < u + 8 + h[u].size ensures Fetch(m'', w) == Fetch(m, w) {
        assert Fetch(m'', w) == Fetch(m', w);
      }
    }
  }

  lemma NotNext(h: Layout, base: int, end: int, a: int, b: int)
    requires Tiled(h, base, end) && a in h && b in h && a != base && a != Next(h, b)
    ensures h[a].prev in h && h[a].prev != b
  {}

  // ----- single writes

  lemma HeaderWriteReads(m: Memory, c: int, v: Word, a: int)
    requires Far(a, c)
    ensures var m' := m[c + 4 := v];
            && Fetch(m', a) == Fetch(m, a) && HeaderWord(m', a) == (if a == c then v else HeaderWord(m, a))
            && NextLink(m', a) == NextLink(m, a) && PrevLink(m', a) == PrevLink(m, a)
  {}

  lemma BackWriteReads(m: Memory, n: int, v: Word, a: int)
    requires Far(a, n)
    ensures var m' := m[n := v];
            && Fetch(m', a) == (if a == n then v else Fetch(m, a)) && HeaderWord(m', a) == HeaderWord(m, a)
            && NextLink(m', a) == NextLink(m, a) && PrevLink(m', a) == PrevLink(m, a)
  {}

  lemma MappedWrite(m: Memory, base: int, end: int, nil: int, a: int, v: Word)
    requires Mapped(m, base, end, nil)
    ensures Mapped(m[a := v], base, end, nil)
  {}

  /** The back pointer of the block after b is set to b, whatever it was. */
  lemma LinkNextEncoded(m: Memory, h: Layout, base: int, end: int, nil: int, stale: set<int>, b: int)
    requires Tiled(h, base, end) && Mapped(m, base, end, nil) && Encoded(m, h, base, stale) && b in h && b != end
    ensures NextOf(m, b) == Next(h, b)
    ensures var m' := LinkNext(m, b);
            && Encoded(m', h, base, stale) && Mapped(m', base, end, nil) && LinksKept(h, m, m')
            && Fetch(m', Next(h, b)) == b && (forall a :: a in h ==> HeaderWord(m', a) == HeaderWord(m, a))
            && PayloadsKept(h, m, m', {b})
            && (h[b].free ==> PayloadsKept(h, m, m', {}))
  {
    hide NextOf, NextLink, PrevLink, Tiled, Mapped;
    HeaderFacts(m, h, base, end, nil, stale, b);
    var n := Next(h, b);
    var m' := m[n := b];
    assert m' == LinkNext(m, b);
    MappedWrite(m, base, end, nil, n, b);
    forall a | a in h
      ensures HeaderEncoded(m', h, base, a, a in stale) && HeaderWord(m', a) == HeaderWord(m, a)
      ensures NextLink(m', a) == NextLink(m, a) && PrevLink(m', a) == PrevLink(m, a)
    {
      HeadersFar(h, base, end, a, n);
      BackWriteReads(m, n, b, a);
      assert HeaderEncoded(m, h, base, a, a in stale);
    }
    forall u | u in h && !h[u].free && u != b ensures Kept(m, m', u + 8, h[u].size) {
      NextInjective(h, base, end, b, u);
      OnlyBackWord(h, base, end, u, n);
    }
  }

  lemma NextInjective(h: Layout, base: int, end: int, b: int, u: int)
    requires Tiled(h, base, end) && b in h && u in h && b != u && b != end
    ensures Next(h, b) in h && Next(h, b) != Next(h, u)
  {
    assert h[Next(h, b)].prev == b;
    assert u != end ==> h[Next(h, u)].prev == u;
  }

  /** A block's payload does not reach the header of any block but the next one's back pointer. */
  lemma OnlyBackWord(h: Layout, base: int, end: int, u: int, n: int)
    requires Tiled(h, base, end) && u in h && n in h && n != Next(h, u)
    ensures !(u + 8 <= n < u + 8 + h[u].size)
  {
    if u != end && u + 8 <= n < u + 8 + h[u].size { PayloadWord(h, base, end, u, n, n); }
  }

  lemma HeaderOutside(h: Layout, base: int, end: int, u: int, a: int)
    requires Tiled(h, base, end) && u in h && a in h
    ensures !(u + 8 <= a + 4 < u + 8 + h[u].size)
  {
    if u != end && u + 8 <= a + 4 < u + 8 + h[u].size { PayloadWord(h, base, end, u, a + 4, a); }
  }

  /** A write to a header word changes no payload. */
  lemma HeaderWritePayloads(m: Memory, h: Layout, base: int, end: int, a: int, v: Word)
    requires Tiled(h, base, end) && a in h
    ensures PayloadsKept(h, m, m[a + 4 := v], {})
  {
    forall u | u in h && !h[u].free ensures Kept(m, m[a + 4 := v], u + 8, h[u].size) {
      HeaderOutside(h, base, end, u, a);
    }
  }

  /** Changing the flag that mirrors the predecessor leaves at most that header stale. */
  lemma PrevFlagEncoded(m: Memory, h: Layout, base: int, end: int, nil: int, stale: set<int>, a: int, p: bool)
    requires Tiled(h, base, end) && Mapped(m, base, end, nil) && Encoded(m, h, base, stale) && a in h
    ensures var m' := SetPrevFreeBit(m, a, p);
            && Mapped(m', base, end, nil) && LinksKept(h, m, m') && PayloadsKept(h, m, m', {})
            && (forall c :: c in h ==> Fetch(m', c) == Fetch(m, c))
            && Encoded(m', h, base, stale + {a}) && PrevFreeBit(HeaderWord(m', a)) == p
            && (p == PrevFree(h, base, a) && (p ==> Fetch(m, a) == h[a].prev) ==> Encoded(m', h, base, stale - {a}))
  {
    hide NextLink, PrevLink, PayloadsKept, Tiled, Mapped;
    assert HeaderEncoded(m, h, base, a, a in stale);
    var w := m[a + 4];
    var v := Enc(SizeOf(w), FreeBit(w), p);
    EncDecode(SizeOf(w), FreeBit(w), p);
    var m' := m[a + 4 := v];
    assert m' == SetPrevFreeBit(m, a, p);
    hide Enc, SizeOf, FreeBit, PrevFreeBit;
    HeaderWritePayloads(m, h, base, end, a, v);
    MappedWrite(m, base, end, nil, a + 4, v);
    forall c | c in h
      ensures HeaderEncoded(m', h, base, c, c == a || c in stale)
      ensures c != a ==> HeaderEncoded(m', h, base, c, c in stale)
      ensures NextLink(m', c) == NextLink(m, c) && PrevLink(m', c) == PrevLink(m, c) && Fetch(m', c) == Fetch(m, c)
    {
      HeadersFar(h, base, end, a, c);
      HeaderWriteReads(m, a, v, c);
      assert HeaderEncoded(m, h, base, c, c in stale);
    }
  }

  /** A block changes between used and free once the header after it says so. */
  lemma SetFreeEncoded(m: Memory, h: Layout, base: int, end: int, nil: int, stale: set<int>, b: int, free: bool)
    requires Tiled(h, base, end) && Mapped(m, base, end, nil) && Encoded(m, h, base, stale) && b in h && b != end
    requires var n := Next(h, b); PrevFreeBit(HeaderWord(m, n)) == free && (free ==> Fetch(m, n) == b)
    ensures var m' := SetFreeBit(m, b, free); var h' := WithFree(h, b, free);
            && Encoded(m', h', base, stale - {Next(h, b)}) && Mapped(m', base, end, nil)
            && LinksKept(h, m, m') && PayloadsKept(h, m, m', {}) && NextLink(m', b) == NextLink(m, b)
            && PrevLink(m', b) == PrevLink(m, b)
  {
    hide NextLink, PrevLink, PayloadsKept, NextOf, Tiled, Mapped;
    HeaderFacts(m, h, base, end, nil, stale, b);
    var n := Next(h, b);
    var w := m[b + 4];
    var v := Enc(SizeOf(w), free, PrevFreeBit(w));
    EncDecode(SizeOf(w), free, PrevFreeBit(w));
    var m', h' := m[b + 4 := v], WithFree(h, b, free);
    assert m' == SetFreeBit(m, b, free);
    hide Enc, SizeOf, FreeBit, PrevFreeBit;
    HeaderWritePayloads(m, h, base, end, b, v);
    MappedWrite(m, base, end, nil, b + 4, v);
    forall a | a in h
      ensures HeaderEncoded(m', h', base, a, a != n && a in stale)
      ensures NextLink(m', a) == NextLink(m, a) && PrevLink(m', a) == PrevLink(m, a)
    {
      HeadersFar(h, base, end, a, b);
      HeaderWriteReads(m, b, v, a);
      SetFreeAt(m, h, base, end, stale, b, free, v, a);
      hide HeaderEncoded;
    }
  }

  lemma SetFreeAt(m: Memory, h: Layout, base: int, end: int, stale: set<int>, b: int, free: bool, v: Word, a: int)
    requires Tiled(h, base, end) && Encoded(m, h, base, stale) && b in h && b != end && a in h
    requires PrevFreeBit(HeaderWord(m, Next(h, b))) == free && (free ==> Fetch(m, Next(h, b)) == b)
    requires SizeOf(v) == h[b].size && FreeBit(v) == free && PrevFreeBit(v) == PrevFreeBit(HeaderWord(m, b))
    ensures HeaderEncoded(m[b + 4 := v], WithFree(h, b, free), base, a, a != Next(h, b) && a in stale)
  {
    hide NextLink, PrevLink, SizeOf, FreeBit, PrevFreeBit, Tiled;
    HeadersFar(h, base, end, a, b);
    HeaderWriteReads(m, b, v, a);
    assert HeaderEncoded(m, h, base, a, a in stale);
    PrevFreeAfter(h, base, end, b, free, a);
    if a == Next(h, b) { NextPrev(h, base, end, b); }
    hide PrevFree;
  }

  lemma NextPrev(h: Layout, base: int, end: int, b: int)
    requires Tiled(h, base, end) && b in h && b != end
    ensures Next(h, b) in h && h[Next(h, b)].prev == b && b < Next(h, b)
  {}

  lemma PrevFreeAfter(h: Layout, base: int, end: int, b: int, free: bool, a: int)
    requires Tiled(h, base, end) && a in h && b in h && b != end
    ensures PrevFree(WithFree(h, b, free), base, a) == if a == Next(h, b) then free else PrevFree(h, base, a)
  {
    hide Apart;
    if a != base && a != Next(h, b) { NotNext(h, base, end, a, b); }
    assert h[Next(h, b)].prev == b;
  }

  /** A header whose view of its predecessor is right is not stale. */
  lemma Refresh(m: Memory, h: Layout, base: int, stale: set<int>, a: int)
    requires Encoded(m, h, base, stale) && a in h && HeaderEncoded(m, h, base, a, false)
    ensures Encoded(m, h, base, stale - {a})
  {
    forall c | c in h ensures HeaderEncoded(m, h, base, c, c in stale - {a}) {
      assert HeaderEncoded(m, h, base, c, c in stale);
    }
  }

  // ----- splitting and absorbing

  /** The two size words that block_split writes: first the new header, whose flag bits are whatever the payload
      held, then the block's own. */
  function SplitSizes(m: Memory, b: int, size: int): Memory {
    SetSize(SetSize(m, b + size + 4, SizeOf(HeaderWord(m, b)) - (size + 4)), b, size)
  }

  lemma SplitFar(h: Layout, base: int, end: int, b: int, size: int, a: int)
    requires Tiled(h, base, end) && b in h && b != end && a in h
    requires size >= BLOCK_SIZE_MIN && h[b].size >= size + BLOCK_HEADER_SIZE
    ensures Far(a, b + size + 4) && a != b + size + 4
  {
    assert Next(h, b) in h;
    if a < b { HeadersApart(h, base, end, a, b); }
    if b < a { HeadersApart(h, base, end, b, a); }
  }

  lemma SplitSizesEncoded(m: Memory, h: Layout, base: int, end: int, nil: int, b: int, size: int)
    requires Tiled(h, base, end) && Mapped(m, base, end, nil) && Encoded(m, h, base, {}) && b in h && b != end
    requires size % 4 == 0 && size >= BLOCK_SIZE_MIN && h[b].size >= size + BLOCK_HEADER_SIZE
    ensures Next(h, b) in h
    ensures var g := FreeBit(HeaderWord(m, b + size + 4)); var r := b + size + 4; var m' := SplitSizes(m, b, size);
            && Encoded(m', Split(h, b, size, g), base, {r, Next(h, b)}) && Mapped(m', base, end, nil)
            && LinksKept(h, m, m') && PayloadsKept(h, m, m', {b}) && Kept(m, m', b + 8, size)
  {
    hide NextLink, PrevLink, PayloadsKept, Tiled, Mapped, NextOf, LinksKept, HeaderEncoded, SizeOf, FreeBit,
      PrevFreeBit;
    HeaderFacts(m, h, base, end, nil, {}, b);
    var r, n := b + size + 4, Next(h, b);
    MappedAt(m, base, end, nil, r + 4);
    var w, x := m[b + 4], m[r + 4];
    EncDecode(h[b].size - (size + 4), FreeBit(x), PrevFreeBit(x));
    EncDecode(size, FreeBit(w), PrevFreeBit(w));
    var v := Enc(h[b].size - (size + 4), FreeBit(x), PrevFreeBit(x));
    var y := Enc(size, FreeBit(w), PrevFreeBit(w));
    var m1 := m[r + 4 := v];
    var m2 := m1[b + 4 := y];
    assert m2 == SplitSizes(m, b, size);
    MappedWrite(m, base, end, nil, r + 4, v);
    MappedWrite(m1, base, end, nil, b + 4, y);
    hide Enc, SplitSizes;
    var h' := Split(h, b, size, FreeBit(x));
    assert HeaderWord(m, b) == w;
    forall a | a in h' ensures HeaderEncoded(m2, h', base, a, a == r || a == n) {
      SplitSizesAt(m, h, base, end, b, size, v, y, FreeBit(x), a);
    }
    SplitSizesLinks(m, h, base, end, b, size, v, y);
    SplitSizesPayloads(m, h, base, end, b, size, v, y);
  }

  lemma MappedAt(m: Memory, base: int, end: int, nil: int, a: int)
    requires Mapped(m, base, end, nil) && base + 4 <= a <= end + 4 && a % 4 == 0
    ensures a in m
  {}

  lemma SplitSizesAt(m: Memory, h: Layout, base: int, end: int, b: int, size: int, v: Word, y: Word, g: bool, a: int)
    requires Tiled(h, base, end) && Encoded(m, h, base, {}) && b in h && b != end && Next(h, b) in h
    requires size % 4 == 0 && size >= BLOCK_SIZE_MIN && h[b].size >= size + BLOCK_HEADER_SIZE
    requires SizeOf(v) == h[b].size - (size + 4) && FreeBit(v) == g
    requires SizeOf(y) == size && FreeBit(y) == h[b].free && PrevFreeBit(y) == PrevFreeBit(HeaderWord(m, b))
    requires a in Split(h, b, size, g)
    ensures HeaderEncoded(m[b + size + 8 := v][b + 4 := y], Split(h, b, size, g), base, a, a == b + size + 4
                          || a == Next(h, b))
  {
    hide SizeOf, FreeBit, PrevFreeBit, Tiled, NextLink, PrevLink;
    var r, n, h' := b + size + 4, Next(h, b), Split(h, b, size, g);
    var m1 := m[r + 4 := v];
    if a == r {
    } else {
      assert HeaderEncoded(m, h, base, a, false);
      SplitFar(h, base, end, b, size, a);
      HeadersFar(h, base, end, a, b);
      SplitFar(h, base, end, b, size, b);
      HeaderWriteReads(m, r, v, a);
      HeaderWriteReads(m1, b, y, a);
      if a != n && a != base { NotNext(h, base, end, a, b); SplitFar(h, base, end, b, size, h[a].prev); }
    }
  }

  lemma SplitSizesLinks(m: Memory, h: Layout, base: int, end: int, b: int, size: int, v: Word, y: Word)
    requires Tiled(h, base, end) && b in h && b != end
    requires size >= BLOCK_SIZE_MIN && h[b].size >= size + BLOCK_HEADER_SIZE
    ensures LinksKept(h, m, m[b + size + 8 := v][b + 4 := y])
  {
    hide Tiled, NextLink, PrevLink;
    forall a | a in h
      ensures var m' := m[b + size + 8 := v][b + 4 := y];
              NextLink(m', a) == NextLink(m, a) && PrevLink(m', a) == PrevLink(m, a)
    {
      SplitFar(h, base, end, b, size, a);
      HeadersFar(h, base, end, a, b);
      HeaderWriteReads(m, b + size + 4, v, a);
      HeaderWriteReads(m[b + size + 8 := v], b, y, a);
    }
  }

  lemma SplitSizesPayloads(m: Memory, h: Layout, base: int, end: int, b: int, size: int, v: Word, y: Word)
    requires Tiled(h, base, end) && b in h && b != end
    requires size >= BLOCK_SIZE_MIN && h[b].size >= size + BLOCK_HEADER_SIZE
    ensures PayloadsKept(h, m, m[b + size + 8 := v][b + 4 := y], {b})
    ensures Kept(m, m[b + size + 8 := v][b + 4 := y], b + 8, size)
  {
    var m' := m[b + size + 8 := v][b + 4 := y];
    hide Tiled;
    forall u | u in h && !h[u].free && u != b ensures Kept(m, m', u + 8, h[u].size) {
      HeaderOutside(h, base, end, u, b);
      InsideOther(h, base, end, u, b, b + size + 8);
    }
  }

  /** A word inside one block is in no other block's payload. */
  lemma InsideOther(h: Layout, base: int, end: int, u: int, b: int, w: int)
    requires Tiled(h, base, end) && u in h && b in h && u != b && b + 4 <= w < Next(h, b)
    ensures !(u + 8 <= w < u + 8 + h[u].size)
  {
    if u < b { HeadersApart(h, base, end, u, b); }
    if b < u { HeadersApart(h, base, end, b, u); }
  }

  /** block_absorb: the flags of the size word stay, the size grows; the block after is linked back. */
  function AbsorbSize(m: Memory, p: int, b: int): Memory {
    var w := HeaderWord(m, p) + SizeOf(HeaderWord(m, b)) + 4;
    if 0 <= w < WORD then m[p + 4 := w] else m
  }

  lemma AddToHeader(w: nat, d: nat)
    requires d % 4 == 0
    ensures SizeOf(w + d) == SizeOf(w) + d && FreeBit(w + d) == FreeBit(w) && PrevFreeBit(w + d) == PrevFreeBit(w)
  {
    var k := d / 4;
    assert w + d == w + 4 * k;
    assert (w + 4 * k) / 2 == w / 2 + 2 * k;
  }

  lemma AbsorbSizeEncoded(m: Memory, h: Layout, base: int, end: int, nil: int, p: int)
    requires Tiled(h, base, end) && Mapped(m, base, end, nil) && Encoded(m, h, base, {})
    requires p in h && p != end && Next(h, p) != end
    ensures var n := Next(h, p);
            && n in h && Next(h, n) in h
            && var m' := AbsorbSize(m, p, n);
            && Encoded(m', Absorb(h, p), base, {Next(h, n)}) && Mapped(m', base, end, nil)
            && (forall a :: a in h && a != p ==> HeaderWord(m', a) == HeaderWord(m, a))
            && LinksKept(h, m, m') && PayloadsKept(h, m, m', {})
  {
    hide NextLink, PrevLink, PayloadsKept, Tiled, Mapped, NextOf, HeaderEncoded, SizeOf, FreeBit, PrevFreeBit;
    HeaderFacts(m, h, base, end, nil, {}, p);
    var n := Next(h, p);
    HeaderFacts(m, h, base, end, nil, {}, n);
    AbsorbedWord(m[p + 4], m[n + 4]);
    var v := m[p + 4] + SizeOf(m[n + 4]) + 4;
    var m' := m[p + 4 := v];
    assert m' == AbsorbSize(m, p, n);
    HeaderWritePayloads(m, h, base, end, p, v);
    MappedWrite(m, base, end, nil, p + 4, v);
    hide AbsorbSize;
    forall a | a in h
      ensures a != n ==> HeaderEncoded(m', Absorb(h, p), base, a, a == Next(h, n))
      ensures a != p ==> HeaderWord(m', a) == HeaderWord(m, a)
      ensures NextLink(m', a) == NextLink(m, a) && PrevLink(m', a) == PrevLink(m, a)
    {
      HeadersFar(h, base, end, a, p);
      HeaderWriteReads(m, p, v, a);
      if a != n { AbsorbAt(m, h, base, end, p, v, a); }
    }
  }

  lemma AbsorbedWord(wp: Word, wn: Word)
    requires SizeOf(wp) + SizeOf(wn) + 8 < WORD
    ensures var v := wp + SizeOf(wn) + 4;
            0 <= v < WORD && SizeOf(v) == SizeOf(wp) + SizeOf(wn) + 4 && FreeBit(v) == FreeBit(wp)
            && PrevFreeBit(v) == PrevFreeBit(wp)
  {
    AddToHeader(wp, SizeOf(wn) + 4);
  }

  lemma AbsorbAt(m: Memory, h: Layout, base: int, end: int, p: int, v: Word, a: int)
    requires Tiled(h, base, end) && Encoded(m, h, base, {}) && p in h && Next(h, p) in h && Next(h, p) > p && p != end
    requires Next(h, p) != end
    requires Next(h, Next(h, p)) in h && a in h && a != Next(h, p)
    requires SizeOf(v) == h[p].size + h[Next(h, p)].size + 4 && FreeBit(v) == h[p].free
    requires PrevFreeBit(v) == PrevFreeBit(HeaderWord(m, p))
    ensures HeaderEncoded(m[p + 4 := v], Absorb(h, p), base, a, a == Next(h, Next(h, p)))
  {
    hide SizeOf, FreeBit, PrevFreeBit, Tiled, NextLink, PrevLink;
    HeadersFar(h, base, end, a, p);
    HeaderWriteReads(m, p, v, a);
    assert HeaderEncoded(m, h, base, a, false);
    if a != base && a != Next(h, Next(h, p)) { NotNext(h, base, end, a, Next(h, p)); }
    if a == p { assert Next(h, Next(h, p)) != p by { NextPrev(h, base, end, Next(h, p)); } }
  }

  // ----- composite steps

  lemma LinksKeptTrans(h: Layout, m: Memory, m': Memory, m'': Memory)
    requires LinksKept(h, m, m') && LinksKept(h, m', m'')
    ensures LinksKept(h, m, m'')
  {
    hide NextLink, PrevLink;
    forall f | f in h ensures NextLink(m'', f) == NextLink(m, f) && PrevLink(m'', f) == PrevLink(m, f) {
      assert NextLink(m', f) == NextLink(m, f) && PrevLink(m', f) == PrevLink(m, f);
    }
  }

  lemma LinksKeptSub(h: Layout, h': Layout, m: Memory, m': Memory)
    requires LinksKept(h', m, m') && forall a :: a in h ==> a in h'
    ensures LinksKept(h, m, m')
  {
    hide NextLink, PrevLink;
  }

  /** A frame over one layout is a frame over another with the same used blocks. */
  lemma PayloadsKeptSub(h: Layout, h': Layout, m: Memory, m': Memory, but: set<int>, but': set<int>)
    requires PayloadsKept(h', m, m', but')
    requires forall u {:trigger h[u]} :: u in h && !h[u].free && u !in but ==>
               u in h' && !h'[u].free && h'[u].size == h[u].size && u !in but'
    ensures PayloadsKept(h, m, m', but)
  {
    hide Kept;
    forall u | u in h && !h[u].free && u !in but ensures Kept(m, m', u + 8, h[u].size) {
      assert Kept(m, m', u + 8, h'[u].size);
    }
  }

  lemma PayloadsKeptMore(h: Layout, m: Memory, m': Memory, but: set<int>, but': set<int>)
    requires PayloadsKept(h, m, m', but) && but <= but'
    ensures PayloadsKept(h, m, m', but')
  {
    hide Kept;
  }

  lemma MarkFreeEncoded(m: Memory, h: Layout, base: int, end: int, nil: int, stale: set<int>, b: int)
    requires Tiled(h, base, end) && Mapped(m, base, end, nil) && Encoded(m, h, base, stale) && b in h && b != end
    ensures var m' := MarkFree(m, b);
            && Encoded(m', WithFree(h, b, true), base, stale - {Next(h, b)}) && Mapped(m', base, end, nil)
            && LinksKept(h, m, m') && PayloadsKept(h, m, m', {b})
  {
    hide Tiled, Mapped, Encoded, PayloadsKept, LinksKept, SizeOf, FreeBit, PrevFreeBit, NextOf, LinkNext,
      SetPrevFreeBit, SetFreeBit, Fetch, HeaderWord;
    LinkNextEncoded(m, h, base, end, nil, stale, b);
    NextPrev(h, base, end, b);
    var n := Next(h, b);
    var m1 := LinkNext(m, b);
    PrevFlagEncoded(m1, h, base, end, nil, stale, n, true);
    var m2 := SetPrevFreeBit(m1, n, true);
    SetFreeEncoded(m2, h, base, end, nil, stale + {n}, b, true);
    var m3 := SetFreeBit(m2, b, true);
    assert m3 == MarkFree(m, b);
    assert (stale + {n}) - {n} == stale - {n};
    LinksKeptTrans(h, m, m1, m2);
    LinksKeptTrans(h, m, m2, m3);
    PayloadsKeptMore(h, m1, m2, {}, {b});
    PayloadsKeptMore(h, m2, m3, {}, {b});
    PayloadsKeptTrans(h, m, m1, m2, {b});
    PayloadsKeptTrans(h, m, m2, m3, {b});
  }

  lemma MarkUsedEncoded(m: Memory, h: Layout, base: int, end: int, nil: int, stale: set<int>, b: int)
    requires Tiled(h, base, end) && Mapped(m, base, end, nil) && Encoded(m, h, base, stale) && b in h && b != end
    ensures NextOf(m, b) == Next(h, b)
    ensures var m' := MarkUsed(m, b);
            && Encoded(m', WithFree(h, b, false), base, stale - {Next(h, b)}) && Mapped(m', base, end, nil)
            && LinksKept(h, m, m') && PayloadsKept(h, m, m', {})
  {
    hide Tiled, Mapped, Encoded, PayloadsKept, LinksKept, SizeOf, FreeBit, PrevFreeBit, NextOf, SetPrevFreeBit,
      SetFreeBit, Fetch, HeaderWord;
    HeaderFacts(m, h, base, end, nil, stale, b);
    var n := Next(h, b);
    PrevFlagEncoded(m, h, base, end, nil, stale, n, false);
    var m2 := SetPrevFreeBit(m, n, false);
    SetFreeEncoded(m2, h, base, end, nil, stale + {n}, b, false);
    var m3 := SetFreeBit(m2, b, false);
    assert m3 == MarkUsed(m, b);
    assert (stale + {n}) - {n} == stale - {n};
    LinksKeptTrans(h, m, m2, m3);
    PayloadsKeptTrans(h, m, m2, m3, {});
  }

  /** block_split: afterwards only the new block's view of its predecessor is stale. */
  lemma SplitEncoded(m: Memory, h: Layout, base: int, end: int, nil: int, b: int, size: int)
    requires Tiled(h, base, end) && Mapped(m, base, end, nil) && Encoded(m, h, base, {}) && b in h && b != end
    requires size % 4 == 0 && size >= BLOCK_SIZE_MIN && h[b].size >= size + BLOCK_HEADER_SIZE
    ensures Next(h, b) in h
    ensures var m', h', r := MarkFree(SplitSizes(m, b, size), b + size + 4), Split(h, b, size, true), b + size + 4;
            && r !in h && Tiled(h', base, end) && Encoded(m', h', base, {r}) && Mapped(m', base, end, nil)
            && LinksKept(h, m, m') && PayloadsKept(h, m, m', {b}) && (!h[b].free ==> Kept(m, m', b + 8, size))
  {
    hide Tiled, Mapped, Encoded, PayloadsKept, LinksKept, SizeOf, FreeBit, PrevFreeBit, NextOf, MarkFree, SplitSizes,
      Fetch, HeaderWord, Kept;
    SplitSizesEncoded(m, h, base, end, nil, b, size);
    var g, r, n := FreeBit(HeaderWord(m, b + size + 4)), b + size + 4, Next(h, b);
    var m1, hg := SplitSizes(m, b, size), Split(h, b, size, g);
    SplitTiled(h, base, end, b, size, g);
    SplitTiled(h, base, end, b, size, true);
    assert Next(hg, r) == n;
    Ends(h, base, end);
    MarkFreeEncoded(m1, hg, base, end, nil, {r, n}, r);
    assert WithFree(hg, r, true) == Split(h, b, size, true);
    var m2 := MarkFree(m1, r);
    NextPrev(h, base, end, b);
    assert {r, n} - {n} == {r};
    LinksKeptSub(h, hg, m1, m2);
    LinksKeptTrans(h, m, m1, m2);
    PayloadsKeptSub(h, hg, m1, m2, {b}, {r});
    PayloadsKeptTrans(h, m, m1, m2, {b});
    if !h[b].free {
      PayloadOf(hg, m1, m2, {r}, b);
      KeptTrans(m, m1, m2, b + 8, size);
    }
  }

  lemma PayloadOf(h: Layout, m: Memory, m': Memory, but: set<int>, u: int)
    requires PayloadsKept(h, m, m', but) && u in h && !h[u].free && u !in but
    ensures Kept(m, m', u + 8, h[u].size)
  {}

  lemma KeptTrans(m: Memory, m': Memory, m'': Memory, lo: int, n: int)
    requires Kept(m, m', lo, n) && Kept(m', m'', lo, n)
    ensures Kept(m, m'', lo, n)
  {
    forall a | lo <= a < lo + n ensures Fetch(m'', a) == Fetch(m, a) {
      assert Fetch(m'', a) == Fetch(m', a);
    }
  }

  /** block_absorb of a free block: afterwards only the view that the following block has of its predecessor may
      be stale, and it is right when the absorbing block is free. */
  lemma AbsorbEncoded(m: Memory, h: Layout, base: int, end: int, nil: int, p: int)
    requires Tiled(h, base, end) && Mapped(m, base, end, nil) && Encoded(m, h, base, {})
    requires p in h && p != end && Next(h, p) != end && Next(h, p) in h && h[Next(h, p)].free
    ensures Next(h, Next(h, p)) in h
    ensures var n := Next(h, p); var m', h' := LinkNext(AbsorbSize(m, p, n), p), Absorb(h, p);
            && Tiled(h', base, end) && Mapped(m', base, end, nil)
            && Encoded(m', h', base, if h[p].free then {} else {Next(h, n)})
            && LinksKept(h', m, m') && PayloadsKept(h, m, m', {})
  {
    hide Tiled, Mapped, Encoded, PayloadsKept, LinksKept, SizeOf, FreeBit, NextOf, Fetch, HeaderWord, AbsorbSize,
      LinkNext;
    AbsorbTiled(h, base, end, p);
    AbsorbSizeEncoded(m, h, base, end, nil, p);
    var n := Next(h, p);
    var nn := Next(h, n);
    NextPrev(h, base, end, p);
    NextPrev(h, base, end, n);
    HeaderAt(m, h, base, {}, nn);
    var m1, h' := AbsorbSize(m, p, n), Absorb(h, p);
    assert Next(h', p) == nn;
    LinkNextEncoded(m1, h', base, end, nil, {nn}, p);
    var m2 := LinkNext(m1, p);
    LinksKeptSub(h', h, m, m1);
    LinksKeptTrans(h', m, m1, m2);
    LinkNextPayloads(m1, h, base, end, p, m2);
    PayloadsKeptTrans(h, m, m1, m2, {});
    if h[p].free {
      HeaderAt(m2, h', base, {nn}, nn);
      assert HeaderEncoded(m2, h', base, nn, false);
      Refresh(m2, h', base, {nn}, nn);
      assert {nn} - {nn} == {};
    }
  }

  lemma Ends(h: Layout, base: int, end: int)
    requires Tiled(h, base, end)
    ensures base in h && end in h && base < end && !h[end].free && h[end].size == 0
  {}

  lemma HeaderAt(m: Memory, h: Layout, base: int, stale: set<int>, a: int)
    requires Encoded(m, h, base, stale) && a in h
    ensures HeaderEncoded(m, h, base, a, a in stale)
  {
    var w := HeaderWord(m, a);
  }

  /** Linking the block after the absorbed one back to p writes into no used payload of the old layout. */
  lemma LinkNextPayloads(m1: Memory, h: Layout, base: int, end: int, p: int, m2: Memory)
    requires Tiled(h, base, end) && p in h && p != end && Next(h, p) in h && Next(h, p) != end && h[Next(h, p)].free
    requires m2 == LinkNext(m1, p) && NextOf(m1, p) == Next(h, Next(h, p))
    ensures PayloadsKept(h, m1, m2, {})
  {
    hide Tiled, NextOf;
    var n := Next(h, p);
    NextPrev(h, base, end, n);
    forall u | u in h && !h[u].free ensures Kept(m1, m2, u + 8, h[u].size) {
      NextInjective(h, base, end, n, u);
      OnlyBackWord(h, base, end, u, Next(h, n));
    }
  }

  // ----- the index across layout changes

  lemma SplitIndexed(m: Memory, m': Memory, h: Layout, lists: Table, out: set<int>, nil: int, b: int, size: int)
    requires Listed(h, lists, out) && AllLinked(m, lists, nil) && LinksKept(h, m, m')
    requires b in h && Next(h, b) in h && b + size + 4 !in h && (h[b].free ==> b in out) && Next(h, b) != b
    ensures Listed(Split(h, b, size, true), lists, out + {b + size + 4}) && AllLinked(m', lists, nil)
  {
    AllLinkedFrame(h, m, m', lists, out, nil);
    hide Listed, AllLinked, LinksKept;
    ListedFrame(h, Split(h, b, size, true), lists, out, out + {b + size + 4});
  }

  lemma AbsorbIndexed(m: Memory, m': Memory, h: Layout, lists: Table, out: set<int>, nil: int, p: int)
    requires Listed(h, lists, out) && AllLinked(m, lists, nil)
    requires p in h && Next(h, p) in h && Next(h, Next(h, p)) in h && (h[p].free ==> p in out) && Next(h, p) in out
    requires p < Next(h, p) < Next(h, Next(h, p))
    requires LinksKept(Absorb(h, p), m, m')
    ensures Listed(Absorb(h, p), lists, out - {Next(h, p)}) && AllLinked(m', lists, nil)
  {
    hide AllLinked, LinksKept;
    AbsorbListed(h, lists, out, p);
    AllLinkedFrame(Absorb(h, p), m, m', lists, out - {Next(h, p)}, nil);
  }

  lemma AbsorbListed(h: Layout, lists: Table, out: set<int>, p: int)
    requires Listed(h, lists, out)
    requires p in h && Next(h, p) in h && Next(h, Next(h, p)) in h && (h[p].free ==> p in out) && Next(h, p) in out
    requires p < Next(h, p) < Next(h, Next(h, p))
    ensures Listed(Absorb(h, p), lists, out - {Next(h, p)})
  {
    hide Listed;
    ListedFrame(h, Absorb(h, p), lists, out, out - {Next(h, p)});
  }

  lemma WithFreeIndexed(m: Memory, m': Memory, h: Layout, lists: Table, out: set<int>, nil: int, b: int, free: bool)
    requires Listed(h, lists, out) && AllLinked(m, lists, nil) && LinksKept(h, m, m') && b in h
    requires h[b].free ==> b in out
    ensures Listed(WithFree(h, b, free), lists, if free then out + {b} else out - {b}) && AllLinked(m', lists, nil)
  {
    AllLinkedFrame(h, m, m', lists, out, nil);
    hide Listed, AllLinked, LinksKept;
    ListedFrame(h, WithFree(h, b, free), lists, out, if free then out + {b} else out - {b});
  }

  /** What block_split needs of memory while it runs. */
  lemma SplitReady(m: Memory, h: Layout, base: int, end: int, nil: int, b: int, size: int)
    requires Tiled(h, base, end) && Mapped(m, base, end, nil) && Encoded(m, h, base, {}) && b in h && b != end
    requires size % 4 == 0 && size >= BLOCK_SIZE_MIN && h[b].size >= size + BLOCK_HEADER_SIZE
    ensures var r, m1 := b + size + 4, SplitSizes(m, b, size);
            && b + 4 in m && r + 4 in m && SizeOf(m[b + 4]) == h[b].size && 0 <= r < WORD
            && 0 <= h[b].size - (size + 4) && h[b].size < BLOCK_SIZE_MAX && h[b].size % 4 == 0
            && r + 4 in m1 && NextOf(m1, r) + 4 in m1
  {
    hide Tiled, Mapped, Encoded, PayloadsKept, LinksKept, FreeBit, PrevFreeBit, NextOf, SplitSizes, Kept, HeaderEncoded;
    var r, g := b + size + 4, FreeBit(HeaderWord(m, b + size + 4));
    HeaderFacts(m, h, base, end, nil, {}, b);
    SplitSizesEncoded(m, h, base, end, nil, b, size);
    SplitTiled(h, base, end, b, size, g);
    MappedAt(m, base, end, nil, r + 4);
    Ends(h, base, end);
    HeaderFacts(SplitSizes(m, b, size), Split(h, b, size, g), base, end, nil, {r, Next(h, b)}, r);
  }
}
