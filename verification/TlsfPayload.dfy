/** Writes to a held payload, by its owner or by memcpy, leave the heap's own words alone. */
module TlsfPayload {
  import opened Words
  import opened TlsfMapping
  import opened TlsfLayout
  import opened TlsfLists
  import opened TlsfMemory
  import opened TlsfCoalesce

  lemma PayloadWrite(m: Memory, h: Layout, base: int, end: int, nil: int, lists: Table, out: set<int>, b: int, w: int,
                     v: Word)
    requires Tiled(h, base, end) && Mapped(m, base, end, nil) && Encoded(m, h, base, {})
    requires Listed(h, lists, out) && AllLinked(m, lists, nil)
    requires b in Used(h) && b + 8 <= w < b + 8 + Used(h)[b]
    ensures var m' := m[w := v];
            && Encoded(m', h, base, {}) && Mapped(m', base, end, nil) && AllLinked(m', lists, nil)
            && HeldKept(Used(h) - {b}, m, m')
  {
    hide Tiled, Mapped, Used, Listed, AllLinked, HeldKept;
    UsedBlock(h, base, end, b);
    var m' := m[w := v];
    MappedWrite(m, base, end, nil, w, v);
    forall a | a in h
      ensures HeaderEncoded(m', h, base, a, false)
      ensures a != b ==> NextLink(m', a) == NextLink(m, a) && PrevLink(m', a) == PrevLink(m, a)
    {
      PayloadWord(h, base, end, b, w, a);
      assert HeaderEncoded(m, h, base, a, false);
      if a == Next(h, b) { NextPrev(h, base, end, b); }
    }
    AllLinkedFrameFree(h, m, m', lists, out, nil);
    forall u | u in h && !h[u].free && u != b ensures Kept(m, m', u + 8, h[u].size) {
      OtherPayload(h, base, end, b, u, w);
    }
    PayloadsAreHeldBut(h, m, m', b);
  }

  lemma OtherPayload(h: Layout, base: int, end: int, b: int, u: int, w: int)
    requires Tiled(h, base, end) && b in h && u in h && u != b && b != end && b + 8 <= w < b + 8 + h[b].size
    ensures !(u + 8 <= w < u + 8 + h[u].size)
  {
    NextPrev(h, base, end, b);
    if u < b { HeadersApart(h, base, end, u, b); }
    if b < u { HeadersApart(h, base, end, b, u); }
    if u != end { NextPrev(h, base, end, u); }
  }

  // ----- memcpy between payloads, word by word

  function CopyWords(m: Memory, dst: int, src: int, n: nat): Memory
    decreases n
  {
    if n < 4 then m
    else
      var m1 := CopyWords(m, dst, src, n - 4);
      if src + n - 4 in m then m1[dst + n - 4 := m[src + n - 4]] else m1
  }

  /** Word by word, [dst, dst + n) in m' is what [src, src + n) was in m. */
  ghost predicate Copied(m: Memory, src: int, m': Memory, dst: int, n: int) {
    forall a {:trigger Fetch(m', a)} :: dst <= a < dst + n && (a - dst) % 4 == 0 ==>
      Fetch(m', a) == Fetch(m, a - dst + src)
  }

  ghost predicate Readable(m: Memory, lo: int, n: int) {
    forall a {:trigger a in m} :: lo <= a < lo + n && (a - lo) % 4 == 0 ==> a in m
  }

  lemma {:induction false} CopyWordsCopies(m: Memory, dst: int, src: int, n: nat)
    requires n % 4 == 0 && Readable(m, src, n)
    ensures Copied(m, src, CopyWords(m, dst, src, n), dst, n)
  {
    if n >= 4 {
      CopyWordsCopies(m, dst, src, n - 4);
      assert (src + n - 4) in m by { FourLess(n); }
      var m1, m' := CopyWords(m, dst, src, n - 4), CopyWords(m, dst, src, n);
      forall a | dst <= a < dst + n && (a - dst) % 4 == 0 ensures Fetch(m', a) == Fetch(m, a - dst + src) {
        if a - dst < n - 4 { assert Fetch(m1, a) == Fetch(m, a - dst + src); } else { LastWord(a - dst, n); }
      }
    }
  }

  lemma FourLess(n: int)
    requires n % 4 == 0
    ensures (n - 4) % 4 == 0
  {}

  lemma LastWord(k: int, n: int)
    requires k % 4 == 0 && n % 4 == 0 && n - 4 <= k < n
    ensures k == n - 4
  {}

  /** Copying into a held payload leaves the heap and all other held payloads alone. */
  lemma {:induction false} CopyWordsHarmless(m: Memory, h: Layout, base: int, end: int, nil: int, lists: Table,
                                             out: set<int>, b: int, src: int, n: nat)
    requires Tiled(h, base, end) && Mapped(m, base, end, nil) && Encoded(m, h, base, {})
    requires Listed(h, lists, out) && AllLinked(m, lists, nil)
    requires b in Used(h) && n <= Used(h)[b]
    ensures var m' := CopyWords(m, b + 8, src, n);
            && Encoded(m', h, base, {}) && Mapped(m', base, end, nil) && AllLinked(m', lists, nil)
            && HeldKept(Used(h) - {b}, m, m')
  {
    hide Tiled, Mapped, Encoded, Used, Listed, AllLinked, HeldKept;
    HeldNothing(Used(h) - {b}, m);
    if n >= 4 {
      CopyWordsHarmless(m, h, base, end, nil, lists, out, b, src, n - 4);
      var m1 := CopyWords(m, b + 8, src, n - 4);
      if src + n - 4 in m {
        PayloadWrite(m1, h, base, end, nil, lists, out, b, b + 8 + n - 4, m[src + n - 4]);
        HeldKeptTrans(Used(h) - {b}, m, m1, CopyWords(m, b + 8, src, n));
      }
    }
  }

  lemma HeldNothing(used: map<int, int>, m: Memory)
    ensures HeldKept(used, m, m)
  {}

  /** Words of a held payload are mapped. */
  lemma PayloadMapped(m: Memory, h: Layout, base: int, end: int, nil: int, b: int, n: int)
    requires Tiled(h, base, end) && Mapped(m, base, end, nil) && b in Used(h) && n == Used(h)[b]
    ensures Readable(m, b + 8, n)
  {
    hide Mapped;
    UsedBlock(h, base, end, b);
    PayloadInPool(h, base, end, b);
    PoolReadable(m, base, end, nil, b, n);
  }

  lemma PoolReadable(m: Memory, base: int, end: int, nil: int, b: int, n: int)
    requires Mapped(m, base, end, nil) && base <= b && b % 4 == 0 && b + 8 + n <= end + 4
    ensures Readable(m, b + 8, n)
  {
    forall a | b + 8 <= a < b + 8 + n && (a - (b + 8)) % 4 == 0 ensures a in m {
      AlignedFrom(b, a);
    }
  }

  lemma AlignedFrom(b: int, a: int)
    requires b % 4 == 0 && (a - (b + 8)) % 4 == 0
    ensures a % 4 == 0
  {}

  lemma PayloadInPool(h: Layout, base: int, end: int, b: int)
    requires Tiled(h, base, end) && b in h && b != end
    ensures base <= b && b % 4 == 0 && b + 8 + h[b].size <= end + 4
  {
    NextPrev(h, base, end, b);
  }
}
