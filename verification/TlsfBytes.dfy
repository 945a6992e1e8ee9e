/** Where the bytes of a pool are: every byte belongs to a free block or to one that is held, header words included. */
module TlsfBytes {
  import opened TlsfLayout
  import opened TlsfCoalesce

  /** The bytes of the blocks at lo and above, but below hi, each with its header word. */
  ghost function Total(sizes: map<int, int>, lo: int, hi: int): int
    decreases hi - lo
  {
    if lo >= hi then 0 else (if lo in sizes then sizes[lo] + 4 else 0) + Total(sizes, lo + 1, hi)
  }

  lemma {:induction false} TotalWith(sizes: map<int, int>, a: int, n: int, lo: int, hi: int)
    ensures Total(sizes[a := n], lo, hi)
            == Total(sizes, lo, hi) + (if !(lo <= a < hi) then 0 else if a in sizes then n - sizes[a] else n + 4)
    decreases hi - lo
  {
    if lo < hi { TotalWith(sizes, a, n, lo + 1, hi); }
  }

  lemma {:induction false} TotalWithout(sizes: map<int, int>, a: int, lo: int, hi: int)
    ensures Total(sizes - {a}, lo, hi)
            == Total(sizes, lo, hi) - (if lo <= a < hi && a in sizes then sizes[a] + 4 else 0)
    decreases hi - lo
  {
    if lo < hi { TotalWithout(sizes, a, lo + 1, hi); }
  }

  lemma {:induction false} TotalSkip(sizes: map<int, int>, lo: int, mid: int, hi: int)
    requires lo <= mid <= hi && forall a :: lo <= a < mid ==> a !in sizes
    ensures Total(sizes, lo, hi) == Total(sizes, mid, hi)
    decreases mid - lo
  {
    if lo < mid { TotalSkip(sizes, lo + 1, mid, hi); }
  }

  ghost function FreeBlocks(h: Layout): map<int, int> {
    map a | a in h && h[a].free :: h[a].size
  }

  /** The bytes in free blocks. */
  ghost function FreeBytes(h: Layout, base: int, end: int): int {
    Total(FreeBlocks(h), base, end)
  }

  /** In every heap the bytes in free blocks and those in held ones are together those of the pool. */
  lemma Conservation(h: Layout, base: int, end: int)
    requires Tiled(h, base, end)
    ensures FreeBytes(h, base, end) + Total(Used(h), base, end) == end - base
  {
    assert base in h;
    hide Tiled;
    BytesFrom(h, base, end, base);
  }

  lemma {:induction false} BytesFrom(h: Layout, base: int, end: int, a: int)
    requires Tiled(h, base, end) && a in h
    ensures Total(FreeBlocks(h), a, end) + Total(Used(h), a, end) == end - a
    decreases end - a
  {
    hide Tiled, FreeBlocks, Used;
    AtMost(h, base, end, a);
    if a < end {
      var n := Next(h, a);
      NothingBetween(h, base, end, a);
      BytesFrom(h, base, end, n);
      BlockIs(h, a, n);
      TotalSkip(FreeBlocks(h), a + 1, n, end);
      TotalSkip(Used(h), a + 1, n, end);
    }
  }

  lemma AtMost(h: Layout, base: int, end: int, a: int)
    requires Tiled(h, base, end) && a in h
    ensures a <= end
  {
    hide Succeeded, Preceded, Apart;
  }

  lemma NothingBetween(h: Layout, base: int, end: int, a: int)
    requires Tiled(h, base, end) && a in h && a < end
    ensures Next(h, a) in h && a < Next(h, a) <= end && h[a].size > 0
    ensures forall b :: a < b < Next(h, a) ==> b !in h
  {
    assert Next(h, a) in h;
  }

  lemma BlockIs(h: Layout, a: int, n: int)
    requires a in h && h[a].size > 0 && forall b :: a < b < n ==> b !in h
    ensures h[a].free ==> a in FreeBlocks(h) && a !in Used(h) && FreeBlocks(h)[a] == h[a].size
    ensures !h[a].free ==> a in Used(h) && a !in FreeBlocks(h) && Used(h)[a] == h[a].size
    ensures forall b :: a < b < n ==> b !in FreeBlocks(h) && b !in Used(h)
  {}

  /** What is held grows by what the free blocks lose. */
  lemma Exchanged(h: Layout, h': Layout, base: int, end: int)
    requires Tiled(h, base, end) && Tiled(h', base, end)
    ensures FreeBytes(h, base, end) - FreeBytes(h', base, end) == Total(Used(h'), base, end) - Total(Used(h), base, end)
  {
    hide Tiled;
    Conservation(h, base, end);
    Conservation(h', base, end);
  }

  lemma HeldInPool(h: Layout, base: int, end: int, b: int)
    requires Tiled(h, base, end) && b in Used(h)
    ensures base <= b < end
  {
    hide Succeeded, Preceded, Apart;
  }

  /** One block more is held. */
  lemma TakenBytes(h: Layout, h': Layout, base: int, end: int, b: int)
    requires Tiled(h, base, end) && Tiled(h', base, end)
    requires b !in Used(h) && b in Used(h') && Used(h') == Used(h)[b := Used(h')[b]]
    ensures FreeBytes(h', base, end) == FreeBytes(h, base, end) - Used(h')[b] - 4
  {
    hide Tiled, Used, Total, FreeBytes;
    Exchanged(h, h', base, end);
    TotalWith(Used(h), b, Used(h')[b], base, end);
    HeldInPool(h', base, end, b);
  }

  /** One block less is held. */
  lemma GivenBytes(h: Layout, h': Layout, base: int, end: int, b: int)
    requires Tiled(h, base, end) && Tiled(h', base, end) && b in Used(h) && Used(h') == Used(h) - {b}
    ensures FreeBytes(h', base, end) == FreeBytes(h, base, end) + Used(h)[b] + 4
  {
    hide Tiled, Used, Total, FreeBytes;
    Exchanged(h, h', base, end);
    TotalWithout(Used(h), b, base, end);
    HeldInPool(h, base, end, b);
  }

  /** One block is held in place of another. */
  lemma ReplacedBytes(h: Layout, h': Layout, base: int, end: int, b: int, c: int)
    requires Tiled(h, base, end) && Tiled(h', base, end) && b in Used(h)
    requires c !in Used(h) - {b} && c in Used(h') && Used(h') == (Used(h) - {b})[c := Used(h')[c]]
    ensures FreeBytes(h', base, end) == FreeBytes(h, base, end) + Used(h)[b] - Used(h')[c]
  {
    hide Tiled, Used, Total, FreeBytes;
    Exchanged(h, h', base, end);
    TotalWithout(Used(h), b, base, end);
    TotalWith(Used(h) - {b}, c, Used(h')[c], base, end);
    HeldInPool(h, base, end, b);
    HeldInPool(h', base, end, c);
  }
}
