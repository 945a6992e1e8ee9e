/** The abstract heap of the TLSF allocator: the blocks of a pool in address order, the words that encode them,
    and the segregated free lists with their bitmaps (lib/tlsf/tlsf.c).

    A block is named by the address of its header.  The word at the header's address is prev_phys_block, which
    lies in the last payload word of the block before; the size word with its two flag bits is at offset 4, the
    payload starts at offset 8, and a free block keeps its list links in the first two payload words. */
module TlsfLayout {
  import opened Words
  import opened TlsfMapping

  type Word = w: nat | w < WORD
  type Memory = map<int, Word>

  datatype Block = Block(size: int, free: bool, prev: int)

  /** Header address to block.  The sentinel is the one block of size zero. */
  type Layout = map<int, Block>

  function Next(h: Layout, a: int): int
    requires a in h
  {
    a + h[a].size + 4
  }

  /** The blocks tile [base, end]: each block's successor is a block that names it as predecessor, and blocks do
      not overlap. */
  ghost predicate Tiled(h: Layout, base: int, end: int) {
    Bounded(h, base, end) && Succeeded(h, end) && Preceded(h, base, end) && Apart(h)
  }

  ghost predicate Bounded(h: Layout, base: int, end: int) {
    && base in h && end in h && 0 < base < end && base % 4 == 0
    && h[end].size == 0 && !h[end].free
    && end + 16 <= WORD && end - base - 4 < BLOCK_SIZE_MAX
    && (forall a {:trigger a in h} :: a in h ==> base <= a <= end && a % 4 == 0)
  }

  ghost predicate Succeeded(h: Layout, end: int) {
    forall a {:trigger Next(h, a)} :: a in h && a != end ==>
      h[a].size % 4 == 0 && h[a].size >= BLOCK_SIZE_MIN && Next(h, a) in h && h[Next(h, a)].prev == a
  }

  ghost predicate Preceded(h: Layout, base: int, end: int) {
    forall a {:trigger h[a].prev} :: a in h && a != base ==>
      h[a].prev in h && h[a].prev != end && Next(h, h[a].prev) == a
  }

  ghost predicate Apart(h: Layout) {
    forall a, b {:trigger Next(h, a), b in h} :: a in h && b in h && a < b ==> Next(h, a) <= b
  }

  // ----- header words

  function Enc(size: int, free: bool, prevFree: bool): int {
    size + (if free then 1 else 0) + (if prevFree then 2 else 0)
  }

  function SizeOf(w: int): int { w - w % 4 }
  predicate FreeBit(w: int) { w % 2 == 1 }
  predicate PrevFreeBit(w: int) { (w / 2) % 2 == 1 }

  lemma EncDecode(size: int, free: bool, prevFree: bool)
    requires size % 4 == 0
    ensures var w := Enc(size, free, prevFree);
            SizeOf(w) == size && FreeBit(w) == free && PrevFreeBit(w) == prevFree
  {}

  /** The pool and the list sentinel block_null are mapped memory. */
  ghost predicate Mapped(m: Memory, base: int, end: int, nil: int) {
    && (forall a {:trigger a in m} :: base + 4 <= a <= end + 4 && a % 4 == 0 ==> a in m)
    && 0 < nil && nil + 16 <= base && nil % 4 == 0
    && nil + 8 in m && nil + 12 in m
  }

  /** The word at an address; -1 where no memory is mapped. */
  function Fetch(m: Memory, a: int): int {
    if a in m then m[a] else -1
  }

  /** The size word of a block, flags included. */
  function HeaderWord(m: Memory, a: int): int {
    Fetch(m, a + 4)
  }

  ghost predicate PrevFree(h: Layout, base: int, a: int) {
    a in h && a != base && h[a].prev in h && h[h[a].prev].free
  }

  /** The header word of one block encodes it; `stale` excuses the flag that mirrors the predecessor and the back
      pointer. */
  ghost predicate HeaderEncoded(m: Memory, h: Layout, base: int, a: int, stale: bool)
    requires a in h
  {
    var w := HeaderWord(m, a);
    && w >= 0 && SizeOf(w) == h[a].size && FreeBit(w) == h[a].free
    && (!stale ==> PrevFreeBit(w) == PrevFree(h, base, a))
    && (!stale && PrevFree(h, base, a) ==> Fetch(m, a) == h[a].prev)
  }

  /** Every header word encodes its block, those in `stale` possibly with a wrong view of their predecessor. */
  ghost predicate Encoded(m: Memory, h: Layout, base: int, stale: set<int>) {
    forall a {:trigger HeaderWord(m, a)} :: a in h ==> HeaderEncoded(m, h, base, a, a in stale)
  }

  // ----- payload

  /** The words of [lo, lo + n) are the same in both memories. */
  ghost predicate Kept(m: Memory, m': Memory, lo: int, n: int) {
    forall a {:trigger Fetch(m', a)} :: lo <= a < lo + n ==> Fetch(m', a) == Fetch(m, a)
  }

  /** No payload of a used block outside `but` has changed. */
  ghost predicate PayloadsKept(h: Layout, m: Memory, m': Memory, but: set<int>) {
    forall u {:trigger h[u]} :: u in h && !h[u].free && u !in but ==> Kept(m, m', u + 8, h[u].size)
  }

  // ----- layout operations

  function WithFree(h: Layout, b: int, free: bool): Layout
    requires b in h
  {
    h[b := h[b].(free := free)]
  }

  /** Cut block b after `size` payload bytes; `free` says what the second part is. */
  function Split(h: Layout, b: int, size: int, free: bool): Layout
    requires b in h && Next(h, b) in h
  {
    var r, n := b + size + 4, Next(h, b);
    h[b := h[b].(size := size)][r := Block(h[b].size - size - 4, free, b)][n := h[n].(prev := r)]
  }

  /** Merge the block after b into b. */
  function Absorb(h: Layout, b: int): Layout
    requires b in h && Next(h, b) in h && Next(h, Next(h, b)) in h
  {
    var n := Next(h, b);
    var nn := Next(h, n);
    (h - {n})[b := h[b].(size := h[b].size + h[n].size + 4)][nn := h[nn].(prev := b)]
  }

  lemma SplitTiled(h: Layout, base: int, end: int, b: int, size: int, free: bool)
    requires Tiled(h, base, end)
    requires b in h && b != end
    requires size % 4 == 0 && size >= BLOCK_SIZE_MIN && h[b].size >= size + BLOCK_HEADER_SIZE
    ensures Next(h, b) in h && b + size + 4 !in h
    ensures Tiled(Split(h, b, size, free), base, end)
  {
    assert Next(h, b) in h && h[Next(h, b)].prev == b;
    SplitFresh(h, b, size);
    hide Apart;
    SplitBounded(h, base, end, b, size, free);
    SplitSucceeded(h, end, b, size, free);
    SplitPreceded(h, base, end, b, size, free);
    SplitApart(h, b, size, free);
  }

  lemma SplitFresh(h: Layout, b: int, size: int)
    requires Apart(h) && b in h && size >= 0 && h[b].size > size
    ensures b + size + 4 !in h
  {
    assert Next(h, b) > b + size + 4;
  }

  lemma SplitBounded(h: Layout, base: int, end: int, b: int, size: int, free: bool)
    requires Bounded(h, base, end) && b in h && b != end && Next(h, b) in h
    requires size % 4 == 0 && size >= 0 && h[b].size > size && b + size + 4 !in h
    ensures Bounded(Split(h, b, size, free), base, end)
  {}

  lemma SplitSucceeded(h: Layout, end: int, b: int, size: int, free: bool)
    requires Succeeded(h, end) && b in h && b != end && Next(h, b) in h && h[Next(h, b)].prev == b
    requires size % 4 == 0 && size >= BLOCK_SIZE_MIN && h[b].size >= size + BLOCK_HEADER_SIZE && b + size + 4 !in h
    ensures Succeeded(Split(h, b, size, free), end)
  {
    var r, n := b + size + 4, Next(h, b);
    var h' := Split(h, b, size, free);
    forall a | a in h' && a != end
      ensures h'[a].size % 4 == 0 && h'[a].size >= BLOCK_SIZE_MIN && Next(h', a) in h' && h'[Next(h', a)].prev == a
    {
      if a != b && a != r { assert Next(h', a) == Next(h, a); }
    }
  }

  lemma SplitPreceded(h: Layout, base: int, end: int, b: int, size: int, free: bool)
    requires Preceded(h, base, end) && b in h && b != end && Next(h, b) in h && h[Next(h, b)].prev == b
    requires size >= 0 && h[b].size >= size + BLOCK_HEADER_SIZE && b + size + 4 !in h && base in h && end in h
    ensures Preceded(Split(h, b, size, free), base, end)
  {
    var r, n := b + size + 4, Next(h, b);
    var h' := Split(h, b, size, free);
    forall a | a in h' && a != base
      ensures h'[a].prev in h' && h'[a].prev != end && Next(h', h'[a].prev) == a
    {
      if a != r && a != n { assert h'[a].prev == h[a].prev; }
    }
  }

  lemma SplitApart(h: Layout, b: int, size: int, free: bool)
    requires Apart(h) && b in h && Next(h, b) in h && size >= 0 && h[b].size >= size + BLOCK_HEADER_SIZE
    ensures Apart(Split(h, b, size, free))
  {
    var r, n := b + size + 4, Next(h, b);
    var h' := Split(h, b, size, free);
    forall x, y | x in h' && y in h' && x < y ensures Next(h', x) <= y {
      if x == b {}
        else if x == r { if y != r && y in h { assert b in h; } } else if y == r { assert Next(h, x) <= b || x > b; }
      else { assert Next(h', x) == Next(h, x); }
    }
  }

  lemma AbsorbTiled(h: Layout, base: int, end: int, b: int)
    requires Tiled(h, base, end)
    requires b in h && b != end && Next(h, b) != end
    ensures Next(h, b) in h && Next(h, Next(h, b)) in h
    ensures Tiled(Absorb(h, b), base, end)
  {
    var n := Next(h, b);
    assert n in h && h[n].prev == b;
    assert Next(h, n) in h && h[Next(h, n)].prev == n;
    AbsorbBounded(h, base, end, b);
    AbsorbSucceeded(h, end, b);
    AbsorbPreceded(h, base, end, b);
    AbsorbApart(h, b);
  }

  lemma AbsorbBounded(h: Layout, base: int, end: int, b: int)
    requires Bounded(h, base, end) && b in h && b != end
    requires Next(h, b) in h && b < Next(h, b) && Next(h, b) != end && Next(h, Next(h, b)) in h
    ensures Bounded(Absorb(h, b), base, end)
  {}

  lemma AbsorbSucceeded(h: Layout, end: int, b: int)
    requires Succeeded(h, end) && b in h && b != end && h[b].size >= 0
    requires Next(h, b) in h && h[Next(h, b)].prev == b && Next(h, b) != end
    requires Next(h, Next(h, b)) in h && h[Next(h, Next(h, b))].prev == Next(h, b)
    ensures Succeeded(Absorb(h, b), end)
  {
    var n := Next(h, b);
    var nn := Next(h, n);
    var h' := Absorb(h, b);
    assert h[n].size >= BLOCK_SIZE_MIN && h[n].size % 4 == 0 && nn != n;
    forall a | a in h' && a != end
      ensures h'[a].size % 4 == 0 && h'[a].size >= BLOCK_SIZE_MIN && Next(h', a) in h' && h'[Next(h', a)].prev == a
    {
      assert h[a].size >= BLOCK_SIZE_MIN && h[Next(h, a)].prev == a;
      assert Next(h', a) == if a == b then nn else Next(h, a);
    }
  }

  lemma AbsorbPreceded(h: Layout, base: int, end: int, b: int)
    requires Preceded(h, base, end) && b in h && b != end && Next(h, b) in h && h[Next(h, b)].prev == b
    requires b < Next(h, b) != end && base in h && base <= b && 0 <= h[Next(h, b)].size
    requires Next(h, Next(h, b)) in h && h[Next(h, Next(h, b))].prev == Next(h, b)
    ensures Preceded(Absorb(h, b), base, end)
  {
    var n := Next(h, b);
    var nn := Next(h, n);
    var h' := Absorb(h, b);
    forall a | a in h' && a != base
      ensures h'[a].prev in h' && h'[a].prev != end && Next(h', h'[a].prev) == a
    {
      if a != nn { assert h'[a].prev == h[a].prev; assert Next(h, h[a].prev) == a; }
    }
  }

  lemma AbsorbApart(h: Layout, b: int)
    requires Apart(h) && b in h && Next(h, b) in h && b < Next(h, b) && Next(h, Next(h, b)) in h
    ensures Apart(Absorb(h, b))
  {
    var n := Next(h, b);
    var nn := Next(h, n);
    var h' := Absorb(h, b);
    forall x, y | x in h' && y in h' && x < y ensures Next(h', x) <= y {
      if x == b { assert n <= y; assert nn <= y; } else { assert Next(h', x) == Next(h, x); }
    }
  }

  lemma WithFreeTiled(h: Layout, base: int, end: int, b: int, free: bool)
    requires Tiled(h, base, end) && b in h && b != end
    ensures Tiled(WithFree(h, b, free), base, end)
  {
    hide Apart;
    WithFreeSucceeded(h, end, b, free);
    WithFreePreceded(h, base, end, b, free);
    WithFreeApart(h, b, free);
  }

  lemma WithFreeApart(h: Layout, b: int, free: bool)
    requires Apart(h) && b in h
    ensures Apart(WithFree(h, b, free))
  {
    var h' := WithFree(h, b, free);
    forall x, y | x in h' && y in h' && x < y ensures Next(h', x) <= y { assert Next(h', x) == Next(h, x); }
  }

  lemma WithFreeSucceeded(h: Layout, end: int, b: int, free: bool)
    requires Succeeded(h, end) && b in h
    ensures Succeeded(WithFree(h, b, free), end)
  {
    var h' := WithFree(h, b, free);
    forall a | a in h' && a != end
      ensures h'[a].size % 4 == 0 && h'[a].size >= BLOCK_SIZE_MIN && Next(h', a) in h' && h'[Next(h', a)].prev == a
    {
      assert Next(h', a) == Next(h, a);
    }
  }

  lemma WithFreePreceded(h: Layout, base: int, end: int, b: int, free: bool)
    requires Preceded(h, base, end) && b in h
    ensures Preceded(WithFree(h, b, free), base, end)
  {
    var h' := WithFree(h, b, free);
    forall a | a in h' && a != base
      ensures h'[a].prev in h' && h'[a].prev != end && Next(h', h'[a].prev) == a
    {
      assert h'[a].prev == h[a].prev;
    }
  }

  /** Two headers are at least a minimal free block apart. */
  lemma HeadersApart(h: Layout, base: int, end: int, a: int, b: int)
    requires Tiled(h, base, end) && a in h && b in h && a < b
    ensures a != end && a + 16 <= Next(h, a) <= b
  {
    assert Next(h, a) <= b;
  }
}
