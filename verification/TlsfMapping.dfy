/** The size classes of the TLSF heap (lib/tlsf/tlsf.c): bit scans, alignment, and the mapping from a block
    size to a first-level row and a second-level column. */
module TlsfMapping {
  import opened Words

  const ALIGN_SIZE: nat := 4
  const SL_INDEX_COUNT: nat := 32
  const FL_INDEX_SHIFT: nat := 7
  const FL_INDEX_COUNT: nat := 24
  const SMALL_BLOCK_SIZE: nat := 128
  const CLASSES: nat := FL_INDEX_COUNT * SL_INDEX_COUNT

  const BLOCK_HEADER_OVERHEAD: nat := 4
  const BLOCK_HEADER_SIZE: nat := 16
  const BLOCK_START_OFFSET: nat := 8
  const BLOCK_SIZE_MIN: nat := 12
  const BLOCK_SIZE_MAX: nat := 0x4000_0000

  // ----- bit scans

  /** The number of significant bits of a number. */
  function BitLength(w: nat): nat {
    if w == 0 then 0 else 1 + BitLength(w / 2)
  }

  lemma {:induction false} BitLengthBounds(w: nat)
    requires w > 0
    ensures BitLength(w) > 0 && Pow2(BitLength(w) - 1) <= w < Pow2(BitLength(w))
  {
    if w > 1 { BitLengthBounds(w / 2); }
  }

  lemma BitLengthUnique(w: nat, n: nat)
    requires Pow2(n) <= w < Pow2(n + 1)
    ensures BitLength(w) == n + 1
  {
    BitLengthBounds(w);
    Log2Unique(w, n, BitLength(w) - 1);
  }

  lemma {:induction false} BitLengthShift(w: nat, k: nat)
    requires w > 0
    ensures w * Pow2(k) > 0 && BitLength(w * Pow2(k)) == BitLength(w) + k
  {
    if k > 0 {
      BitLengthShift(w, k - 1);
      MulDouble(w, Pow2(k - 1));
      BitLengthDouble(w * Pow2(k - 1));
    }
  }

  lemma BitLengthDouble(x: nat)
    requires x > 0
    ensures BitLength(2 * x) == BitLength(x) + 1
  {
    assert (2 * x) / 2 == x;
  }

  /** The test against a mask of the high bits is a comparison. */
  lemma HighBitsTest(word: nat, k: nat)
    requires k <= 32 && word < WORD
    ensures Pow2(k) <= WORD
    ensures And(word, WORD - Pow2(k)) == 0 <==> word < Pow2(k)
  {
    Pow2Values();
    AndHighMask(word, k, 32);
    if word < Pow2(k) { LowBitsAll(word, k); }
  }

  lemma ShlFits(word: nat, k: nat)
    requires k <= 32 && word < Pow2(32 - k)
    ensures Shl(word, k) == word * Pow2(k) < WORD
  {
    hide Pow2;
    Pow2Values();
    Pow2Add(32 - k, k);
    MulStep(Pow2(k), word, Pow2(32 - k));
  }

  lemma ShiftedAtLeast(word: nat, k: nat, lo: nat)
    requires word >= Pow2(lo)
    ensures word * Pow2(k) >= Pow2(lo + k)
  {
    Pow2Add(lo, k);
    MulMono(Pow2(k), Pow2(lo), word);
  }

  /** One round of the binary search for the highest set bit: if the k high bits of the word, which are the
      bits of the mask, are clear, they are shifted out.  The round keeps the sum of the bit counter and the
      word's bit length, and leaves a word that reaches the mask. */
  method FlsRound(word: nat, bit: int, mask: nat, k: nat) returns (w: nat, b: int)
    requires 0 < k <= 16 && word < WORD && mask == WORD - Pow2(32 - k)
    ensures word == 0 ==> w == 0 && b == bit - k
    ensures word >= Pow2(32 - 2 * k) ==> Pow2(32 - k) <= w < WORD && BitLength(w) + b == BitLength(word) + bit
  {
    w, b := word, bit;
    HighBitsTest(word, 32 - k);
    if And(w, mask) == 0 {
      ShlFits(word, k);
      w := Shl(w, k);
      b := b - k;
      hide And, Pow2, BitLength, Shl;
      if word >= Pow2(32 - 2 * k) {
        ShiftedAtLeast(word, k, 32 - 2 * k);
        BitLengthShift(word, k);
      } else if word == 0 {
        assert 0 * Pow2(k) == 0;
      }
    }
  }

  /** tlsf_fls_generic: the number of bits up to the highest set one. */
  method FlsGeneric(word: nat) returns (bit: int)
    requires word < WORD
    ensures bit == BitLength(word)
  {
    Pow2Values();
    bit := 32;
    if word == 0 { bit := bit - 1; }
    var w := word;
    hide Pow2;
    w, bit := FlsRound(w, bit, 0xffff_0000, 16);
    w, bit := FlsRound(w, bit, 0xff00_0000, 8);
    w, bit := FlsRound(w, bit, 0xf000_0000, 4);
    w, bit := FlsRound(w, bit, 0xc000_0000, 2);
    w, bit := FlsRound(w, bit, 0x8000_0000, 1);
    if word > 0 { BitLengthUnique(w, 31); }
  }

  /** tlsf_fls: the exponent of the largest power of two not above the word, or -1. */
  method Fls(word: nat) returns (r: int)
    requires word < WORD
    ensures word == 0 ==> r == -1
    ensures word > 0 ==> 0 <= r < 32 && Pow2(r) <= word < Pow2(r + 1) && r == Log2(word)
  {
    r := FlsGeneric(word);
    r := r - 1;
    if word > 0 { Log2Bounds(word); }
  }

  /** tlsf_ffs: the lowest set bit, or -1. */
  method Ffs(word: nat) returns (r: int)
    requires word < WORD
    ensures word == 0 ==> r == -1
    ensures word > 0 ==> 0 <= r < 32 && Bit(word, r) && forall i: nat | i < r :: !Bit(word, i)
  {
    hide And, Bit, Pow2, BitLength;
    AndBound(word, (Not(word) + 1) % WORD);
    r := FlsGeneric(And(word, (Not(word) + 1) % WORD));
    r := r - 1;
    if word > 0 { var k := Isolated(word); } else { BitLengthOfZero(); }
  }

  lemma BitLengthOfZero()
    ensures BitLength(And(0, (Not(0) + 1) % WORD)) == 0
  {}

  /** A word and its negative have just the lowest set bit of the word in common. */
  lemma Isolated(word: nat) returns (k: nat)
    requires 0 < word < WORD
    ensures k < 32 && Bit(word, k) && forall i: nat | i < k :: !Bit(word, i)
    ensures BitLength(And(word, (Not(word) + 1) % WORD)) == k + 1
  {
    Pow2Values();
    hide And, Bit, Pow2, BitLength;
    k := LowestBit(word, 32);
    assert (Not(word) + 1) % WORD == Pow2(32) - word;
    BitLengthOfPow2(k);
  }

  lemma BitLengthOfPow2(k: nat)
    ensures BitLength(Pow2(k)) == k + 1
  {
    BitLengthUnique(Pow2(k), k);
  }

  /** Floor of the base-two logarithm. */
  function Log2(w: nat): int {
    BitLength(w) - 1
  }

  lemma Log2Bounds(w: nat)
    requires 0 < w < WORD
    ensures 0 <= Log2(w) < 32 && Pow2(Log2(w)) <= w < Pow2(Log2(w) + 1)
  {
    Pow2Values();
    BitLengthBounds(w);
    if BitLength(w) > 32 { if BitLength(w) > 33 { Pow2Mono(32, BitLength(w) - 1); } }
  }

  lemma MulMono(s: nat, a: nat, b: nat)
    requires a <= b
    ensures s * a <= s * b
  {
    assert s * b == s * a + s * (b - a);
  }

  lemma Log2Unique(w: nat, a: nat, b: nat)
    requires Pow2(a) <= w < Pow2(a + 1)
    requires Pow2(b) <= w < Pow2(b + 1)
    ensures a == b
  {
    if a < b { if a + 1 < b { Pow2Mono(a + 1, b); } }
    if b < a { if b + 1 < a { Pow2Mono(b + 1, a); } }
  }

  // ----- alignment

  /** align is a power of two that fits in a word. */
  predicate IsAlignment(align: nat) {
    exists k: nat :: k < 32 && align == Pow2(k)
  }

  /** (x + (align - 1)) & ~(align - 1). */
  function AlignUp(x: nat, align: nat): nat
    requires 0 < align <= WORD
  {
    And((x + (align - 1)) % WORD, Not(align - 1))
  }

  function AlignDown(x: nat, align: nat): int
    requires 0 < align
  {
    x - And(x, align - 1)
  }

  predicate Multiple(x: nat, d: nat) {
    d > 0 && x % d == 0
  }

  /** AlignUp gives the least multiple of the alignment that is not below x. */
  lemma AlignUpIsLeastMultiple(x: nat, align: nat)
    requires IsAlignment(align) && x + align <= WORD
    ensures 0 < align && Multiple(AlignUp(x, align), align)
    ensures x <= AlignUp(x, align) < x + align
  {
    hide And, Pow2, Multiple;
    var k: nat :| k < 32 && align == Pow2(k);
    AlignUpMask(x + (align - 1), k);
    FloorIsMultiple(x + (align - 1), align);
  }

  lemma AlignUpMask(y: nat, k: nat)
    requires k < 32 && y < WORD
    ensures Pow2(k) <= WORD && And(y, Not(Pow2(k) - 1)) == y - y % Pow2(k)
  {
    Pow2Values();
    AndHighMask(y, k, 32);
    LowBitsIsMod(y, k);
  }

  lemma FloorIsMultiple(y: nat, d: nat)
    requires d > 0
    ensures 0 <= y % d < d && y % d <= y && Multiple(y - y % d, d)
  {
    DivModIdentity(y, d);
    DivModUnique(y - y % d, d, y / d, 0);
  }

  /** AlignDown gives the largest multiple of the alignment that is not above x. */
  lemma AlignDownIsGreatestMultiple(x: nat, align: nat)
    requires IsAlignment(align)
    ensures 0 < align && AlignDown(x, align) >= 0 && Multiple(AlignDown(x, align), align)
    ensures AlignDown(x, align) <= x < AlignDown(x, align) + align
  {
    hide And, Pow2, Multiple;
    var k: nat :| k < 32 && align == Pow2(k);
    AndLowMask(x, k);
    LowBitsIsMod(x, k);
    FloorIsMultiple(x, align);
  }

  lemma FourIsAlignment()
    ensures IsAlignment(4)
  {
    assert Pow2(2) == 4;
  }

  lemma TimesEight(k: nat)
    ensures Pow2(k + 3) == 8 * Pow2(k)
  {
    assert Pow2(k + 3) == 2 * Pow2(k + 2);
  }

  lemma MultipleOfMultiple(x: nat, align: nat, d: nat)
    requires Multiple(align, d) && Multiple(x, align)
    ensures Multiple(x, d)
  {
    var p, q := align / d, x / align;
    DivModIdentity(align, d);
    DivModIdentity(x, align);
    assert (d * p) * q == d * (p * q);
    DivModUnique(x, d, p * q, 0);
  }

  /** An alignment above four bytes is a multiple of eight, so its multiples are word-aligned. */
  lemma LargeAlignment(align: nat)
    requires IsAlignment(align) && align > ALIGN_SIZE
    ensures align >= 8 && Multiple(align, 4) && (align < 16 ==> align == 8)
  {
    var k: nat :| k < 32 && align == Pow2(k);
    AboveTwo(k);
    hide Pow2;
    TimesEight(k - 3);
  }

  lemma AboveTwo(k: nat)
    requires Pow2(k) > 4
    ensures k >= 3 && (k > 3 ==> Pow2(k) >= 16) && Pow2(3) == 8
  {
    assert Pow2(2) == 4 && Pow2(3) == 8;
    Pow2Less(2, k);
    if k > 3 { Pow2Mono(3, k); }
  }

  lemma SmallAlignment(align: nat)
    requires IsAlignment(align) && align <= ALIGN_SIZE
    ensures align == 1 || align == 2 || align == 4
  {
    var k: nat :| k < 32 && align == Pow2(k);
    assert Pow2(3) == 8;
    if k > 3 { Pow2Mono(3, k); }
    assert Pow2(0) == 1 && Pow2(1) == 2 && Pow2(2) == 4;
  }

  /** Multiples of d that are less than d apart are equal. */
  lemma MultiplesApart(x: nat, y: nat, d: nat)
    requires Multiple(x, d) && Multiple(y, d) && x <= y < x + d
    ensures x == y
  {
    var p, q := x / d, y / d;
    DivModIdentity(x, d);
    DivModIdentity(y, d);
    if p < q { MulStep(d, p, q); }
    if q < p { MulStep(d, q, p); }
  }

  /** Below the top of the address space, an aligned address has its whole aligned unit below the top. */
  lemma AlignedRoom(x: nat, align: nat)
    requires IsAlignment(align) && x < WORD && Multiple(x, align)
    ensures x + align <= WORD
  {
    hide Pow2;
    var k: nat :| k < 32 && align == Pow2(k);
    Pow2Values();
    Pow2Add(k, 32 - k);
    RoomBelow(x, align, Pow2(32 - k));
  }

  lemma RoomBelow(x: nat, d: nat, p: nat)
    requires d > 0 && x % d == 0 && x < d * p
    ensures x + d <= d * p
  {
    DivModIdentity(x, d);
    StepBelow(d, x / d, p);
  }

  lemma StepBelow(d: nat, q: nat, p: nat)
    requires d * q < d * p
    ensures d * q + d <= d * p
  {
    if q >= p { MulMono(d, p, q); }
    MulStep(d, q, p);
  }

  lemma AlignUpExact(x: nat, align: nat)
    requires IsAlignment(align) && x < WORD && Multiple(x, align)
    ensures 0 < align <= WORD && AlignUp(x, align) == x
  {
    AlignedRoom(x, align);
    AlignUpIsLeastMultiple(x, align);
    hide AlignUp;
    MultiplesApart(x, AlignUp(x, align), align);
  }

  function AdjustRequestSize(size: nat, align: nat): nat
    requires 0 < align <= WORD
  {
    if size > 0 && size < BLOCK_SIZE_MAX then
      var aligned := AlignUp(size, align);
      if aligned > BLOCK_SIZE_MIN then aligned else BLOCK_SIZE_MIN
    else 0
  }

  /** What malloc asks of the heap for a request of this many bytes. */
  function Request(size: nat): nat {
    AdjustRequestSize(size, ALIGN_SIZE)
  }

  lemma RequestCovers(size: nat)
    ensures Request(size) == 0 <==> size == 0 || size >= 0x4000_0000
    ensures Request(size) > 0 ==> Request(size) >= size && Request(size) % 4 == 0 && 12 <= Request(size) <= 0x4000_0000
    ensures Request(size) > 12 ==> Request(size) < size + 4
  {
    if 0 < size < BLOCK_SIZE_MAX {
      FourIsAlignment();
      AlignUpIsLeastMultiple(size, 4);
    }
  }

  // ----- size classes

  datatype Index = Index(fl: nat, sl: nat) {
    /** Row-major position in the table of free-list heads. */
    function Flat(): nat { fl * 32 + sl }
  }

  function MappingInsert(size: nat): Index
    requires size < WORD
  {
    if size < SMALL_BLOCK_SIZE then
      Index(0, size / (SMALL_BLOCK_SIZE / SL_INDEX_COUNT))
    else
      Log2Bounds(size);
      var fl := Log2(size);
      Log2AtLeast(size, 7);
      Index(fl - (FL_INDEX_SHIFT - 1), Xor(Shr(size, fl - 5), 32))
  }

  lemma Log2AtLeast(size: nat, k: nat)
    requires Pow2(k) <= size < WORD
    ensures Log2(size) >= k
  {
    Log2Bounds(size);
    if Log2(size) < k && Log2(size) + 1 < k { Pow2Mono(Log2(size) + 1, k); }
  }

  function SearchRound(size: nat): nat
    requires size < WORD
  {
    if size >= SMALL_BLOCK_SIZE then
      Log2Bounds(size);
      Log2AtLeast(size, 7);
      Pow2(Log2(size) - 5) - 1
    else 0
  }

  function MappingSearch(size: nat): Index
    requires size < WORD && size + SearchRound(size) < WORD
  {
    MappingInsert(size + SearchRound(size))
  }

  lemma XorTop(x: nat)
    requires 32 <= x < 64
    ensures Xor(x, 32) == x - 32
  {
    // five halvings of x and 32 leave 1 and 1
    assert Xor(x / 32, 1) == 0;
    assert Xor(x / 16, 2) == x / 16 - 2;
    assert Xor(x / 8, 4) == x / 8 - 4;
    assert Xor(x / 4, 8) == x / 4 - 8;
    assert Xor(x / 2, 16) == x / 2 - 16;
  }

  /** The smallest size of a class, as the class's table position alone determines it. */
  function ClassFloor(c: nat): nat {
    var fl, sl := c / 32, c % 32;
    if fl == 0 then 4 * sl else Pow2(fl + 1) * (32 + sl)
  }

  lemma QuotientRange(size: nat, d: nat, lo: nat, hi: nat)
    requires d > 0 && d * lo <= size < d * hi
    ensures lo <= size / d < hi
    ensures d * (size / d) <= size < d * (size / d) + d
  {
    var q := size / d;
    assert size == d * q + size % d;
    if q < lo { MulStep(d, q, lo); }
    if q >= hi { MulMono(d, hi, q); }
  }

  lemma ScaleBy32(k: nat)
    ensures Pow2(k + 5) == Pow2(k) * 32 && Pow2(k + 6) == Pow2(k) * 64
  {
    assert Pow2(k + 5) == 2 * Pow2(k + 4) == 4 * Pow2(k + 3) == 8 * Pow2(k + 2) == 16 * Pow2(k + 1);
  }

  /** The class of a size in closed form: large sizes keep their five bits below the top one. */
  lemma MappingInsertShape(size: nat)
    requires SMALL_BLOCK_SIZE <= size < WORD
    ensures var f := Log2(size); var m := MappingInsert(size);
            && 7 <= f < 32 && m.fl == f - 6 && 0 <= m.sl < 32
            && Pow2(f) <= size < Pow2(f + 1)
            && Pow2(f - 5) * (32 + m.sl) <= size < Pow2(f - 5) * (32 + m.sl) + Pow2(f - 5)
  {
    var f := Log2(size);
    Log2Bounds(size);
    assert Pow2(7) == 128;
    Log2AtLeast(size, 7);
    ScaleBy32(f - 5);
    ShrIsDiv(size, f - 5);
    QuotientRange(size, Pow2(f - 5), 32, 64);
    XorTop(size / Pow2(f - 5));
  }

  /** A class is an interval of sizes: MappingInsert sends every size to a class whose floor it reaches, and
      every size below the next class's floor. */
  lemma ClassInterval(size: nat)
    requires size < BLOCK_SIZE_MAX
    ensures var m := MappingInsert(size);
            && 0 <= m.fl < FL_INDEX_COUNT && 0 <= m.sl < SL_INDEX_COUNT
            && ClassFloor(m.Flat()) <= size < ClassFloor(m.Flat() + 1)
  {
    var m := MappingInsert(size);
    if size < SMALL_BLOCK_SIZE {
      assert m == Index(0, size / 4);
      assert Pow2(2) == 4;
      var c := m.Flat();
      if c == 31 { assert ClassFloor(32) == 128; }
    } else {
      hide MappingInsert, Log2;
      MappingInsertShape(size);
      var f := Log2(size);
      RowBound(size, f);
      FlatFloor(m.fl, m.sl);
      NextFloor(m.fl, m.sl);
    }
  }

  lemma RowBound(size: nat, f: nat)
    requires Pow2(f) <= size < BLOCK_SIZE_MAX
    ensures f < 30
  {
    Pow2Values();
    Pow2Less(f, 30);
  }

  lemma FlatFloor(fl: nat, sl: nat)
    requires 0 < fl && sl < 32
    ensures ClassFloor(Index(fl, sl).Flat()) == Pow2(fl + 1) * (32 + sl)
  {
    var c := fl * 32 + sl;
    assert c / 32 == fl && c % 32 == sl;
  }

  lemma NextFloor(fl: nat, sl: nat)
    requires 0 < fl && sl < 32
    ensures ClassFloor(Index(fl, sl).Flat() + 1) == Pow2(fl + 1) * (32 + sl) + Pow2(fl + 1)
  {
    var d := Pow2(fl + 1);
    if sl < 31 {
      FlatFloor(fl, sl + 1);
      assert d * (33 + sl) == d * (32 + sl) + d;
    } else {
      FlatFloor(fl + 1, 0);
      assert Index(fl, 31).Flat() + 1 == Index(fl + 1, 0).Flat();
      assert Pow2(fl + 2) == 2 * d;
      assert (2 * d) * 32 == d * 63 + d;
    }
  }

  lemma {:induction false} ClassFloorMono(c: nat, d: nat)
    requires c <= d
    ensures ClassFloor(c) <= ClassFloor(d)
    decreases d - c
  {
    if c < d {
      ClassFloorMono(c + 1, d);
      var fl, sl := c / 32, c % 32;
      if sl == 31 {
        assert (c + 1) / 32 == fl + 1 && (c + 1) % 32 == 0;
        assert Pow2(2) == 4;
        assert Pow2(fl + 2) == 2 * Pow2(fl + 1);
      } else {
        assert (c + 1) / 32 == fl && (c + 1) % 32 == sl + 1;
        assert Pow2(fl + 1) * (33 + sl) == Pow2(fl + 1) * (32 + sl) + Pow2(fl + 1);
      }
    }
  }

  /** Larger sizes are in later classes, and a later class holds only larger sizes. */
  lemma MappingMonotone(a: nat, b: nat)
    requires a < BLOCK_SIZE_MAX && b < BLOCK_SIZE_MAX
    ensures a <= b ==> MappingInsert(a).Flat() <= MappingInsert(b).Flat()
  {
    ClassInterval(a);
    ClassInterval(b);
    var c, d := MappingInsert(a).Flat(), MappingInsert(b).Flat();
    if a <= b && d < c { ClassFloorMono(d + 1, c); }
  }

  lemma Log2Between(size: nat, f: nat)
    requires Pow2(f) <= size < Pow2(f + 1) && size < WORD
    ensures Log2(size) == f
  {
    BitLengthUnique(size, f);
  }

  /** The floor of the class of a large size, in terms of its row. */
  lemma ClassFloorOfLarge(size: nat)
    requires SMALL_BLOCK_SIZE <= size < BLOCK_SIZE_MAX
    ensures var f := Log2(size); var m := MappingInsert(size);
            7 <= f && ClassFloor(m.Flat()) == Pow2(f - 5) * (32 + m.sl) && m.Flat() / 32 == f - 6
  {
    hide MappingInsert, Log2;
    MappingInsertShape(size);
    var m := MappingInsert(size);
    FlatFloor(m.fl, m.sl);
    assert m.Flat() / 32 == m.fl && m.Flat() % 32 == m.sl;
  }

  /** Rounding up within the row reaches the floor of a class that is not below the size. */
  lemma RoundedFloor(size: nat, f: nat, s: nat)
    requires 7 <= f && Pow2(f) <= size && s == size + (Pow2(f - 5) - 1) && s < BLOCK_SIZE_MAX
    requires size < Pow2(f + 1)
    ensures ClassFloor(MappingInsert(s).Flat()) >= size
  {
    hide Pow2, Log2, MappingInsert, ClassFloor;
    ScaleBy32(f - 5);
    ScaleBy32(f - 4);
    assert s >= SMALL_BLOCK_SIZE by { Pow2Values(); if f > 7 { Pow2Mono(7, f); } }
    MappingInsertShape(s);
    ClassFloorOfLarge(s);
    if s < Pow2(f + 1) {
      Log2Between(s, f);
    } else {
      // rounding up crossed a power of two; the class floor is that power
      Log2Between(s, f + 1);
      MulMono(Pow2(f - 4), 32, 32 + MappingInsert(s).sl);
    }
  }

  /** The floor of the class that a search starts from is at least the size searched for. */
  lemma SearchClassFloor(size: nat)
    requires 0 < size && size < WORD && size + SearchRound(size) < BLOCK_SIZE_MAX
    requires size % 4 == 0
    ensures ClassFloor(MappingSearch(size).Flat()) >= size
  {
    if size >= SMALL_BLOCK_SIZE { SearchLargeFloor(size); } else { hide Log2, Pow2; }
  }

  lemma SearchLargeFloor(size: nat)
    requires SMALL_BLOCK_SIZE <= size && size < WORD && size + SearchRound(size) < BLOCK_SIZE_MAX
    ensures ClassFloor(MappingSearch(size).Flat()) >= size
  {
    hide Log2, MappingInsert, ClassFloor, Pow2;
    MappingInsertShape(size);
    RoundedFloor(size, Log2(size), size + SearchRound(size));
  }

  /** A good fit without looking at sizes: any block whose class is at or after the class a search starts from
      is large enough for the request. */
  lemma SearchedClassFits(size: nat, blockSize: nat)
    requires 0 < size < WORD && size % 4 == 0 && size + SearchRound(size) < BLOCK_SIZE_MAX
    requires blockSize < BLOCK_SIZE_MAX
    requires MappingSearch(size).Flat() <= MappingInsert(blockSize).Flat()
    ensures size <= blockSize
  {
    hide Log2, MappingInsert, SearchRound;
    SearchClassFloor(size);
    ClassInterval(blockSize);
    ClassInterval(size + SearchRound(size));
    ClassFloorMono(MappingSearch(size).Flat(), MappingInsert(blockSize).Flat());
  }

  /** The largest request whose search stays inside the 24 rows of the table. */
  const MAX_REQUEST: nat := BLOCK_SIZE_MAX - 0x100_0000

  /** A search stays inside the table exactly up to MAX_REQUEST; beyond it the code would read row 24. */
  lemma SearchInTableIff(size: nat)
    requires 0 < size < BLOCK_SIZE_MAX
    ensures size + SearchRound(size) < WORD
    ensures MappingSearch(size).fl < FL_INDEX_COUNT <==> size <= MAX_REQUEST
    ensures size + SearchRound(size) < BLOCK_SIZE_MAX <==> size <= MAX_REQUEST
  {
    hide Log2, MappingInsert, SearchRound, Pow2;
    SearchRoundBound(size);
    var s := size + SearchRound(size);
    if s < BLOCK_SIZE_MAX {
      ClassInterval(s);
    } else {
      MappingInsertShape(s);
      Pow2Values();
      Log2AtLeast(s, 30);
    }
  }

  /** One word more than MAX_REQUEST is searched for from row 24 on, which the table does not have. */
  lemma SearchOutsideTable()
    ensures var size := MAX_REQUEST + 4;
            && size < BLOCK_SIZE_MAX && size % 4 == 0 && size + SearchRound(size) < WORD
            && MappingSearch(size) == Index(FL_INDEX_COUNT, 0)
  {
    var size: nat := MAX_REQUEST + 4;
    hide Log2, MappingInsert;
    Pow2Values();
    assert Pow2(29) == 0x2000_0000;
    Log2Between(size, 29);
    assert SearchRound(size) == 0x100_0000 - 1;
    var s: nat := size + SearchRound(size);
    assert Pow2(31) == 0x8000_0000 && Pow2(25) == 0x200_0000;
    Log2Between(s, 30);
    MappingInsertShape(s);
  }

  lemma SearchRoundBound(size: nat)
    requires 0 < size < BLOCK_SIZE_MAX
    ensures size + SearchRound(size) < WORD
    ensures size + SearchRound(size) < BLOCK_SIZE_MAX <==> size <= MAX_REQUEST
  {
    Pow2Values();
    if size >= SMALL_BLOCK_SIZE {
      MappingInsertShape(size);
      var f := Log2(size);
      hide Log2;
      RowBound(size, f);
      assert Pow2(24) == 0x100_0000 && Pow2(29) == 0x2000_0000;
      if f < 29 {
        ScaleBy32(f - 5);
        if f + 1 < 29 { Pow2Mono(f + 1, 29); }
      }
    }
  }

  /** The search asks for at most a thirty-second more than the request. */
  lemma RoundIsSmall(size: nat)
    requires 0 < size < BLOCK_SIZE_MAX
    ensures 32 * (size + SearchRound(size)) < 33 * size || SearchRound(size) == 0
  {
    if size >= SMALL_BLOCK_SIZE {
      MappingInsertShape(size);
      ScaleBy32(Log2(size) - 5);
    }
  }

  /** A good fit is found: a block a thirty-second larger than the request lies in a class that is searched. */
  lemma GoodFit(size: nat, block: nat)
    requires 0 < size <= MAX_REQUEST && 33 * size <= 32 * block && block < BLOCK_SIZE_MAX
    ensures size + SearchRound(size) < WORD && MappingSearch(size).Flat() <= MappingInsert(block).Flat()
  {
    hide MappingInsert, SearchRound, Log2;
    SearchInTableIff(size);
    RoundIsSmall(size);
    MappingMonotone(size + SearchRound(size), block);
  }

  /** mapping_insert, as the source computes it. */
  method MapInsert(size: nat) returns (fl: nat, sl: nat)
    requires size < WORD
    ensures Index(fl, sl) == MappingInsert(size)
  {
    if size < SMALL_BLOCK_SIZE {
      // the first row is linear
      fl := 0;
      sl := size / (SMALL_BLOCK_SIZE / SL_INDEX_COUNT);
    } else {
      var f := Fls(size);
      Log2AtLeast(size, 7);
      ShlFive();
      sl := Xor(Shr(size, f - 5), Shl(1, 5));
      fl := f - (FL_INDEX_SHIFT - 1);
    }
  }

  lemma ShlFive()
    ensures Shl(1, 5) == 32 && Pow2(7) == 128
  {
    Pow2Values();
  }

  /** mapping_search: rounds up to the next class first. */
  method MapSearch(size: nat) returns (fl: nat, sl: nat)
    requires size < WORD && size + SearchRound(size) < WORD
    ensures Index(fl, sl) == MappingSearch(size)
  {
    hide Log2, MappingInsert, Shl;
    var s := size;
    if size >= SMALL_BLOCK_SIZE {
      var f := Fls(size);
      ShlFive();
      Log2AtLeast(size, 7);
      ShlOne(f - 5);
      s := size + (Shl(1, f - 5) - 1);
    }
    fl, sl := MapInsert(s);
  }

  lemma ShlOne(k: nat)
    requires k < 32
    ensures Shl(1, k) == Pow2(k)
  {
    Pow2Values();
    Pow2Mono(k, 32);
  }
}
