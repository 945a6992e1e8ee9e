/** Unsigned machine words as natural numbers.

    The kernel is compiled for a 32-bit machine.  A word is a natural number below Pow2(32); the C operators
    &, |, ~, << and >> are written out on numbers, so that a word can be an address or a size in one line and
    a bit mask in the next. */
module Words {

  function Pow2(k: nat): (p: nat)
    ensures p > 0
  {
    if k == 0 then 1 else 2 * Pow2(k - 1)
  }

  const WORD: nat := 0x1_0000_0000
  const INT32_TOP: int := 0x8000_0000

  predicate IsInt32(x: int) {
    -INT32_TOP <= x < INT32_TOP
  }

  /** Conversion to a signed 32-bit number. */
  function Int32(x: int): (r: int)
    ensures IsInt32(r)
  {
    var u := x % WORD;
    if u < INT32_TOP then u else u - WORD
  }

  /** Is bit i of w set? */
  predicate Bit(w: nat, i: nat) {
    if i == 0 then w % 2 == 1 else Bit(w / 2, i - 1)
  }

  /** The C operator a & b. */
  function And(a: nat, b: nat): nat {
    if a == 0 || b == 0 then 0
    else 2 * And(a / 2, b / 2) + (if a % 2 == 1 && b % 2 == 1 then 1 else 0)
  }

  /** The C operator a | b. */
  function Or(a: nat, b: nat): nat
    decreases a + b
  {
    if a == 0 then b else if b == 0 then a
    else 2 * Or(a / 2, b / 2) + (if a % 2 == 1 || b % 2 == 1 then 1 else 0)
  }

  /** The C operator a ^ b. */
  function Xor(a: nat, b: nat): nat
    decreases a + b
  {
    if a == 0 then b else if b == 0 then a
    else 2 * Xor(a / 2, b / 2) + (if a % 2 != b % 2 then 1 else 0)
  }

  /** The C operator ~w on a 32-bit word. */
  function Not(w: nat): (r: nat)
    requires w < WORD
  {
    WORD - 1 - w
  }

  /** The C operator w << k on a 32-bit word. */
  function Shl(w: nat, k: nat): nat {
    (w * Pow2(k)) % WORD
  }

  /** The C operator w >> k. */
  function Shr(w: nat, k: nat): nat {
    if k == 0 then w else Shr(w / 2, k - 1)
  }

  // ----- powers of two

  lemma Pow2Values()
    ensures Pow2(0) == 1 && Pow2(1) == 2 && Pow2(2) == 4 && Pow2(4) == 16 && Pow2(5) == 32 && Pow2(6) == 64
    ensures Pow2(7) == 128 && Pow2(8) == 256 && Pow2(16) == 65536 && Pow2(24) == 0x100_0000
    ensures Pow2(28) == 0x1000_0000 && Pow2(30) == 0x4000_0000 && Pow2(31) == 0x8000_0000 && Pow2(32) == WORD
  {
    assert Pow2(4) == 16;
    assert Pow2(8) == 16 * Pow2(4) == 256;
    assert Pow2(12) == 16 * Pow2(8);
    assert Pow2(16) == 16 * Pow2(12);
    assert Pow2(20) == 16 * Pow2(16);
    assert Pow2(24) == 16 * Pow2(20);
    assert Pow2(28) == 16 * Pow2(24);
    assert Pow2(32) == 16 * Pow2(28);
  }

  lemma {:induction false} Pow2Add(i: nat, j: nat)
    ensures Pow2(i + j) == Pow2(i) * Pow2(j)
  {
    if i > 0 {
      Pow2Add(i - 1, j);
      TwiceProduct(Pow2(i - 1), Pow2(j));
    }
  }

  lemma TwiceProduct(a: nat, b: nat)
    ensures 2 * (a * b) == (2 * a) * b
  {}

  lemma {:induction false} Pow2Mono(i: nat, j: nat)
    requires i < j
    ensures 2 * Pow2(i) <= Pow2(j)
  {
    if i + 1 < j { Pow2Mono(i, j - 1); }
  }

  lemma Pow2Less(i: nat, j: nat)
    requires Pow2(i) < Pow2(j)
    ensures i < j
  {
    if j < i { Pow2Mono(j, i); }
  }

  lemma MulDouble(w: nat, p: nat)
    ensures w * (2 * p) == 2 * (w * p)
  {}

  lemma {:induction false} ShrIsDiv(w: nat, k: nat)
    ensures Shr(w, k) == w / Pow2(k)
  {
    if k > 0 {
      ShrIsDiv(w / 2, k - 1);
      HalfDivMod(w, Pow2(k - 1));
    }
  }

  lemma HalfDivMod(w: nat, p: nat)
    requires p > 0
    ensures w / (2 * p) == (w / 2) / p
    ensures w % (2 * p) == 2 * ((w / 2) % p) + w % 2
  {
    var q, r := (w / 2) / p, (w / 2) % p;
    DivModIdentity(w / 2, p);
    MulDouble(q, p);
    DivModUnique(w, 2 * p, q, 2 * r + w % 2);
  }

  lemma DivModIdentity(w: nat, d: nat)
    requires d > 0
    ensures w == d * (w / d) + w % d && 0 <= w % d < d
  {}

  // ----- bits

  lemma {:induction false} ZeroBits(i: nat)
    ensures !Bit(0, i)
  {
    if i > 0 { ZeroBits(i - 1); }
  }

  lemma {:induction false} BitOfPow2(k: nat, i: nat)
    ensures Bit(Pow2(k), i) <==> i == k
  {
    if i == 0 {
    } else if k == 0 {
      ZeroBits(i - 1);
    } else {
      assert Pow2(k) / 2 == Pow2(k - 1);
      BitOfPow2(k - 1, i - 1);
    }
  }

  lemma {:induction false} BitAnd(a: nat, b: nat, i: nat)
    ensures Bit(And(a, b), i) <==> Bit(a, i) && Bit(b, i)
  {
    if a == 0 || b == 0 {
      ZeroBits(i);
    } else if i > 0 {
      assert And(a, b) / 2 == And(a / 2, b / 2);
      BitAnd(a / 2, b / 2, i - 1);
    }
  }

  lemma {:induction false} BitOr(a: nat, b: nat, i: nat)
    ensures Bit(Or(a, b), i) <==> Bit(a, i) || Bit(b, i)
  {
    hide Or;
    OrHalves(a, b);
    if i > 0 {
      BitOr(a / 2, b / 2, i - 1);
    }
  }

  lemma OrHalves(a: nat, b: nat)
    ensures Or(a, b) / 2 == Or(a / 2, b / 2)
    ensures Or(a, b) % 2 == 1 <==> a % 2 == 1 || b % 2 == 1
  {}

  /** A bit beyond the width of w is clear. */
  lemma {:induction false} HighBitsClear(w: nat, n: nat, i: nat)
    requires w < Pow2(n) && n <= i
    ensures !Bit(w, i)
  {
    if n == 0 { ZeroBits(i); } else { HighBitsClear(w / 2, n - 1, i - 1); }
  }

  /** Complementing a word of n bits flips each of them. */
  lemma {:induction false} BitComplement(w: nat, n: nat, i: nat)
    requires w < Pow2(n) && i < n
    ensures Bit(Pow2(n) - 1 - w, i) <==> !Bit(w, i)
  {
    if i > 0 {
      assert (Pow2(n) - 1 - w) / 2 == Pow2(n - 1) - 1 - w / 2;
      BitComplement(w / 2, n - 1, i - 1);
    }
  }

  lemma BitNot(w: nat, i: nat)
    requires w < WORD && i < 32
    ensures Bit(Not(w), i) <==> !Bit(w, i)
  {
    Pow2Values();
    BitComplement(w, 32, i);
  }

  /** A word is determined by its bits: some bit of a nonzero word is set. */
  lemma {:induction false} SomeBitSet(w: nat, n: nat) returns (i: nat)
    requires 0 < w < Pow2(n)
    ensures i < n && Bit(w, i)
  {
    if w % 2 == 1 { i := 0; } else { i := SomeBitSet(w / 2, n - 1); i := i + 1; }
  }

  lemma {:induction false} AndBound(a: nat, b: nat)
    ensures And(a, b) <= a && And(a, b) <= b
  {
    if a != 0 && b != 0 { AndBound(a / 2, b / 2); }
  }

  lemma {:induction false} OrBound(a: nat, b: nat, n: nat)
    requires a < Pow2(n) && b < Pow2(n)
    ensures Or(a, b) < Pow2(n)
    ensures a <= Or(a, b) && b <= Or(a, b)
    decreases n
  {
    if a != 0 && b != 0 { OrBound(a / 2, b / 2, n - 1); }
  }

  // ----- masks

  /** The k low bits of w, peeled one at a time; this is w modulo 2^k. */
  function LowBits(w: nat, k: nat): (r: nat)
    ensures r <= w && r < Pow2(k)
  {
    if k == 0 then 0 else 2 * LowBits(w / 2, k - 1) + w % 2
  }

  lemma {:induction false} LowBitsIsMod(w: nat, k: nat)
    ensures LowBits(w, k) == w % Pow2(k)
  {
    if k > 0 {
      LowBitsIsMod(w / 2, k - 1);
      HalfDivMod(w, Pow2(k - 1));
    }
  }

  lemma DivModUnique(w: nat, d: nat, q: nat, r: nat)
    requires d > 0 && r < d && w == d * q + r
    ensures w / d == q && w % d == r
  {
    var q', r' := w / d, w % d;
    assert w == d * q' + r';
    if q' > q {
      MulStep(d, q, q');
    } else if q' < q {
      MulStep(d, q', q);
    }
  }

  lemma MulStep(d: nat, a: nat, b: nat)
    requires a < b
    ensures d * a + d <= d * b
  {
    MulSum(d, a, b - a - 1);
    MulAtLeast(d, b - a - 1);
  }

  lemma MulSum(d: nat, a: nat, x: nat)
    ensures d * (a + 1 + x) == d * a + d + d * x
  {}

  lemma MulAtLeast(d: nat, x: nat)
    ensures d * x >= 0
  {}

  /** The mask with bits k to n-1 set clears the k low bits of an n-bit word. */
  lemma {:induction false} AndHighMask(w: nat, k: nat, n: nat)
    requires k <= n && w < Pow2(n)
    ensures Pow2(k) <= Pow2(n)
    ensures And(w, Pow2(n) - Pow2(k)) == w - LowBits(w, k)
    decreases n
  {
    if k < n {
      Pow2Mono(k, n);
      var m := Pow2(n) - Pow2(k);
      if k == 0 {
        AndHighMask(w / 2, 0, n - 1);
        assert m / 2 == Pow2(n - 1) - 1 && m % 2 == 1;
      } else {
        AndHighMask(w / 2, k - 1, n - 1);
        assert m / 2 == Pow2(n - 1) - Pow2(k - 1) && m % 2 == 0;
      }
    } else {
      LowBitsAll(w, n);
    }
  }

  lemma {:induction false} LowBitsAll(w: nat, n: nat)
    requires w < Pow2(n)
    ensures LowBits(w, n) == w
  {
    if n > 0 { LowBitsAll(w / 2, n - 1); }
  }

  /** Masking with 2^k - 1 keeps the k low bits. */
  lemma {:induction false} AndLowMask(w: nat, k: nat)
    ensures And(w, Pow2(k) - 1) == LowBits(w, k)
  {
    if k > 0 {
      assert (Pow2(k) - 1) / 2 == Pow2(k - 1) - 1 && (Pow2(k) - 1) % 2 == 1;
      AndLowMask(w / 2, k - 1);
    }
  }

  /** An `or` of words with no bit in common is their sum. */
  lemma {:induction false} OrDisjoint(lo: nat, hi: nat, k: nat)
    requires lo < Pow2(k)
    ensures Or(lo, hi * Pow2(k)) == lo + hi * Pow2(k) == Or(hi * Pow2(k), lo)
  {
    if lo != 0 && hi != 0 {
      assert hi * Pow2(k) == 2 * (hi * Pow2(k - 1));
      OrDisjoint(lo / 2, hi, k - 1);
      assert hi * Pow2(k) > 0;
    }
  }

  // ----- lowest and highest set bit

  /** w & -w isolates the lowest set bit. */
  lemma {:induction false} LowestBit(w: nat, n: nat) returns (k: nat)
    requires 0 < w < Pow2(n)
    ensures k < n && And(w, Pow2(n) - w) == Pow2(k)
    ensures Bit(w, k) && forall i: nat | i < k :: !Bit(w, i)
  {
    var m := Pow2(n) - w;
    if w % 2 == 1 {
      k := 0;
      assert m / 2 == Pow2(n - 1) - 1 - w / 2;
      AndComplement(w / 2, n - 1);
    } else {
      assert m / 2 == Pow2(n - 1) - w / 2;
      k := LowestBit(w / 2, n - 1);
      k := k + 1;
      forall i: nat | i < k ensures !Bit(w, i) {
        if i > 0 { assert Bit(w, i) == Bit(w / 2, i - 1); }
      }
    }
  }

  lemma {:induction false} AndComplement(w: nat, n: nat)
    requires w < Pow2(n)
    ensures And(w, Pow2(n) - 1 - w) == 0
  {
    if w != 0 && Pow2(n) - 1 - w != 0 {
      assert (Pow2(n) - 1 - w) / 2 == Pow2(n - 1) - 1 - w / 2;
      AndComplement(w / 2, n - 1);
    }
  }
}
