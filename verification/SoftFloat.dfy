/** 64-bit division by shifting and subtracting (lib/softfloat.c), which the compiler calls for / and % on 64-bit
    numbers. */
module SoftFloat {
  import opened Words

  const DOUBLE_WORD: nat := 0x1_0000_0000_0000_0000
  const TOP_BIT: int := 0x8000_0000_0000_0000

  predicate IsInt64(x: int) {
    -TOP_BIT <= x < TOP_BIT
  }

  /** Conversion to a signed 64-bit number. */
  function Int64(x: int): (r: int)
    ensures IsInt64(r)
  {
    var u := x % DOUBLE_WORD;
    if u < TOP_BIT then u else u - DOUBLE_WORD
  }

  /** Conversion to an unsigned 64-bit number. */
  function Unsigned64(x: int): nat {
    x % DOUBLE_WORD
  }

  function Abs(x: int): nat {
    if x < 0 then -x else x
  }

  /** C's quotient rounds toward zero, and its remainder has the dividend's sign. */
  function TruncDiv(a: int, b: int): int
    requires b != 0
  {
    if (a < 0) == (b < 0) then Abs(a) / Abs(b) else -(Abs(a) / Abs(b))
  }

  function TruncMod(a: int, b: int): int
    requires b != 0
  {
    if a < 0 then -(Abs(a) % Abs(b)) else Abs(a) % Abs(b)
  }

  /** num = quot * den + rem with rem < den.  (A zero divisor raises the hardware fault it is meant to raise.) */
  method Udivmoddi4(num: nat, den: nat) returns (quot: nat, rem: nat)
    requires num < DOUBLE_WORD && 0 < den < DOUBLE_WORD
    ensures num == quot * den + rem && rem < den
  {
    var n: nat, d: nat, qbit: nat := num, den, 1;
    quot := 0;
    ghost var k: nat := 0;
    assert Scaled(den, 1, 0, den) && Divided(num, den, 0, num);
    hide Pow2, Scaled, Divided, Left, Right, Plus;
    // left-justify the denominator
    while d < TOP_BIT
      invariant Scaled(den, qbit, k, d) && 0 < qbit <= d < DOUBLE_WORD
      decreases TOP_BIT - d
    {
      ScaleUp(den, qbit, k, d);
      d, qbit := Left(d), Left(qbit);
      k := k + 1;
    }
    while qbit != 0
      invariant Divided(num, den, quot, n)
      invariant qbit != 0 ==> Scaled(den, qbit, k, d) && n < 2 * d
      invariant qbit == 0 ==> n < den
      decreases qbit
    {
      if d <= n {
        Subtract(num, den, quot, n, qbit, k, d);
        n := n - d;
        quot := Plus(quot, qbit);
      }
      ScaleDown(den, qbit, k, d);
      d, qbit := Right(d), Right(qbit);
      if k > 0 { k := k - 1; }
    }
    rem := n;
    Undivided(num, den, quot, n);
  }

  /** A 64-bit word shifted by one bit. */
  function Left(x: nat): nat { (x * 2) % DOUBLE_WORD }
  function Right(x: nat): nat { x / 2 }

  /** The sum of 64-bit words. */
  function Plus(x: nat, y: nat): nat { (x + y) % DOUBLE_WORD }

  /** The divisor shifted left by k, and the quotient bit that goes with it. */
  ghost predicate Scaled(den: nat, qbit: nat, k: nat, d: nat) {
    qbit == Pow2(k) && d == den * qbit
  }

  ghost predicate Divided(num: nat, den: nat, quot: nat, n: nat) {
    num == quot * den + n
  }

  lemma Undivided(num: nat, den: nat, quot: nat, n: nat)
    requires Divided(num, den, quot, n)
    ensures num == quot * den + n
  {}

  lemma ScaleUp(den: nat, qbit: nat, k: nat, d: nat)
    requires Scaled(den, qbit, k, d) && 0 < qbit <= d < TOP_BIT
    ensures Scaled(den, Left(qbit), k + 1, Left(d)) && 0 < Left(qbit) <= Left(d) < DOUBLE_WORD && Left(d) > d
  {
    assert Left(d) == d * 2 && Left(qbit) == qbit * 2;
  }

  lemma ScaleDown(den: nat, qbit: nat, k: nat, d: nat)
    requires Scaled(den, qbit, k, d) && qbit > 0
    ensures k > 0 ==> Right(qbit) > 0 && Scaled(den, Right(qbit), k - 1, Right(d)) && d == 2 * Right(d)
    ensures k == 0 ==> Right(qbit) == 0 && d == den
    ensures Right(qbit) < qbit
  {
    if k > 0 {
      assert qbit == 2 * Pow2(k - 1);
      assert den * (2 * Pow2(k - 1)) == 2 * (den * Pow2(k - 1));
    }
  }

  lemma Subtract(num: nat, den: nat, quot: nat, n: nat, qbit: nat, k: nat, d: nat)
    requires Divided(num, den, quot, n) && Scaled(den, qbit, k, d) && d <= n && den > 0 && num < DOUBLE_WORD
    ensures Divided(num, den, Plus(quot, qbit), n - d)
  {
    assert (quot + qbit) * den == quot * den + den * qbit;
    AtLeast(quot + qbit, den);
    assert Plus(quot, qbit) == quot + qbit;
  }

  lemma AtLeast(q: nat, d: nat)
    requires d > 0
    ensures q * d >= q
  {
    assert q * d == q * (d - 1) + q;
  }

  /** The quotient and the remainder are the only such pair, those of the mathematical division. */
  lemma Unique(num: nat, den: nat, quot: nat, rem: nat)
    requires num == quot * den + rem && rem < den
    ensures quot == num / den && rem == num % den
  {
    assert quot * den == den * quot;
    DivModUnique(num, den, quot, rem);
  }

  method Udivdi3(num: nat, den: nat) returns (v: nat)
    requires num < DOUBLE_WORD && 0 < den < DOUBLE_WORD
    ensures v == num / den
  {
    var rem;
    v, rem := Udivmoddi4(num, den);
    Unique(num, den, v, rem);
  }

  method Umoddi3(num: nat, den: nat) returns (v: nat)
    requires num < DOUBLE_WORD && 0 < den < DOUBLE_WORD
    ensures v == num % den
  {
    var quot;
    quot, v := Udivmoddi4(num, den);
    Unique(num, den, quot, v);
  }

  /** Signed division truncates toward zero in every case but the one whose quotient is no 64-bit number. */
  method Divdi3(num: int, den: int) returns (v: int)
    requires IsInt64(num) && IsInt64(den) && den != 0
    ensures v == Int64(TruncDiv(num, den))
    ensures v == TruncDiv(num, den) <==> !(num == -TOP_BIT && den == -1)
  {
    var n, d, minus := num, den, false;
    if n < 0 { n := Int64(-n); minus := true; }
    if d < 0 { d := Int64(-d); minus := !minus; }
    Magnitude(num);
    Magnitude(den);
    var q, rem := Udivmoddi4(Unsigned64(n), Unsigned64(d));
    Unique(Abs(num), Abs(den), q, rem);
    hide Int64, Unsigned64;
    v := Int64(q);
    if minus { v := Int64(-v); }
    QuotientBound(Abs(num), Abs(den));
    Signed(q, minus);
  }

  lemma Signed(q: int, minus: bool)
    requires 0 <= q <= TOP_BIT
    ensures (if minus then Int64(-Int64(q)) else Int64(q)) == Int64(if minus then -q else q)
    ensures Int64(if minus then -q else q) == (if minus then -q else q) <==> minus || q < TOP_BIT
  {}

  /** The remainder as the library computes it: with the quotient's sign. */
  function RemainderGiven(num: int, den: int): int
    requires den != 0
  {
    if (num < 0) == (den < 0) then Abs(num) % Abs(den) else -(Abs(num) % Abs(den))
  }

  /** The remainder's sign is the quotient's, so it is C's remainder exactly when the divisor is positive or
      divides the dividend. */
  method Moddi3(num: int, den: int) returns (v: int)
    requires IsInt64(num) && IsInt64(den) && den != 0
    ensures v == RemainderGiven(num, den)
    ensures v == TruncMod(num, den) <==> den > 0 || Abs(num) % Abs(den) == 0
    ensures Abs(v) == Abs(num) % Abs(den)
  {
    var n, d, minus := num, den, false;
    if n < 0 { n := Int64(-n); minus := true; }
    if d < 0 { d := Int64(-d); minus := !minus; }
    Magnitude(num);
    Magnitude(den);
    var q, rem := Udivmoddi4(Unsigned64(n), Unsigned64(d));
    Unique(Abs(num), Abs(den), q, rem);
    hide Int64, Unsigned64;
    v := Int64(rem);
    if minus { v := Int64(-v); }
    Signed(rem, minus);
  }

  /** The four combinations of signs: the quotients are rounded toward zero. */
  lemma QuotientBySigns(n: int, d: int)
    requires n >= 0 && d > 0
    ensures TruncDiv(n, d) == n / d && TruncDiv(-n, -d) == n / d
    ensures TruncDiv(-n, d) == -(n / d) && TruncDiv(n, -d) == -(n / d)
  {
    hide Abs;
    Distances(n);
    Distances(d);
    if n == 0 { DivModUnique(0, d, 0, 0); }
  }

  /** C's remainder has the dividend's sign, and the library's is negative exactly where the quotient is. */
  lemma RemainderBySigns(n: int, d: int)
    requires n >= 0 && d > 0
    ensures TruncMod(n, d) == n % d && TruncMod(n, -d) == n % d
    ensures TruncMod(-n, d) == -(n % d) && TruncMod(-n, -d) == -(n % d)
    ensures RemainderGiven(n, d) == n % d && RemainderGiven(-n, -d) == n % d
    ensures RemainderGiven(-n, d) == -(n % d) && RemainderGiven(n, -d) == -(n % d)
  {
    hide Abs;
    Distances(n);
    Distances(d);
    if n == 0 { DivModUnique(0, d, 0, 0); }
  }

  lemma Distances(x: int)
    requires x >= 0
    ensures Abs(x) == x && Abs(-x) == x
  {}

  /** Exactly which 64-bit number a number is converted to: the one that differs from it by a multiple of 2^64. */
  lemma Congruent(x: int, r: int)
    ensures Int64(x) == r <==> -0x8000_0000_0000_0000 <= r < 0x8000_0000_0000_0000
                               && (x - r) % 0x1_0000_0000_0000_0000 == 0
  {}

  /** 7 % -2 is 1 in C and -1 here; the smallest number divided by -1 is no 64-bit number, and comes back unchanged. */
  lemma WrongSigns()
    ensures TruncMod(7, -2) == 1 && RemainderGiven(7, -2) == -1
    ensures TruncDiv(-TOP_BIT, -1) == TOP_BIT && Int64(TruncDiv(-TOP_BIT, -1)) == -TOP_BIT
  {}

  lemma Magnitude(x: int)
    requires IsInt64(x)
    ensures Unsigned64(if x < 0 then Int64(-x) else x) == Abs(x)
  {}

  lemma QuotientBound(a: nat, b: nat)
    requires b > 0
    ensures a / b <= a && (b > 1 && a > 0 ==> a / b < a) && (b == 1 ==> a / b == a)
  {
    DivModIdentity(a, b);
    var q := a / b;
    AtLeast(q, b);
    if b > 1 { AtLeast(q, b - 1); assert q * b == q * (b - 1) + q; }
    assert b * q == q * b;
  }
}
