/** Fixed-point numbers with eight fraction bits (kernel/fixedptc.h). */
module FixedPoint {
  import opened Words
  import opened SoftFloat

  const ONE: int := 256
  const TWO: int := 512

  function FromInt(i: int): int { i * ONE }

  /** An arithmetic shift rounds down. */
  function ToInt(f: int): int { f / ONE }

  function Mul(a: int, b: int): int { Int32((a * b) / ONE) }

  /** The 64-bit division truncates. */
  function Div(a: int, b: int): int
    requires b != 0
  {
    Int32(TruncDiv(a * ONE, b))
  }

  /** Division by way of the library routine. */
  method FixedDiv(a: int, b: int) returns (r: int)
    requires IsInt32(a) && IsInt32(b) && b != 0
    ensures r == Div(a, b)
  {
    hide TruncDiv, Int64, Int32;
    var v := Divdi3(a * ONE, b);
    r := Int32(v);
  }

  lemma Fits(x: int)
    requires IsInt32(x)
    ensures Int32(x) == x
  {}

  lemma DivOfNonNegative(a: int, b: int)
    requires 0 <= a && 0 < b
    ensures Div(a, b) == Int32((a * ONE) / b)
  {}

  /** What the operations do to raw numbers: 256 units make one; the product loses its last eight bits, and the
      quotient is rounded down where nothing is negative. */
  lemma RawUnits(i: int, a: int, b: int)
    ensures FromInt(i) == 256 * i && ToInt(256 * i) == i
    ensures -0x80_0000_0000 <= a * b < 0x80_0000_0000 ==> 256 * Mul(a, b) <= a * b < 256 * Mul(a, b) + 256
    ensures 0 <= a < 0x80_0000 && 0 < b ==> Div(a, b) * b <= 256 * a < Div(a, b) * b + b
  {
    hide Int32, Div;
    var p := a * b;
    if -0x80_0000_0000 <= p < 0x80_0000_0000 { Fits(p / 256); }
    if 0 <= a < 0x80_0000 && 0 < b { QuotientIs(a, b); }
  }

  lemma QuotientIs(a: int, b: int)
    requires 0 <= a < 0x80_0000 && 0 < b
    ensures Div(a, b) == (a * 256) / b && Div(a, b) * b <= 256 * a < Div(a, b) * b + b
  {
    DivOfNonNegative(a, b);
    hide Div;
    QuotientBound(a * 256, b);
    DivModIdentity(a * 256, b);
    Fits((a * 256) / b);
  }

  /** The weights of the load average: 59/60 and 1/60, rounded down to the eighth fraction bit. */
  lemma Weights()
    ensures Div(FromInt(59), FromInt(60)) == 251 && Div(ONE, FromInt(60)) == 4
  {
    DivOfNonNegative(FromInt(59), FromInt(60));
    DivOfNonNegative(ONE, FromInt(60));
    hide Div;
    Fits(251);
    Fits(4);
  }

  /** The scheduler's priority of a thread: a quarter of its recent CPU use, and its niceness, lower it. */
  function Priority(estcpu: int, nice: int): int {
    127 - ToInt(Div(estcpu, FromInt(4))) - nice * 2
  }

  lemma QuarterTruncates(e: int)
    requires IsInt32(e)
    ensures Div(e, FromInt(4)) == TruncDiv(e, 4)
  {
    var q := Abs(e) / 4;
    assert (Abs(e) * 256) / 1024 == q by { DivModUnique(Abs(e) * 256, 1024, q, 256 * (Abs(e) % 4)); }
    assert Abs(e * ONE) == Abs(e) * 256;
    Fits(TruncDiv(e, 4));
  }

  /** More recent CPU use, or more niceness, never raises the priority. */
  lemma PriorityFalls(e: int, e': int, nice: int, nice': int)
    requires IsInt32(e) && IsInt32(e') && e <= e' && nice <= nice'
    ensures Priority(e', nice') <= Priority(e, nice)
  {
    QuarterTruncates(e);
    QuarterTruncates(e');
    hide Div;
    if e < 0 && e' < 0 { assert Abs(e') / 4 <= Abs(e) / 4; }
    assert TruncDiv(e, 4) <= TruncDiv(e', 4);
    Rounding(TruncDiv(e, 4), TruncDiv(e', 4));
  }

  /** What the priority is for a thread that has used the processor: 127, less one for every four ticks, of 256 units
      each, and less two for every step of niceness. */
  lemma PriorityIs(e: int, nice: int)
    requires 0 <= e < 0x8000_0000
    ensures Priority(e, nice) == 127 - e / 1024 - 2 * nice
  {
    QuarterTruncates(e);
    hide Div;
    assert e / 4 / 256 == e / 1024 by { DivModUnique(e, 1024, e / 4 / 256, e % 4 + 4 * (e / 4 % 256)); }
  }

  /** Four ticks more of the processor cost one step of priority, at any niceness. */
  lemma FourTicksCost(e: int, e': int, nice: int)
    requires 0 <= e && e + 1024 <= e' < 0x8000_0000
    ensures Priority(e', nice) < Priority(e, nice)
  {
    PriorityIs(e, nice);
    PriorityIs(e', nice);
    hide Priority;
    assert e' / 1024 >= (e + 1024) / 1024 == e / 1024 + 1;
  }

  lemma Rounding(a: int, b: int)
    requires a <= b
    ensures ToInt(a) <= ToInt(b)
  {}
}
