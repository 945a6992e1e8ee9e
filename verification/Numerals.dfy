/** Digits and the numbers they stand for. */
module Numerals {
  import opened Words

  const NOT_A_DIGIT: int := 99

  function DigitChar(d: nat, caps: bool): char
    requires d < 16
  {
    if caps then "0123456789ABCDEF"[d] else "0123456789abcdef"[d]
  }

  predicate IsDigit(c: char) { '0' <= c <= '9' }
  predicate IsUpper(c: char) { 'A' <= c <= 'Z' }
  predicate IsAlpha(c: char) { 'a' <= c <= 'z' || IsUpper(c) }
  predicate IsSpace(c: char) { c == ' ' || c == '\t' || c == '\n' }

  /** The value of a character as a digit of a base up to 36. */
  function DigitVal(c: char): (d: int)
    ensures 0 <= d
  {
    if IsDigit(c) then c as int - '0' as int
    else if IsAlpha(c) then (if IsUpper(c) then c as int - ('A' as int - 10) else c as int - ('a' as int - 10))
    else NOT_A_DIGIT
  }

  lemma DigitRoundTrip(d: nat, caps: bool)
    requires d < 16
    ensures DigitVal(DigitChar(d, caps)) == d && !IsSpace(DigitChar(d, caps))
    ensures DigitChar(d, caps) !in {'-', '+', 'x', 'X'}
  {}

  /** The number that a sequence of digits stands for, most significant first. */
  function Value(ds: seq<nat>, base: nat): nat {
    if ds == [] then 0 else Value(ds[..|ds| - 1], base) * base + ds[|ds| - 1]
  }

  /** The digits of u, most significant first; zero has one digit. */
  function Digits(u: nat, base: nat): (ds: seq<nat>)
    requires base >= 2
    ensures |ds| > 0 && forall i :: 0 <= i < |ds| ==> ds[i] < base
  {
    if u < base then [u] else ShrinkingQuotient(u, base); Digits(u / base, base) + [u % base]
  }

  lemma ShrinkingQuotient(u: nat, base: nat)
    requires base >= 2 && u >= base
    ensures 0 < u / base < u
  {
    DivModIdentity(u, base);
    var q := u / base;
    MulGe(base, q);
  }

  lemma MulGe(b: nat, q: nat)
    requires b >= 2
    ensures b * q >= 2 * q
  {
    assert b * q == 2 * q + (b - 2) * q;
  }

  /** Reading the digits of u back gives u. */
  lemma {:induction false} ValueOfDigits(u: nat, base: nat)
    requires base >= 2
    ensures Value(Digits(u, base), base) == u
  {
    if u >= base {
      ShrinkingQuotient(u, base);
      ValueOfDigits(u / base, base);
      var ds := Digits(u / base, base) + [u % base];
      assert ds[..|ds| - 1] == Digits(u / base, base);
      DivModIdentity(u, base);
      Commutes(u / base, base);
    } else {
      assert [u][..0] == [];
    }
  }

  lemma Commutes(a: nat, b: nat)
    ensures a * b == b * a
  {}

  /** Leading zeros do not change the number. */
  lemma {:induction false} LeadingZeros(zeros: seq<nat>, ds: seq<nat>, base: nat)
    requires forall i :: 0 <= i < |zeros| ==> zeros[i] == 0
    ensures Value(zeros + ds, base) == Value(ds, base)
    decreases |zeros| + |ds|
  {
    var all := zeros + ds;
    if ds != [] {
      assert all[..|all| - 1] == zeros + ds[..|ds| - 1];
      LeadingZeros(zeros, ds[..|ds| - 1], base);
    } else if zeros != [] {
      assert all[..|all| - 1] == zeros[..|zeros| - 1] + [];
      LeadingZeros(zeros[..|zeros| - 1], [], base);
      assert 0 * base == 0;
    } else {
      assert all == ds;
    }
  }

  lemma {:induction false} FewDigits(u: nat, base: nat, k: nat)
    requires base >= 8 && k > 0 && u < Eights(k)
    ensures |Digits(u, base)| <= k
    decreases k
  {
    if u >= base {
      ShrinkingQuotient(u, base);
      SmallerQuotient(u, base, k);
      if k > 1 { FewDigits(u / base, base, k - 1); }
    }
  }

  function Eights(k: nat): nat { if k == 0 then 1 else 8 * Eights(k - 1) }

  lemma SmallerQuotient(u: nat, base: nat, k: nat)
    requires base >= 8 && k > 0 && u < Eights(k)
    ensures u / base < Eights(k - 1)
  {
    DivModIdentity(u, base);
    var q := u / base;
    assert base * q == 8 * q + (base - 8) * q;
  }

  lemma ElevenIsEnough()
    ensures Eights(11) >= WORD
  {
    assert Eights(3) == 512;
    assert Eights(6) == 512 * Eights(3);
    assert Eights(9) == 512 * Eights(6);
    assert Eights(11) == 64 * Eights(9);
  }
}
