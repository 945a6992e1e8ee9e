/** Parsing integers (strtol and strtoul of userapp/lib/stdlib.c). */
module Strtol {
  import opened Words
  import opened Numerals

  const LONG_MAX: int := 0x7fff_ffff
  const LONG_MIN: int := -0x8000_0000
  const ULONG_MAX: nat := 0xffff_ffff

  /** A C string: the characters up to the terminator, which is there. */
  predicate Terminated(text: seq<char>) {
    '\0' in text
  }

  function CharAt(text: seq<char>, i: nat): char {
    if i < |text| then text[i] else '\0'
  }

  // ----- what the functions compute

  function SkipSpace(text: seq<char>, i: nat): (j: nat)
    decreases |text| - i
  {
    if i < |text| && IsSpace(text[i]) then SkipSpace(text, i + 1) else i
  }

  /** Sign, base and the place where the digits start. */
  datatype Head = Head(neg: bool, base: nat, at: nat)

  function HeadOf(text: seq<char>, base: nat): Head {
    var i := SkipSpace(text, 0);
    var neg := CharAt(text, i) == '-';
    var j := if CharAt(text, i) == '-' || CharAt(text, i) == '+' then i + 1 else i;
    if (base == 0 || base == 16) && CharAt(text, j) == '0' && (CharAt(text, j + 1) == 'x' || CharAt(text, j + 1) == 'X')
      then Head(neg, 16, j + 2)
    else if (base == 0 || base == 2) && CharAt(text, j) == '0'
         && (CharAt(text, j + 1) == 'b' || CharAt(text, j + 1) == 'B')
           then Head(neg, 2, j + 2)
    else Head(neg, if base == 0 then (if CharAt(text, j) == '0' then 8 else 10) else base, j)
  }

  /** The longest run of digits of a base. */
  function DigitRun(text: seq<char>, i: nat, base: nat): seq<nat>
    decreases |text| - i
  {
    if i < |text| && DigitVal(text[i]) < base then [DigitVal(text[i])] + DigitRun(text, i + 1, base) else []
  }

  /** Clamping to the range of a long. */
  function Clamped(neg: bool, m: nat): int {
    if neg then (if m > -LONG_MIN then LONG_MIN else -(m as int)) else if m > LONG_MAX then LONG_MAX else m
  }

  function LongValue(text: seq<char>, base: nat): int {
    var h := HeadOf(text, base);
    Clamped(h.neg, Value(DigitRun(text, h.at, h.base), h.base))
  }

  function UnsignedValue(text: seq<char>, base: nat): nat {
    var h := HeadOf(text, base);
    var m := Value(DigitRun(text, h.at, h.base), h.base);
    if m > ULONG_MAX then ULONG_MAX else if h.neg then (-(m as int)) % WORD else m
  }

  /** How far the number reaches: nowhere if it has no digits. */
  function EndOf(text: seq<char>, base: nat): nat {
    var h := HeadOf(text, base);
    var ds := DigitRun(text, h.at, h.base);
    if ds == [] then 0 else h.at + |ds|
  }

  // ----- the functions

  /** The common beginning: white space, a sign, and a prefix that tells the base. */
  method ReadHead(text: seq<char>, base0: nat) returns (neg: bool, base: nat, at: nat)
    requires Terminated(text)
    ensures Head(neg, base, at) == HeadOf(text, base0) && at < |text| && '\0' in text[at..]
    ensures base0 == 0 || 2 <= base0 <= 36 ==> 2 <= base <= 36
  {
    hide IsSpace;
    ghost var z: nat :| z < |text| && text[z] == '\0';
    var s, c := 0, text[0];
    NulIsNoSpace();
    while IsSpace(c)
      invariant s < |text| && s <= z && c == text[s] && SkipSpace(text, s) == SkipSpace(text, 0)
      decreases |text| - s
    {
      s := s + 1;
      c := text[s];
    }
    neg := false;
    base := base0;
    if c == '-' {
      neg := true;
      s := s + 1;
      c := text[s];
    } else if c == '+' {
      s := s + 1;
      c := text[s];
    }
    if (base == 0 || base == 16) && c == '0' && (text[s + 1] == 'x' || text[s + 1] == 'X') {
      s := s + 2;
      c := text[s];
      base := 16;
    } else if (base == 0 || base == 2) && c == '0' && (text[s + 1] == 'b' || text[s + 1] == 'B') {
      s := s + 2;
      c := text[s];
      base := 2;
    }
    if base == 0 { base := if c == '0' then 8 else 10; }
    at := s;
    assert text[at..][z - at] == '\0';
  }

  lemma NulIsNoSpace()
    ensures !IsSpace('\0')
  {}

  /** The cutoff test: does one more digit take the number past its limit? */
  lemma Cutoff(acc: nat, c: nat, base: nat, limit: nat)
    requires base > 0 && c < base
    ensures acc > limit / base || (acc == limit / base && c > limit % base) <==> acc * base + c > limit
  {
    var q, r := limit / base, limit % base;
    DivModIdentity(limit, base);
    Commutes(acc, base);
    if acc > q { MulStep(base, q, acc); } else if acc < q { MulStep(base, acc, q); }
  }

  /** The common loop: accumulate digits, and notice when the limit is passed. */
  method Accumulate(text: seq<char>, at: nat, base: nat, limit: nat) returns (acc: nat, any: int, s: nat)
    requires at < |text| && '\0' in text[at..] && 2 <= base <= 36 && limit < WORD
    ensures var ds := DigitRun(text, at, base);
            && s == at + |ds| && (any == 0 <==> ds == []) && (any < 0 <==> Value(ds, base) > limit)
            && (any >= 0 ==> acc == Value(ds, base))
  {
    hide DigitVal, Value;
    ghost var z: nat :| at <= z < |text| && text[z] == '\0';
    NulIsNoDigit();
    NoValue(base);
    var cutoff, cutlim := limit / base, limit % base;
    s, acc, any := at, 0, 0;
    ghost var pre: seq<nat> := [];
    while true
      invariant at <= s <= z && |pre| == s - at && pre + DigitRun(text, s, base) == DigitRun(text, at, base)
      invariant (any == 0 <==> pre == []) && (any < 0 <==> Value(pre, base) > limit)
      invariant any >= 0 ==> acc == Value(pre, base)
      decreases z - s
    {
      ghost var run := DigitRun(text, s, base);
      var c := DigitVal(text[s]);
      if c >= base { break; }
      Cutoff(acc, c, base, limit);
      ghost var pre' := pre + [c];
      Appended(pre, c, base);
      StaysAbove(Value(pre, base), base, c, limit);
      assert pre' + DigitRun(text, s + 1, base) == pre + run;
      if any < 0 || acc > cutoff || (acc == cutoff && c > cutlim) {
        any := -1;
      } else {
        any := 1;
        acc := acc * base + c;
      }
      s := s + 1;
      pre := pre';
    }
    assert pre + [] == pre;
  }

  lemma NoValue(base: nat)
    ensures Value([], base) == 0
  {}

  lemma Appended(pre: seq<nat>, c: nat, base: nat)
    ensures Value(pre + [c], base) == Value(pre, base) * base + c
  {
    assert (pre + [c])[..|pre|] == pre;
  }

  lemma StaysAbove(v: nat, base: nat, c: nat, limit: nat)
    requires base > 0
    ensures v > limit ==> v * base + c > limit
  {
    assert v * base == v * (base - 1) + v;
  }

  lemma NulIsNoDigit()
    ensures DigitVal('\0') == NOT_A_DIGIT
  {}

  /** strtol: the value, clamped to the range of a long, and the index where the number ends. */
  method Strtol(nptr: seq<char>, base: nat) returns (acc: int, endptr: nat)
    requires Terminated(nptr) && (base == 0 || 2 <= base <= 36)
    ensures acc == LongValue(nptr, base) && endptr == EndOf(nptr, base)
  {
    var neg, b, at := ReadHead(nptr, base);
    var m, any, s := Accumulate(nptr, at, b, if neg then -LONG_MIN else LONG_MAX);
    if any < 0 {
      acc := if neg then LONG_MIN else LONG_MAX;
    } else if neg {
      acc := -(m as int);
    } else {
      acc := m;
    }
    endptr := if any != 0 then s else 0;
  }

  /** strtoul: a minus sign negates the value as an unsigned word. */
  method Strtoul(nptr: seq<char>, base: nat) returns (acc: nat, endptr: nat)
    requires Terminated(nptr) && (base == 0 || 2 <= base <= 36)
    ensures acc == UnsignedValue(nptr, base) && endptr == EndOf(nptr, base)
  {
    var neg, b, at := ReadHead(nptr, base);
    var m, any, s := Accumulate(nptr, at, b, ULONG_MAX);
    if any < 0 {
      acc := ULONG_MAX;
    } else if neg {
      acc := (-(m as int)) % WORD;
    } else {
      acc := m;
    }
    endptr := if any != 0 then s else 0;
  }

  /** Only blanks, tabs and newlines are skipped: a carriage return ends the parse before it has begun. */
  lemma CarriageReturnStops(rest: seq<char>, base: nat)
    requires base == 0 || 2 <= base <= 36
    ensures LongValue(['\r'] + rest, base) == 0 && EndOf(['\r'] + rest, base) == 0
    ensures UnsignedValue(['\r'] + rest, base) == 0
  {
    var text := ['\r'] + rest;
    assert SkipSpace(text, 0) == 0;
    assert DigitVal(text[0]) == NOT_A_DIGIT;
    assert DigitRun(text, 0, HeadOf(text, base).base) == [];
  }
}
