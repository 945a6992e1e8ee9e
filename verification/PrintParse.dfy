/** Printing a number and parsing it gives the number back (lib/snprintf.c against userapp/lib/stdlib.c). */
module PrintParse {
  import opened Words
  import opened Numerals
  import opened Printf
  import Strtol

  lemma {:induction false} RepeatIs(c: char, n: int)
    ensures |Repeat(c, n)| == (if n < 0 then 0 else n) && forall i :: 0 <= i < |Repeat(c, n)| ==> Repeat(c, n)[i] == c
  {
    if n > 0 { RepeatIs(c, n - 1); }
  }

  lemma {:induction false} SkipTo(text: seq<char>, i: nat, k: nat)
    requires i <= k <= |text| && (forall p :: i <= p < k ==> IsSpace(text[p])) && (k < |text| ==> !IsSpace(text[k]))
    ensures Strtol.SkipSpace(text, i) == k
    decreases k - i
  {
    if i < k { SkipTo(text, i + 1, k); }
  }

  lemma {:induction false} RunIs(text: seq<char>, i: nat, ds: seq<nat>, base: nat)
    requires i + |ds| < |text| && (forall p :: 0 <= p < |ds| ==> DigitVal(text[i + p]) == ds[p] < base)
    requires DigitVal(text[i + |ds|]) >= base
    ensures Strtol.DigitRun(text, i, base) == ds
    decreases |ds|
  {
    if ds == [] {
      assert text[i + |ds|] == text[i];
    } else {
      assert text[i + 0] == text[i];
      forall p | 0 <= p < |ds[1..]|
        ensures DigitVal(text[i + 1 + p]) == ds[1..][p] < base
      {
        assert text[i + 1 + p] == text[i + (p + 1)];
      }
      assert i + 1 + |ds[1..]| == i + |ds|;
      RunIs(text, i + 1, ds[1..], base);
      assert [ds[0]] + ds[1..] == ds;
    }
  }

  // ----- what strtol and strtoul read

  /** Which base a prefix, or the lack of one,
  tells: 0x stands for 16 and 0b for 2 where the caller leaves the base open
      or names it; and where it is open, a leading 0 for 8 and any other digit for 10. */
  predicate Tells(prefix: seq<char>, body: seq<char>, tail: seq<char>, base0: nat, base: nat)
    requires |body| > 0 && |tail| > 0
  {
    var first, second := body[0], if |body| > 1 then body[1] else tail[0];
    || (prefix == [] && base0 == base && 2 <= base <= 36
        && !(base == 16 && first == '0' && second in {'x', 'X'})
           && !(base == 2 && first == '0' && second in {'b', 'B'}))
    || (prefix == [] && base0 == 0 && first == '0' && base == 8 && second !in {'x', 'X', 'b', 'B'})
    || (prefix == [] && base0 == 0 && first != '0' && base == 10)
    || ((prefix == ['0', 'x'] || prefix == ['0', 'X']) && base == 16 && (base0 == 0 || base0 == 16))
    || ((prefix == ['0', 'b'] || prefix == ['0', 'B']) && base == 2 && (base0 == 0 || base0 == 2))
  }

  function Joined(spaces: seq<char>, sign: seq<char>, prefix: seq<char>, body: seq<char>, tail: seq<char>): seq<char> {
    spaces + sign + prefix + body + tail
  }

  lemma JoinedAt(spaces: seq<char>, sign: seq<char>, prefix: seq<char>, body: seq<char>, tail: seq<char>)
    requires |body| > 0 && |tail| > 0
    ensures var text, k, j := Joined(spaces, sign, prefix, body, tail), |spaces|, |spaces| + |sign|;
            && |text| == j + |prefix| + |body| + |tail|
            && (forall p :: 0 <= p < k ==> text[p] == spaces[p])
               && (forall p :: 0 <= p < |sign| ==> text[k + p] == sign[p])
            && (forall p :: 0 <= p < |prefix| ==> text[j + p] == prefix[p])
            && (forall p :: 0 <= p < |body| ==> text[j + |prefix| + p] == body[p])
            && text[j + |prefix| + |body|] == tail[0]
  {}

  lemma NoDigits()
    ensures IsSpace(' ') && IsSpace('\t') && IsSpace('\n') && !IsSpace('-') && !IsSpace('+') && !IsSpace('0')
  {}

  lemma DigitIsPlain(c: char)
    requires DigitVal(c) < 36
    ensures !IsSpace(c) && c != '-' && c != '+'
  {}

  /** The value of each digit. */
  lemma DigitValues(i: nat)
    ensures i < 10 ==> DigitVal('0' + i as char) == i
    ensures i < 26 ==> DigitVal('a' + i as char) == 10 + i && DigitVal('A' + i as char) == 10 + i
  {}

  lemma HeadFrom(text: seq<char>, k: nat, j: nat, base0: nat)
    requires k <= j && j + 1 < |text| && Strtol.SkipSpace(text, 0) == k
    requires j == if text[k] in {'-', '+'} then k + 1 else k
    ensures Strtol.HeadOf(text, base0) == HeadBehind(text[k] == '-', text[j], text[j + 1], base0, j)
  {
    hide Strtol.SkipSpace;
  }

  /** The head, given the two characters behind the sign. */
  function HeadBehind(neg: bool, first: char, second: char, base0: nat, j: nat): Strtol.Head {
    if (base0 == 0 || base0 == 16) && first == '0' && second in {'x', 'X'} then Strtol.Head(neg, 16, j + 2)
    else if (base0 == 0 || base0 == 2) && first == '0' && second in {'b', 'B'} then Strtol.Head(neg, 2, j + 2)
    else Strtol.Head(neg, if base0 == 0 then (if first == '0' then 8 else 10) else base0, j)
  }

  lemma JoinedHead(spaces: seq<char>, sign: seq<char>, prefix: seq<char>, body: seq<char>, tail: seq<char>,
                   base0: nat, base: nat)
    requires (forall i :: 0 <= i < |spaces| ==> spaces[i] in {' ', '\t', '\n'})
    requires (sign == [] || sign == ['-'] || sign == ['+'])
    requires |body| > 0 && |tail| > 0 && Tells(prefix, body, tail, base0, base) && DigitVal(body[0]) < base
    ensures Strtol.HeadOf(Joined(spaces, sign, prefix, body, tail), base0)
            == Strtol.Head(sign == ['-'], base, |spaces| + |sign| + |prefix|)
  {
    hide DigitVal, IsSpace, Strtol.SkipSpace, Strtol.HeadOf, Tells, HeadBehind;
    NoDigits();
    BaseBound(prefix, body, tail, base0, base);
    DigitIsPlain(body[0]);
    JoinedAt(spaces, sign, prefix, body, tail);
    var text, k, j := Joined(spaces, sign, prefix, body, tail), |spaces|, |spaces| + |sign|;
    hide Joined;
    assert prefix == [] ==> text[j] == text[j + 0] == body[0] && (|body| > 1 ==> text[j + 1] == body[1]);
    assert prefix != [] ==> text[j] == text[j + 0] == prefix[0] == '0' && text[j + 1] == prefix[1];
    assert sign != [] ==> text[k] == text[k + 0] == sign[0];
    SkipTo(text, 0, k);
    HeadFrom(text, k, j, base0);
    Told(prefix, body, tail, base0, base, sign == ['-'], j);
  }

  lemma BaseBound(prefix: seq<char>, body: seq<char>, tail: seq<char>, base0: nat, base: nat)
    requires |body| > 0 && |tail| > 0 && Tells(prefix, body, tail, base0, base)
    ensures base <= 36 && (prefix != [] ==> |prefix| == 2 && prefix[0] == '0')
  {}

  /** The base and the place of the digits follow from the two characters behind the sign. */
  lemma Told(prefix: seq<char>, body: seq<char>, tail: seq<char>, base0: nat, base: nat, neg: bool, j: nat)
    requires |body| > 0 && |tail| > 0 && Tells(prefix, body, tail, base0, base) && DigitVal(body[0]) < base
    requires prefix == [] || |prefix| == 2
    ensures var first := if prefix == [] then body[0] else prefix[0];
            var second := if prefix != [] then prefix[1] else if |body| > 1 then body[1] else tail[0];
            HeadBehind(neg, first, second, base0, j) == Strtol.Head(neg, base, j + |prefix|)
  {}

  /** The general law of strtol and strtoul: white space, a sign, a prefix and the longest run of digits are read; the
      value is clamped to the range, a minus sign negates it, and the end is where the digits stop. */
  lemma Reads(spaces: seq<char>, sign: seq<char>, prefix: seq<char>, body: seq<char>, tail: seq<char>,
              ds: seq<nat>, base0: nat, base: nat)
    requires (forall i :: 0 <= i < |spaces| ==> spaces[i] in {' ', '\t', '\n'})
    requires (sign == [] || sign == ['-'] || sign == ['+'])
    requires |body| == |ds| > 0 && (forall i :: 0 <= i < |ds| ==> DigitVal(body[i]) == ds[i] < base)
    requires |tail| > 0 && DigitVal(tail[0]) >= base && Tells(prefix, body, tail, base0, base)
    ensures var text, v := Joined(spaces, sign, prefix, body, tail), Value(ds, base);
            && Strtol.EndOf(text, base0) == |spaces| + |sign| + |prefix| + |body|
            && Strtol.LongValue(text, base0)
               == (if sign == ['-'] then if v > 0x8000_0000 then -0x8000_0000 else -(v as int)
                   else if v > 0x7fff_ffff then 0x7fff_ffff else v)
            && Strtol.UnsignedValue(text, base0)
               == if v > 0xffff_ffff then 0xffff_ffff else if sign == ['-'] && v > 0 then 0x1_0000_0000 - v else v
  {
    hide DigitVal, Strtol.HeadOf, Strtol.DigitRun, Value, Tells;
    JoinedHead(spaces, sign, prefix, body, tail, base0, base);
    JoinedAt(spaces, sign, prefix, body, tail);
    var text, h := Joined(spaces, sign, prefix, body, tail), |spaces| + |sign| + |prefix|;
    hide Joined;
    RunIs(text, h, ds, base);
  }

  /** What a sequence of digits stands for: each digit counts once, and those before it as many times as the base. */
  lemma DigitByDigit(ds: seq<nat>, d: nat, base: nat)
    ensures Value([], base) == 0 && Value(ds + [d], base) == Value(ds, base) * base + d
  {
    assert (ds + [d])[..|ds|] == ds;
  }

  /** "  -0x1F;" in an open base is -31, "0777" is 511 there and 777 in base 10,
  and -1 is the largest unsigned number. */
  lemma ReadAloud()
    ensures Strtol.LongValue("  -0x1F;", 0) == -31 && Strtol.EndOf("  -0x1F;", 0) == 7
    ensures Strtol.LongValue("0777\0", 0) == 511 && Strtol.LongValue("0777\0", 10) == 777
    ensures Strtol.UnsignedValue("-1\0", 10) == 0xffff_ffff
  {
    hide Strtol.LongValue, Strtol.UnsignedValue, Strtol.EndOf;
    assert Joined("  ", "-", "0x", "1F", ";") == "  -0x1F;";
    assert Joined("", "", "", "0777", "\0") == "0777\0";
    assert Joined("", "-", "", "1", "\0") == "-1\0";
    Values();
    hide Joined, Value;
    Reads("  ", "-", "0x", "1F", ";", [1, 15], 0, 16);
    Reads("", "", "", "0777", "\0", [0, 7, 7, 7], 0, 8);
    Reads("", "", "", "0777", "\0", [0, 7, 7, 7], 10, 10);
    Reads("", "-", "", "1", "\0", [1], 10, 10);
  }

  lemma Values()
    ensures Value([1, 15], 16) == 31 && Value([1], 10) == 1
    ensures Value([0, 7, 7, 7], 8) == 511 && Value([0, 7, 7, 7], 10) == 777
  {
    DigitByDigit([1], 15, 16);
    DigitByDigit([], 1, 16);
    DigitByDigit([], 1, 10);
    DigitByDigit([0, 7, 7], 7, 8);
    DigitByDigit([0, 7], 7, 8);
    DigitByDigit([0], 7, 8);
    DigitByDigit([], 0, 8);
    DigitByDigit([0, 7, 7], 7, 10);
    DigitByDigit([0, 7], 7, 10);
    DigitByDigit([0], 7, 10);
    DigitByDigit([], 0, 10);
    assert [1] + [15] == [1, 15] && [] + [1] == [1] && [] + [0] == [0];
    assert [0, 7, 7] + [7] == [0, 7, 7, 7] && [0, 7] + [7] == [0, 7, 7] && [0] + [7] == [0, 7];
    hide Value;
  }

  /** Without digits nothing is read: the value is zero, and the end is the beginning. */
  lemma ReadsNothing(spaces: seq<char>, sign: seq<char>, tail: seq<char>, base: nat)
    requires (forall i :: 0 <= i < |spaces| ==> spaces[i] in {' ', '\t', '\n'})
    requires (sign == [] || sign == ['-'] || sign == ['+'])
    requires 2 <= base <= 36 && |tail| > 0 && DigitVal(tail[0]) >= base && tail[0] !in {' ', '\t', '\n'}
    requires sign == [] ==> tail[0] !in {'-', '+'}
    ensures var text := spaces + sign + tail;
            Strtol.EndOf(text, base) == 0 && Strtol.LongValue(text, base) == 0 && Strtol.UnsignedValue(text, base) == 0
  {
    var text, k, j := spaces + sign + tail, |spaces|, |spaces| + |sign|;
    hide DigitVal, Strtol.SkipSpace;
    NoDigits();
    ZeroIsDigit();
    assert forall p :: 0 <= p < k ==> text[p] == spaces[p];
    assert text[j] == tail[0] && (sign != [] ==> text[k] == sign[0]);
    SkipTo(text, 0, k);
    assert Strtol.DigitRun(text, j, base) == [];
  }

  lemma ZeroIsDigit()
    ensures DigitVal('0') == 0
  {}

  /** The width that a conversion asks for: its minimum, or what sign, precision and digits need. */
  function Wanted(place: nat, signed: nat, min: int, max: int): int {
    var body := signed + if max > place then max else place;
    if min > body then min else body
  }

  /** The width left for the spaces, before it is cut to 32 bits. */
  function Left(place: nat, signed: nat, min: int, max: int): int {
    min - (if max > place then max else place) - signed
  }

  /** The text is not as wide as asked for: zero padding meets a precision that adds zeros and a minimum that is
      larger still, so that the two paddings share their zeros; or the width left for the spaces wraps around, and
      more padding comes out of it than the precision adds. */
  predicate OddWidth(place: nat, signed: nat, min: int, max: int, zero: bool) {
    var left := Left(place, signed, min, max);
    if left >= -0x8000_0000 then zero && max > place && left > 0
    else left + 0x1_0000_0000 > if zero && max > place then max - place else 0
  }

  /** Exactly when the text has the width asked for. */
  lemma WidthIff(value: int, base: nat, min: int, max: int, flags: nat)
    requires 8 <= base <= 16 && IsInt32(min) && IsInt32(max)
    ensures var place, signed := |Digits(Magnitude(value, flags), base)|, |Sign(value, flags)|;
            |Formatted(value, base, min, max, flags)| == Wanted(place, signed, min, max)
            <==> !OddWidth(place, signed, min, max, Flag(flags, F_ZERO))
  {
    hide Digits, Flag, Eights;
    ElevenIsEnough();
    FewDigits(Magnitude(value, flags), base, 11);
    hide Magnitude;
    var place, signed := |Digits(Magnitude(value, flags), base)|, |Sign(value, flags)|;
    hide Sign;
    var pad := Padding(place, signed, min, max, flags);
    RepeatIs(' ', pad.1);
    RepeatIs('0', pad.0);
    RepeatIs(' ', -pad.1);
    hide Repeat;
    PaddingWidth(place, signed, min, max, flags);
  }

  lemma PaddingWidth(place: nat, signed: nat, min: int, max: int, flags: nat)
    requires 0 < place <= LONG_MAX && signed <= 1 && IsInt32(min) && IsInt32(max)
    ensures var pad := Padding(place, signed, min, max, flags);
            pad.0 >= 0
            && (pad.0 + (if pad.1 < 0 then -pad.1 else pad.1) + place + signed == Wanted(place, signed, min, max)
                <==> !OddWidth(place, signed, min, max, Flag(flags, F_ZERO)))
  {
    hide Flag;
    var left := Left(place, signed, min, max);
    assert Int32(left) == if left >= LONG_MIN then left else left + WORD;
  }

  /** The number 0 in a zero-padded field of five, with three digits: it comes out three wide.  And -1 in a field of
      the smallest width: it comes out far wider than its two characters. */
  lemma OddFields()
    ensures var flags := F_ZERO; Wanted(1, 0, 5, 3) == 5 && |Formatted(0, 10, 5, 3, flags)| == 3
    ensures Wanted(1, 1, LONG_MIN, -1) == 2 && |Formatted(-1, 10, LONG_MIN, -1, 0)| == 0x8000_0000
  {
    assert Flag(16, 16) && !Flag(16, 1) && !Flag(16, 64) && !Flag(16, 2) && !Flag(16, 4);
    assert !Flag(0, 16) && !Flag(0, 1) && !Flag(0, 64);
    assert Digits(0, 10) == [0] && Digits(1, 10) == [1];
    hide Flag, Digits;
    assert Padding(1, 0, 5, 3, F_ZERO) == (2, 0);
    assert Padding(1, 1, LONG_MIN, -1, 0) == (0, 0x7fff_fffe);
    RepeatIs('0', 2);
    RepeatIs('0', 0);
    RepeatIs(' ', 0);
    RepeatIs(' ', 0x7fff_fffe);
    RepeatIs(' ', -0x7fff_fffe);
    hide Repeat, Padding;
  }

  // ----- what the flags do

  /** The flags as bits of the word. */
  lemma FlagBits(flags: nat)
    ensures Flag(flags, F_MINUS) <==> flags % 2 == 1
    ensures Flag(flags, F_PLUS) <==> flags / 2 % 2 == 1
    ensures Flag(flags, F_SPACE) <==> flags / 4 % 2 == 1
    ensures Flag(flags, F_ZERO) <==> flags / 16 % 2 == 1
    ensures Flag(flags, F_UP) <==> flags / 32 % 2 == 1
    ensures Flag(flags, F_UNSIGNED) <==> flags / 64 % 2 == 1
  {
    AndPower(flags, 0);
    AndPower(flags, 1);
    AndPower(flags, 2);
    AndPower(flags, 4);
    AndPower(flags, 5);
    AndPower(flags, 6);
    Pow2Values();
    Halves(flags);
    hide And, Pow2;
  }

  lemma {:induction false} AndPower(a: nat, k: nat)
    ensures And(a, Pow2(k)) != 0 <==> Shr(a, k) % 2 == 1
  {
    if k > 0 {
      AndPower(a / 2, k - 1);
      if a != 0 { AndDouble(a, Pow2(k - 1)); } else { ShrOfZero(k); }
    } else {
      assert Pow2(0) == 1 && And(a / 2, 0) == 0;
    }
  }

  lemma AndDouble(a: nat, p: nat)
    requires p > 0
    ensures And(a, 2 * p) == 2 * And(a / 2, p)
  {}

  lemma {:induction false} ShrOfZero(k: nat)
    ensures Shr(0, k) == 0
  {
    if k > 0 { ShrOfZero(k - 1); }
  }

  lemma Halves(a: nat)
    ensures Shr(a, 0) == a && Shr(a, 1) == a / 2 && Shr(a, 2) == a / 4
    ensures Shr(a, 4) == a / 16 && Shr(a, 5) == a / 32 && Shr(a, 6) == a / 64
  {
    ShrIsDiv(a, 0);
    ShrIsDiv(a, 1);
    ShrIsDiv(a, 2);
    ShrIsDiv(a, 4);
    ShrIsDiv(a, 5);
    ShrIsDiv(a, 6);
    Pow2Values();
  }

  /** The digits of a text: decimal digits, and letters behind them in the case that is asked for. */
  predicate Shows(text: seq<char>, from: nat, ds: seq<nat>, capital: bool) {
    from + |ds| <= |text|
    && forall i {:trigger ds[i]} :: 0 <= i < |ds| ==>
         text[from + i] == if ds[i] < 10 then '0' + ds[i] as char else if ds[i] >= 16 then '?'
                           else (if capital then 'A' else 'a') + (ds[i] - 10) as char
  }

  function Times(n: nat, c: char): seq<char> {
    seq(n, _ => c)
  }

  lemma {:induction false} RepeatTimes(n: nat, c: char)
    ensures Repeat(c, n) == Times(n, c)
  {
    if n > 0 { RepeatTimes(n - 1, c); }
  }

  /** The sign of a conversion, by its flags: none for an unsigned number, a minus sign for a negative one, and for
      another a plus sign, a space or nothing. */
  lemma SignIs(value: int, flags: nat)
    ensures Sign(value, flags)
            == if flags / 64 % 2 == 1 then "" else if value < 0 then "-"
               else if flags / 2 % 2 == 1 then "+" else if flags / 4 % 2 == 1 then " " else ""
  {
    FlagBits(flags);
    hide Flag;
  }

  /** Which side is padded, and with what: with the first flag the digits end before the spaces, and without it the
      text ends with the digits; the fifth flag replaces the spaces by zeros behind the sign; and the sixth one makes
      the letters capital. */
  lemma Sides(value: int, base: nat, min: int, max: int, flags: nat) returns (spaces: nat, zeros: nat)
    requires 8 <= base <= 16
    ensures var text, ds := Formatted(value, base, min, max, flags), Digits(Magnitude(value, flags), base);
            var at := |Sign(value, flags)| + zeros + if flags % 2 == 1 then 0 else spaces;
            && |text| == spaces + |Sign(value, flags)| + zeros + |ds|
            && text[..at]
               == (if flags % 2 == 1 then [] else Times(spaces, ' ')) + Sign(value, flags) + Times(zeros, '0')
            && Shows(text, at, ds, flags / 32 % 2 == 1)
            && text[at + |ds|..] == if flags % 2 == 1 then Times(spaces, ' ') else []
    ensures flags / 16 % 2 == 1 ==> spaces == 0
    ensures var n := |Digits(Magnitude(value, flags), base)|;
            flags / 16 % 2 == 0 ==> zeros == if max > n then max - n else 0
  {
    hide Digits, Magnitude, Sign, Flag, Repeat, Text, Padding, Shows, Times;
    FlagBits(flags);
    var ds, sign := Digits(Magnitude(value, flags), base), Sign(value, flags);
    var pad := Padding(|ds|, |sign|, min, max, flags);
    PaddingSides(|ds|, |sign|, min, max, flags);
    zeros, spaces := pad.0, if pad.1 < 0 then -pad.1 else pad.1;
    RepeatTimes(zeros, '0');
    RepeatTimes(spaces, ' ');
    NoneLeft(-(spaces as int));
    var body := Text(ds, Flag(flags, F_UP));
    TextShows(ds, Flag(flags, F_UP));
    var text := Formatted(value, base, min, max, flags);
    var left, right := if flags % 2 == 1 then []
                         else Times(spaces, ' '), if flags % 2 == 1 then Times(spaces, ' ') else [];
    TimesLength(spaces, ' ');
    TimesLength(zeros, '0');
    assert text == left + sign + Times(zeros, '0') + body + right by { EmptyEnds(); hide Flag; }
    Cut(left, sign, Times(zeros, '0'), body, right);
    ShowsWithin(body, text, |left| + |sign| + zeros, ds, flags / 32 % 2 == 1);
  }

  lemma EmptyEnds()
    ensures Times(0, ' ') == []
  {}

  lemma TimesLength(n: nat, c: char)
    ensures |Times(n, c)| == n
  {}

  lemma ShowsWithin(body: seq<char>, text: seq<char>, at: nat, ds: seq<nat>, capital: bool)
    requires Shows(body, 0, ds, capital) && |body| == |ds| && at + |body| <= |text| && text[at..at + |body|] == body
    ensures Shows(text, at, ds, capital)
  {
    forall i {:trigger ds[i]} | 0 <= i < |ds| ensures text[at + i] == body[0 + i] {
      assert text[at..at + |body|][i] == body[i];
    }
  }

  lemma PaddingSides(place: nat, signed: nat, min: int, max: int, flags: nat)
    requires place > 0
    ensures var pad := Padding(place, signed, min, max, flags);
            && 0 <= pad.0 && (Flag(flags, F_MINUS) ==> pad.1 <= 0) && (!Flag(flags, F_MINUS) ==> pad.1 >= 0)
            && (if Flag(flags, F_ZERO) then pad.1 == 0 else pad.0 == if max > place then max - place else 0)
  {
    hide Flag, Int32;
  }

  /** The number that is shown: the low 32 bits of an unsigned number, the distance from zero of a signed one. */
  lemma NumberShown(value: int, flags: nat)
    requires -0x8000_0000 <= value < 0x1_0000_0000
    ensures var m := Magnitude(value, flags);
            && (flags / 64 % 2 == 1 ==> m == if value < 0 then value + 0x1_0000_0000 else value)
            && (flags / 64 % 2 == 0 ==> m == if value < 0 then -value else value)
  {
    FlagBits(flags);
    hide Flag;
  }

  lemma NoneLeft(n: int)
    requires n <= 0
    ensures Repeat(' ', n) == []
  {}

  lemma TextShows(ds: seq<nat>, capital: bool)
    requires forall i :: 0 <= i < |ds| ==> ds[i] < 16
    ensures |Text(ds, capital)| == |ds| && Shows(Text(ds, capital), 0, ds, capital)
  {}

  lemma Cut(a: seq<char>, sign: seq<char>, z: seq<char>, body: seq<char>, c: seq<char>)
    ensures var text, at := a + sign + z + body + c, |a| + |sign| + |z|;
            && |text| == at + |body| + |c| && text[..at] == a + sign + z && text[at..at + |body|] == body
            && text[at + |body|..] == c
  {}

  /** The number 42 in a field of six, plain, to the left, with zeros, and with a precision of four; and 255 in
      small and in capital letters. */
  lemma Printed()
    ensures Formatted(42, 10, 6, -1, 0) == "    42" && Formatted(42, 10, 6, -1, 1) == "42    "
    ensures Formatted(42, 10, 6, -1, 18) == "+00042" && Formatted(-42, 10, 6, 4, 1) == "-0042 "
    ensures Formatted(255, 16, 0, -1, 64) == "ff" && Formatted(255, 16, 0, -1, 96) == "FF"
  {
    PrintedPlain();
    PrintedZeros();
    PrintedHex();
    hide Formatted;
  }

  /** The parts of a text, once its digits, sign and padding are known. */
  lemma Parts(value: int, base: nat, min: int, max: int, flags: nat, ds: seq<nat>, sign: seq<char>, pad: (int, int))
    requires 2 <= base <= 16 && ds == Digits(Magnitude(value, flags), base) && sign == Sign(value, flags)
    requires pad == Padding(|ds|, |sign|, min, max, flags)
    ensures Formatted(value, base, min, max, flags)
            == Repeat(' ', pad.1) + sign + Repeat('0', pad.0) + Text(ds, Flag(flags, F_UP)) + Repeat(' ', -pad.1)
  {
    hide Repeat, Text, Padding, Sign, Magnitude, Digits, Flag;
  }

  lemma PrintedPlain()
    ensures Formatted(42, 10, 6, -1, 0) == "    42" && Formatted(42, 10, 6, -1, 1) == "42    "
  {
    hide Formatted;
    FlagBits(0);
    FlagBits(1);
    hide Flag;
    DigitsOf42();
    hide Digits, Text;
    Parts(42, 10, 6, -1, 0, [4, 2], [], (0, 4));
    Parts(42, 10, 6, -1, 1, [4, 2], [], (0, -4));
    Blanks();
  }

  lemma PrintedZeros()
    ensures Formatted(42, 10, 6, -1, 18) == "+00042" && Formatted(-42, 10, 6, 4, 1) == "-0042 "
  {
    hide Formatted;
    FlagBits(18);
    FlagBits(1);
    hide Flag;
    DigitsOf42();
    hide Digits, Text;
    Parts(42, 10, 6, -1, 18, [4, 2], ['+'], (3, 0));
    Parts(-42, 10, 6, 4, 1, [4, 2], ['-'], (2, -1));
    Blanks();
  }

  lemma DigitsOf42()
    ensures Digits(42, 10) == [4, 2] && Text([4, 2], false) == "42"
  {}

  lemma Blanks()
    ensures Repeat('0', 0) == [] && Repeat('0', 2) == "00" && Repeat('0', 3) == "000"
    ensures Repeat(' ', -4) == [] && Repeat(' ', -1) == [] && Repeat(' ', 0) == []
    ensures Repeat(' ', 1) == " " && Repeat(' ', 4) == "    "
  {
    assert Repeat(' ', 2) == "  ";
  }

  lemma PrintedHex()
    ensures Formatted(255, 16, 0, -1, 64) == "ff" && Formatted(255, 16, 0, -1, 96) == "FF"
  {
    hide Formatted;
    FlagBits(64);
    FlagBits(96);
    hide Flag;
    DigitsOf255();
    hide Digits, Text;
    Parts(255, 16, 0, -1, 64, [15, 15], [], (0, 0));
    Parts(255, 16, 0, -1, 96, [15, 15], [], (0, 0));
    Blanks();
  }

  lemma DigitsOf255()
    ensures Digits(255, 16) == [15, 15] && Text([15, 15], false) == "ff" && Text([15, 15], true) == "FF"
  {
    assert Digits(15, 16) == [15];
  }

  /** A numeral: characters that are the digits ds, and nothing that could be taken for anything else. */
  predicate IsNumeral(body: seq<char>, ds: seq<nat>, base: nat) {
    && |body| == |ds| > 0
    && forall i {:trigger body[i]} :: 0 <= i < |body| ==>
         DigitVal(body[i]) == ds[i] < base && !IsSpace(body[i]) && body[i] !in {'-', '+', 'x', 'X'}
  }

  function Whole(spaces: seq<char>, sign: seq<char>, body: seq<char>, tail: seq<char>): seq<char> {
    spaces + sign + body + tail
  }

  /** Spaces, a sign, a numeral, and then a space or the terminator. */
  lemma ParsesParts(spaces: seq<char>, sign: seq<char>, body: seq<char>, tail: seq<char>, ds: seq<nat>, base: nat)
    requires base == 8 || base == 10 || base == 16
    requires (forall i :: 0 <= i < |spaces| ==> spaces[i] == ' ') && (sign == [] || sign == ['-'] || sign == ['+'])
    requires IsNumeral(body, ds, base) && |tail| > 0 && (tail[0] == ' ' || tail[0] == '\0')
    ensures var text := Whole(spaces, sign, body, tail);
            && Strtol.HeadOf(text, base) == Strtol.Head(sign == ['-'], base, |spaces| + |sign|)
            && Strtol.DigitRun(text, |spaces| + |sign|, base) == ds
  {
    hide IsNumeral, IsSpace, Strtol.HeadOf, Strtol.DigitRun, Whole;
    NumeralStart(body, ds, base);
    SignsAreNoSpaces();
    var text := Whole(spaces, sign, body, tail);
    PartsAt(spaces, sign, body, tail);
    HeadIs(text, |spaces|, |spaces| + |sign|, base);
    NumeralRun(text, |spaces| + |sign|, body, ds, base);
  }

  lemma SignsAreNoSpaces()
    ensures !IsSpace('-') && !IsSpace('+')
  {}

  lemma PartsAt(spaces: seq<char>, sign: seq<char>, body: seq<char>, tail: seq<char>)
    requires |body| > 0 && |tail| > 0 && |sign| <= 1
    ensures var text := Whole(spaces, sign, body, tail);
            var k, j := |spaces|, |spaces| + |sign|;
            && |text| >= j + |body| + 1 && (forall p :: 0 <= p < k ==> text[p] == spaces[p])
            && (forall p :: 0 <= p < |body| ==> text[j + p] == body[p])
            && text[j + |body|] == tail[0] && text[k] == (if sign == [] then body[0] else sign[0])
            && text[j + 1] == if |body| > 1 then body[1] else tail[0]
  {}

  lemma NumeralStart(body: seq<char>, ds: seq<nat>, base: nat)
    requires IsNumeral(body, ds, base)
    ensures |body| > 0 && !IsSpace(body[0]) && body[0] !in {'-', '+'} && (|body| > 1 ==> body[1] !in {'x', 'X'})
  {}

  lemma NumeralRun(text: seq<char>, j: nat, body: seq<char>, ds: seq<nat>, base: nat)
    requires IsNumeral(body, ds, base) && base <= 16 && j + |body| < |text|
    requires forall p :: 0 <= p < |body| ==> text[j + p] == body[p]
    requires text[j + |body|] == ' ' || text[j + |body|] == '\0'
    ensures Strtol.DigitRun(text, j, base) == ds
  {
    hide Strtol.DigitRun;
    forall p | 0 <= p < |ds| ensures DigitVal(text[j + p]) == ds[p] < base { assert text[j + p] == body[p]; }
    RunIs(text, j, ds, base);
  }

  lemma HeadIs(text: seq<char>, k: nat, j: nat, base: nat)
    requires base == 8 || base == 10 || base == 16
    requires k <= j < j + 1 < |text| && (forall p :: 0 <= p < k ==> text[p] == ' ') && !IsSpace(text[k])
    requires if text[k] == '-' || text[k] == '+' then j == k + 1 else j == k
    requires text[j + 1] !in {'x', 'X'}
    ensures Strtol.HeadOf(text, base) == Strtol.Head(text[k] == '-', base, j)
  {
    hide Strtol.SkipSpace;
    SkipTo(text, 0, k);
  }

  /** The digits that fmtint prints, with their leading zeros. */
  lemma BodyIsNumeral(u: nat, base: nat, zeros: int, caps: bool)
    requires 8 <= base <= 16
    ensures var ds := Digits(u, base);
            IsNumeral(Repeat('0', zeros) + Text(ds, caps), seq(if zeros < 0 then 0 else zeros, _ => 0) + ds, base)
            && Value(seq(if zeros < 0 then 0 else zeros, _ => 0) + ds, base) == u
  {
    var ds := Digits(u, base);
    var z := if zeros < 0 then 0 else zeros;
    var body, all := Repeat('0', zeros) + Text(ds, caps), seq(z, _ => 0) + ds;
    RepeatIs('0', zeros);
    forall i | 0 <= i < |body|
      ensures DigitVal(body[i]) == all[i] < base && !IsSpace(body[i]) && body[i] !in {'-', '+', 'x', 'X'}
    {
      if i >= z { DigitRoundTrip(ds[i - z], caps); }
    }
    LeadingZeros(seq(z, _ => 0), ds, base);
    ValueOfDigits(u, base);
  }

  /** What strtol and strtoul see in the text that fmtint prints, followed by the terminator. */
  lemma ParsesFormatted(value: int, base: nat, min: int, max: int, flags: nat, rest: seq<char>)
    requires base == 8 || base == 10 || base == 16
    ensures var text := Formatted(value, base, min, max, flags) + ['\0'] + rest;
            var h := Strtol.HeadOf(text, base);
            h.base == base && h.neg == (Sign(value, flags) == ['-'])
            && Value(Strtol.DigitRun(text, h.at, base), base) == Magnitude(value, flags)
  {
    hide Digits, Value, Magnitude, Flag, Strtol.HeadOf, Strtol.DigitRun, IsNumeral, Padding, Repeat, IsSpace, DigitVal;
    hide Text, And, Max, Int32;
    var u := Magnitude(value, flags);
    var ds, sign := Digits(u, base), Sign(value, flags);
    var pad := Padding(|ds|, |sign|, min, max, flags);
    var caps := Flag(flags, F_UP);
    var body := Repeat('0', pad.0) + Text(ds, caps);
    var all := seq(if pad.0 < 0 then 0 else pad.0, _ => 0) + ds;
    var tail := Repeat(' ', -pad.1) + ['\0'] + rest;
    BodyIsNumeral(u, base, pad.0, caps);
    RepeatIs(' ', pad.1);
    RepeatIs(' ', -pad.1);
    var text := Formatted(value, base, min, max, flags) + ['\0'] + rest;
    if sign == [' '] {
      var spaces := Repeat(' ', pad.1) + [' '];
      Regroup(Repeat(' ', pad.1), [' '], [], Repeat('0', pad.0), Text(ds, caps), Repeat(' ', -pad.1), rest);
      ParsesParts(spaces, [], body, tail, all, base);
    } else {
      Regroup(Repeat(' ', pad.1), [], sign, Repeat('0', pad.0), Text(ds, caps), Repeat(' ', -pad.1), rest);
      assert Repeat(' ', pad.1) + [] == Repeat(' ', pad.1);
      ParsesParts(Repeat(' ', pad.1), sign, body, tail, all, base);
    }
  }

  lemma Regroup(a: seq<char>, b: seq<char>, sign: seq<char>, z: seq<char>, t: seq<char>, c: seq<char>, rest: seq<char>)
    ensures a + (b + sign) + z + t + c + ['\0'] + rest == (a + b) + sign + (z + t) + (c + ['\0'] + rest)
    ensures b == [] ==> b + sign == sign
    ensures sign == [] ==> b + sign == b
  {}

  /** Every signed 32-bit number, printed with any width, precision and flags, is read back by strtol. */
  lemma SignedRoundTrip(value: int, min: int, max: int, flags: nat, rest: seq<char>)
    requires LONG_MIN <= value <= LONG_MAX && !Flag(flags, F_UNSIGNED)
    ensures Strtol.LongValue(Formatted(value, 10, min, max, flags) + ['\0'] + rest, 10) == value
  {
    hide Formatted, Strtol.HeadOf, Strtol.DigitRun, Value, Flag;
    ParsesFormatted(value, 10, min, max, flags, rest);
    if value < 0 { assert Unsigned(-value) == -value; } else { assert Unsigned(value) == value; }
  }

  /** And every unsigned one, printed in base 8, 10 or 16, by strtoul in that base. */
  lemma UnsignedRoundTrip(value: int, base: nat, min: int, max: int, flags: nat, rest: seq<char>)
    requires (base == 8 || base == 10 || base == 16) && Flag(flags, F_UNSIGNED)
    ensures Strtol.UnsignedValue(Formatted(value, base, min, max, flags) + ['\0'] + rest, base) == Unsigned(value)
  {
    hide Formatted, Strtol.HeadOf, Strtol.DigitRun, Value, Flag;
    ParsesFormatted(value, base, min, max, flags, rest);
  }

  /** The text in the buffer, once it has been terminated, if there was room for it and the terminator. */
  lemma TextInBuffer(o: Out, maxlen: nat, cs: seq<char>)
    requires o.len + |cs| < maxlen <= |o.text|
    ensures var p := PutAll(o, maxlen, cs);
            p.len == o.len + |cs| < |p.text|
            && p.text[p.len := '\0'][o.len..] == cs + ['\0'] + o.text[o.len + |cs| + 1..]
  {
    PutAllText(o, maxlen, cs);
    assert cs[..|cs|] == cs;
  }

  /** From buffer to number: fmtint into a buffer with room, terminate, parse. */
  lemma BufferRoundTrip(o: Out, maxlen: nat, value: int, base: nat, min: int, max: int, flags: nat)
    requires base == 8 || base == 10 || base == 16
    requires o.len + |Formatted(value, base, min, max, flags)| < maxlen <= |o.text|
    requires if Flag(flags, F_UNSIGNED) then 0 <= value < WORD else base == 10 && LONG_MIN <= value <= LONG_MAX
    ensures var p := PutAll(o, maxlen, Formatted(value, base, min, max, flags));
            && p.len < |p.text| && o.len <= |p.text|
            && var text := p.text[p.len := '\0'][o.len..];
               if Flag(flags, F_UNSIGNED) then Strtol.UnsignedValue(text, base) == value
                 else Strtol.LongValue(text, base) == value
  {
    hide Formatted, PutAll, Strtol.LongValue, Strtol.UnsignedValue, Flag;
    var cs := Formatted(value, base, min, max, flags);
    TextInBuffer(o, maxlen, cs);
    var rest := o.text[o.len + |cs| + 1..];
    if Flag(flags, F_UNSIGNED) {
      UnsignedRoundTrip(value, base, min, max, flags, rest);
    } else {
      SignedRoundTrip(value, min, max, flags, rest);
    }
  }
}
