/** Printing integers (fmtint and dopr_outch of lib/snprintf.c). */
module Printf {
  import opened Words
  import opened Numerals

  const F_MINUS: nat := 1
  const F_PLUS: nat := 2
  const F_SPACE: nat := 4
  const F_ZERO: nat := 16
  const F_UP: nat := 32
  const F_UNSIGNED: nat := 64

  const LONG_MAX: int := 0x7fff_ffff
  const LONG_MIN: int := -0x8000_0000

  /** The flags of a conversion, as bits of one word. */
  predicate Flag(flags: nat, f: nat) {
    And(flags, f) != 0
  }

  // ----- the output buffer

  /** A buffer and the number of characters in it. */
  datatype Out = Out(text: seq<char>, len: nat)

  /** dopr_outch: append a character unless the buffer is full. */
  function Put(o: Out, maxlen: nat, c: char): Out {
    if o.len < maxlen && o.len < |o.text| then Out(o.text[o.len := c], o.len + 1) else o
  }

  function PutAll(o: Out, maxlen: nat, cs: seq<char>): Out {
    if cs == [] then o else Put(PutAll(o, maxlen, cs[..|cs| - 1]), maxlen, cs[|cs| - 1])
  }

  lemma PutSnoc(o: Out, maxlen: nat, cs: seq<char>, c: char)
    ensures PutAll(o, maxlen, cs + [c]) == Put(PutAll(o, maxlen, cs), maxlen, c)
  {
    assert (cs + [c])[..|cs|] == cs;
  }

  /** What does not fit is cut off; nothing outside the appended characters changes. */
  lemma {:induction false} PutAllText(o: Out, maxlen: nat, cs: seq<char>)
    requires o.len <= maxlen <= |o.text|
    ensures var n := if o.len + |cs| <= maxlen then |cs| else maxlen - o.len;
            PutAll(o, maxlen, cs) == Out(o.text[..o.len] + cs[..n] + o.text[o.len + n..], o.len + n)
  {
    if cs == [] {
      assert o.text[..o.len] + [] + o.text[o.len..] == o.text;
    } else {
      var init, c := cs[..|cs| - 1], cs[|cs| - 1];
      PutAllText(o, maxlen, init);
      var n := if o.len + |init| <= maxlen then |init| else maxlen - o.len;
      if o.len + |cs| <= maxlen {
        assert init[..n] == init && cs[..|cs|] == init + [c];
        AppendAt(o.text[..o.len], init, o.text[o.len + n..], c);
        assert o.text[o.len + n..][1..] == o.text[o.len + n + 1..];
      } else {
        assert init[..n] == cs[..n];
      }
    }
  }

  lemma AppendAt(a: seq<char>, b: seq<char>, r: seq<char>, c: char)
    requires |r| > 0
    ensures (a + b + r)[|a| + |b| := c] == a + (b + [c]) + r[1..]
  {}

  // ----- what is printed

  function Repeat(c: char, n: int): seq<char> {
    if n <= 0 then [] else Repeat(c, n - 1) + [c]
  }

  function Text(ds: seq<nat>, caps: bool): seq<char>
    requires forall i :: 0 <= i < |ds| ==> ds[i] < 16
  {
    seq(|ds|, i requires 0 <= i < |ds| => DigitChar(ds[i], caps))
  }

  /** The conversion of a signed 32-bit number to an unsigned one. */
  function Unsigned(value: int): nat {
    value % WORD
  }

  function Magnitude(value: int, flags: nat): nat {
    if !Flag(flags, F_UNSIGNED) && value < 0 then Unsigned(-value) else Unsigned(value)
  }

  function Sign(value: int, flags: nat): seq<char> {
    if Flag(flags, F_UNSIGNED) then []
      else if value < 0 then ['-']
             else if Flag(flags, F_PLUS) then ['+'] else if Flag(flags, F_SPACE) then [' '] else []
  }

  function Max(p: int, q: int): int { if p >= q then p else q }

  /** How many zeros, and how many spaces; spaces go to the right if their number is negative.  The width that is
      left for them is computed in 32 bits, and wraps around for the smallest minimum widths. */
  function Padding(place: int, signed: int, min: int, max: int, flags: nat): (int, int) {
    var max := if max < 0 then 0 else max;
    var z := Max(max - place, 0);
    var s := Max(Int32(min - Max(max, place) - signed), 0);
    var z' := if Flag(flags, F_ZERO) then Max(z, s) else z;
    var s' := if Flag(flags, F_ZERO) then 0 else s;
    (z', if Flag(flags, F_MINUS) then -s' else s')
  }

  /** All that fmtint prints. */
  function Formatted(value: int, base: nat, min: int, max: int, flags: nat): seq<char>
    requires 2 <= base <= 16
  {
    var ds := Digits(Magnitude(value, flags), base);
    var sign := Sign(value, flags);
    var pad := Padding(|ds|, |sign|, min, max, flags);
    Repeat(' ', pad.1) + sign + Repeat('0', pad.0) + Text(ds, Flag(flags, F_UP)) + Repeat(' ', -pad.1)
  }

  method Outch(buffer: array<char>, currlen: nat, maxlen: nat, c: char) returns (len: nat)
    requires maxlen <= buffer.Length
    modifies buffer
    ensures Out(buffer[..], len) == Put(Out(old(buffer[..]), currlen), maxlen, c)
  {
    len := currlen;
    if currlen < maxlen {
      buffer[currlen] := c;
      len := currlen + 1;
    }
  }

  /** Print a character n times. */
  method OutRepeat(buffer: array<char>, currlen: nat, maxlen: nat, c: char, n: int, ghost o: Out,
                   ghost before: seq<char>)
    returns (len: nat)
    requires maxlen <= buffer.Length && Out(buffer[..], currlen) == PutAll(o, maxlen, before)
    modifies buffer
    ensures Out(buffer[..], len) == PutAll(o, maxlen, before + Repeat(c, n))
  {
    len := currlen;
    var left := n;
    ghost var done := 0;
    assert before + Repeat(c, 0) == before;
    if n <= 0 { assert Repeat(c, n) == []; }
    while left > 0
      invariant (n <= 0 && left == n && done == 0) || (0 <= left && done == n - left && done >= 0)
      invariant Out(buffer[..], len) == PutAll(o, maxlen, before + Repeat(c, done))
    {
      PutSnoc(o, maxlen, before + Repeat(c, done), c);
      assert before + Repeat(c, done + 1) == before + Repeat(c, done) + [c];
      len := Outch(buffer, len, maxlen, c);
      left := left - 1;
      done := done + 1;
    }
  }

  /** The digits of a number in reverse: the least significant first. */
  method Convert(uvalue: nat, base: nat, caps: bool) returns (convert: array<char>, place: nat)
    requires uvalue < WORD && 8 <= base <= 16
    ensures fresh(convert) && place == |Digits(uvalue, base)| < convert.Length == 20
    ensures forall i :: 0 <= i < place ==> convert[i] == DigitChar(Digits(uvalue, base)[place - 1 - i], caps)
  {
    hide Digits, DigitChar, Quotient, Remainder, Eights;
    ElevenIsEnough();
    FewDigits(uvalue, base, 11);
    ghost var ds := Digits(uvalue, base);
    convert := new char[20](_ => '\0');
    place := 0;
    var u: nat := uvalue;
    while true
      invariant 0 <= place < |ds| <= 11 && Digits(u, base) == ds[..|ds| - place]
      invariant forall i :: 0 <= i < place ==> convert[i] == DigitChar(ds[|ds| - 1 - i], caps)
      decreases |ds| - place
    {
      LastDigit(u, base);
      convert[place] := DigitChar(Remainder(u, base), caps);
      place := place + 1;
      u := Quotient(u, base);
      if !(u != 0 && place < 20) { break; }
    }
    // eleven digits at most, so that the room for the terminator is always there
    convert[place] := '\0';
  }

  /** Division of unsigned words. */
  function Quotient(u: nat, base: nat): nat
    requires base > 0
  {
    u / base
  }

  function Remainder(u: nat, base: nat): nat
    requires base > 0
  {
    u % base
  }

  lemma LastDigit(u: nat, base: nat)
    requires base >= 2
    ensures var ds := Digits(u, base);
            && ds[|ds| - 1] == Remainder(u, base) < base && (Quotient(u, base) == 0 <==> |ds| == 1)
            && (Quotient(u, base) != 0 ==> Digits(Quotient(u, base), base) == ds[..|ds| - 1])
  {
    if u >= base { ShrinkingQuotient(u, base); }
  }

  /** fmtint: a number with its sign, its precision and its width, into a bounded buffer. */
  method FmtInt(buffer: array<char>, currlen: nat, maxlen: nat, value: int, base: nat, min: int, max: int, flags: nat)
    returns (len: nat)
    requires maxlen <= buffer.Length && currlen <= maxlen && LONG_MIN <= value < WORD && 8 <= base <= 16
    requires value > LONG_MAX ==> Flag(flags, F_UNSIGNED)
    requires IsInt32(min) && IsInt32(max)
    modifies buffer
    ensures Out(buffer[..], len)
            == PutAll(Out(old(buffer[..]), currlen), maxlen, Formatted(value, base, min, max, flags))
  {
    hide And, Digits, PutAll, Put, Int32, Text, Repeat, Flag;
    var signvalue := '\0';
    var max' := if max < 0 then 0 else max;
    var uvalue := Unsigned(value);
    if !Flag(flags, F_UNSIGNED) {
      if value < 0 {
        signvalue := '-';
        uvalue := Unsigned(-value);
      } else if Flag(flags, F_PLUS) {
        signvalue := '+';
      } else if Flag(flags, F_SPACE) {
        signvalue := ' ';
      }
    }
    var convert, place := Convert(uvalue, base, Flag(flags, F_UP));
    var zpadlen := max' - place;
    var spadlen := Int32(min - Max(max', place) - (if signvalue != '\0' then 1 else 0));
    if zpadlen < 0 { zpadlen := 0; }
    if spadlen < 0 { spadlen := 0; }
    if Flag(flags, F_ZERO) {
      zpadlen := Max(zpadlen, spadlen);
      spadlen := 0;
    }
    if Flag(flags, F_MINUS) { spadlen := -spadlen; }
    ghost var sign := if signvalue != '\0' then [signvalue] else [];
    assert sign == Sign(value, flags) && uvalue == Magnitude(value, flags);
    assert (spadlen, zpadlen) == (Padding(place, |sign|, min, max, flags).1, Padding(place, |sign|, min, max, flags).0);
    len := Emit(buffer, currlen, maxlen, spadlen, signvalue, zpadlen, convert, place, Digits(uvalue, base),
                Flag(flags, F_UP));
  }

  /** The five output loops of fmtint. */
  method Emit(buffer: array<char>, currlen: nat, maxlen: nat, spad: int, signvalue: char, zpad: int,
              convert: array<char>, digits: nat,
              ghost ds: seq<nat>, ghost caps: bool) returns (len: nat)
    requires maxlen <= buffer.Length && buffer != convert && digits == |ds| <= convert.Length
    requires forall i :: 0 <= i < |ds| ==> ds[i] < 16
    requires forall i :: 0 <= i < digits ==> convert[i] == DigitChar(ds[digits - 1 - i], caps)
    modifies buffer
    ensures Out(buffer[..], len)
            == PutAll(Out(old(buffer[..]), currlen), maxlen,
                      Repeat(' ', spad) + (if signvalue != '\0' then [signvalue] else []) + Repeat('0', zpad)
                      + Text(ds, caps) + Repeat(' ', -spad))
  {
    hide Put, Repeat, DigitChar;
    ghost var o := Out(buffer[..], currlen);
    ghost var t1 := Repeat(' ', spad);
    assert [] + t1 == t1;
    len := OutRepeat(buffer, currlen, maxlen, ' ', spad, o, []);
    ghost var t2 := t1 + (if signvalue != '\0' then [signvalue] else []);
    if signvalue != '\0' {
      PutSnoc(o, maxlen, t1, signvalue);
      len := Outch(buffer, len, maxlen, signvalue);
    } else {
      assert t1 + [] == t1;
    }
    hide PutAll;
    len := OutRepeat(buffer, len, maxlen, '0', zpad, o, t2);
    len := OutDigits(buffer, len, maxlen, convert, digits, ds, caps, o, t2 + Repeat('0', zpad));
    len := OutRepeat(buffer, len, maxlen, ' ', -spad, o, t2 + Repeat('0', zpad) + Text(ds, caps));
  }

  method OutDigits(buffer: array<char>, currlen: nat, maxlen: nat, convert: array<char>, digits: nat,
                   ghost ds: seq<nat>, ghost caps: bool, ghost o: Out, ghost before: seq<char>) returns (len: nat)
    requires maxlen <= buffer.Length && buffer != convert && digits == |ds| <= convert.Length
    requires forall i :: 0 <= i < |ds| ==> ds[i] < 16
    requires forall i :: 0 <= i < digits ==> convert[i] == DigitChar(ds[digits - 1 - i], caps)
    requires Out(buffer[..], currlen) == PutAll(o, maxlen, before)
    modifies buffer
    ensures Out(buffer[..], len) == PutAll(o, maxlen, before + Text(ds, caps))
  {
    hide Put, PutAll, DigitChar;
    len := currlen;
    var place := digits;
    ghost var text := Text(ds, caps);
    assert before + text[..0] == before;
    while place > 0
      invariant 0 <= place <= digits && Out(buffer[..], len) == PutAll(o, maxlen, before + text[..digits - place])
    {
      place := place - 1;
      PutSnoc(o, maxlen, before + text[..digits - place - 1], convert[place]);
      assert text[digits - place - 1] == convert[place];
      assert before + text[..digits - place] == before + text[..digits - place - 1] + [convert[place]];
      len := Outch(buffer, len, maxlen, convert[place]);
    }
    assert text[..digits] == text;
  }
}
