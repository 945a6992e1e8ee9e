/** A bitmap packed into 32-bit words (kernel/bitmap.c), as a sequence of booleans. */
module Bitmap {
  import opened Words

  const ELEM_BITS: nat := 32
  const BITMAP_ERROR: nat := 0xffff_ffff

  function ElemIdx(i: nat): nat { i / ELEM_BITS }
  function BitMask(i: nat): nat { Shl(1, i % ELEM_BITS) }
  function ElemCnt(bitCnt: nat): nat { (bitCnt + ELEM_BITS - 1) / ELEM_BITS }

  /** The first n bits of a sequence of words. */
  function Unpack(words: seq<nat>, n: nat): seq<bool> {
    seq(n, i requires 0 <= i => i / ELEM_BITS < |words| && Bit(words[i / ELEM_BITS], i % ELEM_BITS))
  }

  lemma MaskIsPow2(i: nat)
    ensures BitMask(i) == Pow2(i % ELEM_BITS) < WORD && i % ELEM_BITS < ELEM_BITS
  {
    Pow2Values();
    Pow2Mono(i % ELEM_BITS, 32);
    hide Pow2;
  }

  /** A word with one bit changed. */
  predicate Changed(w: nat, w': nat, k: nat, value: bool) {
    forall j: nat {:trigger Bit(w', j)} :: j < ELEM_BITS ==> Bit(w', j) == if j == k then value else Bit(w, j)
  }

  lemma MarkChanges(w: nat, k: nat)
    requires w < WORD && k < ELEM_BITS
    ensures Changed(w, Or(w, Pow2(k)), k, true) && Or(w, Pow2(k)) < WORD
  {
    Pow2Values();
    Pow2Mono(k, 32);
    hide Pow2, Or, Bit;
    OrBound(w, Pow2(k), 32);
    forall j: nat | j < ELEM_BITS ensures Bit(Or(w, Pow2(k)), j) == if j == k then true else Bit(w, j) {
      BitOr(w, Pow2(k), j);
      BitOfPow2(k, j);
    }
  }

  lemma ResetChanges(w: nat, k: nat)
    requires w < WORD && k < ELEM_BITS && Pow2(k) < WORD
    ensures Changed(w, And(w, Not(Pow2(k))), k, false) && And(w, Not(Pow2(k))) < WORD
  {
    hide Pow2, And, Bit;
    AndBound(w, Not(Pow2(k)));
    forall j: nat | j < ELEM_BITS ensures Bit(And(w, Not(Pow2(k))), j) == if j == k then false else Bit(w, j) {
      BitAnd(w, Not(Pow2(k)), j);
      BitNot(Pow2(k), j);
      BitOfPow2(k, j);
    }
  }

  /** Testing a word against a mask of one bit. */
  lemma TestReads(w: nat, k: nat)
    requires w < WORD && k < ELEM_BITS
    ensures And(w, Pow2(k)) != 0 <==> Bit(w, k)
  {
    hide And, Bit, Pow2;
    BitAnd(w, Pow2(k), k);
    BitOfPow2(k, k);
    if And(w, Pow2(k)) != 0 {
      AndBound(w, Pow2(k));
      Pow2Values();
      var j := SomeBitSet(And(w, Pow2(k)), 32);
      BitAnd(w, Pow2(k), j);
      BitOfPow2(k, j);
    } else {
      ZeroBits(k);
    }
  }

  /** Changing one bit of one word changes one element of the sequence. */
  lemma ChangesOne(words: seq<nat>, n: nat, i: nat, w': nat, value: bool)
    requires i < n && i / ELEM_BITS < |words| && Changed(words[i / ELEM_BITS], w', i % ELEM_BITS, value)
    ensures Unpack(words[i / ELEM_BITS := w'], n) == Unpack(words, n)[i := value]
  {
    hide Bit;
    var a, b := Unpack(words[i / ELEM_BITS := w'], n), Unpack(words, n)[i := value];
    forall j | 0 <= j < n ensures a[j] == b[j] {
      if j / ELEM_BITS == i / ELEM_BITS { SameElement(i, j); }
    }
  }

  lemma SameElement(i: nat, j: nat)
    requires i / ELEM_BITS == j / ELEM_BITS
    ensures j % ELEM_BITS == i % ELEM_BITS <==> j == i
    ensures j % ELEM_BITS < ELEM_BITS
  {}

  // ----- runs

  /** All of the cnt elements from start on have the value. */
  predicate AllAre(s: seq<bool>, start: nat, cnt: nat, value: bool) {
    start + cnt <= |s| && forall i :: start <= i < start + cnt ==> s[i] == value
  }

  /** The sequence with the cnt elements from start on set. */
  function Filled(s: seq<bool>, start: nat, cnt: nat, value: bool): seq<bool> {
    seq(|s|, i requires 0 <= i < |s| => if start <= i < start + cnt then value else s[i])
  }

  function Count(s: seq<bool>, start: nat, cnt: nat, value: bool): nat {
    if cnt == 0 || start >= |s| then 0
      else (if start + cnt - 1 < |s| && s[start + cnt - 1] == value then 1 else 0) + Count(s, start, cnt - 1, value)
  }

  /** The number of indices of the run whose elements have the value. */
  lemma {:induction false} CountIs(s: seq<bool>, start: nat, cnt: nat, value: bool)
    requires start + cnt <= |s|
    ensures Count(s, start, cnt, value) == |set i | start <= i < start + cnt && s[i] == value|
  {
    var now := set i | start <= i < start + cnt && s[i] == value;
    if cnt == 0 {
      assert now == {};
    } else {
      CountIs(s, start, cnt - 1, value);
      var last := start + cnt - 1;
      var before := set i | start <= i < start + (cnt - 1) && s[i] == value;
      assert now == if s[last] == value then before + {last} else before;
    }
  }

  lemma FilledNone(s: seq<bool>, start: nat, value: bool)
    ensures Filled(s, start, 0, value) == s
  {}

  lemma FilledOneMore(s: seq<bool>, start: nat, cnt: nat, value: bool)
    requires start + cnt < |s|
    ensures Filled(s, start, cnt, value)[start + cnt := value] == Filled(s, start, cnt + 1, value)
  {}

  class BitSet {
    const bitCnt: nat
    const bits: array<nat>

    ghost predicate Valid()
      reads this, bits
    {
      && bits.Length == ElemCnt(bitCnt) && bitCnt < BITMAP_ERROR
      && forall i :: 0 <= i < bits.Length ==> bits[i] < WORD
    }

    ghost function Contents(): seq<bool>
      reads this, bits
    {
      Unpack(bits[..], bitCnt)
    }

    /** bitmap_create_in_buf: all bits clear, whatever the buffer held. */
    constructor (bitCnt: nat, buffer: array<nat>)
      requires bitCnt < BITMAP_ERROR && buffer.Length == ElemCnt(bitCnt)
      requires forall i :: 0 <= i < buffer.Length ==> buffer[i] < WORD
      modifies buffer
      ensures Valid() && this.bitCnt == bitCnt && this.bits == buffer && Contents() == seq(bitCnt, _ => false)
    {
      this.bitCnt := bitCnt;
      this.bits := buffer;
      new;
      SetMultiple(0, bitCnt, false);
    }

    method Set(idx: nat, value: bool)
      requires Valid() && idx < bitCnt
      modifies bits
      ensures Valid() && Contents() == old(Contents())[idx := value]
    {
      if value { Mark(idx); } else { Reset(idx); }
    }

    method Mark(i: nat)
      requires Valid() && i < bitCnt
      modifies bits
      ensures Valid() && Contents() == old(Contents())[i := true]
    {
      hide Or, Pow2, Bit, Unpack, Shl;
      InBounds(i, bitCnt);
      MaskIsPow2(i);
      MarkChanges(bits[ElemIdx(i)], i % ELEM_BITS);
      ChangesOne(bits[..], bitCnt, i, Or(bits[ElemIdx(i)], BitMask(i)), true);
      ghost var words := bits[..];
      bits[ElemIdx(i)] := Or(bits[ElemIdx(i)], BitMask(i));
      assert bits[..] == words[ElemIdx(i) := bits[ElemIdx(i)]];
    }

    method Reset(i: nat)
      requires Valid() && i < bitCnt
      modifies bits
      ensures Valid() && Contents() == old(Contents())[i := false]
    {
      hide And, Pow2, Bit, Unpack, Shl;
      InBounds(i, bitCnt);
      MaskIsPow2(i);
      ResetChanges(bits[ElemIdx(i)], i % ELEM_BITS);
      ChangesOne(bits[..], bitCnt, i, And(bits[ElemIdx(i)], Not(BitMask(i))), false);
      ghost var words := bits[..];
      bits[ElemIdx(i)] := And(bits[ElemIdx(i)], Not(BitMask(i)));
      assert bits[..] == words[ElemIdx(i) := bits[ElemIdx(i)]];
    }

    method Test(idx: nat) returns (r: bool)
      requires Valid() && idx < bitCnt
      ensures r == Contents()[idx]
    {
      hide And, Pow2, Bit, Shl;
      InBounds(idx, bitCnt);
      MaskIsPow2(idx);
      TestReads(bits[ElemIdx(idx)], idx % ELEM_BITS);
      r := And(bits[ElemIdx(idx)], BitMask(idx)) != 0;
    }

    method SetMultiple(start: nat, cnt: nat, value: bool)
      requires Valid() && start + cnt <= bitCnt
      modifies bits
      ensures Valid() && Contents() == Filled(old(Contents()), start, cnt, value)
    {
      hide Unpack;
      ghost var s := Contents();
      ContentsSize();
      FilledNone(s, start, value);
      var i := 0;
      while i < cnt
        invariant 0 <= i <= cnt && Valid() && Contents() == Filled(s, start, i, value)
      {
        FilledOneMore(s, start, i, value);
        Set(start + i, value);
        i := i + 1;
      }
    }

    lemma ContentsSize()
      ensures |Contents()| == bitCnt
    {}

    method CountBits(start: nat, cnt: nat, value: bool) returns (valueCnt: nat)
      requires Valid() && start + cnt <= bitCnt
      ensures valueCnt == Count(Contents(), start, cnt, value)
    {
      hide Unpack;
      ContentsSize();
      valueCnt := 0;
      var i := 0;
      while i < cnt
        invariant 0 <= i <= cnt && valueCnt == Count(Contents(), start, i, value)
      {
        var b := Test(start + i);
        if b == value { valueCnt := valueCnt + 1; }
        i := i + 1;
      }
    }

    method Contains(start: nat, cnt: nat, value: bool) returns (r: bool)
      requires Valid() && start + cnt <= bitCnt
      ensures r <==> !AllAre(Contents(), start, cnt, !value)
    {
      hide Unpack;
      ContentsSize();
      var i := 0;
      while i < cnt
        invariant 0 <= i <= cnt && AllAre(Contents(), start, i, !value)
      {
        var b := Test(start + i);
        if b == value { return true; }
        i := i + 1;
      }
      r := false;
    }

    /** The least start of a run, or the error value exactly when there is none. */
    method Scan(start: nat, cnt: nat, value: bool) returns (r: nat)
      requires Valid() && start <= bitCnt
      ensures r != 0xffff_ffff ==>
                start <= r && AllAre(Contents(), r, cnt, value)
                && forall i :: start <= i < r ==> !AllAre(Contents(), i, cnt, value)
      ensures r == 0xffff_ffff <==> forall i :: start <= i ==> !AllAre(Contents(), i, cnt, value)
    {
      hide Unpack;
      ContentsSize();
      if cnt <= bitCnt {
        var last := bitCnt - cnt;
        var i := start;
        while i <= last
          invariant start <= i && forall j :: start <= j < i ==> !AllAre(Contents(), j, cnt, value)
        {
          var other := Contains(i, cnt, !value);
          if !other { return i; }
          i := i + 1;
        }
      }
      r := BITMAP_ERROR;
    }

    /** Find the first run of a value and give it the opposite one. */
    method ScanAndFlip(start: nat, cnt: nat, value: bool) returns (idx: nat)
      requires Valid() && start <= bitCnt
      modifies bits
      ensures Valid()
      ensures idx != 0xffff_ffff ==>
                start <= idx && AllAre(old(Contents()), idx, cnt, value)
                && Contents() == Filled(old(Contents()), idx, cnt, !value)
                                      && forall i :: start <= i < idx ==> !AllAre(old(Contents()), i, cnt, value)
      ensures idx == 0xffff_ffff ==>
                Contents() == old(Contents()) && forall i :: start <= i ==> !AllAre(Contents(), i, cnt, value)
    {
      hide Unpack;
      ContentsSize();
      idx := Scan(start, cnt, value);
      if idx != BITMAP_ERROR {
        SetMultiple(idx, cnt, !value);
      }
    }
  }

  lemma InBounds(i: nat, n: nat)
    requires i < n
    ensures ElemIdx(i) < ElemCnt(n)
  {}
}
