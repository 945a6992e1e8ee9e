/** The bit operations of the TLSF source on header words and bitmaps, and what they mean. */
module TlsfBits {
  import opened Words
  import opened TlsfLayout

  const FREE_BIT: nat := 1
  const PREV_FREE_BIT: nat := 2

  lemma AndOne(w: nat)
    ensures And(w, 1) == w % 2
  {
    assert And(w / 2, 0) == 0;
  }

  lemma AndTwo(w: nat)
    ensures And(w, 2) == 2 * ((w / 2) % 2)
  {
    AndOne(w / 2);
    if w > 0 { assert And(w, 2) == 2 * And(w / 2, 1); }
  }

  lemma OrOne(w: nat)
    ensures Or(w, 1) == 2 * (w / 2) + 1
  {
    assert Or(w / 2, 0) == w / 2;
  }

  lemma OrTwo(w: nat)
    ensures Or(w, 2) == 4 * (w / 4) + 2 + w % 2
  {
    OrOne(w / 2);
    assert (w / 2) / 2 == w / 4;
    if w > 0 { assert Or(w, 2) == 2 * Or(w / 2, 1) + w % 2; }
  }

  lemma AndNotOne(w: Word)
    ensures And(w, Not(1)) == 2 * (w / 2)
  {
    Pow2Values();
    AndHighMask(w, 1, 32);
    assert LowBits(w, 1) == w % 2;
  }

  lemma AndNotTwo(w: Word)
    ensures And(w, Not(2)) == 4 * (w / 4) + w % 2
  {
    Pow2Values();
    AndHighMask(w / 2, 1, 31);
    assert LowBits(w / 2, 1) == (w / 2) % 2;
    assert Not(2) / 2 == 0x8000_0000 - 2 && Not(2) % 2 == 1;
    assert (w / 2) / 2 == w / 4;
  }

  lemma AndNotThree(w: Word)
    ensures And(w, Not(3)) == SizeOf(w)
  {
    Pow2Values();
    AndHighMask(w, 2, 32);
    LowBitsIsMod(w, 2);
  }

  /** The mask of both flags. */
  lemma FlagMask()
    ensures Or(FREE_BIT, PREV_FREE_BIT) == 3
  {
    OrTwo(1);
  }

  lemma AndThree(w: nat)
    ensures And(w, 3) == w % 4
  {
    Pow2Values();
    AndLowMask(w, 2);
    LowBitsIsMod(w, 2);
  }

  /** Reading: the size and the flags of a header word. */
  lemma HeaderReads(w: Word)
    ensures And(w, Not(3)) == SizeOf(w)
    ensures And(w, FREE_BIT) != 0 <==> FreeBit(w)
    ensures And(w, PREV_FREE_BIT) != 0 <==> PrevFreeBit(w)
  {
    hide And;
    AndNotThree(w);
    AndOne(w);
    AndTwo(w);
  }

  /** Writing: setting or clearing a flag keeps the rest of the word. */
  lemma HeaderWrites(w: Word)
    ensures Or(w, FREE_BIT) == Enc(SizeOf(w), true, PrevFreeBit(w))
    ensures And(w, Not(FREE_BIT)) == Enc(SizeOf(w), false, PrevFreeBit(w))
    ensures Or(w, PREV_FREE_BIT) == Enc(SizeOf(w), FreeBit(w), true)
    ensures And(w, Not(PREV_FREE_BIT)) == Enc(SizeOf(w), FreeBit(w), false)
  {
    hide And, Or;
    OrOne(w);
    AndNotOne(w);
    OrTwo(w);
    AndNotTwo(w);
  }

  lemma SizeWrite(w: Word, size: nat)
    requires size % 4 == 0
    ensures Or(size, And(w, 3)) == Enc(size, FreeBit(w), PrevFreeBit(w))
  {
    hide And, Or;
    AndThree(w);
    assert Pow2(2) == 4;
    hide Pow2;
    OrDisjoint(w % 4, size / 4, 2);
    FourTimes(size);
  }

  lemma FourTimes(size: nat)
    requires size % 4 == 0
    ensures (size / 4) * 4 == size
  {}

  // ----- bitmap masks

  lemma {:induction false} LowMaskBits(k: nat, i: nat)
    ensures Bit(Pow2(k) - 1, i) <==> i < k
  {
    if k == 0 {
      ZeroBits(i);
    } else if i > 0 {
      assert (Pow2(k) - 1) / 2 == Pow2(k - 1) - 1;
      LowMaskBits(k - 1, i - 1);
    }
  }

  /** ~0U << k has the bits from k up. */
  lemma OnesShifted(k: nat) returns (m: Word)
    requires k < 32
    ensures Shl(WORD - 1, k) == m == WORD - Pow2(k)
    ensures forall i: nat {:trigger Bit(m, i)} :: i < 32 ==> (Bit(m, i) <==> k <= i)
  {
    Pow2Values();
    Pow2Mono(k, 32);
    hide Pow2;
    var p := Pow2(k);
    m := WORD - p;
    OnesTimes(p);
    forall i: nat | i < 32 ensures Bit(m, i) <==> k <= i {
      BitNot(p - 1, i);
      LowMaskBits(k, i);
    }
  }

  lemma OnesTimes(p: nat)
    requires 0 < p < WORD
    ensures ((WORD - 1) * p) % WORD == WORD - p
  {
    assert (WORD - 1) * p == WORD * (p - 1) + (WORD - p);
    DivModUnique((WORD - 1) * p, WORD, p - 1, WORD - p);
  }

  /** 1 << k. */
  lemma OneShifted(k: nat)
    requires k < 32
    ensures Shl(1, k) == Pow2(k) < WORD
  {
    Pow2Values();
    Pow2Mono(k, 32);
  }

  /** Masking a bitmap with ~0U << k leaves the bits from k up. */
  lemma BitsFrom(w: Word, k: nat)
    requires k < 32
    ensures var r := And(w, Shl(WORD - 1, k));
            r < WORD && (forall i: nat :: i < 32 ==> (Bit(r, i) <==> k <= i && Bit(w, i)))
            && (r == 0 ==> forall i: nat :: k <= i < 32 ==> !Bit(w, i))
  {
    hide Shl, Pow2, And, Bit;
    var m := OnesShifted(k);
    var r := And(w, m);
    AndBound(w, m);
    forall i: nat | i < 32 ensures Bit(r, i) <==> k <= i && Bit(w, i) { BitAnd(w, m, i); }
    if r == 0 {
      forall i: nat | k <= i < 32 ensures !Bit(w, i) { ZeroBits(i); assert Bit(r, i) <==> Bit(w, i); }
    }
  }
}
