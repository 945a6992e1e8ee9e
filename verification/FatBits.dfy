/** The shifts and masks of the FAT driver, as arithmetic. */
module FatBits {
  import opened Words
  import opened FatLayout

  lemma LittleEndian2(a: nat, b: nat)
    requires a < 256 && b < 256
    ensures Or(a, Shl(b, 8)) == a + 0x100 * b
  {
    hide Or;
    assert Pow2(8) == 256;
    hide Pow2;
    OrDisjoint(a, b, 8);
  }

  lemma LittleEndian4(a: nat, b: nat, c: nat, d: nat)
    requires a < 256 && b < 256 && c < 256 && d < 256
    ensures And(Or(Or(Or(a, Shl(b, 8)), Shl(c, 16)), Shl(d, 24)), 0x0fff_ffff)
            == a + 0x100 * b + 0x1_0000 * c + 0x100_0000 * (d % 16)
  {
    hide Pow2, Or, And, Shl;
    LittleEndian2(a, b);
    OrHigher(a + 0x100 * b, c, 16);
    OrHigher(a + 0x100 * b + 0x1_0000 * c, d, 24);
    LowTwentyEight(a + 0x100 * b + 0x1_0000 * c + 0x100_0000 * d);
    TopDigit(a + 0x100 * b + 0x1_0000 * c, d);
  }

  lemma OrHigher(w: nat, b: nat, k: nat)
    requires b < 256 && ((k == 16 && w < 0x1_0000) || (k == 24 && w < 0x100_0000))
    ensures Or(w, Shl(b, k)) == w + (if k == 16 then 0x1_0000 else 0x100_0000) * b
  {
    Pow2Values();
    hide Pow2, Or;
    OrDisjoint(w, b, k);
  }

  lemma LowTwentyEight(w: nat)
    ensures And(w, 0x0fff_ffff) == w % 0x1000_0000
  {
    Pow2Values();
    hide Pow2, And;
    AndLowMask(w, 28);
    LowBitsIsMod(w, 28);
  }

  lemma TopDigit(w: nat, d: nat)
    requires w < 0x100_0000
    ensures (w + 0x100_0000 * d) % 0x1000_0000 == w + 0x100_0000 * (d % 16)
  {
    DivModUnique(w + 0x100_0000 * d, 0x1000_0000, d / 16, w + 0x100_0000 * (d % 16));
  }

  lemma AndOneBit(w: nat)
    ensures And(w, 1) == w % 2
  {
    assert And(w / 2, 0) == 0;
  }

  lemma TwelveBits(w: nat)
    ensures Shr(w, 4) == w / 16 && And(w, 0xfff) == w % 0x1000
  {
    assert Pow2(4) == 16 && Pow2(8) == 256 && Pow2(12) == 0x1000;
    hide Pow2, And;
    ShrIsDiv(w, 4);
    AndLowMask(w, 12);
    LowBitsIsMod(w, 12);
  }

  /** A mask of eight (or four) bits at position k, shifted down. */
  lemma {:induction false} AndShifted(w: nat, m: nat, k: nat)
    ensures Shr(And(w, m * Pow2(k)), k) == And(Shr(w, k), m)
  {
    if k > 0 {
      MulDouble(m, Pow2(k - 1));
      EvenAnd(w, m * Pow2(k - 1));
      AndShifted(w / 2, m, k - 1);
    }
  }

  lemma EvenAnd(w: nat, x: nat)
    ensures And(w, 2 * x) / 2 == And(w / 2, x)
  {
    assert (2 * x) / 2 == x;
  }

  /** The bytes that SetFAT stores. */
  lemma EntryBytes(e: nat, masked: nat, fs: FatType, top: nat)
    requires fs != FAT12 && top < 256 && masked == And(e, if fs == FAT16 then 0xffff else 0x0fff_ffff)
    ensures And(masked, 0xff) == e % 256 && Shr(And(masked, 0xff00), 8) == (e / 0x100) % 256
    ensures fs == FAT32 ==> Shr(And(masked, 0xff_0000), 16) == (e / 0x1_0000) % 256
    ensures fs == FAT32 ==>
              Or(And(top, 0xf0), Shr(And(masked, 0x0f00_0000), 24)) == (top / 16) * 16 + (e / 0x100_0000) % 16
  {
    Pow2Values();
    hide Pow2, And, Or, Shr;
    var bits := if fs == FAT16 then 16 else 28;
    AndLowMask(e, bits);
    LowBitsIsMod(e, bits);
    AndLowMask(masked, 8);
    LowBitsIsMod(masked, 8);
    ByteOf(masked, 8);
    if fs == FAT16 {
      Bytes16(e);
    } else {
      ByteOf(masked, 16);
      NibbleOf(masked);
      Bytes32(e);
      HighNibble(top, (masked / 0x100_0000) % 16);
    }
  }

  lemma ByteOf(w: nat, k: nat)
    requires k == 8 || k == 16
    ensures Shr(And(w, if k == 8 then 0xff00 else 0xff_0000), k) == (w / (if k == 8 then 0x100 else 0x1_0000)) % 256
  {
    Pow2Values();
    hide Pow2, And, Shr;
    AndShifted(w, 0xff, k);
    ShrIsDiv(w, k);
    AndLowMask(Shr(w, k), 8);
    LowBitsIsMod(Shr(w, k), 8);
  }

  lemma NibbleOf(w: nat)
    ensures Shr(And(w, 0x0f00_0000), 24) == (w / 0x100_0000) % 16
  {
    Pow2Values();
    hide Pow2, And, Shr;
    AndShifted(w, 0xf, 24);
    ShrIsDiv(w, 24);
    AndLowMask(Shr(w, 24), 4);
    LowBitsIsMod(Shr(w, 24), 4);
  }

  lemma HighNibble(top: nat, low: nat)
    requires top < 256 && low < 16
    ensures Or(And(top, 0xf0), low) == (top / 16) * 16 + low
  {
    Pow2Values();
    hide Pow2, And, Or;
    AndHighMask(top, 4, 8);
    LowBitsIsMod(top, 4);
    OrDisjoint(low, top / 16, 4);
  }

  lemma Bytes16(e: nat)
    ensures (e % 0x1_0000) % 256 == e % 256 && ((e % 0x1_0000) / 0x100) % 256 == (e / 0x100) % 256
  {
    var a := e / 0x100;
    FourBytes(e);
    assert e % 0x1_0000 == e % 256 + 0x100 * (a % 256);
  }

  lemma Bytes32(e: nat)
    ensures var m := e % 0x1000_0000;
            m % 256 == e % 256 && (m / 0x100) % 256 == (e / 0x100) % 256 && (m / 0x1_0000) % 256 == (e / 0x1_0000) % 256
            && (m / 0x100_0000) % 16 == (e / 0x100_0000) % 16
  {
    FourBytes(e);
    var r0, r1, r2, r3 := e % 256, (e / 0x100) % 256, (e / 0x1_0000) % 256, (e / 0x100_0000) % 16;
    var m := e % 0x1000_0000;
    DivModUnique(m, 256, r1 + 0x100 * r2 + 0x1_0000 * r3, r0);
    DivModUnique(m / 256, 256, r2 + 0x100 * r3, r1);
    DivModUnique(m, 0x1_0000, r2 + 0x100 * r3, r0 + 0x100 * r1);
    DivModUnique(m, 0x100_0000, r3, r0 + 0x100 * r1 + 0x1_0000 * r2);
  }

  // ----- FAT12

  lemma {:induction false} AndScaled(w: nat, m: nat, k: nat)
    ensures And(w * Pow2(k), m * Pow2(k)) == And(w, m) * Pow2(k)
  {
    if k > 0 {
      AndScaled(w, m, k - 1);
      DoubledAnd(w * Pow2(k - 1), m * Pow2(k - 1));
      MulDouble(w, Pow2(k - 1));
      MulDouble(m, Pow2(k - 1));
      MulDouble(And(w, m), Pow2(k - 1));
    }
  }

  lemma DoubledAnd(w: nat, m: nat)
    ensures And(2 * w, 2 * m) == 2 * And(w, m)
  {
    assert (2 * w) / 2 == w && (2 * m) / 2 == m;
  }

  /** A mask with k low zero bits leaves a multiple of 2^k. */
  lemma {:induction false} AndMultiple(w: nat, m: nat, k: nat) returns (q: nat)
    ensures And(w, m * Pow2(k)) == q * Pow2(k)
  {
    if k == 0 {
      q := And(w, m);
    } else {
      q := AndMultiple(w / 2, m, k - 1);
      MulDouble(m, Pow2(k - 1));
      MulDouble(q, Pow2(k - 1));
      EvenMask(w, m * Pow2(k - 1));
    }
  }

  lemma EvenMask(w: nat, x: nat)
    ensures And(w, 2 * x) == 2 * And(w / 2, x)
  {
    assert (2 * x) / 2 == x;
  }

  lemma LowNibble(w: nat)
    ensures And(w, 0x0f) == w % 16 && And(w, 0xff) == w % 256
  {
    Pow2Values();
    hide Pow2, And;
    AndLowMask(w, 4);
    LowBitsIsMod(w, 4);
    AndLowMask(w, 8);
    LowBitsIsMod(w, 8);
  }

  /** The two bytes that SetFAT stores for an odd cluster: the upper byte of the entry is lost, since it is masked
      but never shifted down. */
  lemma OddBytes(b: nat, e: nat)
    requires b < 256
    ensures var shifted := Shl(And(e, 0xfff), 4);
            Or(And(b, 0x0f), And(shifted, 0xf0)) == b % 16 + 16 * (e % 16) && And(shifted, 0xff00) % 256 == 0
  {
    Pow2Values();
    hide Pow2, And, Or, Shr;
    TwelveBits(e);
    LowNibble(b);
    var low := e % 0x1000;
    assert Shl(low, 4) == low * 16;
    AndScaled(low, 15, 4);
    LowNibble(low);
    OrDisjoint(b % 16, low % 16, 4);
    var q := AndMultiple(low * 16, 0xff, 8);
    MultipleMod(q);
    NestedMod(e);
  }

  lemma MultipleMod(q: nat)
    ensures (q * 256) % 256 == 0
  {}

  /** The two bytes for an even cluster: the upper nibble stored is the entry's lowest, not its highest. */
  lemma EvenBytes(b: nat, e: nat)
    requires b < 256
    ensures And(And(e, 0xfff), 0xff) == e % 256 && Or(And(b, 0xf0), And(And(e, 0xfff), 0x0f)) == (b / 16) * 16 + e % 16
  {
    hide Pow2, And, Or, Shr;
    TwelveBits(e);
    LowNibble(e % 0x1000);
    NestedMod(e);
    HighNibble(b, e % 16);
  }

  /** The four bytes of a file size. */
  lemma SizeBytes(w: nat)
    requires w < WORD
    ensures And(w, 0xff) == w % 256 && Shr(And(w, 0xff00), 8) == (w / 0x100) % 256
    ensures Shr(And(w, 0xff_0000), 16) == (w / 0x1_0000) % 256 && Shr(And(w, 0xff00_0000), 24) == w / 0x100_0000 < 256
  {
    assert Pow2(8) == 256;
    hide Pow2, And, Shr;
    AndLowMask(w, 8);
    LowBitsIsMod(w, 8);
    ByteOf(w, 8);
    ByteOf(w, 16);
    TopByte(w);
  }

  lemma TopByte(w: nat)
    requires w < WORD
    ensures Shr(And(w, 0xff00_0000), 24) == w / 0x100_0000 < 256
  {
    Pow2Values();
    hide Pow2, And, Shr;
    AndShifted(w, 0xff, 24);
    ShrIsDiv(w, 24);
    AndLowMask(Shr(w, 24), 8);
    LowBitsAll(Shr(w, 24), 8);
  }

  lemma SizeFromBytes(w: nat)
    ensures w
            == w % 256 + 0x100 * ((w / 0x100) % 256) + 0x1_0000 * ((w / 0x1_0000) % 256) + 0x100_0000 * (w / 0x100_0000)
  {
    var a := w / 256;
    var b := a / 256;
    assert w / 0x1_0000 == b && w / 0x100_0000 == b / 256;
  }
}
