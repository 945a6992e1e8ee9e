/** memcpy by words (lib/memcpy.c), as configured for the kernel: 32-bit words, little-endian, indexed copy. */
module Memcpy {
  import opened Words

  type Byte = b: nat | b < 256

  const WIDTH: nat := 4

  // ----- words of bytes

  function Word(b0: Byte, b1: Byte, b2: Byte, b3: Byte): (w: nat)
    ensures w < WORD
  {
    b0 + 0x100 * b1 + 0x1_0000 * b2 + 0x100_0000 * b3
  }

  /** The word at an aligned address. */
  function WordAt(m: seq<Byte>, a: nat): nat
    requires a + 4 <= |m|
  {
    Word(m[a], m[a + 1], m[a + 2], m[a + 3])
  }

  function ByteOf(w: nat, k: nat): Byte {
    if k == 0 then w % 256
      else if k == 1 then (w / 0x100) % 256 else if k == 2 then (w / 0x1_0000) % 256 else (w / 0x100_0000) % 256
  }

  lemma BytesOfWord(b0: Byte, b1: Byte, b2: Byte, b3: Byte)
    ensures var w := Word(b0, b1, b2, b3);
            ByteOf(w, 0) == b0 && ByteOf(w, 1) == b1 && ByteOf(w, 2) == b2 && ByteOf(w, 3) == b3
  {
    var w := Word(b0, b1, b2, b3);
    DivModUnique(w, 0x100, b1 + 0x100 * b2 + 0x1_0000 * b3, b0);
    DivModUnique(w, 0x1_0000, b2 + 0x100 * b3, b0 + 0x100 * b1);
    DivModUnique(w, 0x100_0000, b3, b0 + 0x100 * b1 + 0x1_0000 * b2);
    DivModUnique(b1 + 0x100 * b2 + 0x1_0000 * b3, 0x100, b2 + 0x100 * b3, b1);
    DivModUnique(b2 + 0x100 * b3, 0x100, b3, b2);
  }

  /** Shifting two neighbouring words together gives the word that starts `shift` bytes into the first. */
  function Merged(w: nat, next: nat, shift: nat): nat
    requires 0 < shift < 4
  {
    Or(Shr(w, 8 * shift), Shl(next, 8 * (4 - shift)))
  }

  lemma MergedIsUnaligned(b0: Byte, b1: Byte, b2: Byte, b3: Byte, c0: Byte, c1: Byte, c2: Byte, c3: Byte, shift: nat)
    requires 0 < shift < 4
    ensures Merged(Word(b0, b1, b2, b3), Word(c0, c1, c2, c3), shift)
            == if shift == 1 then Word(b1, b2, b3, c0)
                 else if shift == 2 then Word(b2, b3, c0, c1) else Word(b3, c0, c1, c2)
  {
    var w, n := Word(b0, b1, b2, b3), Word(c0, c1, c2, c3);
    Pow2Values();
    hide Pow2, Or, Shr;
    ShrIsDiv(w, 8 * shift);
    if shift == 1 {
      DivModUnique(w, 0x100, b1 + 0x100 * b2 + 0x1_0000 * b3, b0);
      DivModUnique(n * 0x100_0000, WORD, c1 + 0x100 * c2 + 0x1_0000 * c3, c0 * 0x100_0000);
      OrDisjoint(b1 + 0x100 * b2 + 0x1_0000 * b3, c0, 24);
    } else if shift == 2 {
      DivModUnique(w, 0x1_0000, b2 + 0x100 * b3, b0 + 0x100 * b1);
      DivModUnique(n * 0x1_0000, WORD, c2 + 0x100 * c3, (c0 + 0x100 * c1) * 0x1_0000);
      OrDisjoint(b2 + 0x100 * b3, c0 + 0x100 * c1, 16);
    } else {
      DivModUnique(w, 0x100_0000, b3, b0 + 0x100 * b1 + 0x1_0000 * b2);
      DivModUnique(n * 0x100, WORD, c3, (c0 + 0x100 * c1 + 0x1_0000 * c2) * 0x100);
      OrDisjoint(b3, c0 + 0x100 * c1 + 0x1_0000 * c2, 8);
    }
  }

  // ----- what has been copied

  /** The two areas lie in memory and share no byte; memory is a number of whole words. */
  predicate Apart(size: nat, dest: nat, src: nat, count: nat) {
    size % WIDTH == 0 && dest + count <= size && src + count <= size && (dest + count <= src || src + count <= dest)
  }

  /** The first n bytes are copied, and nothing else in memory has changed. */
  ghost predicate Copied(m0: seq<Byte>, m: seq<Byte>, dest: nat, src: nat, n: nat) {
    && |m| == |m0| && dest + n <= |m0| && src + n <= |m0|
    && forall i {:trigger m[i]} :: 0 <= i < |m0| ==>
         m[i] == if dest <= i < dest + n then m0[src + (i - dest)] else m0[i]
  }

  lemma NothingCopied(m: seq<Byte>, dest: nat, src: nat)
    requires dest <= |m| && src <= |m|
    ensures Copied(m, m, dest, src, 0)
  {}

  lemma OneMore(m0: seq<Byte>, m: seq<Byte>, dest: nat, src: nat, count: nat, n: nat)
    requires Apart(|m0|, dest, src, count) && Copied(m0, m, dest, src, n) && n < count
    ensures Copied(m0, m[dest + n := m[src + n]], dest, src, n + 1)
  {}

  /** The four source bytes from n on, which no copying has touched yet. */
  predicate IsSource(m0: seq<Byte>, src: nat, n: nat, w: nat) {
    src + n + 4 <= |m0| && w == WordAt(m0, src + n)
  }

  lemma FourMore(m0: seq<Byte>, m: seq<Byte>, dest: nat, src: nat, count: nat, n: nat, w: nat)
    requires Apart(|m0|, dest, src, count) && Copied(m0, m, dest, src, n) && n + 4 <= count && IsSource(m0, src, n, w)
    ensures var d := dest + n;
            |m| == |m0|
            && Copied(m0, m[d := ByteOf(w, 0)][d + 1 := ByteOf(w, 1)][d + 2 := ByteOf(w, 2)][d + 3 := ByteOf(w, 3)],
                      dest, src, n + 4)
  {
    var s := src + n;
    BytesOfWord(m0[s], m0[s + 1], m0[s + 2], m0[s + 3]);
    hide ByteOf;
  }

  /** A source byte still holds what it held at first. */
  lemma SourceKept(m0: seq<Byte>, m: seq<Byte>, dest: nat, src: nat, count: nat, n: nat, i: nat)
    requires Apart(|m0|, dest, src, count) && Copied(m0, m, dest, src, n) && n <= count && src <= i < src + count
    ensures i < |m0| == |m| && m[i] == m0[i]
  {}

  // ----- the parts of the algorithm

  method StoreWord(mem: array<Byte>, a: nat, w: nat)
    requires a + 4 <= mem.Length
    modifies mem
    ensures mem[..]
            == old(mem[..])[a := ByteOf(w, 0)][a + 1 := ByteOf(w, 1)][a + 2 := ByteOf(w, 2)][a + 3 := ByteOf(w, 3)]
  {
    hide ByteOf;
    mem[a], mem[a + 1], mem[a + 2], mem[a + 3] := ByteOf(w, 0), ByteOf(w, 1), ByteOf(w, 2), ByteOf(w, 3);
  }

  /** COPY_REMAINING: up to seven bytes, by a switch that falls through. */
  method CopyRemaining(mem: array<Byte>, dst8: nat, src8: nat, count: nat,
                       ghost m0: seq<Byte>, ghost dest: nat, ghost src: nat, ghost total: nat, ghost n: nat)
    requires count <= 7 && |m0| == mem.Length && Apart(mem.Length, dest, src, total)
    requires Copied(m0, mem[..], dest, src, n)
    requires n + count == total && dst8 == dest + n && src8 == src + n
    modifies mem
    ensures Copied(m0, mem[..], dest, src, total)
  {
    hide Copied;
    var d, s := dst8, src8;
    ghost var k := n;
    var left := count;
    if left == 7 { CopyByte(mem, d, s, m0, dest, src, total, k); d, s, left := d + 1, s + 1, left - 1; k := k + 1; }
    if left == 6 { CopyByte(mem, d, s, m0, dest, src, total, k); d, s, left := d + 1, s + 1, left - 1; k := k + 1; }
    if left == 5 { CopyByte(mem, d, s, m0, dest, src, total, k); d, s, left := d + 1, s + 1, left - 1; k := k + 1; }
    if left == 4 { CopyByte(mem, d, s, m0, dest, src, total, k); d, s, left := d + 1, s + 1, left - 1; k := k + 1; }
    if left == 3 { CopyByte(mem, d, s, m0, dest, src, total, k); d, s, left := d + 1, s + 1, left - 1; k := k + 1; }
    if left == 2 { CopyByte(mem, d, s, m0, dest, src, total, k); d, s, left := d + 1, s + 1, left - 1; k := k + 1; }
    if left == 1 { CopyByte(mem, d, s, m0, dest, src, total, k); k := k + 1; }
  }

  method CopyByte(mem: array<Byte>, d: nat, s: nat, ghost m0: seq<Byte>, ghost dest: nat, ghost src: nat,
                  ghost total: nat, ghost n: nat)
    requires |m0| == mem.Length && Apart(mem.Length, dest, src, total) && Copied(m0, mem[..], dest, src, n)
    requires n < total && d == dest + n && s == src + n
    modifies mem
    ensures Copied(m0, mem[..], dest, src, n + 1)
  {
    OneMore(m0, mem[..], dest, src, total, n);
    hide Copied;
    ghost var m := mem[..];
    mem[d] := mem[s];
    assert mem[..] == m[dest + n := m[src + n]];
  }

  /** CP: copy one word between aligned addresses. */
  method CopyWord(mem: array<Byte>, d: nat, s: nat, ghost m0: seq<Byte>, ghost dest: nat, ghost src: nat,
                  ghost total: nat, ghost n: nat)
    requires |m0| == mem.Length && Apart(mem.Length, dest, src, total) && Copied(m0, mem[..], dest, src, n)
    requires n + 4 <= total && d == dest + n && s == src + n
    modifies mem
    ensures Copied(m0, mem[..], dest, src, n + 4)
  {
    hide Copied, Word, ByteOf;
    ghost var m := mem[..];
    SourceKept(m0, m, dest, src, total, n, s);
    SourceKept(m0, m, dest, src, total, n, s + 1);
    SourceKept(m0, m, dest, src, total, n, s + 2);
    SourceKept(m0, m, dest, src, total, n, s + 3);
    var w := Word(mem[s], mem[s + 1], mem[s + 2], mem[s + 3]);
    FourMore(m0, m, dest, src, total, n, w);
    StoreWord(mem, d, w);
  }

  /** COPY_NO_SHIFT: source and destination are aligned alike. */
  method CopyNoShift(mem: array<Byte>, dst8: nat, src8: nat, count: nat,
                     ghost m0: seq<Byte>, ghost dest: nat, ghost src: nat, ghost total: nat, ghost n0: nat)
    requires |m0| == mem.Length && Apart(mem.Length, dest, src, total) && Copied(m0, mem[..], dest, src, n0)
    requires n0 + count == total && dst8 == dest + n0 && src8 == src + n0
    modifies mem
    ensures Copied(m0, mem[..], dest, src, total)
  {
    hide Copied;
    var dstN, srcN, length := dst8, src8, count / WIDTH;
    ghost var n := n0;
    while length % 8 != 0
      invariant 0 <= length && n + 4 * length + count % WIDTH == total && dstN == dest + n && srcN == src + n
      invariant Copied(m0, mem[..], dest, src, n)
      decreases length
    {
      CopyWord(mem, dstN, srcN, m0, dest, src, total, n);
      dstN, srcN, length := dstN + 4, srcN + 4, length - 1;
      n := n + 4;
    }
    length := length / 8;
    while length > 0
      invariant 0 <= length && n + 32 * length + count % WIDTH == total && dstN == dest + n && srcN == src + n
      invariant Copied(m0, mem[..], dest, src, n)
      decreases length
    {
      CopyWord(mem, dstN, srcN, m0, dest, src, total, n);
      CopyWord(mem, dstN + 4, srcN + 4, m0, dest, src, total, n + 4);
      CopyWord(mem, dstN + 8, srcN + 8, m0, dest, src, total, n + 8);
      CopyWord(mem, dstN + 12, srcN + 12, m0, dest, src, total, n + 12);
      CopyWord(mem, dstN + 16, srcN + 16, m0, dest, src, total, n + 16);
      CopyWord(mem, dstN + 20, srcN + 20, m0, dest, src, total, n + 20);
      CopyWord(mem, dstN + 24, srcN + 24, m0, dest, src, total, n + 24);
      CopyWord(mem, dstN + 28, srcN + 28, m0, dest, src, total, n + 28);
      dstN, srcN, length := dstN + 32, srcN + 32, length - 1;
      n := n + 32;
    }
    CopyRemaining(mem, dstN, srcN, count % WIDTH, m0, dest, src, total, n);
  }

  /** A source word that was read ahead: its bytes from `shift` on are the source bytes from n on. */
  ghost predicate ReadAhead(m0: seq<Byte>, src: nat, total: nat, n: nat, shift: nat, w: nat) {
    && src + total <= |m0| && w < WORD
    && forall k: nat {:trigger ByteOf(w, k)} :: shift <= k < 4 && n + (k - shift) < total ==>
         ByteOf(w, k) == m0[src + n + (k - shift)]
  }

  lemma WordOfBytes(w: nat)
    requires w < WORD
    ensures w == Word(ByteOf(w, 0), ByteOf(w, 1), ByteOf(w, 2), ByteOf(w, 3))
  {
    var a := w / 0x100;
    var b := a / 0x100;
    assert w / 0x1_0000 == b && w / 0x100_0000 == b / 0x100 < 256;
  }

  /** CP_SH: merge the word read ahead with the next one, and store the result.  x is the next word's address. */
  method CopyShifted(mem: array<Byte>, d: nat, x: nat, srcWord: nat, shift: nat,
                     ghost m0: seq<Byte>, ghost dest: nat, ghost src: nat, ghost total: nat, ghost n: nat)
    returns (next: nat)
    requires |m0| == mem.Length && Apart(mem.Length, dest, src, total) && Copied(m0, mem[..], dest, src, n)
    requires 0 < shift < 4 && n + 4 <= total && d == dest + n && x == src + n + 4 - shift && x % 4 == 0
    requires ReadAhead(m0, src, total, n, shift, srcWord)
    modifies mem
    ensures Copied(m0, mem[..], dest, src, n + 4) && ReadAhead(m0, src, total, n + 4, shift, next)
  {
    hide Copied, ByteOf, Merged, Word;
    ghost var m := mem[..];
    next := Word(mem[x], mem[x + 1], mem[x + 2], mem[x + 3]);
    NextWord(m0, m, dest, src, total, n, shift, srcWord, x);
    var dstWord := Merged(srcWord, next, shift);
    FourMore(m0, m, dest, src, total, n, dstWord);
    StoreWord(mem, d, dstWord);
  }

  lemma NextWord(m0: seq<Byte>, m: seq<Byte>, dest: nat, src: nat, total: nat, n: nat, shift: nat, w: nat, x: nat)
    requires Apart(|m0|, dest, src, total) && Copied(m0, m, dest, src, n) && 0 < shift < 4 && n + 4 <= total
    requires x == src + n + 4 - shift && x + 4 <= |m| && ReadAhead(m0, src, total, n, shift, w)
    ensures IsSource(m0, src, n, Merged(w, WordAt(m, x), shift))
    ensures ReadAhead(m0, src, total, n + 4, shift, WordAt(m, x))
  {
    hide Copied, Merged, Word, ByteOf;
    WordOfBytes(w);
    MergedIsUnaligned(ByteOf(w, 0), ByteOf(w, 1), ByteOf(w, 2), ByteOf(w, 3), m[x], m[x + 1], m[x + 2], m[x + 3],
                      shift);
    BytesOfWord(m[x], m[x + 1], m[x + 2], m[x + 3]);
    forall i | x <= i < x + 4 && i < src + total ensures m[i] == m0[i] {
      SourceKept(m0, m, dest, src, total, n, i);
    }
    assert m0[src + n] == ByteOf(w, shift);
  }

  /** Eight words, the unrolled body of the second loop. */
  method CopyEightShifted(mem: array<Byte>, d: nat, x: nat, srcWord: nat, shift: nat,
                          ghost m0: seq<Byte>, ghost dest: nat, ghost src: nat, ghost total: nat, ghost n: nat)
    returns (next: nat)
    requires |m0| == mem.Length && Apart(mem.Length, dest, src, total) && Copied(m0, mem[..], dest, src, n)
    requires 0 < shift < 4 && n + 32 <= total && d == dest + n && x == src + n + 4 - shift && x % 4 == 0
    requires ReadAhead(m0, src, total, n, shift, srcWord)
    modifies mem
    ensures Copied(m0, mem[..], dest, src, n + 32) && ReadAhead(m0, src, total, n + 32, shift, next)
  {
    hide Copied, ReadAhead, Apart;
    next := CopyShifted(mem, d, x, srcWord, shift, m0, dest, src, total, n);
    next := CopyShifted(mem, d + 4, x + 4, next, shift, m0, dest, src, total, n + 4);
    next := CopyShifted(mem, d + 8, x + 8, next, shift, m0, dest, src, total, n + 8);
    next := CopyShifted(mem, d + 12, x + 12, next, shift, m0, dest, src, total, n + 12);
    next := CopyShifted(mem, d + 16, x + 16, next, shift, m0, dest, src, total, n + 16);
    next := CopyShifted(mem, d + 20, x + 20, next, shift, m0, dest, src, total, n + 20);
    next := CopyShifted(mem, d + 24, x + 24, next, shift, m0, dest, src, total, n + 24);
    next := CopyShifted(mem, d + 28, x + 28, next, shift, m0, dest, src, total, n + 28);
  }

  /** The two loops of COPY_SHIFT over whole words. */
  method CopyShiftedWords(mem: array<Byte>, d: nat, x: nat, firstWord: nat, words: nat, shift: nat,
                          ghost m0: seq<Byte>, ghost dest: nat, ghost src: nat, ghost total: nat, ghost n0: nat)
    returns (dstN: nat, srcN: nat)
    requires |m0| == mem.Length && Apart(mem.Length, dest, src, total) && Copied(m0, mem[..], dest, src, n0)
    requires 0 < shift < 4 && n0 + 4 * words <= total && d == dest + n0 && x == src + n0 + 4 - shift && x % 4 == 0
    requires ReadAhead(m0, src, total, n0, shift, firstWord)
    modifies mem
    ensures Copied(m0, mem[..], dest, src, n0 + 4 * words) && dstN == d + 4 * words && srcN == x + 4 * words
  {
    hide Copied, ReadAhead, Apart;
    dstN, srcN := d, x;
    var length, srcWord := words, firstWord;
    ghost var n := n0;
    while length % 8 != 0
      invariant 0 <= length && n + 4 * length == n0 + 4 * words && dstN == dest + n && srcN == src + n + 4 - shift
      invariant srcN % 4 == 0
      invariant Copied(m0, mem[..], dest, src, n) && ReadAhead(m0, src, total, n, shift, srcWord)
      decreases length
    {
      srcWord := CopyShifted(mem, dstN, srcN, srcWord, shift, m0, dest, src, total, n);
      dstN, srcN, length := dstN + 4, srcN + 4, length - 1;
      n := n + 4;
    }
    dstN, srcN := CopyShiftedBlocks(mem, dstN, srcN, srcWord, length / 8, shift, m0, dest, src, total, n);
  }

  method CopyShiftedBlocks(mem: array<Byte>, d: nat, x: nat, firstWord: nat, blocks: nat, shift: nat,
                           ghost m0: seq<Byte>, ghost dest: nat, ghost src: nat, ghost total: nat, ghost n0: nat)
    returns (dstN: nat, srcN: nat)
    requires |m0| == mem.Length && Apart(mem.Length, dest, src, total) && Copied(m0, mem[..], dest, src, n0)
    requires 0 < shift < 4 && n0 + 32 * blocks <= total && d == dest + n0 && x == src + n0 + 4 - shift && x % 4 == 0
    requires ReadAhead(m0, src, total, n0, shift, firstWord)
    modifies mem
    ensures Copied(m0, mem[..], dest, src, n0 + 32 * blocks) && dstN == d + 32 * blocks && srcN == x + 32 * blocks
  {
    hide Copied, ReadAhead, Apart;
    dstN, srcN := d, x;
    var length, srcWord := blocks, firstWord;
    ghost var n := n0;
    while length > 0
      invariant 0 <= length && n + 32 * length == n0 + 32 * blocks && dstN == dest + n && srcN == src + n + 4 - shift
      invariant srcN % 4 == 0
      invariant Copied(m0, mem[..], dest, src, n) && ReadAhead(m0, src, total, n, shift, srcWord)
      decreases length
    {
      srcWord := CopyEightShifted(mem, dstN, srcN, srcWord, shift, m0, dest, src, total, n);
      dstN, srcN, length := dstN + 32, srcN + 32, length - 1;
      n := n + 32;
    }
  }

  /** COPY_SHIFT: the source starts `shift` bytes into a word, and the destination is aligned. */
  method CopyShift(mem: array<Byte>, dst8: nat, src8: nat, count: nat, shift: nat,
                   ghost m0: seq<Byte>, ghost dest: nat, ghost src: nat, ghost total: nat, ghost n0: nat)
    requires |m0| == mem.Length && Apart(mem.Length, dest, src, total) && Copied(m0, mem[..], dest, src, n0)
    requires n0 + count == total && dst8 == dest + n0 && src8 == src + n0 && dst8 % WIDTH == 0 && src8 % WIDTH == shift
    requires 0 < shift && count > 0
    modifies mem
    ensures Copied(m0, mem[..], dest, src, total)
  {
    hide Copied, Word, ByteOf, ReadAhead;
    var dstN, srcN := dst8 / WIDTH * WIDTH, src8 / WIDTH * WIDTH;
    var srcWord := Word(mem[srcN], mem[srcN + 1], mem[srcN + 2], mem[srcN + 3]);
    FirstWord(m0, mem[..], dest, src, total, n0, shift, srcN);
    dstN, srcN := CopyShiftedWords(mem, dstN, srcN + 4, srcWord, count / WIDTH, shift, m0, dest, src, total, n0);
    CopyRemaining(mem, dstN, srcN + shift - WIDTH, count % WIDTH, m0, dest, src, total, n0 + 4 * (count / WIDTH));
  }

  lemma FirstWord(m0: seq<Byte>, m: seq<Byte>, dest: nat, src: nat, total: nat, n: nat, shift: nat, x: nat)
    requires Apart(|m0|, dest, src, total) && Copied(m0, m, dest, src, n) && n < total && 0 < shift < 4
    requires x == src + n - shift && x + 4 <= |m|
    ensures ReadAhead(m0, src, total, n, shift, WordAt(m, x))
  {
    hide Copied, Word, ByteOf;
    BytesOfWord(m[x], m[x + 1], m[x + 2], m[x + 3]);
    forall i | src + n <= i < x + 4 && i < src + total ensures m[i] == m0[i] {
      SourceKept(m0, m, dest, src, total, n, i);
    }
  }

  /** The copied bytes are the source's, byte by byte, and no other byte of memory changes, for every length and
      every alignment of the two areas. */
  method Memcpy(mem: array<Byte>, dest: nat, src: nat, count: nat) returns (r: nat)
    requires Apart(mem.Length, dest, src, count)
    modifies mem
    ensures r == dest && dest + count <= mem.Length && src + count <= mem.Length
    ensures mem[..] == old(mem[..])[..dest] + old(mem[..])[src..src + count] + old(mem[..])[dest + count..]
  {
    ghost var m0 := mem[..];
    CopyAll(mem, dest, src, count);
    CopiedIsSplice(m0, mem[..], dest, src, count);
    r := dest;
  }

  method CopyAll(mem: array<Byte>, dest: nat, src: nat, count: nat)
    requires Apart(mem.Length, dest, src, count)
    modifies mem
    ensures Copied(old(mem[..]), mem[..], dest, src, count)
  {
    ghost var m0 := mem[..];
    NothingCopied(m0, dest, src);
    hide Copied;
    var dst8, src8, left := dest, src, count;
    if count < 8 {
      CopyRemaining(mem, dst8, src8, count, m0, dest, src, count, 0);
      return;
    }
    // align the destination
    ghost var n := 0;
    while dst8 % WIDTH != 0
      invariant 0 <= n <= 3 && n + left == count && dst8 == dest + n && src8 == src + n
      invariant n == 0 || (dest % WIDTH != 0 && n <= 4 - dest % WIDTH)
      invariant Copied(m0, mem[..], dest, src, n)
      decreases 4 - n
    {
      CopyByte(mem, dst8, src8, m0, dest, src, count, n);
      dst8, src8, left := dst8 + 1, src8 + 1, left - 1;
      n := n + 1;
    }
    var shift := src8 % WIDTH;
    if shift == 0 {
      CopyNoShift(mem, dst8, src8, left, m0, dest, src, count, n);
    } else {
      CopyShift(mem, dst8, src8, left, shift, m0, dest, src, count, n);
    }
  }

  lemma CopiedIsSplice(m0: seq<Byte>, m: seq<Byte>, dest: nat, src: nat, count: nat)
    requires Copied(m0, m, dest, src, count)
    ensures m == m0[..dest] + m0[src..src + count] + m0[dest + count..]
  {}
}
