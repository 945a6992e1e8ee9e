/** A FAT volume on disk (kernel/dosfs.c, kernel/dosfs.h): sectors, file allocation table entries and cluster
    chains. */
module FatLayout {
  import opened Words

  const SECTOR_SIZE: nat := 512

  type Byte = b: nat | b < 256
  type Sector = s: seq<Byte> | |s| == SECTOR_SIZE witness seq(SECTOR_SIZE, i => 0)
  type Disk = seq<Sector>

  datatype FatType = FAT12 | FAT16 | FAT32

  /** The fields of VOLINFO that the driver's I/O uses; fat1 and dataarea are absolute sector numbers. */
  datatype Volume = Volume(filesystem: FatType, secperclus: nat, secperfat: nat, numclusters: nat, fat1: nat,
                           dataarea: nat)

  const BAD_CLUSTER: nat := 0x0fff_fff7

  /** Bytes per entry; FAT12 packs two entries into three bytes. */
  function Width(fs: FatType): nat {
    match fs case FAT12 => 1 case FAT16 => 2 case FAT32 => 4
  }

  /** The geometry of a mounted volume: two copies of the table, then the data area, all on the disk; the table
      has an entry for every cluster, and cluster numbers stay below the reserved values. */
  predicate WellFormed(v: Volume, sectors: nat) {
    && v.secperclus > 0 && v.fat1 > 0
    && v.fat1 + 2 * v.secperfat <= v.dataarea
    && v.dataarea + v.numclusters * v.secperclus <= sectors <= WORD
    && (match v.filesystem
        case FAT12 => (v.numclusters + 2) * 3 <= v.secperfat * SECTOR_SIZE * 2 && v.numclusters < 4085
        case FAT16 => (v.numclusters + 2) * 2 <= v.secperfat * SECTOR_SIZE && v.numclusters < 65525
        case FAT32 => (v.numclusters + 2) * 4 <= v.secperfat * SECTOR_SIZE && v.numclusters < 0x0fff_fff5)
  }

  /** Clusters are numbered from 2. */
  predicate IsCluster(v: Volume, c: nat) {
    2 <= c < v.numclusters + 2
  }

  /** The table has two entries more, which belong to no cluster. */
  predicate HasEntry(v: Volume, c: nat) {
    c < v.numclusters + 2
  }

  // ----- one entry within its sector (FAT16 and FAT32)

  function Slot(v: Volume, c: nat): nat { c * Width(v.filesystem) }
  function SlotSector(v: Volume, c: nat): nat { Slot(v, c) / SECTOR_SIZE + v.fat1 }
  function SlotOffset(v: Volume, c: nat): nat { Slot(v, c) % SECTOR_SIZE }

  function ByteAt(s: Sector, i: nat): (b: nat)
    requires i < SECTOR_SIZE
    ensures b < 256
  {
    s[i]
  }

  function ReadSlot(fs: FatType, s: Sector, o: nat): nat
    requires o + Width(fs) <= SECTOR_SIZE
  {
    match fs
    case FAT12 => 0
    case FAT16 => ByteAt(s, o) + 0x100 * ByteAt(s, o + 1)
    case FAT32 => ByteAt(s, o) + 0x100 * ByteAt(s, o + 1) + 0x1_0000 * ByteAt(s, o + 2)
                  + 0x100_0000 * (ByteAt(s, o + 3) % 16)
  }

  function MaskEntry(fs: FatType, v: nat): nat {
    match fs case FAT12 => v % 0x1000 case FAT16 => v % 0x1_0000 case FAT32 => v % 0x1000_0000
  }

  function WriteSlot(fs: FatType, s: Sector, o: nat, v: nat): Sector
    requires o + Width(fs) <= SECTOR_SIZE
  {
    match fs
    case FAT12 => s
    case FAT16 => s[o := v % 256][o + 1 := (v / 0x100) % 256]
    case FAT32 => s[o := v % 256][o + 1 := (v / 0x100) % 256][o + 2 := (v / 0x1_0000) % 256]
                   [o + 3 := (ByteAt(s, o + 3) / 16) * 16 + (v / 0x100_0000) % 16]
  }

  /** A slot lies inside one sector of the table. */
  lemma SlotFits(v: Volume, sectors: nat, c: nat)
    requires WellFormed(v, sectors) && HasEntry(v, c) && v.filesystem != FAT12
    ensures SlotOffset(v, c) + Width(v.filesystem) <= SECTOR_SIZE
    ensures 0 < v.fat1 <= SlotSector(v, c) < v.fat1 + v.secperfat
    ensures SlotSector(v, c) + v.secperfat < v.dataarea <= sectors
  {
    if v.filesystem == FAT16 {
      TableFits(c, v.numclusters, 2, v.secperfat);
    } else {
      TableFits(c, v.numclusters, 4, v.secperfat);
    }
    TwoCopies(v, sectors);
    hide WellFormed;
  }

  lemma TableFits(c: nat, n: nat, w: nat, sectors: nat)
    requires (w == 2 || w == 4) && c < n + 2 && (n + 2) * w <= sectors * SECTOR_SIZE
    ensures (c * w) % SECTOR_SIZE + w <= SECTOR_SIZE && (c * w) / SECTOR_SIZE < sectors
  {
    if w == 2 {
      assert (c * 2) % 512 == 2 * (c % 256) && (c * 2) / 512 == c / 256;
    } else {
      assert (c * 4) % 512 == 4 * (c % 128) && (c * 4) / 512 == c / 128;
    }
  }

  /** Writing a slot and reading it back gives the masked value. */
  lemma ReadWritten(fs: FatType, s: Sector, o: nat, v: nat)
    requires o + Width(fs) <= SECTOR_SIZE && fs != FAT12
    ensures ReadSlot(fs, WriteSlot(fs, s, o, v), o) == MaskEntry(fs, v)
  {
    FourBytes(v);
    if fs == FAT32 { TopNibble(ByteAt(s, o + 3) / 16, (v / 0x100_0000) % 16); }
  }

  lemma FourBytes(v: nat)
    ensures v % 0x1_0000 == v % 256 + 0x100 * ((v / 0x100) % 256)
    ensures v % 0x1000_0000
            == v % 256 + 0x100 * ((v / 0x100) % 256) + 0x1_0000 * ((v / 0x1_0000) % 256)
            + 0x100_0000 * ((v / 0x100_0000) % 16)
  {
    var r0, a := v % 256, v / 256;
    var r1, b := a % 256, a / 256;
    var r2, c := b % 256, b / 256;
    var r3, d := c % 16, c / 16;
    assert v == 0x1_0000 * b + (r0 + 0x100 * r1);
    DivModUnique(v, 0x1_0000, b, r0 + 0x100 * r1);
    assert v == 0x100_0000 * c + (r0 + 0x100 * r1 + 0x1_0000 * r2);
    DivModUnique(v, 0x100_0000, c, r0 + 0x100 * r1 + 0x1_0000 * r2);
    assert v == 0x1000_0000 * d + (r0 + 0x100 * r1 + 0x1_0000 * r2 + 0x100_0000 * r3);
    DivModUnique(v, 0x1000_0000, d, r0 + 0x100 * r1 + 0x1_0000 * r2 + 0x100_0000 * r3);
  }

  lemma TopNibble(hi: nat, lo: nat)
    requires lo < 16
    ensures (hi * 16 + lo) % 16 == lo
  {}

  /** Writing a slot changes no byte outside it, and not the reserved top bits of a FAT32 slot. */
  lemma WriteSlotFrame(fs: FatType, s: Sector, o: nat, v: nat)
    requires o + Width(fs) <= SECTOR_SIZE && fs != FAT12
    ensures forall i :: 0 <= i < SECTOR_SIZE && !(o <= i < o + Width(fs)) ==> WriteSlot(fs, s, o, v)[i] == s[i]
    ensures fs == FAT32 ==> WriteSlot(fs, s, o, v)[o + 3] / 16 == s[o + 3] / 16
  {}

  // ----- the table as a map

  /** Byte o of the first copy of the table. */
  function TableByte(d: Disk, v: Volume, o: nat): (b: nat)
    ensures b < 256
  {
    var s := o / SECTOR_SIZE + v.fat1;
    if s < |d| then ByteAt(d[s], o % SECTOR_SIZE) else 0
  }

  /** FAT12: twelve bits at one and a half bytes per entry, the odd entry in the upper bits. */
  function Entry12(d: Disk, v: Volume, c: nat): nat {
    var o := c + c / 2;
    EntryOfBytes(c, TableByte(d, v, o), TableByte(d, v, o + 1))
  }

  function EntryOfBytes(c: nat, b0: Byte, b1: Byte): nat {
    if c % 2 == 1 then (b0 + 0x100 * b1) / 16 else (b0 + 0x100 * b1) % 0x1000
  }

  /** The table entry of a cluster, in the first copy of the table. */
  function Entry(d: Disk, v: Volume, c: nat): nat {
    if v.filesystem == FAT12 then Entry12(d, v, c) else
    if SlotSector(v, c) < |d| && SlotOffset(v, c) + Width(v.filesystem) <= SECTOR_SIZE
    then ReadSlot(v.filesystem, d[SlotSector(v, c)], SlotOffset(v, c)) else 0
  }

  /** What SetFAT does to the disk: patch the sector, and store it in both copies of the table. */
  function SetEntry(d: Disk, v: Volume, c: nat, e: nat): Disk {
    var s := SlotSector(v, c);
    if v.filesystem == FAT12 then SetEntry12(d, v, c, e)
    else if s < |d| && s + v.secperfat < |d| && SlotOffset(v, c) + Width(v.filesystem) <= SECTOR_SIZE then
      var p := WriteSlot(v.filesystem, d[s], SlotOffset(v, c), e);
      d[s := p][s + v.secperfat := p]
    else d
  }

  lemma SlotsApart(v: Volume, c: nat, e: nat)
    requires c != e && v.filesystem != FAT12 && SlotSector(v, c) == SlotSector(v, e)
    ensures SlotOffset(v, c) + Width(v.filesystem) <= SlotOffset(v, e)
            || SlotOffset(v, e) + Width(v.filesystem) <= SlotOffset(v, c)
  {}

  lemma SetEntryHere(d: Disk, v: Volume, c: nat, e: nat)
    requires WellFormed(v, |d|) && HasEntry(v, c) && v.filesystem != FAT12
    ensures var d' := SetEntry(d, v, c, e);
            && |d'| == |d| && Entry(d', v, c) == MaskEntry(v.filesystem, e)
            && 0 < SlotSector(v, c) < |d| && SlotSector(v, c) + v.secperfat < |d|
            && d'[SlotSector(v, c)] == d'[SlotSector(v, c) + v.secperfat]
            && (forall s :: 0 <= s < |d| && s != SlotSector(v, c) && s != SlotSector(v, c) + v.secperfat ==>
                  d'[s] == d[s])
  {
    SlotFits(v, |d|, c);
    TwoCopies(v, |d|);
    hide SlotSector, SlotOffset, ReadSlot, WriteSlot, MaskEntry, WellFormed;
    ReadWritten(v.filesystem, d[SlotSector(v, c)], SlotOffset(v, c), e);
  }

  /** The table is a map: setting an entry changes that entry, to the masked value, and no other; outside the two
      sectors it is stored in, the disk is unchanged, and both copies of the table get the same sector. */
  lemma SetEntryIsUpdate(d: Disk, v: Volume, c: nat, e: nat)
    requires WellFormed(v, |d|) && HasEntry(v, c) && v.filesystem != FAT12
    ensures var d' := SetEntry(d, v, c, e);
            && |d'| == |d| && Entry(d', v, c) == MaskEntry(v.filesystem, e)
            && (forall x :: HasEntry(v, x) && x != c ==> Entry(d', v, x) == Entry(d, v, x))
            && 0 < SlotSector(v, c) < |d| && SlotSector(v, c) + v.secperfat < |d|
            && d'[SlotSector(v, c)] == d'[SlotSector(v, c) + v.secperfat]
            && (forall s :: 0 <= s < |d| && s != SlotSector(v, c) && s != SlotSector(v, c) + v.secperfat ==>
                  d'[s] == d[s])
  {
    hide SlotSector, Entry, SetEntry, MaskEntry, WellFormed;
    SetEntryHere(d, v, c, e);
    forall x | HasEntry(v, x) && x != c ensures Entry(SetEntry(d, v, c, e), v, x) == Entry(d, v, x) {
      EntryElsewhere(d, v, c, e, x);
    }
  }

  lemma TwoCopies(v: Volume, sectors: nat)
    requires WellFormed(v, sectors)
    ensures v.secperfat > 0 && v.fat1 + 2 * v.secperfat <= v.dataarea <= sectors
  {
    assert v.numclusters * v.secperclus >= 0;
  }

  lemma EntryElsewhere(d: Disk, v: Volume, c: nat, e: nat, x: nat)
    requires WellFormed(v, |d|) && HasEntry(v, c) && HasEntry(v, x) && x != c && v.filesystem != FAT12
    ensures Entry(SetEntry(d, v, c, e), v, x) == Entry(d, v, x)
  {
    hide WriteSlot;
    SlotFits(v, |d|, c);
    SlotFits(v, |d|, x);
    hide WellFormed, SlotSector, SlotOffset;
    if SlotSector(v, x) == SlotSector(v, c) {
      SlotsApart(v, c, x);
      WriteSlotFrame(v.filesystem, d[SlotSector(v, c)], SlotOffset(v, c), e);
    }
  }

  // ----- FAT12 entries

  /** Byte o of the table is stored by writing its sector to both copies. */
  function PutByte(d: Disk, v: Volume, o: nat, b: Byte): Disk {
    var s := o / SECTOR_SIZE + v.fat1;
    if s < |d| && s + v.secperfat < |d| then
      var p := d[s][o % SECTOR_SIZE := b];
      d[s := p][s + v.secperfat := p]
    else d
  }

  /** The bytes that SetFAT stores for a FAT12 entry, given the bytes that are there. */
  function FirstByte(c: nat, b: Byte, e: nat): Byte {
    if c % 2 == 1 then b % 16 + 16 * (e % 16) else e % 256
  }

  function SecondByte(c: nat, b: Byte, e: nat): Byte {
    if c % 2 == 1 then 0 else b / 16 * 16 + e % 16
  }

  /** What SetFAT does to a FAT12 table. */
  function SetEntry12(d: Disk, v: Volume, c: nat, e: nat): Disk {
    var o := c + c / 2;
    PutByte(PutByte(d, v, o, FirstByte(c, TableByte(d, v, o), e)), v, o + 1, SecondByte(c, TableByte(d, v, o + 1), e))
  }

  /** The value that reads back after SetFAT has stored e. */
  function StoredEntry(fs: FatType, c: nat, e: nat): nat {
    if fs != FAT12 then MaskEntry(fs, e) else if c % 2 == 1 then e % 16 else e % 256 + 0x100 * (e % 16)
  }

  /** Exactly when SetFAT stores the value it is given: always on FAT16 and FAT32; on FAT12, for an odd cluster a
      value below sixteen, for an even one a value whose top and bottom nibbles agree. */
  lemma StoredExactly(fs: FatType, c: nat, e: nat)
    ensures StoredEntry(fs, c, e) == MaskEntry(fs, e) <==>
            (fs == FAT12 ==> if c % 2 == 1 then e % 0x1000 < 16 else (e % 0x1000) / 0x100 == e % 16)
  {
    if fs == FAT12 {
      NestedMod(e);
      var m := e % 0x1000;
      if c % 2 == 0 { assert m == 0x100 * (m / 0x100) + m % 0x100; }
    }
  }

  lemma NestedMod(e: nat)
    ensures (e % 0x1000) % 16 == e % 16 && (e % 0x1000) % 256 == e % 256
  {
    var q, r := e / 0x1000, e % 0x1000;
    DivModUnique(e, 16, 256 * q + r / 16, r % 16);
    DivModUnique(e, 256, 16 * q + r / 256, r % 256);
  }

  lemma TableByteAfter(d: Disk, v: Volume, o: nat, b: Byte, x: nat)
    requires o / SECTOR_SIZE + v.fat1 < |d| && o / SECTOR_SIZE + v.fat1 + v.secperfat < |d|
    requires x / SECTOR_SIZE < v.secperfat
    ensures |PutByte(d, v, o, b)| == |d|
    ensures TableByte(PutByte(d, v, o, b), v, x) == if x == o then b else TableByte(d, v, x)
  {
    if x != o && x / SECTOR_SIZE == o / SECTOR_SIZE { assert x % SECTOR_SIZE != o % SECTOR_SIZE; }
  }

  predicate InTable(v: Volume, o: nat) {
    o / SECTOR_SIZE < v.secperfat
  }

  lemma Bytes12Fit(v: Volume, sectors: nat, c: nat)
    requires WellFormed(v, sectors) && v.filesystem == FAT12 && HasEntry(v, c)
    ensures InTable(v, c + c / 2) && InTable(v, c + c / 2 + 1)
    ensures v.fat1 > 0 && v.fat1 + 2 * v.secperfat <= v.dataarea <= sectors
  {
    assert v.numclusters * v.secperclus >= 0;
  }

  /** An even entry does not depend on the upper half of its second byte, nor an odd one on the lower half of its
      first. */
  lemma EntryDependsOn(c: nat, b0: Byte, b1: Byte, t0: Byte, t1: Byte)
    requires if c % 2 == 1 then b0 / 16 == t0 / 16 && b1 == t1 else b0 == t0 && b1 % 16 == t1 % 16
    ensures EntryOfBytes(c, b0, b1) == EntryOfBytes(c, t0, t1)
  {
    if c % 2 == 1 {
      DivModUnique(b0 + 0x100 * b1, 16, b0 / 16 + 16 * b1, b0 % 16);
      DivModUnique(t0 + 0x100 * t1, 16, t0 / 16 + 16 * t1, t0 % 16);
    } else {
      DivModUnique(b0 + 0x100 * b1, 0x1000, b1 / 16, b0 + 0x100 * (b1 % 16));
      DivModUnique(t0 + 0x100 * t1, 0x1000, t1 / 16, t0 + 0x100 * (t1 % 16));
    }
  }

  /** What the stored bytes read back as, and what they keep of a neighbour's entry. */
  lemma StoredBytes(c: nat, b0: Byte, b1: Byte, e: nat)
    ensures StoredEntry(FAT12, c, e) == EntryOfBytes(c, FirstByte(c, b0, e), SecondByte(c, b1, e))
    ensures c % 2 == 1 ==> FirstByte(c, b0, e) % 16 == b0 % 16
    ensures c % 2 == 0 ==> SecondByte(c, b1, e) / 16 == b1 / 16
  {
    if c % 2 == 1 { OddEntry(b0 % 16, e % 16); } else { EvenEntry(e % 256, b1 / 16, e % 16); }
  }

  lemma OddEntry(low: nat, n: nat)
    requires low < 16 && n < 16
    ensures (low + 16 * n + 0x100 * 0) / 16 == n && (low + 16 * n) % 16 == low && low + 16 * n < 256
  {}

  lemma EvenEntry(b: nat, high: nat, n: nat)
    requires b < 256 && high < 16 && n < 16
    ensures (b + 0x100 * (high * 16 + n)) % 0x1000 == b + 0x100 * n && (high * 16 + n) / 16 == high
    ensures high * 16 + n < 256
  {}

  /** Byte x of the table after SetFAT on FAT12. */
  function ByteAfterSet(d: Disk, v: Volume, c: nat, e: nat, x: nat): nat {
    if x == c + c / 2 then FirstByte(c, TableByte(d, v, x), e)
    else if x == c + c / 2 + 1 then SecondByte(c, TableByte(d, v, x), e)
    else TableByte(d, v, x)
  }

  lemma BytesAfterSet(d: Disk, v: Volume, c: nat, e: nat, x: nat)
    requires WellFormed(v, |d|) && v.filesystem == FAT12 && HasEntry(v, c) && InTable(v, x)
    ensures |SetEntry12(d, v, c, e)| == |d| && TableByte(SetEntry12(d, v, c, e), v, x) == ByteAfterSet(d, v, c, e, x)
  {
    Bytes12Fit(v, |d|, c);
    hide WellFormed, TableByte, PutByte, FirstByte, SecondByte;
    var o := c + c / 2;
    var b := FirstByte(c, TableByte(d, v, o), e);
    TableByteAfter(d, v, o, b, x);
    TableByteAfter(PutByte(d, v, o, b), v, o + 1, SecondByte(c, TableByte(d, v, o + 1), e), x);
  }

  /** SetFAT on FAT12 changes no other entry, although neighbours share a byte. */
  lemma SetEntry12IsUpdate(d: Disk, v: Volume, c: nat, e: nat, x: nat)
    requires WellFormed(v, |d|) && v.filesystem == FAT12 && HasEntry(v, c) && HasEntry(v, x)
    ensures var d' := SetEntry12(d, v, c, e);
            |d'| == |d| && Entry12(d', v, x) == if x == c then StoredEntry(FAT12, c, e) else Entry12(d, v, x)
  {
    hide WellFormed, TableByte, SetEntry12, StoredEntry, Entry12, ByteAfterSet;
    BothBytesAfterSet(d, v, c, e, x);
    EntryAfterSet(d, SetEntry12(d, v, c, e), v, c, e, x);
  }

  lemma BothBytesAfterSet(d: Disk, v: Volume, c: nat, e: nat, x: nat)
    requires WellFormed(v, |d|) && v.filesystem == FAT12 && HasEntry(v, c) && HasEntry(v, x)
    ensures |SetEntry12(d, v, c, e)| == |d|
    ensures TableByte(SetEntry12(d, v, c, e), v, x + x / 2) == ByteAfterSet(d, v, c, e, x + x / 2)
    ensures TableByte(SetEntry12(d, v, c, e), v, x + x / 2 + 1) == ByteAfterSet(d, v, c, e, x + x / 2 + 1)
  {
    hide WellFormed, TableByte, SetEntry12, ByteAfterSet, InTable, HasEntry;
    Bytes12Fit(v, |d|, x);
    BytesAfterSet(d, v, c, e, x + x / 2);
    BytesAfterSet(d, v, c, e, x + x / 2 + 1);
  }

  lemma EntryAfterSet(d: Disk, d': Disk, v: Volume, c: nat, e: nat, x: nat)
    requires TableByte(d', v, x + x / 2) == ByteAfterSet(d, v, c, e, x + x / 2)
    requires TableByte(d', v, x + x / 2 + 1) == ByteAfterSet(d, v, c, e, x + x / 2 + 1)
    ensures Entry12(d', v, x) == if x == c then StoredEntry(FAT12, c, e) else Entry12(d, v, x)
  {
    hide TableByte, FirstByte, SecondByte, EntryOfBytes, StoredEntry;
    var o, p := c + c / 2, x + x / 2;
    StoredBytes(c, TableByte(d, v, o), TableByte(d, v, o + 1), e);
    if x != c {
      NeighbourOffsets(c, x);
      EntryDependsOn(x, TableByte(d, v, p), TableByte(d, v, p + 1), TableByte(d', v, p), TableByte(d', v, p + 1));
    }
  }

  lemma NeighbourOffsets(c: nat, x: nat)
    requires c != x
    ensures var o, p := c + c / 2, x + x / 2;
            && p != o
            && (p + 1 == o ==> c % 2 == 1 && x % 2 == 0) && (p == o + 1 ==> c % 2 == 0 && x % 2 == 1)
  {}

  lemma PutByteFrame(d: Disk, v: Volume, o: nat, b: Byte)
    requires InTable(v, o)
    ensures |PutByte(d, v, o, b)| == |d|
    ensures forall s :: 0 <= s < |d| && !(v.fat1 <= s < v.fat1 + 2 * v.secperfat) ==> PutByte(d, v, o, b)[s] == d[s]
  {}

  /** On every type of volume SetFAT changes one entry and no other, and nothing outside the two tables. */
  lemma SetEntryStores(d: Disk, v: Volume, c: nat, e: nat)
    requires WellFormed(v, |d|) && HasEntry(v, c)
    ensures var d' := SetEntry(d, v, c, e);
            && |d'| == |d| && Entry(d', v, c) == StoredEntry(v.filesystem, c, e)
            && (forall x :: HasEntry(v, x) && x != c ==> Entry(d', v, x) == Entry(d, v, x))
            && (forall s :: 0 <= s < |d| && !(v.fat1 <= s < v.fat1 + 2 * v.secperfat) ==> d'[s] == d[s])
  {
    if v.filesystem == FAT12 {
      SetEntry12Stores(d, v, c, e);
    } else {
      SlotFits(v, |d|, c);
      hide WellFormed, SlotSector, Entry, SetEntry;
      SetEntryIsUpdate(d, v, c, e);
    }
  }

  lemma SetEntry12Stores(d: Disk, v: Volume, c: nat, e: nat)
    requires WellFormed(v, |d|) && v.filesystem == FAT12 && HasEntry(v, c)
    ensures var d' := SetEntry12(d, v, c, e);
            && |d'| == |d| && Entry12(d', v, c) == StoredEntry(v.filesystem, c, e)
            && (forall x :: HasEntry(v, x) && x != c ==> Entry12(d', v, x) == Entry12(d, v, x))
            && (forall s :: 0 <= s < |d| && !(v.fat1 <= s < v.fat1 + 2 * v.secperfat) ==> d'[s] == d[s])
  {
    Bytes12Fit(v, |d|, c);
    hide WellFormed, Entry12, StoredEntry, PutByte, TableByte, FirstByte, SecondByte, InTable;
    SetEntry12IsUpdate(d, v, c, e, c);
    forall x | HasEntry(v, x) && x != c ensures Entry12(SetEntry12(d, v, c, e), v, x) == Entry12(d, v, x) {
      SetEntry12IsUpdate(d, v, c, e, x);
    }
    var o := c + c / 2;
    PutByteFrame(d, v, o, FirstByte(c, TableByte(d, v, o), e));
    PutByteFrame(PutByte(d, v, o, FirstByte(c, TableByte(d, v, o), e)), v, o + 1,
                 SecondByte(c, TableByte(d, v, o + 1), e));
  }

  /** SetFAT never makes the end mark of a FAT12 chain: what it stores for the mark is below it. */
  lemma EndMarkLost(c: nat)
    ensures StoredEntry(FAT12, c, 0xff8) < 0xff8 && !(StoredEntry(FAT12, c, 0xff8) == MaskEntry(FAT12, 0xff8))
  {}

  /** Freeing an entry works on every type of volume. */
  lemma ZeroIsStored(fs: FatType, c: nat)
    ensures StoredEntry(fs, c, 0) == 0
  {}

  /** An entry depends on the sectors of the first table only. */
  lemma EntryInTable(d: Disk, d': Disk, v: Volume, c: nat)
    requires WellFormed(v, |d|) && HasEntry(v, c) && |d'| == |d|
    requires forall s: nat {:trigger d'[s]} :: v.fat1 <= s < v.fat1 + v.secperfat && s < |d| ==> d'[s] == d[s]
    ensures Entry(d', v, c) == Entry(d, v, c)
  {
    if v.filesystem == FAT12 { Bytes12Fit(v, |d|, c); } else { SlotFits(v, |d|, c); }
    hide WellFormed;
  }

  /** FAT32's reserved bits: the top four bits of the stored word survive every update. */
  lemma ReservedBitsKept(d: Disk, v: Volume, c: nat, e: nat)
    requires WellFormed(v, |d|) && HasEntry(v, c) && v.filesystem == FAT32
    ensures SlotOffset(v, c) + 4 <= SECTOR_SIZE && SlotSector(v, c) < |d| && |SetEntry(d, v, c, e)| == |d|
    ensures SetEntry(d, v, c, e)[SlotSector(v, c)][SlotOffset(v, c) + 3] / 16
            == d[SlotSector(v, c)][SlotOffset(v, c) + 3] / 16
  {
    SlotFits(v, |d|, c);
    WriteSlotFrame(v.filesystem, d[SlotSector(v, c)], SlotOffset(v, c), e);
  }

  // ----- entries as bytes of the disk

  /** FAT16: two bytes, low byte first. */
  lemma Entry16InBytes(d: Disk, v: Volume, c: nat)
    requires WellFormed(v, |d|) && HasEntry(v, c) && v.filesystem == FAT16
    ensures v.fat1 + 2 * c / 512 < |d| && 2 * c % 512 + 1 < 512
    ensures Entry(d, v, c) % 256 == d[v.fat1 + 2 * c / 512][2 * c % 512]
    ensures Entry(d, v, c) / 256 == d[v.fat1 + 2 * c / 512][2 * c % 512 + 1]
  {
    SlotFits(v, |d|, c);
    hide WellFormed;
    LowAndHigh(ByteAt(d[SlotSector(v, c)], SlotOffset(v, c)), ByteAt(d[SlotSector(v, c)], SlotOffset(v, c) + 1));
  }

  lemma LowAndHigh(b0: nat, b1: nat)
    requires b0 < 256
    ensures (b0 + 0x100 * b1) % 256 == b0 && (b0 + 0x100 * b1) / 256 == b1
  {}

  /** FAT32: four bytes, low byte first, of which the top nibble is reserved. */
  lemma Entry32InBytes(d: Disk, v: Volume, c: nat)
    requires WellFormed(v, |d|) && HasEntry(v, c) && v.filesystem == FAT32
    ensures v.fat1 + 4 * c / 512 < |d| && 4 * c % 512 + 3 < 512
    ensures var e, s, i := Entry(d, v, c), d[v.fat1 + 4 * c / 512], 4 * c % 512;
            e % 256 == s[i] && e / 256 % 256 == s[i + 1] && e / 0x1_0000 % 256 == s[i + 2]
            && e / 0x100_0000 == s[i + 3] % 16
  {
    SlotFits(v, |d|, c);
    hide WellFormed;
    var s, o := d[SlotSector(v, c)], SlotOffset(v, c);
    FourParts(ByteAt(s, o), ByteAt(s, o + 1), ByteAt(s, o + 2), ByteAt(s, o + 3) % 16);
  }

  lemma FourParts(b0: nat, b1: nat, b2: nat, b3: nat)
    requires b0 < 256 && b1 < 256 && b2 < 256
    ensures var e := b0 + 0x100 * b1 + 0x1_0000 * b2 + 0x100_0000 * b3;
            e % 256 == b0 && e / 256 % 256 == b1 && e / 0x1_0000 % 256 == b2 && e / 0x100_0000 == b3
  {
    var e := b0 + 0x100 * b1 + 0x1_0000 * b2 + 0x100_0000 * b3;
    DivModUnique(e, 256, b1 + 0x100 * b2 + 0x1_0000 * b3, b0);
    DivModUnique(e, 0x1_0000, b2 + 0x100 * b3, b0 + 0x100 * b1);
    DivModUnique(e, 0x100_0000, b3, b0 + 0x100 * b1 + 0x1_0000 * b2);
  }

  /** FAT12: twelve bits at one and a half bytes per entry, low bits first; of the two bytes in which an entry lies,
      the even one takes all of the first and the lower half of the second, and the odd one the rest. */
  lemma Entry12InBytes(d: Disk, v: Volume, c: nat)
    requires WellFormed(v, |d|) && HasEntry(v, c) && v.filesystem == FAT12
    ensures v.fat1 + (c + c / 2) / 512 < |d| && v.fat1 + (c + c / 2 + 1) / 512 < |d|
    ensures var b0, b1 := d[v.fat1 + (c + c / 2) / 512][(c + c / 2) % 512],
                          d[v.fat1 + (c + c / 2 + 1) / 512][(c + c / 2 + 1) % 512];
            if c % 2 == 0 then Entry(d, v, c) % 256 == b0 && Entry(d, v, c) / 256 == b1 % 16
              else Entry(d, v, c) % 16 == b0 / 16 && Entry(d, v, c) / 16 == b1
  {
    Bytes12Fit(v, |d|, c);
    hide WellFormed;
    TwelveOfSixteen(TableByte(d, v, c + c / 2), TableByte(d, v, c + c / 2 + 1));
  }

  lemma TwelveOfSixteen(b0: nat, b1: nat)
    requires b0 < 256 && b1 < 256
    ensures ((b0 + 0x100 * b1) / 16) % 16 == b0 / 16 && ((b0 + 0x100 * b1) / 16) / 16 == b1
    ensures ((b0 + 0x100 * b1) % 0x1000) % 256 == b0 && ((b0 + 0x100 * b1) % 0x1000) / 256 == b1 % 16
  {}

  /** The bytes of the disk in which the first table has the value e for cluster c. */
  ghost predicate EntryOnDisk(d: Disk, v: Volume, c: nat, e: nat) {
    match v.filesystem
    case FAT12 =>
      var o := c + c / 2;
      && v.fat1 + o / 512 < |d| && v.fat1 + (o + 1) / 512 < |d|
      && var b0, b1 := d[v.fat1 + o / 512][o % 512], d[v.fat1 + (o + 1) / 512][(o + 1) % 512];
         if c % 2 == 0 then e % 256 == b0 && e / 256 == b1 % 16 else e % 16 == b0 / 16 && e / 16 == b1
    case FAT16 =>
      var i := 2 * c % 512;
      v.fat1 + 2 * c / 512 < |d| && i + 1 < 512
      && var s := d[v.fat1 + 2 * c / 512]; e % 256 == s[i] && e / 256 == s[i + 1]
    case FAT32 =>
      var i := 4 * c % 512;
      v.fat1 + 4 * c / 512 < |d| && i + 3 < 512
      && var s := d[v.fat1 + 4 * c / 512];
         e % 256 == s[i] && e / 256 % 256 == s[i + 1] && e / 0x1_0000 % 256 == s[i + 2]
         && e / 0x100_0000 == s[i + 3] % 16
  }

  lemma EntryInBytes(d: Disk, v: Volume, c: nat)
    requires WellFormed(v, |d|) && HasEntry(v, c)
    ensures EntryOnDisk(d, v, c, Entry(d, v, c))
  {
    hide WellFormed, Entry;
    match v.filesystem
    case FAT12 => Entry12InBytes(d, v, c);
    case FAT16 => Entry16InBytes(d, v, c);
    case FAT32 => Entry32InBytes(d, v, c);
  }

  /** The bytes of d', the disk d after the value e has been stored for cluster c; all others are as before. */
  ghost predicate StoredOnDisk(d: Disk, d': Disk, v: Volume, c: nat, e: nat) {
    |d'| == |d|
    && match v.filesystem
       case FAT12 =>
         var o := c + c / 2;
         var s, t, i, j := v.fat1 + o / 512, v.fat1 + (o + 1) / 512, o % 512, (o + 1) % 512;
         && s + v.secperfat < |d| && t + v.secperfat < |d|
         && (if c % 2 == 0 then d'[s][i] == e % 256 && d'[t][j] / 16 == d[t][j] / 16 && d'[t][j] % 16 == e % 16
               else d'[s][i] % 16 == d[s][i] % 16 && d'[s][i] / 16 == e % 16 && d'[t][j] == 0)
         && d'[s + v.secperfat] == d'[s] && d'[t + v.secperfat] == d'[t]
         && (forall x, y {:trigger d'[x][y]} :: v.fat1 <= x < v.fat1 + v.secperfat && 0 <= y < 512 && x < |d| ==>
               (x == s && y == i) || (x == t && y == j) || d'[x][y] == d[x][y])
         && (forall x :: 0 <= x < |d| && x !in {s, t, s + v.secperfat, t + v.secperfat} ==> d'[x] == d[x])
       case FAT16 =>
         var s, i := v.fat1 + 2 * c / 512, 2 * c % 512;
         && s + v.secperfat < |d| && i + 1 < 512
         && d'[s][i] == e % 256 && d'[s][i + 1] == e / 256 % 256 && d'[s + v.secperfat] == d'[s]
         && (forall j :: 0 <= j < 512 && j != i && j != i + 1 ==> d'[s][j] == d[s][j])
         && (forall x :: 0 <= x < |d| && x !in {s, s + v.secperfat} ==> d'[x] == d[x])
       case FAT32 =>
         var s, i := v.fat1 + 4 * c / 512, 4 * c % 512;
         && s + v.secperfat < |d| && i + 3 < 512
         && d'[s][i] == e % 256 && d'[s][i + 1] == e / 256 % 256 && d'[s][i + 2] == e / 0x1_0000 % 256
         && d'[s][i + 3] % 16 == e / 0x100_0000 % 16 && d'[s][i + 3] / 16 == d[s][i + 3] / 16
         && d'[s + v.secperfat] == d'[s]
         && (forall j :: 0 <= j < 512 && !(i <= j < i + 4) ==> d'[s][j] == d[s][j])
         && (forall x :: 0 <= x < |d| && x !in {s, s + v.secperfat} ==> d'[x] == d[x])
  }

  /** What SetFAT leaves on the disk of a FAT16 volume: the two bytes, in both copies of the table. */
  lemma SetEntry16InBytes(d: Disk, v: Volume, c: nat, e: nat)
    requires WellFormed(v, |d|) && HasEntry(v, c) && v.filesystem == FAT16
    ensures StoredOnDisk(d, SetEntry(d, v, c, e), v, c, e)
  {
    SlotFits(v, |d|, c);
    hide WellFormed;
  }

  /** FAT32: the low nibble of the fourth byte, whose top nibble stays. */
  lemma SetEntry32InBytes(d: Disk, v: Volume, c: nat, e: nat)
    requires WellFormed(v, |d|) && HasEntry(v, c) && v.filesystem == FAT32
    ensures StoredOnDisk(d, SetEntry(d, v, c, e), v, c, e)
  {
    SlotFits(v, |d|, c);
    hide WellFormed;
    TopNibble(ByteAt(d[SlotSector(v, c)], SlotOffset(v, c) + 3) / 16, (e / 0x100_0000) % 16);
  }

  /** FAT12, as the driver has it: an odd entry gets the low nibble of the value, and zero; an even one the low byte,
      and the low nibble again. */
  lemma SetEntry12InBytes(d: Disk, v: Volume, c: nat, e: nat)
    requires WellFormed(v, |d|) && HasEntry(v, c) && v.filesystem == FAT12
    ensures StoredOnDisk(d, SetEntry(d, v, c, e), v, c, e)
  {
    hide WellFormed, PutByte;
    Bytes12Fit(v, |d|, c);
    var k := c + c / 2;
    TwoPuts(d, v, k, FirstByte(c, TableByte(d, v, k), e), SecondByte(c, TableByte(d, v, k + 1), e));
    FirstNibbles(TableByte(d, v, k), e);
    FirstNibbles(TableByte(d, v, k + 1), e);
  }

  lemma SetEntryInBytes(d: Disk, v: Volume, c: nat, e: nat)
    requires WellFormed(v, |d|) && HasEntry(v, c)
    ensures StoredOnDisk(d, SetEntry(d, v, c, e), v, c, e)
  {
    hide WellFormed, SetEntry, StoredOnDisk;
    match v.filesystem
    case FAT12 => SetEntry12InBytes(d, v, c, e);
    case FAT16 => SetEntry16InBytes(d, v, c, e);
    case FAT32 => SetEntry32InBytes(d, v, c, e);
  }

  /** Two neighbouring bytes of the table, stored one after the other. */
  lemma TwoPuts(d: Disk, v: Volume, k: nat, b0: Byte, b1: Byte)
    requires InTable(v, k) && InTable(v, k + 1) && v.fat1 + 2 * v.secperfat <= |d|
    ensures v.fat1 + k / 512 + v.secperfat < |d| == |PutByte(PutByte(d, v, k, b0), v, k + 1, b1)|
    ensures v.fat1 + (k + 1) / 512 + v.secperfat < |d|
    ensures var s, t, i, j := v.fat1 + k / 512, v.fat1 + (k + 1) / 512, k % 512, (k + 1) % 512;
            var d' := PutByte(PutByte(d, v, k, b0), v, k + 1, b1);
            && d'[s][i] == b0 && d'[t][j] == b1
            && d'[s + v.secperfat] == d'[s] && d'[t + v.secperfat] == d'[t]
            && (forall x, y {:trigger d'[x][y]} :: v.fat1 <= x < v.fat1 + v.secperfat && 0 <= y < 512 ==>
                  (x == s && y == i) || (x == t && y == j) || d'[x][y] == d[x][y])
            && (forall x :: 0 <= x < |d| && x != s && x != t && x != s + v.secperfat && x != t + v.secperfat ==>
                  d'[x] == d[x])
  {
    NextByteSector(k);
  }

  lemma NextByteSector(k: nat)
    ensures if k % 512 == 511 then (k + 1) / 512 == k / 512 + 1 && (k + 1) % 512 == 0
            else (k + 1) / 512 == k / 512 && (k + 1) % 512 == k % 512 + 1
  {}

  lemma FirstNibbles(b: nat, e: nat)
    ensures (b % 16 + 16 * (e % 16)) % 16 == b % 16 && (b % 16 + 16 * (e % 16)) / 16 == e % 16
    ensures (b / 16 * 16 + e % 16) % 16 == e % 16 && (b / 16 * 16 + e % 16) / 16 == b / 16
  {}
}
