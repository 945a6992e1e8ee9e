/** Cluster chains and the bytes of a file on a FAT volume (kernel/dosfs.c). */
module FatFile {
  import opened Words
  import opened FatLayout

  // ----- where a cluster's sectors are

  function ClusterSector(v: Volume, c: int, r: nat): int {
    v.dataarea + (c - 2) * v.secperclus + r
  }

  /** The cluster that owns a sector of the data area. */
  function SectorCluster(v: Volume, s: int): int
    requires v.secperclus > 0
  {
    (s - v.dataarea) / v.secperclus + 2
  }

  lemma ClusterSectorRange(v: Volume, sectors: nat, c: nat, r: nat)
    requires WellFormed(v, sectors) && IsCluster(v, c) && r < v.secperclus
    ensures v.dataarea <= ClusterSector(v, c, r) < sectors
  {
    var s := v.secperclus;
    assert (c - 2) * s + s == (c - 1) * s;
    MulStep2(s, c - 2, v.numclusters);
  }

  lemma MulStep2(d: nat, a: nat, b: nat)
    requires a < b
    ensures 0 <= a * d && a * d + d <= b * d
  {
    MulStep(d, a, b);
    assert a * d == d * a && b * d == d * b;
  }

  lemma OwnerOf(v: Volume, c: nat, r: nat)
    requires v.secperclus > 0 && c >= 2 && r < v.secperclus
    ensures SectorCluster(v, ClusterSector(v, c, r)) == c
  {
    var q := c - 2;
    assert q * v.secperclus == v.secperclus * q;
    DivModUnique(q * v.secperclus + r, v.secperclus, q, r);
  }

  lemma SectorsApart(v: Volume, c: nat, r: nat, c': nat, r': nat)
    requires v.secperclus > 0 && c >= 2 && c' >= 2 && r < v.secperclus && r' < v.secperclus && (c, r) != (c', r')
    ensures ClusterSector(v, c, r) != ClusterSector(v, c', r')
  {
    hide ClusterSector, SectorCluster;
    OwnerOf(v, c, r);
    OwnerOf(v, c', r');
    if c == c' { SameCluster(v, c, r, r'); }
  }

  lemma SameCluster(v: Volume, c: nat, r: nat, r': nat)
    requires r != r'
    ensures ClusterSector(v, c, r) != ClusterSector(v, c, r')
  {}

  // ----- byte positions

  function ClusterSize(v: Volume): nat { v.secperclus * SECTOR_SIZE }

  /** The position in the chain, and the sector within that cluster, of sector g of a file. */
  function ChainIndex(v: Volume, g: nat): nat
    requires v.secperclus > 0
  {
    g / v.secperclus
  }

  function SectorInCluster(v: Volume, g: nat): nat
    requires v.secperclus > 0
  {
    g % v.secperclus
  }

  /** The divisions of the source, by the cluster size, in two steps: by the sector size, then by the sectors per
      cluster. */
  lemma ByteDivisions(v: Volume, p: nat)
    requires v.secperclus > 0
    ensures ClusterSize(v) > 0
    ensures p / ClusterSize(v) == ChainIndex(v, p / SECTOR_SIZE)
    ensures (p % ClusterSize(v)) / SECTOR_SIZE == SectorInCluster(v, p / SECTOR_SIZE) < v.secperclus
  {
    var s, g, b := v.secperclus, p / SECTOR_SIZE, p % SECTOR_SIZE;
    var q, r := g / s, g % s;
    DivModIdentity(g, s);
    ProductSwap(s, q);
    assert p == (s * 512) * q + (512 * r + b);
    DivModUnique(p, s * 512, q, 512 * r + b);
  }

  lemma ProductSwap(s: nat, q: nat)
    ensures (s * 512) * q == 512 * (s * q)
  {}

  /** A position below the chain's capacity has its cluster in the chain. */
  lemma InCapacity(v: Volume, p: nat, n: nat)
    requires v.secperclus > 0
    ensures p < n * ClusterSize(v) <==> ChainIndex(v, p / SECTOR_SIZE) < n
    ensures p == n * ClusterSize(v) ==> ChainIndex(v, p / SECTOR_SIZE) == n && p % SECTOR_SIZE == 0
  {
    ByteDivisions(v, p);
    var cs := ClusterSize(v);
    DivModIdentity(p, cs);
    var q := p / cs;
    assert n * cs == cs * n;
    if q < n { MulStep(cs, q, n); }
    if n <= q { MulLe(cs, n, q); }
    if p == n * cs {
      DivModUnique(p, cs, n, 0);
      assert p == 512 * (v.secperclus * n) by { ProductSwap(v.secperclus, n); }
    }
  }

  lemma MulLe(d: nat, a: nat, b: nat)
    requires a <= b
    ensures d * a <= d * b
  {
    assert d * b == d * a + d * (b - a);
  }

  // ----- chains

  function EndMark(fs: FatType): nat {
    match fs case FAT12 => 0xff8 case FAT16 => 0xfff8 case FAT32 => 0x0fff_fff8
  }

  /** An entry at or above the mark ends a chain. */
  predicate IsEnd(fs: FatType, e: nat) {
    e >= EndMark(fs)
  }

  /** The chain of a file: distinct clusters, each one's entry naming the next, the last one's an end mark. */
  ghost predicate IsChain(d: Disk, v: Volume, chain: seq<nat>) {
    && chain != []
    && (forall i {:trigger chain[i]} :: 0 <= i < |chain| ==> IsCluster(v, chain[i]))
    && (forall i, j :: 0 <= i < j < |chain| ==> chain[i] != chain[j])
    && (forall i {:trigger Entry(d, v, chain[i])} :: 0 <= i < |chain| ==>
          if i + 1 < |chain| then Entry(d, v, chain[i]) == chain[i + 1] else IsEnd(v.filesystem, Entry(d, v, chain[i])))
  }

  // ----- file bytes

  /** The disk sector that holds sector g of a file. */
  function Home(v: Volume, chain: seq<nat>, g: nat): int {
    if v.secperclus > 0 && ChainIndex(v, g) < |chain|
      then ClusterSector(v, chain[ChainIndex(v, g)], SectorInCluster(v, g))
      else -1
  }

  /** Byte k of a file. */
  function FileByte(d: Disk, v: Volume, chain: seq<nat>, k: nat): nat {
    var h := Home(v, chain, k / SECTOR_SIZE);
    if 0 <= h < |d| then ByteAt(d[h], k % SECTOR_SIZE) else 0
  }

  /** Where byte k of a file lies: cluster by cluster of its chain, sector by sector within a cluster. */
  lemma ByteOnDisk(d: Disk, v: Volume, chain: seq<nat>, k: nat)
    requires WellFormed(v, |d|) && IsChain(d, v, chain) && k < |chain| * (512 * v.secperclus)
    ensures k / 512 / v.secperclus < |chain|
    ensures var s := v.dataarea + (chain[k / 512 / v.secperclus] - 2) * v.secperclus + k / 512 % v.secperclus;
            0 <= s < |d| && FileByte(d, v, chain, k) == d[s][k % 512]
  {
    assert ClusterSize(v) == 512 * v.secperclus;
    InCapacity(v, k, |chain|);
    assert IsCluster(v, chain[ChainIndex(v, k / SECTOR_SIZE)]);
    hide IsChain;
    HomeRange(v, |d|, chain, k / SECTOR_SIZE);
    hide WellFormed;
  }

  lemma HomeRange(v: Volume, sectors: nat, chain: seq<nat>, g: nat)
    requires WellFormed(v, sectors) && ChainIndex(v, g) < |chain| && IsCluster(v, chain[ChainIndex(v, g)])
    ensures v.dataarea <= Home(v, chain, g) < sectors
    ensures SectorCluster(v, Home(v, chain, g)) == chain[ChainIndex(v, g)]
  {
    hide ClusterSector, SectorCluster;
    ModRange(g, v.secperclus);
    ClusterSectorRange(v, sectors, chain[ChainIndex(v, g)], SectorInCluster(v, g));
    OwnerOf(v, chain[ChainIndex(v, g)], SectorInCluster(v, g));
  }

  lemma ModRange(g: nat, s: nat)
    requires s > 0
    ensures 0 <= g % s < s
  {}

  lemma HomeInjective(v: Volume, chain: seq<nat>, g: nat, g': nat)
    requires v.secperclus > 0 && g != g' && ChainIndex(v, g) < |chain| && ChainIndex(v, g') < |chain|
    requires forall i {:trigger chain[i]} :: 0 <= i < |chain| ==> chain[i] >= 2
    requires forall i, j :: 0 <= i < j < |chain| ==> chain[i] != chain[j]
    ensures Home(v, chain, g) != Home(v, chain, g')
  {
    hide ClusterSector;
    ModRange(g, v.secperclus);
    ModRange(g', v.secperclus);
    DivModIdentity(g, v.secperclus);
    DivModIdentity(g', v.secperclus);
    assert (ChainIndex(v, g), SectorInCluster(v, g)) != (ChainIndex(v, g'), SectorInCluster(v, g'));
    SectorsApart(v, chain[ChainIndex(v, g)], SectorInCluster(v, g), chain[ChainIndex(v, g')], SectorInCluster(v, g'));
  }

  /** Writing one sector of a file changes the bytes of that sector of the file only, and no table entry. */
  lemma WriteHome(d: Disk, v: Volume, chain: seq<nat>, g: nat, s: Sector)
    requires WellFormed(v, |d|) && IsChain(d, v, chain) && ChainIndex(v, g) < |chain|
    ensures 0 <= Home(v, chain, g) < |d|
    ensures var d' := d[Home(v, chain, g) := s];
            && (forall k: nat {:trigger FileByte(d', v, chain, k)} :: ChainIndex(v, k / SECTOR_SIZE) < |chain| ==>
                  FileByte(d', v, chain, k)
                  == if k / SECTOR_SIZE == g then ByteAt(s, k % SECTOR_SIZE) else FileByte(d, v, chain, k))
            && (v.filesystem != FAT12 ==>
                  forall c {:trigger Entry(d', v, c)} :: IsCluster(v, c) ==> Entry(d', v, c) == Entry(d, v, c))
  {
    hide Home;
    HomeRange(v, |d|, chain, g);
    var d' := d[Home(v, chain, g) := s];
    forall k: nat | ChainIndex(v, k / SECTOR_SIZE) < |chain|
      ensures FileByte(d', v, chain, k)
              == if k / SECTOR_SIZE == g then ByteAt(s, k % SECTOR_SIZE) else FileByte(d, v, chain, k)
    {
      if k / SECTOR_SIZE != g { HomeInjective(v, chain, g, k / SECTOR_SIZE); }
    }
    if v.filesystem != FAT12 {
      forall c | IsCluster(v, c) ensures Entry(d', v, c) == Entry(d, v, c) { SlotFits(v, |d|, c); }
    }
  }

  // ----- what stays the same

  /** Sectors that belong neither to the table nor to a cluster of the chain. */
  predicate Foreign(v: Volume, chain: seq<nat>, s: nat) {
    s < v.fat1 || v.fat1 + 2 * v.secperfat <= s < v.dataarea
    || (v.secperclus > 0 && v.dataarea <= s && forall i :: 0 <= i < |chain| ==> chain[i] != SectorCluster(v, s))
  }

  /** Outside the table, the chain's clusters and the sector `but`, the disk is the same, and so are the entries
      of other clusters. */
  ghost predicate OthersKept(d: Disk, d': Disk, v: Volume, chain: seq<nat>, but: nat) {
    && |d'| == |d|
    && (forall s: nat {:trigger d'[s]} :: s < |d| && s != but && Foreign(v, chain, s) ==> d'[s] == d[s])
    && (forall c: nat {:trigger Entry(d', v, c)} :: IsCluster(v, c) && c !in chain ==>
          Entry(d', v, c) == Entry(d, v, c))
  }

  /** A chain that shares no cluster with a chain being worked on keeps its links and every byte. */
  lemma OtherFileKept(d: Disk, d': Disk, v: Volume, chain: seq<nat>, but: nat, other: seq<nat>)
    requires WellFormed(v, |d|) && OthersKept(d, d', v, chain, but) && IsChain(d, v, other)
    requires forall i :: 0 <= i < |other| ==>
               other[i] !in chain && (but >= v.dataarea ==> SectorCluster(v, but) != other[i])
    ensures IsChain(d', v, other)
    ensures forall k: nat {:trigger FileByte(d', v, other, k)} :: ChainIndex(v, k / SECTOR_SIZE) < |other| ==>
              FileByte(d', v, other, k) == FileByte(d, v, other, k)
  {
    hide Home, SectorCluster, Entry;
    forall i | 0 <= i < |other| ensures Entry(d', v, other[i]) == Entry(d, v, other[i]) {}
    forall k: nat | ChainIndex(v, k / SECTOR_SIZE) < |other|
      ensures FileByte(d', v, other, k) == FileByte(d, v, other, k)
    {
      HomeRange(v, |d|, other, k / SECTOR_SIZE);
      var h := Home(v, other, k / SECTOR_SIZE);
      assert Foreign(v, chain, h);
    }
  }

  // ----- an open file

  /** An entry has twelve, sixteen or twenty-eight bits. */
  function EntryLimit(fs: FatType): nat {
    match fs case FAT12 => 0x1000 case FAT16 => 0x1_0000 case FAT32 => 0x1000_0000
  }

  lemma EntryBelowLimit(d: Disk, v: Volume, c: nat)
    ensures Entry(d, v, c) < EntryLimit(v.filesystem)
  {
    if v.filesystem == FAT12 { hide TableByte; }
  }

  /** An end mark that can be read from a table. */
  predicate IsMark(fs: FatType, e: nat) {
    IsEnd(fs, e) && e < EntryLimit(fs)
  }

  /** The handle's cluster is the one its pointer lies in; at the end of a chain that is exactly full, an end mark. */
  ghost predicate Positioned(d: Disk, v: Volume, chain: seq<nat>, first: nat, len: nat, cluster: nat, pointer: nat) {
    && IsChain(d, v, chain) && first == chain[0] && v.secperclus > 0
    && pointer <= len <= |chain| * ClusterSize(v)
    && var q := ChainIndex(v, pointer / SECTOR_SIZE);
       if q < |chain| then cluster == chain[q] else q == |chain| && IsMark(v.filesystem, cluster)
  }

  /** Where a handle stands: in the cluster that holds the byte at its pointer, and behind the last byte of a full
      chain at the end mark of its file system. */
  lemma PositionedAt(d: Disk, v: Volume, chain: seq<nat>, first: nat, len: nat, cluster: nat, pointer: nat)
    requires Positioned(d, v, chain, first, len, cluster, pointer)
    ensures pointer / 512 / v.secperclus < |chain| ==> cluster == chain[pointer / 512 / v.secperclus]
    ensures pointer / 512 / v.secperclus >= |chain| ==>
              match v.filesystem
              case FAT12 => 0xff8 <= cluster <= 0xfff
              case FAT16 => 0xfff8 <= cluster <= 0xffff
              case FAT32 => 0x0fff_fff8 <= cluster <= 0x0fff_ffff
  {
    hide IsChain;
  }

  lemma ChainOfTwo(d: Disk, v: Volume)
    requires v.numclusters >= 2
    ensures IsChain(d, v, [2, 3]) <==> Entry(d, v, 2) == 3 && IsEnd(v.filesystem, Entry(d, v, 3))
  {
    hide Entry;
    assert [2, 3][0] == 2 && [2, 3][1] == 3;
    assert IsChain(d, v, [2, 3]) ==> Entry(d, v, [2, 3][0]) == 3 && IsEnd(v.filesystem, Entry(d, v, [2, 3][1]));
  }

  /** The same chain of clusters 2 and 3 in tables of the three types, byte by byte as they lie on the disk; the mark
      behind it is the lowest that ends a chain, and the value below it is none. */
  lemma Table16OnDisk(d: Disk, v: Volume)
    requires WellFormed(v, |d|) && v.numclusters >= 2 && v.fat1 < |d| && v.filesystem == FAT16
    ensures d[v.fat1][4] == 0x03 && d[v.fat1][5] == 0x00 && d[v.fat1][7] == 0xff ==>
              && (d[v.fat1][6] == 0xf8 ==> IsChain(d, v, [2, 3]))
              && (d[v.fat1][6] == 0xf7 ==> !IsChain(d, v, [2, 3]))
  {
    hide WellFormed, Entry, IsChain;
    ChainOfTwo(d, v);
    Entry16InBytes(d, v, 2);
    Entry16InBytes(d, v, 3);
  }

  lemma Table12OnDisk(d: Disk, v: Volume)
    requires WellFormed(v, |d|) && v.numclusters >= 2 && v.fat1 < |d| && v.filesystem == FAT12
    ensures d[v.fat1][3] == 0x03 && d[v.fat1][5] == 0xff ==>
              && (d[v.fat1][4] == 0x80 ==> IsChain(d, v, [2, 3]))
              && (d[v.fat1][4] == 0x70 ==> !IsChain(d, v, [2, 3]))
  {
    hide WellFormed, Entry, IsChain;
    ChainOfTwo(d, v);
    Entry12InBytes(d, v, 2);
    Entry12InBytes(d, v, 3);
  }

  lemma Table32OnDisk(d: Disk, v: Volume)
    requires WellFormed(v, |d|) && v.numclusters >= 2 && v.fat1 < |d| && v.filesystem == FAT32
    ensures d[v.fat1][8] == 0x03 && d[v.fat1][9] == d[v.fat1][10] == d[v.fat1][11] == 0x00
            && d[v.fat1][13] == d[v.fat1][14] == 0xff && d[v.fat1][15] == 0x0f ==>
              && (d[v.fat1][12] == 0xf8 ==> IsChain(d, v, [2, 3]))
              && (d[v.fat1][12] == 0xf7 ==> !IsChain(d, v, [2, 3]))
  {
    hide WellFormed, Entry, IsChain;
    ChainOfTwo(d, v);
    Entry32InBytes(d, v, 2);
    Entry32InBytes(d, v, 3);
    FromParts(Entry(d, v, 2));
    FromParts(Entry(d, v, 3));
  }

  lemma FromParts(e: nat)
    ensures e == e % 256 + 0x100 * (e / 256 % 256) + 0x1_0000 * (e / 0x1_0000 % 256) + 0x100_0000 * (e / 0x100_0000)
  {
    var a := e / 256;
    var b := a / 256;
    DivModUnique(e, 0x1_0000, b, e % 256 + 0x100 * (a % 256));
    DivModUnique(e, 0x100_0000, b / 256, e % 256 + 0x100 * (a % 256) + 0x1_0000 * (b % 256));
  }

  lemma ClusterIsNoMark(v: Volume, sectors: nat, c: nat)
    requires WellFormed(v, sectors) && IsCluster(v, c)
    ensures !IsEnd(v.filesystem, c) && c < BAD_CLUSTER && (v.filesystem == FAT16 ==> c < 0xfff7)
    ensures v.filesystem == FAT12 ==> c < 0xff7
  {}

  /** Moving n bytes within sector p / 512 stays in its cluster or enters the next one. */
  lemma StepIndex(v: Volume, p: nat, n: nat)
    requires v.secperclus > 0 && p % SECTOR_SIZE + n <= SECTOR_SIZE
    ensures var q, q' := ChainIndex(v, p / SECTOR_SIZE), ChainIndex(v, (p + n) / SECTOR_SIZE);
            && q <= q' <= q + 1 && (q' == q + 1 ==> (p + n) % SECTOR_SIZE == 0)
            && (p % SECTOR_SIZE + n < SECTOR_SIZE ==> q' == q)
  {
    var g := p / SECTOR_SIZE;
    if p % SECTOR_SIZE + n == SECTOR_SIZE {
      assert (p + n) / SECTOR_SIZE == g + 1;
      NextQuotient(g, v.secperclus);
    } else {
      assert (p + n) / SECTOR_SIZE == g;
    }
  }

  lemma NextQuotient(g: nat, s: nat)
    requires s > 0
    ensures g / s <= (g + 1) / s <= g / s + 1
  {
    var q, r := g / s, g % s;
    DivModIdentity(g, s);
    if r + 1 < s {
      DivModUnique(g + 1, s, q, r + 1);
    } else {
      assert s * (q + 1) == s * q + s;
      DivModUnique(g + 1, s, q + 1, 0);
    }
  }

  lemma SameSector(p: nat, j: nat)
    requires p % SECTOR_SIZE + j < SECTOR_SIZE
    ensures (p + j) / SECTOR_SIZE == p / SECTOR_SIZE && (p + j) % SECTOR_SIZE == p % SECTOR_SIZE + j
  {}

  /** The sector the source computes from the handle is the one that holds the pointer's byte. */
  lemma HandleSector(d: Disk, v: Volume, chain: seq<nat>, first: nat, len: nat, cluster: nat, p: nat)
    requires WellFormed(v, |d|) && Positioned(d, v, chain, first, len, cluster, p) && p < |chain| * ClusterSize(v)
    ensures ClusterSize(v) > 0 && ChainIndex(v, p / SECTOR_SIZE) < |chain|
    ensures cluster == chain[ChainIndex(v, p / SECTOR_SIZE)]
    ensures IsCluster(v, cluster) && cluster >= 2
    ensures v.dataarea + (cluster - 2) * v.secperclus + (p % ClusterSize(v)) / SECTOR_SIZE
            == Home(v, chain, p / SECTOR_SIZE)
    ensures v.dataarea <= Home(v, chain, p / SECTOR_SIZE) < |d|
  {
    InCapacity(v, p, |chain|);
    ByteDivisions(v, p);
    HomeRange(v, |d|, chain, p / SECTOR_SIZE);
  }

  /** The FAT specification's cluster sizes. */
  predicate IsClusterSize(sectors: nat) {
    sectors == 1 || sectors == 2 || sectors == 4 || sectors == 8 || sectors == 16 || sectors == 32 || sectors == 64
    || sectors == 128
  }

  /** The sector that the driver computes from a handle, in 32-bit words. */
  function ComputedSector(v: Volume, cluster: nat, p: nat): nat
    requires v.secperclus > 0
  {
    (v.dataarea + (cluster - 2) * v.secperclus + (p % ClusterSize(v)) / SECTOR_SIZE) % WORD
  }

  /** A file without a cluster: its first cluster, and the handle's, is zero. */
  ghost predicate Unallocated(chain: seq<nat>, first: nat, len: nat, cluster: nat, p: nat) {
    chain == [] && first == 0 && len == 0 && cluster == 0 && p == 0
  }

  /** Exactly when the sector computed from a handle lies in the volume's data area: when the pointer has not come
      to the end of a chain that is exactly full, and the file has a cluster.  At that end the handle's cluster is an
      end mark, and the sector lies beyond the last cluster or, where the product wraps around, before the data area;
      for a file without a cluster it lies two clusters before the data area. */
  lemma SectorInsideIff(d: Disk, v: Volume, chain: seq<nat>, first: nat, len: nat, cluster: nat, p: nat)
    requires WellFormed(v, |d|) && IsClusterSize(v.secperclus)
    requires Positioned(d, v, chain, first, len, cluster, p) || Unallocated(chain, first, len, cluster, p)
    ensures v.dataarea <= ComputedSector(v, cluster, p) < v.dataarea + v.numclusters * v.secperclus
            <==> p < |chain| * ClusterSize(v)
  {
    hide WellFormed, IsChain, IsClusterSize, IsMark, ComputedSector;
    if Unallocated(chain, first, len, cluster, p) {
      ZeroIsOutside(v, |d|);
    } else {
      InCapacity(v, p, |chain|);
      if p < |chain| * ClusterSize(v) {
        ClusterInside(d, v, chain, first, len, cluster, p);
      } else {
        AtTheEnd(d, v, chain, first, len, cluster, p);
        MarkIsOutside(v, |d|, cluster);
      }
    }
  }

  lemma ZeroIsOutside(v: Volume, sectors: nat)
    requires WellFormed(v, sectors) && IsClusterSize(v.secperclus)
    ensures !(v.dataarea <= ComputedSector(v, 0, 0) < v.dataarea + v.numclusters * v.secperclus)
  {
    TwoCopies(v, sectors);
    var a, b, n := v.dataarea, 2 * v.secperclus, v.numclusters * v.secperclus;
    assert (0 % ClusterSize(v)) / SECTOR_SIZE == 0 && (0 - 2) * v.secperclus == -b;
    if a < b { SmallVolume(v, sectors); }
    TwoClustersBefore(a, b, n);
  }

  lemma TwoClustersBefore(a: nat, b: nat, n: nat)
    requires 0 < b <= 256 && a <= WORD && (a < b ==> n + b <= WORD)
    ensures !(a <= (a - b) % WORD < a + n)
  {
    if a >= b { assert (a - b) % WORD == a - b; } else { assert (a - b) % WORD == a - b + WORD; }
  }

  /** A data area that starts early leaves room for a small table only. */
  lemma SmallVolume(v: Volume, sectors: nat)
    requires WellFormed(v, sectors) && IsClusterSize(v.secperclus) && v.dataarea < 2 * v.secperclus
    ensures v.numclusters * v.secperclus + 2 * v.secperclus <= WORD
  {
    assert v.secperfat < 128 && v.numclusters < 0x1_0000;
    MulLe(v.secperclus, v.numclusters, 0x1_0000);
    Commute(v.secperclus, v.numclusters);
  }

  lemma ClusterInside(d: Disk, v: Volume, chain: seq<nat>, first: nat, len: nat, cluster: nat, p: nat)
    requires WellFormed(v, |d|) && Positioned(d, v, chain, first, len, cluster, p) && p < |chain| * ClusterSize(v)
    ensures v.dataarea <= ComputedSector(v, cluster, p) < v.dataarea + v.numclusters * v.secperclus
  {
    HandleSector(d, v, chain, first, len, cluster, p);
    ByteDivisions(v, p);
    WellSized(v, |d|);
    hide WellFormed, Positioned, Home, ClusterSize;
    MulStep2(v.secperclus, cluster - 2, v.numclusters);
    SumInside(v.dataarea, (cluster - 2) * v.secperclus, v.numclusters * v.secperclus, v.secperclus,
              (p % ClusterSize(v)) / SECTOR_SIZE);
  }

  lemma SumInside(a: nat, x: nat, n: nat, s: nat, r: nat)
    requires x + s <= n && r < s && a + n <= WORD
    ensures a <= (a + x + r) % WORD < a + n
  {}

  lemma AtTheEnd(d: Disk, v: Volume, chain: seq<nat>, first: nat, len: nat, cluster: nat, p: nat)
    requires Positioned(d, v, chain, first, len, cluster, p) && p >= |chain| * ClusterSize(v)
    ensures IsMark(v.filesystem, cluster)
    ensures ComputedSector(v, cluster, p) == (v.dataarea + (cluster - 2) * v.secperclus) % WORD
  {
    hide IsChain, IsMark;
    InCapacity(v, p, |chain|);
    ByteDivisions(v, p);
    WholeClusters(|chain|, ClusterSize(v));
  }

  lemma WellSized(v: Volume, sectors: nat)
    requires WellFormed(v, sectors)
    ensures v.dataarea + v.numclusters * v.secperclus <= WORD
  {}

  lemma WholeClusters(n: nat, size: nat)
    requires size > 0
    ensures (n * size) % size == 0
  {
    Commute(n, size);
    DivModUnique(n * size, size, n, 0);
  }

  lemma Commute(a: nat, b: nat)
    ensures a * b == b * a
  {}

  lemma MarksAreBeyond(v: Volume, sectors: nat, e: nat)
    requires WellFormed(v, sectors) && IsEnd(v.filesystem, e)
    ensures e >= 2 && v.numclusters <= e - 2
  {}

  /** The product of the driver's multiplication for an end mark. */
  lemma MarkIsOutside(v: Volume, sectors: nat, e: nat)
    requires WellFormed(v, sectors) && IsMark(v.filesystem, e) && IsClusterSize(v.secperclus)
    ensures e >= 2
    ensures var s := (v.dataarea + (e - 2) * v.secperclus) % WORD;
            !(v.dataarea <= s < v.dataarea + v.numclusters * v.secperclus)
  {
    hide IsClusterSize;
    MarksAreBeyond(v, sectors, e);
    WellSized(v, sectors);
    hide WellFormed, IsMark;
    var m, n := (e - 2) * v.secperclus, v.numclusters * v.secperclus;
    MulLe(v.secperclus, v.numclusters, e - 2);
    Commute(v.secperclus, v.numclusters);
    Commute(v.secperclus, e - 2);
    if m < WORD {
      PastTheEnd(v.dataarea, m, n);
    } else {
      var g, t := WrappedMark(v, sectors, e, m, n);
      BeforeTheStart(v.dataarea, m, n, g, t);
    }
  }

  lemma PastTheEnd(a: nat, m: nat, n: nat)
    requires n <= m < WORD && a + n <= WORD
    ensures !(a <= (a + m) % WORD < a + n)
  {}

  lemma BeforeTheStart(a: nat, m: nat, n: nat, g: nat, t: nat)
    requires m == t * WORD - g && t <= 8 && 0 < g <= WORD - n && a + n <= WORD && (a < g ==> n + g <= WORD - a)
    ensures !(a <= (a + m) % WORD < a + n)
  {
    if a >= g { assert (a + m) % WORD == a - g; } else { assert (a + m) % WORD == a + WORD - g; }
  }

  /** On FAT32 with more than sixteen sectors per cluster the product is a little below a multiple of 2^32. */
  lemma WrappedMark(v: Volume, sectors: nat, e: nat, m: nat, n: nat) returns (g: nat, t: nat)
    requires WellFormed(v, sectors) && IsMark(v.filesystem, e) && IsClusterSize(v.secperclus)
    requires m == (e - 2) * v.secperclus >= WORD && n == v.numclusters * v.secperclus
    ensures m == t * WORD - g && t <= 8 && 0 < g
    ensures g <= WORD - n && (v.dataarea < g ==> n + g <= WORD - v.dataarea)
  {
    g, t := BelowMultiple(e - 2, v.secperclus);
    TwoCopies(v, sectors);
  }

  lemma BelowMultiple(c: nat, size: nat) returns (g: nat, t: nat)
    requires IsClusterSize(size) && 0x0fff_fff6 <= c < 0x1000_0000 && c * size >= WORD
    ensures c * size == t * WORD - g && t <= 8 && 0 < g <= 10 * size
  {
    var k := 0x1000_0000 - c;
    if size == 32 {
      g, t := 32 * k, 2;
    } else if size == 64 {
      g, t := 64 * k, 4;
    } else {
      g, t := 128 * k, 8;
    }
  }

  /** A file that fills its one cluster of sixteen sectors exactly: at its end the driver's own end mark computes to a
      sector of the second copy of the table. */
  lemma FullChainHitsTable() returns (d: Disk, v: Volume, chain: seq<nat>, mark: nat, p: nat)
    ensures WellFormed(v, |d|) && IsClusterSize(v.secperclus) && mark == EndMark(v.filesystem)
    ensures chain != [] && Positioned(d, v, chain, chain[0], p, mark, p) && p == |chain| * ClusterSize(v)
    ensures v.fat1 + v.secperfat <= ComputedSector(v, mark, p) < v.fat1 + 2 * v.secperfat
  {
    v := Volume(FAT32, 16, 1000, 100000, 32, 2032);
    chain, mark, p := [2], 0x0fff_fff8, 8192;
    var zero: Sector := seq(SECTOR_SIZE, _ => 0);
    var blank: Disk := seq(1_602_032, _ => zero);
    d := SetEntry(blank, v, 2, mark);
    SetEntryIsUpdate(blank, v, 2, mark);
    hide SetEntry, Entry;
    assert Entry(d, v, chain[0]) == mark;
  }

  /** Files without a cluster: the sector computed for their first byte is one of the second copy of the table, or one
      between the tables and the data area, where FAT16 has its root directory. */
  lemma EmptyFileHits() returns (v: Volume, w: Volume)
    ensures v.filesystem == FAT32 && WellFormed(v, 802_032) && IsClusterSize(v.secperclus)
    ensures v.fat1 + v.secperfat <= ComputedSector(v, 0, 0) < v.fat1 + 2 * v.secperfat
    ensures w.filesystem == FAT16 && WellFormed(w, 240_545) && IsClusterSize(w.secperclus)
    ensures w.fat1 + 2 * w.secperfat <= ComputedSector(w, 0, 0) < w.dataarea
  {
    v, w := Volume(FAT32, 8, 1000, 100000, 32, 2032), Volume(FAT16, 4, 256, 60000, 1, 545);
  }

  /** The bytes of a sector of a file, read through the disk. */
  lemma SectorBytes(d: Disk, v: Volume, chain: seq<nat>, p: nat, j: nat)
    requires p % SECTOR_SIZE + j < SECTOR_SIZE && 0 <= Home(v, chain, p / SECTOR_SIZE) < |d|
    ensures FileByte(d, v, chain, p + j) == d[Home(v, chain, p / SECTOR_SIZE)][p % SECTOR_SIZE + j]
  {
    SameSector(p, j);
  }

  /** The first `len` bytes of a file. */
  ghost function FileContent(d: Disk, v: Volume, chain: seq<nat>, len: nat): seq<nat> {
    seq(len, k requires 0 <= k => FileByte(d, v, chain, k))
  }

  lemma LinkOf(d: Disk, v: Volume, chain: seq<nat>, q: nat)
    requires IsChain(d, v, chain) && q < |chain|
    ensures IsCluster(v, chain[q])
    ensures q + 1 < |chain| ==> Entry(d, v, chain[q]) == chain[q + 1]
    ensures q + 1 == |chain| ==> IsEnd(v.filesystem, Entry(d, v, chain[q]))
  {
    hide Entry;
    assert Entry(d, v, chain[q]) == Entry(d, v, chain[q]);
  }
}
