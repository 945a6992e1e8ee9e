/** The DOSFS FAT driver (kernel/dosfs.c): table access, reading, writing, seeking and freeing. */
module Dosfs {
  import opened Words
  import opened FatLayout
  import opened FatFile
  import opened FatBits

  const DFS_OK: nat := 0
  const DFS_EOF: nat := 1
  const DFS_ERRMISC: nat := 0xffff_ffff
  const DFS_WRITE: nat := 2

  /** FILEINFO: an open file. */
  class File {
    var dirsector: nat
    var diroffset: nat
    var mode: nat
    var firstcluster: nat
    var filelen: nat
    var cluster: nat
    var pointer: nat

    constructor (dirsector: nat, diroffset: nat, mode: nat, firstcluster: nat, filelen: nat)
      ensures this.dirsector == dirsector && this.diroffset == diroffset && this.mode == mode
      ensures this.firstcluster == firstcluster == cluster && this.filelen == filelen && pointer == 0
    {
      this.dirsector, this.diroffset, this.mode := dirsector, diroffset, mode;
      this.firstcluster, this.cluster, this.filelen, this.pointer := firstcluster, firstcluster, filelen, 0;
    }
  }

  /** A mounted volume, its disk, and the one-sector scratch buffer that callers pass around. */
  class Driver {
    const volinfo: Volume
    var disk: Disk
    var scratch: Sector

    ghost predicate Mounted()
      reads this
    {
      WellFormed(volinfo, |disk|)
    }

    /** Scratch holds the sector that a cache variable names; zero names none. */
    ghost predicate CacheOk(cache: nat)
      reads this
    {
      cache == 0 || (cache < |disk| && scratch == disk[cache])
    }

    method ReadSector(sector: nat) returns (status: nat)
      requires sector < |disk|
      modifies this`scratch
      ensures status == DFS_OK && scratch == disk[sector]
    {
      scratch := disk[sector];
      status := DFS_OK;
    }

    method WriteSector(buffer: Sector, sector: nat) returns (status: nat)
      requires sector < |disk|
      modifies this`disk
      ensures status == DFS_OK && disk == old(disk)[sector := buffer]
    {
      disk := disk[sector := buffer];
      status := DFS_OK;
    }

    /** Make scratch hold a sector, reading it only if the cache variable does not name it already. */
    method Fetch(cache: nat, sector: nat) returns (cache': nat)
      requires sector < |disk| && CacheOk(cache) && sector != 0
      modifies this`scratch
      ensures cache' == sector && scratch == disk[sector]
    {
      cache' := cache;
      if sector != cache {
        var status := ReadSector(sector);
        cache' := sector;
      }
    }

    /** The table entry of a cluster. */
    method GetFAT(cache: nat, cluster: nat) returns (result: nat, cache': nat)
      requires Mounted() && HasEntry(volinfo, cluster) && CacheOk(cache)
      modifies this`scratch
      ensures result == Entry(disk, volinfo, cluster) && cache' > 0 && CacheOk(cache')
      ensures EntryOnDisk(disk, volinfo, cluster, result)
    {
      hide And, Or, Shl, Shr, WellFormed, EntryOnDisk;
      EntryInBytes(disk, volinfo, cluster);
      if volinfo.filesystem == FAT12 {
        result, cache' := GetFAT12(cache, cluster);
        return;
      }
      SlotFits(volinfo, |disk|, cluster);
      var offset := cluster * Width(volinfo.filesystem);
      cache' := Fetch(cache, offset / SECTOR_SIZE + volinfo.fat1);
      offset := offset % SECTOR_SIZE;
      if volinfo.filesystem == FAT16 {
        LittleEndian2(ByteAt(scratch, offset), ByteAt(scratch, offset + 1));
        result := Or(scratch[offset], Shl(scratch[offset + 1], 8));
      } else {
        LittleEndian4(ByteAt(scratch, offset), ByteAt(scratch, offset + 1), ByteAt(scratch, offset + 2),
                      ByteAt(scratch, offset + 3));
        result := And(Or(Or(Or(scratch[offset], Shl(scratch[offset + 1], 8)), Shl(scratch[offset + 2], 16)),
                         Shl(scratch[offset + 3], 24)),
                      0x0fff_ffff);
      }
    }

    /** An entry of a FAT12 table, which may straddle two sectors. */
    method GetFAT12(cache: nat, cluster: nat) returns (result: nat, cache': nat)
      requires Mounted() && volinfo.filesystem == FAT12 && HasEntry(volinfo, cluster) && CacheOk(cache)
      modifies this`scratch
      ensures result == Entry12(disk, volinfo, cluster) && cache' > 0 && CacheOk(cache')
    {
      hide And, Shr, TableByte, WellFormed;
      result, cache' := TableWord(cache, cluster);
      TwelveBits(result);
      AndOneBit(cluster);
      if And(cluster, 1) != 0 { result := Shr(result, 4); } else { result := And(result, 0xfff); }
    }

    /** The two bytes of a FAT12 table in which an entry lies. */
    method TableWord(cache: nat, cluster: nat) returns (result: nat, cache': nat)
      requires Mounted() && volinfo.filesystem == FAT12 && HasEntry(volinfo, cluster) && CacheOk(cache)
      modifies this`scratch
      ensures var o := cluster + cluster / 2;
              result == TableByte(disk, volinfo, o) + 0x100 * TableByte(disk, volinfo, o + 1)
      ensures cache' > 0 && CacheOk(cache')
    {
      hide Or, Shl, WellFormed;
      var offset := cluster + cluster / 2;
      Fat12Fits(volinfo, |disk|, cluster);
      NextByte(offset);
      var sector := offset / SECTOR_SIZE + volinfo.fat1;
      cache' := Fetch(cache, sector);
      offset := offset % SECTOR_SIZE;
      if offset == SECTOR_SIZE - 1 {
        // the second byte is in the next sector
        result := scratch[offset];
        sector := sector + 1;
        var status := ReadSector(sector);
        cache' := sector;
        LittleEndian2(result, ByteAt(scratch, 0));
        result := Or(result, Shl(scratch[0], 8));
      } else {
        LittleEndian2(ByteAt(scratch, offset), ByteAt(scratch, offset + 1));
        result := Or(scratch[offset], Shl(scratch[offset + 1], 8));
      }
    }

    /** Set a table entry, in both copies of the table. */
    method SetFAT(cache: nat, cluster: nat, contents: nat) returns (result: nat, cache': nat)
      requires Mounted() && HasEntry(volinfo, cluster) && CacheOk(cache)
      modifies this`scratch, this`disk
      ensures result == 0 && disk == SetEntry(old(disk), volinfo, cluster, contents) && cache' > 0
      ensures CacheOk(cache') && StoredOnDisk(old(disk), disk, volinfo, cluster, contents)
    {
      hide And, Or, Shl, Shr, WellFormed, SetEntry12, StoredOnDisk;
      SetEntryInBytes(disk, volinfo, cluster, contents);
      if volinfo.filesystem == FAT12 {
        result, cache' := SetFAT12(cache, cluster, contents);
        return;
      }
      SlotFits(volinfo, |disk|, cluster);
      TwoCopies(volinfo, |disk|);
      var newContents := And(contents, if volinfo.filesystem == FAT16 then 0xffff else 0x0fff_ffff);
      var offset := cluster * Width(volinfo.filesystem);
      cache' := Fetch(cache, offset / SECTOR_SIZE + volinfo.fat1);
      offset := offset % SECTOR_SIZE;
      EntryBytes(contents, newContents, volinfo.filesystem,
                 ByteAt(scratch, if offset + 3 < SECTOR_SIZE then offset + 3 else 0));
      ghost var s := scratch;
      if volinfo.filesystem == FAT16 {
        scratch := scratch[offset := And(newContents, 0xff)];
        scratch := scratch[offset + 1 := Shr(And(newContents, 0xff00), 8)];
      } else {
        scratch := scratch[offset := And(newContents, 0xff)];
        scratch := scratch[offset + 1 := Shr(And(newContents, 0xff00), 8)];
        scratch := scratch[offset + 2 := Shr(And(newContents, 0xff_0000), 16)];
        // bits 28 to 31 stay
        scratch := scratch[offset + 3 := Or(And(scratch[offset + 3], 0xf0), Shr(And(newContents, 0x0f00_0000), 24))];
      }
      assert scratch == WriteSlot(volinfo.filesystem, s, offset, contents);
      result := WriteSector(scratch, cache');
      result := WriteSector(scratch, cache' + volinfo.secperfat);
    }

    /** Set an entry of a FAT12 table.  For an odd cluster the upper bits are masked but not shifted down, and for
        an even one the wrong nibble goes to the second byte. */
    method SetFAT12(cache: nat, cluster: nat, contents: nat) returns (result: nat, cache': nat)
      requires Mounted() && volinfo.filesystem == FAT12 && HasEntry(volinfo, cluster) && CacheOk(cache)
      modifies this`scratch, this`disk
      ensures result == 0 && disk == SetEntry12(old(disk), volinfo, cluster, contents) && cache' > 0
      ensures CacheOk(cache')
    {
      var newContents := And(contents, 0xfff);
      var offset := cluster + cluster / 2;
      Fat12Fits(volinfo, |disk|, cluster);
      hide And, Or, Shl, Shr, WellFormed, HasEntry, FirstByte, SecondByte, ToStore, PutByte, TableByte, SetEntry12;
      AndOneBit(cluster);
      SetEntry12Is(disk, volinfo, cluster, contents, offset);
      cache' := Fetch(cache, offset / SECTOR_SIZE + volinfo.fat1);
      if And(cluster, 1) != 0 { newContents := Shl(newContents, 4); }
      BytesStored(cluster, TableByte(disk, volinfo, offset), TableByte(disk, volinfo, offset + 1), contents);
      result, cache' := StoreBytes(cache', offset, cluster, newContents,
                                   FirstByte(cluster, TableByte(disk, volinfo, offset), contents),
                                   SecondByte(cluster, TableByte(disk, volinfo, offset + 1), contents));
    }

    /** Store the two bytes of an entry, at byte o of the table. */
    method StoreBytes(cache: nat, o: nat, cluster: nat, newContents: nat, ghost b0: Byte, ghost b1: Byte)
      returns (result: nat, cache': nat)
      requires 0 < cache == o / SECTOR_SIZE + volinfo.fat1 && (o + 1) / SECTOR_SIZE < volinfo.secperfat
      requires volinfo.fat1 + 2 * volinfo.secperfat <= |disk| && scratch == disk[cache]
      requires ToStore(cluster, newContents, TableByte(disk, volinfo, o), TableByte(disk, volinfo, o + 1), b0, b1)
      modifies this`scratch, this`disk
      ensures result == DFS_OK && disk == PutByte(PutByte(old(disk), volinfo, o, b0), volinfo, o + 1, b1) && cache' > 0
      ensures CacheOk(cache')
    {
      TableBytesAt(disk, volinfo, o);
      hide ToStore, PutByte, TableByte;
      ghost var d := disk;
      cache' := cache;
      var offset := o % SECTOR_SIZE;
      if offset == SECTOR_SIZE - 1 {
        result, cache' := StoreAcross(cache, cluster, newContents, b0, b1);
        AcrossBytes(d, volinfo, o, b0, b1);
      } else {
        TwoBytes(d, volinfo, o, b0, b1);
        result := StoreWithin(cache, offset, cluster, newContents, b0, b1);
      }
    }

    /** An entry that straddles a sector boundary: its two bytes are stored one sector at a time. */
    method StoreAcross(cache: nat, cluster: nat, newContents: nat, ghost b0: Byte, ghost b1: Byte)
      returns (result: nat, cache': nat)
      requires cache + 1 + volinfo.secperfat < |disk| && volinfo.secperfat > 1 && scratch == disk[cache]
      requires ToStore(cluster, newContents, ByteAt(disk[cache], SECTOR_SIZE - 1), ByteAt(disk[cache + 1], 0), b0, b1)
      modifies this`scratch, this`disk
      ensures result == DFS_OK && cache' == cache + 1 < |disk| == |old(disk)| && scratch == disk[cache']
      ensures var p, q := old(disk)[cache][SECTOR_SIZE - 1 := b0], old(disk)[cache + 1][0 := b1];
              disk
              == old(disk)[cache := p][cache + volinfo.secperfat := p][cache + 1 := q][cache + 1
                                                                                       + volinfo.secperfat := q]
    {
      hide And, Or, Shl;
      var offset := SECTOR_SIZE - 1;
      if And(cluster, 1) != 0 {
        scratch := scratch[offset := Or(And(scratch[offset], 0x0f), And(newContents, 0xf0))];
      } else {
        scratch := scratch[offset := And(newContents, 0xff)];
      }
      result := WriteSector(scratch, cache);
      result := WriteSector(scratch, cache + volinfo.secperfat);
      cache' := cache + 1;
      result := ReadSector(cache');
      if And(cluster, 1) != 0 {
        scratch := scratch[0 := And(newContents, 0xff00) % 256];
      } else {
        scratch := scratch[0 := Or(And(scratch[0], 0xf0), And(newContents, 0x0f))];
      }
      result := WriteSector(scratch, cache');
      result := WriteSector(scratch, cache' + volinfo.secperfat);
    }

    /** An entry within one sector. */
    method StoreWithin(cache: nat, offset: nat, cluster: nat, newContents: nat, ghost b0: Byte, ghost b1: Byte)
      returns (result: nat)
      requires cache + volinfo.secperfat < |disk| && volinfo.secperfat > 0 && scratch == disk[cache]
      requires offset + 1 < SECTOR_SIZE
      requires ToStore(cluster, newContents, ByteAt(scratch, offset), ByteAt(scratch, offset + 1), b0, b1)
      modifies this`scratch, this`disk
      ensures result == DFS_OK && cache < |disk| && scratch == disk[cache]
      ensures var p := old(disk)[cache][offset := b0][offset + 1 := b1];
              disk == old(disk)[cache := p][cache + volinfo.secperfat := p]
    {
      hide And, Or, Shl;
      if And(cluster, 1) != 0 {
        scratch := scratch[offset := Or(And(scratch[offset], 0x0f), And(newContents, 0xf0))];
        scratch := scratch[offset + 1 := And(newContents, 0xff00) % 256];
      } else {
        scratch := scratch[offset := And(newContents, 0xff)];
        scratch := scratch[offset + 1 := Or(And(scratch[offset + 1], 0xf0), And(newContents, 0x0f))];
      }
      result := WriteSector(scratch, cache);
      result := WriteSector(scratch, cache + volinfo.secperfat);
    }

    /** The least free cluster in [2, numclusters), or the bad-cluster mark if there is none. */
    method GetFreeFAT() returns (free: nat)
      requires Mounted()
      modifies this`scratch
      ensures free == 0x0fff_fff7 || (2 <= free < volinfo.numclusters && Entry(disk, volinfo, free) == 0)
      ensures forall c: nat :: 2 <= c < (if free == 0x0fff_fff7 then volinfo.numclusters else free) ==>
                Entry(disk, volinfo, c) != 0
    {
      hide Entry, WellFormed;
      var cache, i := 0, 2;
      while i < volinfo.numclusters
        invariant 2 <= i && CacheOk(cache)
        invariant forall c: nat :: 2 <= c < i ==> c < volinfo.numclusters && Entry(disk, volinfo, c) != 0
      {
        var result;
        result, cache := GetFAT(cache, i);
        if result == 0 { ClusterBound(volinfo, |disk|, i); return i; }
        i := i + 1;
      }
      free := BAD_CLUSTER;
    }

    // ----- files

    ghost predicate Open(file: File, chain: seq<nat>)
      reads this, file
    {
      Mounted() && Positioned(disk, volinfo, chain, file.firstcluster, file.filelen, file.cluster, file.pointer)
    }

    /** An empty file need not have a cluster. */
    ghost predicate NoBytes(file: File)
      reads file
    {
      file.filelen == 0 && file.pointer == 0
    }

    /** memcpy of n bytes of a sector into the caller's buffer. */
    method CopyOut(buffer: array<Byte>, at: nat, from: Sector, o: nat, n: nat)
      requires at + n <= buffer.Length && o + n <= SECTOR_SIZE
      modifies buffer
      ensures forall i :: at <= i < at + n ==> buffer[i] == from[o + (i - at)]
      ensures forall i :: 0 <= i < buffer.Length && !(at <= i < at + n) ==> buffer[i] == old(buffer[i])
    {
      forall i | at <= i < at + n { buffer[i] := from[o + (i - at)]; }
    }

    /** After moving n bytes within a sector, step the handle's cluster if a cluster boundary was crossed. */
    method StepCluster(file: File, n: nat, ghost chain: seq<nat>) returns (result: nat)
      requires Mounted() && n <= file.pointer && file.pointer <= file.filelen <= |chain| * ClusterSize(volinfo)
      requires var p := file.pointer - n;
               p % SECTOR_SIZE + n <= SECTOR_SIZE && p < |chain| * ClusterSize(volinfo)
               && Positioned(disk, volinfo, chain, file.firstcluster, file.filelen, file.cluster, p)
      modifies this`scratch, file`cluster
      ensures result == DFS_OK && Open(file, chain)
    {
      hide WellFormed, IsChain, Entry;
      result := DFS_OK;
      ghost var p := file.pointer - n;
      HandleSector(disk, volinfo, chain, file.firstcluster, file.filelen, file.cluster, p);
      ByteDivisions(volinfo, p);
      ByteDivisions(volinfo, file.pointer);
      StepIndex(volinfo, p, n);
      if (file.pointer - n) / ClusterSize(volinfo) != file.pointer / ClusterSize(volinfo) {
        ClusterIsNoMark(volinfo, |disk|, file.cluster);
        if IsEnd(volinfo.filesystem, file.cluster) {
          result := DFS_EOF;
        } else {
          LinkOf(disk, volinfo, chain, ChainIndex(volinfo, p / SECTOR_SIZE));
          EntryBelowLimit(disk, volinfo, file.cluster);
          var cache;
          file.cluster, cache := GetFAT(0, file.cluster);
        }
      }
    }

    /** The sector I/O of one chunk of a read. */
    method ReadBytes(file: File, buffer: array<Byte>, at: nat, remain: nat, sector: nat) returns (bytesread: nat)
      requires remain > 0 && at + remain <= buffer.Length && sector < |disk|
      modifies this`scratch, buffer
      ensures bytesread == Min(remain, SECTOR_SIZE - file.pointer % SECTOR_SIZE)
      ensures forall i :: at <= i < at + bytesread ==> buffer[i] == disk[sector][file.pointer % SECTOR_SIZE + (i - at)]
      ensures forall i :: 0 <= i < buffer.Length && !(at <= i < at + bytesread) ==> buffer[i] == old(buffer[i])
    {
      var result;
      if file.pointer % SECTOR_SIZE != 0 {
        // from within a sector
        result := ReadSector(sector);
        var tempreadsize := SECTOR_SIZE - file.pointer % SECTOR_SIZE;
        if remain >= tempreadsize {
          CopyOut(buffer, at, scratch, SECTOR_SIZE - tempreadsize, tempreadsize);
          bytesread := tempreadsize;
        } else {
          CopyOut(buffer, at, scratch, SECTOR_SIZE - tempreadsize, remain);
          bytesread := remain;
        }
      } else if remain >= SECTOR_SIZE {
        // a whole sector: no detour through scratch
        CopyOut(buffer, at, disk[sector], 0, SECTOR_SIZE);
        bytesread := SECTOR_SIZE;
      } else {
        // the beginning of a sector
        result := ReadSector(sector);
        CopyOut(buffer, at, scratch, 0, remain);
        bytesread := remain;
      }
    }

    /** Read up to `len` bytes at the file pointer. */
    method ReadFile(file: File, buffer: array<Byte>, len: nat, ghost chain: seq<nat>)
      returns (result: nat, successcount: nat)
      requires (Open(file, chain) || NoBytes(file)) && len <= buffer.Length && file.filelen < 0x8000_0000
      modifies this`scratch, file`cluster, file`pointer, buffer
      ensures result == 0 && (old(Open(file, chain)) ==> Open(file, chain))
      ensures successcount == Min(len, file.filelen - old(file.pointer))
      ensures file.pointer == old(file.pointer) + successcount
      ensures var content := FileContent(disk, volinfo, chain, file.filelen);
              buffer[..] == content[old(file.pointer)..old(file.pointer) + successcount] + old(buffer[successcount..])
    {
      hide WellFormed, IsChain, Entry, FileByte, FileContent, Home, Positioned, ClusterSize;
      result := DFS_OK;
      ghost var p0, open := file.pointer, Open(file, chain);
      if open { PositionFacts(disk, volinfo, chain, file.firstcluster, file.filelen, file.cluster, file.pointer); }
      var want := len;
      if len > file.filelen - file.pointer { want := file.filelen - file.pointer; }
      var remain := want;
      successcount := 0;
      while remain > 0 && result == DFS_OK
        invariant (if open then Open(file, chain) else want == 0) && result == DFS_OK
        invariant 0 <= remain && remain + successcount == want && file.pointer == p0 + successcount
        invariant p0 + want <= file.filelen && want <= buffer.Length
        invariant forall i :: 0 <= i < successcount ==> buffer[i] == FileByte(disk, volinfo, chain, p0 + i)
        invariant forall i :: successcount <= i < buffer.Length ==> buffer[i] == old(buffer[i])
        decreases remain
      {
        ghost var p := file.pointer;
        PositionFacts(disk, volinfo, chain, file.firstcluster, file.filelen, file.cluster, p);
        HandleSector(disk, volinfo, chain, file.firstcluster, file.filelen, file.cluster, p);
        var sector := volinfo.dataarea + (file.cluster - 2) * volinfo.secperclus
                      + (file.pointer % ClusterSize(volinfo)) / SECTOR_SIZE;
        var bytesread := ReadBytes(file, buffer, successcount, remain, sector);
        file.pointer := file.pointer + bytesread;
        remain := remain - bytesread;
        forall i | successcount <= i < successcount + bytesread
          ensures buffer[i] == FileByte(disk, volinfo, chain, p0 + i)
        {
          SectorBytes(disk, volinfo, chain, p, i - successcount);
        }
        successcount := successcount + bytesread;
        result := StepCluster(file, bytesread, chain);
      }
      ContentRead(disk, volinfo, chain, file.filelen, p0, successcount, buffer[..], old(buffer[..]));
      assert old(buffer[..])[successcount..] == old(buffer[successcount..]);
    }

    /** Move the file pointer to `offset`, or to the end of the file if that comes first. */
    method Seek(file: File, target: nat, ghost chain: seq<nat>)
      requires Open(file, chain) || NoBytes(file)
      requires EndClusterFits(volinfo, Min(target, file.filelen)) && file.filelen < 0x8000_0000
      modifies this`scratch, file`cluster, file`pointer
      ensures (old(Open(file, chain)) ==> Open(file, chain)) && file.pointer == Min(target, file.filelen)
    {
      hide WellFormed, IsChain, Entry, ChainIndex;
      var offset := target;
      if Open(file, chain) {
        PositionFacts(disk, volinfo, chain, file.firstcluster, file.filelen, file.cluster, file.pointer);
        ChainStart(disk, volinfo, chain);
      }
      if offset == file.pointer { return; }
      if offset > file.filelen { offset := file.filelen; }
      var clusterSize := ClusterSize(volinfo);
      StartIndex(volinfo);
      if offset == 0 {
        file.cluster := file.firstcluster;
        file.pointer := 0;
        return;
      } else if offset < file.pointer {
        // backwards means forwards from the start
        file.cluster := file.firstcluster;
        file.pointer := 0;
      }
      ByteDivisions(volinfo, file.pointer);
      ByteDivisions(volinfo, offset);
      if file.pointer / clusterSize == (file.pointer + offset) / clusterSize {
        Between(file.pointer, offset, file.pointer + offset, clusterSize);
        file.pointer := offset;
      } else {
        // one link for every cluster boundary in between
        ghost var q := file.pointer / clusterSize;
        ghost var last := offset / clusterSize;
        Quotients(file.pointer, offset, clusterSize);
        CapacityIndex(volinfo, offset, |chain|);
        file.pointer := file.pointer / clusterSize * clusterSize;
        var endcluster := (offset / clusterSize) % 0x1_0000;
        Boundary(q, clusterSize);
        var cache := 0;
        while file.pointer / clusterSize != endcluster
          invariant q <= last <= |chain| && endcluster == last && CacheOk(cache)
          invariant file.pointer == q * clusterSize && file.pointer / clusterSize == q
          invariant if q < |chain| then file.cluster == chain[q]
                      else q == |chain| && IsMark(volinfo.filesystem, file.cluster)
          decreases last - q
        {
          LinkOf(disk, volinfo, chain, q);
          EntryIsNotBad(disk, volinfo, chain, q);
          EntryBelowLimit(disk, volinfo, file.cluster);
          file.cluster, cache := GetFAT(cache, file.cluster);
          if file.cluster == BAD_CLUSTER {
            assert false;
            return;
          }
          file.pointer := file.pointer + SECTOR_SIZE * volinfo.secperclus;
          q := q + 1;
          Boundary(q - 1, clusterSize);
          Boundary(q, clusterSize);
        }
        file.pointer := offset;
      }
    }

    /** Write up to a sector's worth at the file pointer: read, patch and write back, or write directly where a
        whole sector, or a sector beyond the end of the file, is concerned. */
    method WriteChunk(file: File, buffer: seq<Byte>, at: nat, remain: nat, ghost chain: seq<nat>) returns (n: nat)
      requires Open(file, chain) && volinfo.filesystem != FAT12 && file.pointer < |chain| * ClusterSize(volinfo)
      requires remain > 0 && at + remain + SECTOR_SIZE <= |buffer| + 1
      modifies this`scratch, this`disk, file`pointer, file`filelen
      ensures n == Min(remain, SECTOR_SIZE - old(file.pointer) % SECTOR_SIZE) && file.pointer == old(file.pointer) + n
      ensures file.filelen == Max(old(file.filelen), file.pointer)
      ensures var h := Home(volinfo, chain, old(file.pointer) / SECTOR_SIZE);
              0 <= h < |old(disk)| == |disk| && disk == old(disk)[h := disk[h]]
      ensures Written(old(disk), disk, volinfo, chain, old(file.pointer), buffer[at..at + n], old(file.filelen))
    {
      hide WellFormed, IsChain, Entry, FileByte, Home, Positioned, Written, Patch;
      ghost var p, d := file.pointer, disk;
      PositionFacts(disk, volinfo, chain, file.firstcluster, file.filelen, file.cluster, p);
      HandleSector(disk, volinfo, chain, file.firstcluster, file.filelen, file.cluster, p);
      var sector := volinfo.dataarea + (file.cluster - 2) * volinfo.secperclus
                    + (file.pointer % ClusterSize(volinfo)) / SECTOR_SIZE;
      n := WriteBytes(file, buffer, at, remain, sector);
      SectorWritten(d, volinfo, chain, p, buffer[at..at + n], disk[sector], file.filelen);
      file.pointer := file.pointer + n;
      if file.filelen < file.pointer { file.filelen := file.pointer; }
    }

    /** The sector I/O of one chunk. */
    method WriteBytes(file: File, buffer: seq<Byte>, at: nat, remain: nat, sector: nat) returns (n: nat)
      requires remain > 0 && at + remain + SECTOR_SIZE <= |buffer| + 1 && sector < |disk|
      modifies this`scratch, this`disk
      ensures n == Min(remain, SECTOR_SIZE - file.pointer % SECTOR_SIZE) && |disk| == |old(disk)|
      ensures disk == old(disk)[sector := disk[sector]]
      ensures Patched(old(disk[sector]), disk[sector], file.pointer % SECTOR_SIZE, buffer[at..at + n],
                      file.pointer >= file.filelen)
    {
      hide Patch;
      ghost var d := disk;
      var result;
      if file.pointer % SECTOR_SIZE != 0 {
        // from within a sector
        result := ReadSector(sector);
        var tempsize := file.pointer % SECTOR_SIZE;
        n := if remain >= SECTOR_SIZE - tempsize then SECTOR_SIZE - tempsize else remain;
        scratch := Patch(scratch, tempsize, buffer[at..at + n]);
        result := WriteSector(scratch, sector);
      } else if remain >= SECTOR_SIZE {
        // a whole sector: no detour through scratch
        n := SECTOR_SIZE;
        result := WriteSector(buffer[at..at + SECTOR_SIZE], sector);
        PatchWhole(d[sector], buffer[at..at + SECTOR_SIZE]);
      } else {
        // the beginning of a sector
        n := remain;
        if file.pointer < file.filelen {
          result := ReadSector(sector);
          scratch := Patch(scratch, 0, buffer[at..at + n]);
          result := WriteSector(scratch, sector);
        } else {
          result := WriteSector(buffer[at..at + SECTOR_SIZE], sector);
          Prefix(buffer, at, n, SECTOR_SIZE);
        }
      }
    }

    /** After n bytes were written, step the handle's cluster if a boundary was crossed, linking a free cluster to
        the end of the chain when there is no next one. */
    method ExtendCluster(file: File, n: nat, ghost chain: seq<nat>) returns (result: nat, ghost chain': seq<nat>)
      requires Mounted() && volinfo.filesystem != FAT12 && 0 < n <= file.pointer
      requires file.pointer <= file.filelen <= |chain| * ClusterSize(volinfo)
      requires var p := file.pointer - n;
               p % SECTOR_SIZE + n <= SECTOR_SIZE && p < |chain| * ClusterSize(volinfo)
               && Positioned(disk, volinfo, chain, file.firstcluster, file.filelen, file.cluster, p)
      modifies this`scratch, this`disk, file`cluster
      ensures Open(file, chain') && (result == 0 || result == 0xffff_ffff)
      ensures result == 0 ==>
                file.pointer < |chain'| * ClusterSize(volinfo) && Grown(old(disk), disk, volinfo, chain, chain')
      ensures result == 0xffff_ffff ==>
                (disk == old(disk) && chain' == chain && file.pointer == |chain| * ClusterSize(volinfo)
                                        && forall c: nat :: 2 <= c < volinfo.numclusters ==>
                                             Entry(disk, volinfo, c) != 0)
    {
      hide WellFormed, IsChain, Entry, Grown, Home, FileByte;
      result, chain' := DFS_OK, chain;
      ghost var p, d := file.pointer - n, disk;
      HandleSector(disk, volinfo, chain, file.firstcluster, file.filelen, file.cluster, p);
      ByteDivisions(volinfo, p);
      ByteDivisions(volinfo, file.pointer);
      StepIndex(volinfo, p, n);
      InCapacity(volinfo, file.pointer, |chain|);
      GrownSame(d, volinfo, chain);
      if (file.pointer - n) / ClusterSize(volinfo) != file.pointer / ClusterSize(volinfo) {
        ghost var q := ChainIndex(volinfo, p / SECTOR_SIZE);
        LinkOf(disk, volinfo, chain, q);
        EntryBelowLimit(disk, volinfo, file.cluster);
        var cache;
        var lastcluster := file.cluster;
        file.cluster, cache := GetFAT(0, file.cluster);
        if q + 1 < |chain| {
          LinkOf(disk, volinfo, chain, q + 1);
          ClusterIsNoMark(volinfo, |disk|, chain[q + 1]);
        }
        if IsEnd(volinfo.filesystem, file.cluster) {
          FullChain(volinfo, file.pointer, |chain|);
          MoreCapacity(volinfo, file.pointer, |chain|);
          result, chain' := AppendCluster(file, lastcluster, chain);
          if result == DFS_OK { AtNewCluster(d, disk, volinfo, chain, chain', file.pointer); }
        }
      }
    }

    /** Link a free cluster to the end of the chain, and make it the handle's cluster. */
    method AppendCluster(file: File, lastcluster: nat, ghost chain: seq<nat>)
      returns (result: nat, ghost chain': seq<nat>)
      requires Mounted() && volinfo.filesystem != FAT12 && IsChain(disk, volinfo, chain)
      requires lastcluster == chain[|chain| - 1]
      modifies this`scratch, this`disk, file`cluster
      ensures result == DFS_OK || result == DFS_ERRMISC
      ensures result == DFS_OK ==>
                Mounted() && |chain'| == |chain| + 1 && file.cluster == chain'[|chain|]
                && Grown(old(disk), disk, volinfo, chain, chain')
      ensures result == DFS_ERRMISC ==> (disk == old(disk) && chain' == chain && file.cluster == old(file.cluster)
                                        && forall c: nat :: 2 <= c < volinfo.numclusters ==>
                                             Entry(disk, volinfo, c) != 0)
    {
      hide WellFormed, Entry, Grown, SetEntry;
      ghost var d := disk;
      LinkOf(disk, volinfo, chain, |chain| - 1);
      hide IsChain;
      var tempclus := GetFreeFAT();
      if tempclus == BAD_CLUSTER { return DFS_ERRMISC, chain; }
      var cache;
      ChainExtends(d, volinfo, chain, tempclus);
      result, cache := SetFAT(0, lastcluster, tempclus);
      file.cluster := tempclus;
      SetEntrySize(d, volinfo, lastcluster, tempclus);
      result, cache := SetFAT(cache, file.cluster, EndMark(volinfo.filesystem));
      chain' := chain + [tempclus];
      SetEntrySize(SetEntry(d, volinfo, lastcluster, tempclus), volinfo, tempclus, EndMark(volinfo.filesystem));
    }

    /** Write `len` bytes of the buffer at the file pointer.  (A whole sector is taken from the buffer even when
        less is wanted beyond the end of the file, so the buffer has that much slack.)

        On success the file's content is the old one with the data spliced in, and the directory entry holds the
        new length.  If the disk fills up, what was written before is spliced in, and the directory entry is not
        touched.  The chain only grows, by clusters that were free; no other cluster or entry changes.

        The file must have a cluster, and the pointer must not stand at the end of a chain that is exactly full
        (SectorInsideIff).  A write that succeeds does not leave it there, and a file that did not fill its chain does
        not fill it afterwards. */
    method WriteFile(file: File, buffer: seq<Byte>, len: nat, ghost chain: seq<nat>)
      returns (result: nat, successcount: nat, ghost chain': seq<nat>)
      requires Open(file, chain) && volinfo.filesystem != FAT12
      requires len > 0 ==> file.pointer < |chain| * ClusterSize(volinfo)
      requires |buffer| >= len + SECTOR_SIZE - 1 && file.pointer + len < 0x8000_0000 && file.filelen < 0x8000_0000
      requires DirectoryApart(disk, volinfo, chain, file.dirsector) && file.diroffset < 16
      modifies this`scratch, this`disk, file`pointer, file`filelen, file`cluster
      ensures And(file.mode, 2) == 0 ==>
                && result == 0xffff_ffff && successcount == 0 && disk == old(disk) && chain' == chain
                && file.pointer == old(file.pointer) && file.filelen == old(file.filelen)
                && file.cluster == old(file.cluster)
      ensures And(file.mode, 2) != 0 ==>
                && Open(file, chain') && chain <= chain' && file.filelen == Max(old(file.filelen), file.pointer)
                && file.pointer == old(file.pointer) + successcount && successcount <= len
                && FileContent(disk, volinfo, chain', file.filelen)
                   == Splice(FileContent(old(disk), volinfo, chain, old(file.filelen)), old(file.pointer),
                             buffer[..successcount])
                && OthersKept(old(disk), disk, volinfo, chain', file.dirsector)
                && WasFree(old(disk), volinfo, chain', |chain|)
                && (result == 0 || result == 0xffff_ffff)
      ensures And(file.mode, 2) != 0 && result == 0 ==>
                && successcount == len && (len > 0 ==> file.pointer < |chain'| * ClusterSize(volinfo))
                && (old(file.filelen) < |chain| * ClusterSize(volinfo) ==>
                      file.filelen < |chain'| * ClusterSize(volinfo))
                && file.filelen < WORD
                && disk[file.dirsector] == DirSized(old(disk[file.dirsector]), file.diroffset, file.filelen)
                && DirSize(disk[file.dirsector], file.diroffset) == file.filelen
                && var s, at := disk[file.dirsector], 32 * file.diroffset;
                   && s[at + 28] == file.filelen % 256 && s[at + 29] == file.filelen / 256 % 256
                   && s[at + 30] == file.filelen / 0x1_0000 % 256 && s[at + 31] == file.filelen / 0x100_0000
                   && forall i :: 0 <= i < 512 && !(at + 28 <= i < at + 32) ==> s[i] == old(disk)[file.dirsector][i]
      ensures And(file.mode, 2) != 0 ==>
                forall k: nat {:trigger FileByte(disk, volinfo, chain', k)} :: k < file.filelen ==>
                  FileByte(disk, volinfo, chain', k)
                  == if old(file.pointer) <= k < file.pointer then buffer[k - old(file.pointer)]
                       else FileByte(old(disk), volinfo, chain, k)
      ensures And(file.mode, 2) != 0 && result == 0xffff_ffff ==>
                && file.pointer == |chain'| * ClusterSize(volinfo)
                && disk[file.dirsector] == old(disk[file.dirsector])
                && forall c: nat :: 2 <= c < volinfo.numclusters ==> Entry(disk, volinfo, c) != 0
    {
      hide WellFormed, IsChain, Entry, FileByte, Home, Positioned, OthersKept, WasFree, DirectoryApart, FileContent,
        DirSize, DirSized;
      if And(file.mode, DFS_WRITE) == 0 { return DFS_ERRMISC, 0, chain; }
      ghost var d0, p0, len0 := disk, file.pointer, file.filelen;
      PositionFacts(disk, volinfo, chain, file.firstcluster, file.filelen, file.cluster, file.pointer);
      result, successcount, chain' := WriteChunks(file, buffer, len, chain);
      SplicedContent(d0, disk, volinfo, chain, chain', buffer, p0, successcount, len0, file.filelen);
      DirectoryStillApart(d0, disk, volinfo, chain, chain', file.dirsector);
      OthersWeaken(d0, disk, volinfo, chain', file.dirsector);
      if result == DFS_ERRMISC { return; }
      ghost var d3 := disk;
      PositionFacts(disk, volinfo, chain', file.firstcluster, file.filelen, file.cluster, file.pointer);
      UpdateDirectory(file);
      DirectoryWrite(d0, d3, volinfo, chain', file.dirsector, disk[file.dirsector], file.filelen);
      SameContent(d3, disk, volinfo, chain', file.filelen);
      PositionKept(d3, disk, volinfo, chain', file.firstcluster, file.filelen, file.filelen, file.cluster,
                   file.pointer);
    }

    /** The loop of DFS_WriteFile. */
    method WriteChunks(file: File, buffer: seq<Byte>, len: nat, ghost chain: seq<nat>)
      returns (result: nat, successcount: nat, ghost chain': seq<nat>)
      requires Open(file, chain) && volinfo.filesystem != FAT12
      requires len > 0 ==> file.pointer < |chain| * ClusterSize(volinfo)
      requires |buffer| >= len + SECTOR_SIZE - 1 && file.pointer + len < 0x8000_0000 && file.filelen < 0x8000_0000
      modifies this`scratch, this`disk, file`pointer, file`filelen, file`cluster
      ensures Open(file, chain') && chain <= chain' && file.filelen == Max(old(file.filelen), file.pointer)
      ensures file.pointer == old(file.pointer) + successcount && successcount <= len
      ensures Progress(old(disk), disk, volinfo, chain, chain', buffer, old(file.pointer), successcount, file.filelen)
      ensures result == 0 || result == 0xffff_ffff
      ensures result == 0 ==>
                && successcount == len && (len > 0 ==> file.pointer < |chain'| * ClusterSize(volinfo))
                && (old(file.filelen) < |chain| * ClusterSize(volinfo) ==>
                      file.filelen < |chain'| * ClusterSize(volinfo))
      ensures result == 0xffff_ffff ==>
                && file.pointer == |chain'| * ClusterSize(volinfo)
                && forall c: nat :: 2 <= c < volinfo.numclusters ==> Entry(disk, volinfo, c) != 0
    {
      hide WellFormed, IsChain, Entry, FileByte, Home, Positioned, OthersKept, WasFree, DirectoryApart, FileContent,
        DirSize, DirSized, Progress;
      result, successcount, chain' := DFS_OK, 0, chain;
      ghost var d0, p0, len0 := disk, file.pointer, file.filelen;
      PositionFacts(disk, volinfo, chain, file.firstcluster, file.filelen, file.cluster, file.pointer);
      NothingWritten(d0, volinfo, chain, buffer, p0, len0);
      var remain := len;
      while remain > 0 && result == DFS_OK
        invariant Open(file, chain') && chain <= chain' && (result == DFS_OK || result == DFS_ERRMISC)
        invariant 0 <= remain && remain + successcount == len && file.pointer == p0 + successcount
        invariant file.filelen == Max(len0, file.pointer)
        invariant Progress(d0, disk, volinfo, chain, chain', buffer, p0, successcount, file.filelen)
        invariant result == DFS_OK ==> (len > 0 ==> file.pointer < |chain'| * ClusterSize(volinfo))
        invariant result == DFS_OK ==>
                    (len0 < |chain| * ClusterSize(volinfo) ==> file.filelen < |chain'| * ClusterSize(volinfo))
        invariant result == DFS_ERRMISC ==> (file.pointer == |chain'| * ClusterSize(volinfo)
                    && forall c: nat :: 2 <= c < volinfo.numclusters ==> Entry(disk, volinfo, c) != 0)
        decreases remain
      {
        ghost var d1, p, len1, chain1 := disk, file.pointer, file.filelen, chain';
        PositionFacts(disk, volinfo, chain', file.firstcluster, file.filelen, file.cluster, p);
        var n := WriteChunk(file, buffer, successcount, remain, chain');
        ChunkFits(volinfo, p, n, |chain'|);
        PositionAfterChunk(d1, disk, volinfo, chain', file.firstcluster, len1, file.filelen, file.cluster, p);
        ghost var d2 := disk;
        result, chain' := ExtendCluster(file, n, chain');
        if result == DFS_ERRMISC {
          PositionFacts(disk, volinfo, chain', file.firstcluster, file.filelen, file.cluster, file.pointer);
          GrownSame(d2, volinfo, chain1);
        }
        Progresses(d0, d1, d2, disk, volinfo, chain, chain1, chain', buffer, p0, successcount, n, len1, file.filelen);
        CapacityGrows(volinfo, |chain|, |chain1|, |chain'|);
        remain := remain - n;
        successcount := successcount + n;
      }
    }

    /** Store the file's length in its directory entry. */
    method UpdateDirectory(file: File)
      requires file.dirsector < |disk| && file.diroffset < 16 && file.filelen < WORD
      modifies this`scratch, this`disk
      ensures disk == old(disk)[file.dirsector := DirSized(old(disk)[file.dirsector], file.diroffset, file.filelen)]
      ensures DirSize(disk[file.dirsector], file.diroffset) == file.filelen
      ensures var s, at := disk[file.dirsector], 32 * file.diroffset;
              && s[at + 28] == file.filelen % 256 && s[at + 29] == file.filelen / 256 % 256
              && s[at + 30] == file.filelen / 0x1_0000 % 256 && s[at + 31] == file.filelen / 0x100_0000
              && forall i :: 0 <= i < 512 && !(at + 28 <= i < at + 32) ==> s[i] == old(disk)[file.dirsector][i]
    {
      var result := ReadSector(file.dirsector);
      ghost var s := scratch;
      var at := file.diroffset * DIRENT_SIZE + FILESIZE_OFFSET;
      SizeBytes(file.filelen);
      hide And, Shr;
      scratch := scratch[at := And(file.filelen, 0xff)];
      scratch := scratch[at + 1 := Shr(And(file.filelen, 0xff00), 8)];
      scratch := scratch[at + 2 := Shr(And(file.filelen, 0xff_0000), 16)];
      scratch := scratch[at + 3 := Shr(And(file.filelen, 0xff00_0000), 24)];
      assert scratch == DirSized(s, file.diroffset, file.filelen);
      DirRoundTrip(s, file.diroffset, file.filelen);
      result := WriteSector(scratch, file.dirsector);
      LengthAt(s, file.diroffset, file.filelen);
    }

    /** Remove a file whose directory entry and first cluster are known: mark the entry deleted, and follow the
        chain to free its clusters, one cached sector serving both the reads and the writes.

        A file without a cluster has zero for its first one.  The loop does not notice, and clears the table's
        first entry, which belongs to no cluster and must be a mark for the loop to stop there. */
    method UnlinkFile(dirsector: nat, diroffset: nat, first: nat, ghost chain: seq<nat>) returns (result: nat)
      requires Mounted() && HasFirst(disk, volinfo, chain, first)
      requires DirectoryApart(disk, volinfo, chain, dirsector) && diroffset < 16
      modifies this`scratch, this`disk
      ensures result == 0 && Mounted() && OthersKept(old(disk), disk, volinfo, chain, dirsector)
      ensures forall i {:trigger chain[i]} :: 0 <= i < |chain| ==> Entry(disk, volinfo, chain[i]) == 0
      ensures Entry(disk, volinfo, 0) == if chain == [] then 0 else old(Entry(disk, volinfo, 0))
      ensures disk[dirsector] == old(disk[dirsector])[32 * diroffset := 0xe5]
    {
      hide WellFormed, IsChain, Entry, OthersKept, DirectoryApart, HasFirst, Freed, IsRun;
      ghost var d0 := disk;
      DirectoryBounds(disk, volinfo, chain, dirsector);
      result := ReadSector(dirsector);
      scratch := scratch[diroffset * DIRENT_SIZE := 0xe5];
      result := WriteSector(scratch, dirsector);
      EntriesKept(d0, volinfo, chain, dirsector, scratch);
      ghost var d1, run := disk, RunOf(chain);
      FirstIsRun(d0, d1, volinfo, chain, first);
      ChainClusters(d0, volinfo, chain, first);
      NothingFreed(d0, d1, volinfo, chain, dirsector);
      FreedNothing(d1, volinfo, run);
      RunEnds(d1, d1, volinfo, run, 0);
      result := FreeChain(first, |run|);
      FreedOthers(d0, d1, disk, volinfo, chain, dirsector);
    }

    /** The loop of DFS_UnlinkFile, on any table on which it ends. */
    method FreeChain(first: nat, ghost n: nat) returns (result: nat)
      requires Mounted() && EndsIn(disk, volinfo, first, n)
      modifies this`scratch, this`disk
      ensures result == 0 && Mounted() && disk == Emptied(old(disk), volinfo, first, n)
    {
      hide WellFormed, Entry, AtEnd, SetEntry;
      ghost var d0 := disk;
      ghost var left := n;
      var cache, cluster := 0, first;
      while !AtEnd(volinfo.filesystem, cluster)
        invariant Mounted() && CacheOk(cache) && EndsIn(disk, volinfo, cluster, left)
        invariant Emptied(disk, volinfo, cluster, left) == Emptied(d0, volinfo, first, n)
        decreases left
      {
        var tempclus := cluster;
        ghost var d := disk;
        cluster, cache := GetFAT(cache, cluster);
        SetEntrySize(d, volinfo, tempclus, 0);
        var r;
        r, cache := SetFAT(cache, tempclus, 0);
        left := left - 1;
      }
      result := DFS_OK;
    }
  }

  lemma ClusterBound(v: Volume, sectors: nat, c: nat)
    requires WellFormed(v, sectors) && IsCluster(v, c)
    ensures c < BAD_CLUSTER
  {}

  lemma Fat12Fits(v: Volume, sectors: nat, c: nat)
    requires WellFormed(v, sectors) && v.filesystem == FAT12 && HasEntry(v, c)
    ensures var o := c + c / 2;
            0 < o / SECTOR_SIZE + v.fat1
            && (o + 1) / SECTOR_SIZE + v.fat1 < v.fat1 + v.secperfat <= v.dataarea <= sectors
  {
    assert v.numclusters * v.secperclus >= 0;
  }

  lemma NextByte(o: nat)
    ensures if o % SECTOR_SIZE == SECTOR_SIZE - 1
              then (o + 1) / SECTOR_SIZE == o / SECTOR_SIZE + 1 && (o + 1) % SECTOR_SIZE == 0
            else (o + 1) / SECTOR_SIZE == o / SECTOR_SIZE && (o + 1) % SECTOR_SIZE == o % SECTOR_SIZE + 1
  {}

  /** The bytes that the masks of SetFAT produce from the two bytes that are there. */
  ghost predicate ToStore(cluster: nat, newContents: nat, t0: Byte, t1: Byte, b0: Byte, b1: Byte) {
    if And(cluster, 1) != 0
    then Or(And(t0, 0x0f), And(newContents, 0xf0)) == b0 && And(newContents, 0xff00) % 256 == b1
    else And(newContents, 0xff) == b0 && Or(And(t1, 0xf0), And(newContents, 0x0f)) == b1
  }

  lemma BytesStored(c: nat, t0: Byte, t1: Byte, e: nat)
    ensures var n := And(e, 0xfff);
            ToStore(c, if And(c, 1) != 0 then Shl(n, 4) else n, t0, t1, FirstByte(c, t0, e), SecondByte(c, t1, e))
  {
    hide And, Or, Shl;
    AndOneBit(c);
    OddBytes(t0, e);
    EvenBytes(t1, e);
  }

  lemma TableBytesAt(d: Disk, v: Volume, o: nat)
    requires o / SECTOR_SIZE + v.fat1 < |d| && (o + 1) / SECTOR_SIZE + v.fat1 < |d|
    ensures var s, i := o / SECTOR_SIZE + v.fat1, o % SECTOR_SIZE;
            && TableByte(d, v, o) == ByteAt(d[s], i)
            && if i == SECTOR_SIZE - 1
                 then s + 1 < |d| && s + 1 == (o + 1) / SECTOR_SIZE + v.fat1
                 && TableByte(d, v, o + 1) == ByteAt(d[s + 1], 0)
               else TableByte(d, v, o + 1) == ByteAt(d[s], i + 1)
  {
    NextByte(o);
  }

  lemma SetEntry12Is(d: Disk, v: Volume, c: nat, e: nat, o: nat)
    requires o == c + c / 2
    ensures SetEntry12(d, v, c, e)
            == PutByte(PutByte(d, v, o, FirstByte(c, TableByte(d, v, o), e)), v, o + 1,
                       SecondByte(c, TableByte(d, v, o + 1), e))
  {
    hide FirstByte, SecondByte, PutByte, TableByte;
  }

  /** Storing two bytes on either side of a sector boundary. */
  lemma AcrossBytes(d: Disk, v: Volume, o: nat, b0: Byte, b1: Byte)
    requires var s := o / SECTOR_SIZE + v.fat1; s + 1 < s + v.secperfat && s + 1 + v.secperfat < |d|
    requires o % SECTOR_SIZE == SECTOR_SIZE - 1
    ensures var s := o / SECTOR_SIZE + v.fat1;
            var p, q := d[s][SECTOR_SIZE - 1 := b0], d[s + 1][0 := b1];
            PutByte(PutByte(d, v, o, b0), v, o + 1, b1)
            == d[s := p][s + v.secperfat := p][s + 1 := q][s + 1 + v.secperfat := q]
  {
    NextByte(o);
  }

  /** Storing two bytes of one sector, one after the other. */
  lemma TwoBytes(d: Disk, v: Volume, o: nat, b0: Byte, b1: Byte)
    requires var s := o / SECTOR_SIZE + v.fat1; s < s + v.secperfat < |d|
    requires o % SECTOR_SIZE + 1 < SECTOR_SIZE
    ensures var s := o / SECTOR_SIZE + v.fat1;
            var p := d[s][o % SECTOR_SIZE := b0][o % SECTOR_SIZE + 1 := b1];
            PutByte(PutByte(d, v, o, b0), v, o + 1, b1) == d[s := p][s + v.secperfat := p]
  {
    NextByte(o);
  }

  function Min(a: int, b: int): int { if a < b then a else b }

  lemma PositionFacts(d: Disk, v: Volume, chain: seq<nat>, first: nat, len: nat, cluster: nat, p: nat)
    requires Positioned(d, v, chain, first, len, cluster, p)
    ensures IsChain(d, v, chain) && v.secperclus > 0 && ClusterSize(v) > 0 && p <= len <= |chain| * ClusterSize(v)
  {}

  /** The number of a position's cluster within the file fits the sixteen bits that Seek has for it. */
  predicate EndClusterFits(v: Volume, p: nat) {
    v.secperclus > 0 && p / ClusterSize(v) < 0x1_0000
  }

  lemma StartIndex(v: Volume)
    requires v.secperclus > 0
    ensures ChainIndex(v, 0 / SECTOR_SIZE) == 0
  {}

  lemma ChainStart(d: Disk, v: Volume, chain: seq<nat>)
    requires IsChain(d, v, chain)
    ensures chain != []
  {}

  lemma Between(a: nat, b: nat, c: nat, d: nat)
    requires d > 0 && a <= b <= c && a / d == c / d
    ensures b / d == a / d
  {
    Quotients(a, b, d);
    Quotients(b, c, d);
  }

  lemma Quotients(a: nat, b: nat, d: nat)
    requires d > 0 && a <= b
    ensures a / d <= b / d
  {
    DivModIdentity(a, d);
    DivModIdentity(b, d);
    if b / d < a / d { MulStep(d, b / d, a / d); }
  }

  lemma CapacityIndex(v: Volume, p: nat, n: nat)
    requires v.secperclus > 0 && p <= n * ClusterSize(v)
    ensures ClusterSize(v) > 0 && p / ClusterSize(v) <= n
  {
    InCapacity(v, p, n);
    ByteDivisions(v, p);
  }

  lemma Boundary(q: nat, d: nat)
    requires d > 0
    ensures (q * d) / d == q && (q + 1) * d == q * d + d
  {
    assert q * d == d * q + 0;
    DivModUnique(q * d, d, q, 0);
  }

  lemma EntryIsNotBad(d: Disk, v: Volume, chain: seq<nat>, q: nat)
    requires WellFormed(v, |d|) && IsChain(d, v, chain) && q < |chain|
    ensures Entry(d, v, chain[q]) != BAD_CLUSTER
  {
    LinkOf(d, v, chain, q);
    hide IsChain;
    if q + 1 < |chain| { assert IsCluster(v, chain[q + 1]); }
  }

  // ----- writing

  function Max(a: int, b: int): int { if a < b then b else a }

  /** memcpy of bytes into a sector. */
  function Patch(s: Sector, o: nat, data: seq<Byte>): Sector
    requires o + |data| <= SECTOR_SIZE
  {
    s[..o] + data + s[o + |data|..]
  }

  /** The sector holds the data at offset o; its other bytes are the old ones, unless they lie beyond the file. */
  ghost predicate Patched(s: Sector, s': Sector, o: nat, data: seq<Byte>, atEnd: bool) {
    o + |data| <= SECTOR_SIZE && (s' == Patch(s, o, data) || (o == 0 && atEnd && s'[..|data|] == data))
  }

  lemma Prefix(b: seq<Byte>, at: nat, n: nat, m: nat)
    requires n <= m && at + m <= |b|
    ensures b[at..at + m][..n] == b[at..at + n]
  {}

  lemma PatchWhole(s: Sector, data: seq<Byte>)
    requires |data| == SECTOR_SIZE
    ensures Patch(s, 0, data) == data
  {}

  /** From position p on the file holds `data`; up to its old length, its other bytes are unchanged. */
  ghost predicate Written(d: Disk, d': Disk, v: Volume, chain: seq<nat>, p: nat, data: seq<Byte>, len: nat) {
    forall k: nat {:trigger FileByte(d', v, chain, k)} :: k < |chain| * ClusterSize(v) ==>
      (p <= k < p + |data| ==> FileByte(d', v, chain, k) == data[k - p])
      && (k < len && !(p <= k < p + |data|) ==> FileByte(d', v, chain, k) == FileByte(d, v, chain, k))
  }

  lemma PatchedAt(s: Sector, s': Sector, o: nat, data: seq<Byte>, atEnd: bool, j: nat)
    requires Patched(s, s', o, data, atEnd) && j < SECTOR_SIZE
    ensures o <= j < o + |data| ==> ByteAt(s', j) == data[j - o]
    ensures !(o <= j < o + |data|) && !(o == 0 && atEnd) ==> ByteAt(s', j) == ByteAt(s, j)
  {
    if s'[..|data|] == data && j < |data| { assert s'[..|data|][j] == s'[j]; }
  }

  lemma SectorWritten(d: Disk, v: Volume, chain: seq<nat>, p: nat, data: seq<Byte>, s: Sector, len: nat)
    requires WellFormed(v, |d|) && IsChain(d, v, chain) && v.secperclus > 0 && p < |chain| * ClusterSize(v)
    requires 0 <= Home(v, chain, p / SECTOR_SIZE) < |d|
    requires Patched(d[Home(v, chain, p / SECTOR_SIZE)], s, p % SECTOR_SIZE, data, p >= len)
    ensures Written(d, d[Home(v, chain, p / SECTOR_SIZE) := s], v, chain, p, data, len)
  {
    hide Home, WellFormed, Patched, ByteAt, IsChain;
    InCapacity(v, p, |chain|);
    var g := p / SECTOR_SIZE;
    WriteHome(d, v, chain, g, s);
    var d' := d[Home(v, chain, g) := s];
    forall k: nat | k < |chain| * ClusterSize(v)
      ensures p <= k < p + |data| ==> FileByte(d', v, chain, k) == data[k - p]
      ensures k < len && !(p <= k < p + |data|) ==> FileByte(d', v, chain, k) == FileByte(d, v, chain, k)
    {
      InCapacity(v, k, |chain|);
      assert FileByte(d', v, chain, k)
             == if k / SECTOR_SIZE == g then ByteAt(s, k % SECTOR_SIZE) else FileByte(d, v, chain, k);
      PatchedWithin(d[Home(v, chain, g)], s, p % SECTOR_SIZE, data, p >= len);
      if p <= k < p + |data| { SameSector(p, k - p); }
      if k / SECTOR_SIZE == g {
        PatchedAt(d[Home(v, chain, g)], s, p % SECTOR_SIZE, data, p >= len, k % SECTOR_SIZE);
        SectorOffsets(p, k);
      }
    }
  }

  lemma PatchedWithin(s: Sector, s': Sector, o: nat, data: seq<Byte>, atEnd: bool)
    requires Patched(s, s', o, data, atEnd)
    ensures o + |data| <= SECTOR_SIZE
  {}

  lemma SectorOffsets(p: nat, k: nat)
    requires k / SECTOR_SIZE == p / SECTOR_SIZE
    ensures k - p == k % SECTOR_SIZE - p % SECTOR_SIZE
  {}

  /** The chain is the old one or the old one with one cluster more, which was free; nothing but the links changed. */
  ghost predicate Grown(d: Disk, d': Disk, v: Volume, chain: seq<nat>, chain': seq<nat>) {
    && |d'| == |d| && IsChain(d', v, chain') && chain <= chain' && |chain'| <= |chain| + 1
    && (|chain'| > |chain| ==> Entry(d, v, chain'[|chain|]) == 0)
    && (forall s: nat {:trigger d'[s]} :: s < |d| && !(v.fat1 <= s < v.fat1 + 2 * v.secperfat) ==> d'[s] == d[s])
    && (forall c: nat {:trigger Entry(d', v, c)} :: IsCluster(v, c) && c !in chain' ==>
          Entry(d', v, c) == Entry(d, v, c))
  }

  lemma GrownSame(d: Disk, v: Volume, chain: seq<nat>)
    requires IsChain(d, v, chain)
    ensures Grown(d, d, v, chain, chain)
  {}

  lemma SetEntrySize(d: Disk, v: Volume, c: nat, e: nat)
    ensures |SetEntry(d, v, c, e)| == |d|
  {}

  lemma FullChain(v: Volume, p: nat, n: nat)
    requires v.secperclus > 0 && p <= n * ClusterSize(v)
    ensures ChainIndex(v, p / SECTOR_SIZE) >= n ==> p == n * ClusterSize(v)
  {
    InCapacity(v, p, n);
  }

  lemma MoreCapacity(v: Volume, p: nat, n: nat)
    requires v.secperclus > 0 && p <= n * ClusterSize(v)
    ensures p < (n + 1) * ClusterSize(v) && n * ClusterSize(v) <= (n + 1) * ClusterSize(v)
  {
    assert (n + 1) * ClusterSize(v) == n * ClusterSize(v) + ClusterSize(v);
  }

  lemma ChainExtends(d: Disk, v: Volume, chain: seq<nat>, c: nat)
    requires WellFormed(v, |d|) && v.filesystem != FAT12 && IsChain(d, v, chain) && 2 <= c < v.numclusters
    requires Entry(d, v, c) == 0
    ensures var d1 := SetEntry(d, v, chain[|chain| - 1], c);
            Grown(d, SetEntry(d1, v, c, EndMark(v.filesystem)), v, chain, chain + [c])
  {
    hide SetEntry, Entry, WellFormed;
    var last := chain[|chain| - 1];
    var d1 := SetEntry(d, v, last, c);
    var d2 := SetEntry(d1, v, c, EndMark(v.filesystem));
    var chain' := chain + [c];
    ChainHasNoFree(d, v, chain, c);
    SetEntryIsUpdate(d, v, last, c);
    SetEntryIsUpdate(d1, v, c, EndMark(v.filesystem));
    Unmasked(v, |d|, c);
    forall i | 0 <= i < |chain'|
      ensures if i + 1 < |chain'| then Entry(d2, v, chain'[i]) == chain'[i + 1]
                else IsEnd(v.filesystem, Entry(d2, v, chain'[i]))
    {
      if i < |chain| - 1 { LinkOf(d, v, chain, i); assert chain[i] != last; }
    }
    TableSectors(d, v, last);
    TableSectors(d, v, c);
  }

  lemma TableSectors(d: Disk, v: Volume, c: nat)
    requires WellFormed(v, |d|) && v.filesystem != FAT12 && IsCluster(v, c)
    ensures v.fat1 <= SlotSector(v, c) < SlotSector(v, c) + v.secperfat < v.fat1 + 2 * v.secperfat
  {
    SlotFits(v, |d|, c);
  }

  lemma Unmasked(v: Volume, sectors: nat, c: nat)
    requires WellFormed(v, sectors) && v.filesystem != FAT12 && IsCluster(v, c)
    ensures MaskEntry(v.filesystem, c) == c && MaskEntry(v.filesystem, EndMark(v.filesystem)) == EndMark(v.filesystem)
  {
    ClusterIsNoMark(v, sectors, c);
    hide WellFormed;
  }

  /** A free cluster is on no chain. */
  lemma ChainHasNoFree(d: Disk, v: Volume, chain: seq<nat>, c: nat)
    requires IsChain(d, v, chain) && Entry(d, v, c) == 0
    ensures c !in chain
  {
    hide Entry;
    forall i | 0 <= i < |chain| ensures chain[i] != c {
      LinkOf(d, v, chain, i);
    }
  }

  /** A pointer at the old capacity is positioned at the cluster that was linked on. */
  lemma AtNewCluster(d: Disk, d': Disk, v: Volume, chain: seq<nat>, chain': seq<nat>, p: nat)
    requires Grown(d, d', v, chain, chain') && |chain'| == |chain| + 1 && v.secperclus > 0
    requires p == |chain| * ClusterSize(v) && chain != []
    ensures IsChain(d', v, chain') && chain'[0] == chain[0] && ChainIndex(v, p / SECTOR_SIZE) == |chain|
    ensures p < |chain'| * ClusterSize(v)
  {
    hide IsChain, Entry;
    InCapacity(v, p, |chain|);
    MoreCapacity(v, p, |chain|);
    assert chain'[..|chain|] == chain;
  }

  // ----- the whole write

  /** `data` spliced into `content` at position p, extending it if need be. */
  function Splice(content: seq<nat>, p: nat, data: seq<nat>): seq<nat>
    requires p <= |content|
  {
    content[..p] + data + (if p + |data| <= |content| then content[p + |data|..] else [])
  }

  /** The chain's clusters from position n on were free. */
  ghost predicate WasFree(d: Disk, v: Volume, chain: seq<nat>, n: nat) {
    forall i {:trigger chain[i]} :: n <= i < |chain| ==> Entry(d, v, chain[i]) == 0
  }

  /** A directory entry's sector: not in the table, not in the file, not in a free cluster. */
  ghost predicate DirectoryApart(d: Disk, v: Volume, chain: seq<nat>, s: nat) {
    && s < |d| && !(v.fat1 <= s < v.fat1 + 2 * v.secperfat) && v.secperclus > 0
    && (s >= v.dataarea ==>
          SectorCluster(v, s) >= 0 && SectorCluster(v, s) !in chain && Entry(d, v, SectorCluster(v, s)) != 0)
  }

  /** The state of a write after `done` bytes: those bytes are in place, the file's other bytes are the old ones,
      and nothing else has changed but the links of the clusters added. */
  ghost predicate Progress(d0: Disk, d: Disk, v: Volume, chain: seq<nat>, chain': seq<nat>, buffer: seq<Byte>, p0: nat,
                           done: nat, len: nat) {
    && done <= |buffer|
    && (forall k: nat {:trigger FileByte(d, v, chain', k)} :: k < len ==>
          FileByte(d, v, chain', k) == if p0 <= k < p0 + done then buffer[k - p0] else FileByte(d0, v, chain, k))
    && OthersKept(d0, d, v, chain', |d|) && WasFree(d0, v, chain', |chain|)
  }

  lemma NothingWritten(d: Disk, v: Volume, chain: seq<nat>, buffer: seq<Byte>, p0: nat, len: nat)
    ensures Progress(d, d, v, chain, chain, buffer, p0, 0, len)
  {}

  lemma ChunkFits(v: Volume, p: nat, n: nat, c: nat)
    requires v.secperclus > 0 && p < c * ClusterSize(v) && p % SECTOR_SIZE + n <= SECTOR_SIZE
    ensures p + n <= c * ClusterSize(v)
  {
    var m := c * v.secperclus;
    assert c * ClusterSize(v) == m * 512 by { Regroup(c, v.secperclus); }
  }

  lemma Regroup(c: nat, s: nat)
    ensures c * (s * SECTOR_SIZE) == (c * s) * SECTOR_SIZE
  {}

  /** A handle stays positioned when the disk changes without touching the chain's links, and the length grows
      within the chain. */
  lemma PositionKept(d: Disk, d': Disk, v: Volume, chain: seq<nat>, first: nat, len: nat, len': nat, cluster: nat,
                     p: nat)
    requires Positioned(d, v, chain, first, len, cluster, p) && len <= len' <= |chain| * ClusterSize(v)
    requires forall c: nat {:trigger Entry(d', v, c)} :: IsCluster(v, c) ==> Entry(d', v, c) == Entry(d, v, c)
    ensures Positioned(d', v, chain, first, len', cluster, p)
  {
    hide Entry, ChainIndex;
    forall i | 0 <= i < |chain|
      ensures if i + 1 < |chain| then Entry(d', v, chain[i]) == chain[i + 1]
                else IsEnd(v.filesystem, Entry(d', v, chain[i]))
    {
      LinkOf(d, v, chain, i);
    }
  }

  lemma PositionAfterChunk(d: Disk, d': Disk, v: Volume, chain: seq<nat>, first: nat, len: nat, len': nat,
                           cluster: nat, p: nat)
    requires WellFormed(v, |d|) && v.filesystem != FAT12 && Positioned(d, v, chain, first, len, cluster, p)
    requires p < |chain| * ClusterSize(v) && len <= len' <= |chain| * ClusterSize(v)
    requires var h := Home(v, chain, p / SECTOR_SIZE); 0 <= h < |d| == |d'| && d' == d[h := d'[h]]
    ensures Positioned(d', v, chain, first, len', cluster, p)
  {
    hide Entry, Home, WellFormed;
    InCapacity(v, p, |chain|);
    PositionFacts(d, v, chain, first, len, cluster, p);
    hide Positioned;
    WriteHome(d, v, chain, p / SECTOR_SIZE, d'[Home(v, chain, p / SECTOR_SIZE)]);
    PositionKept(d, d', v, chain, first, len, len', cluster, p);
  }

  /** Growing a chain moves none of its bytes. */
  lemma GrownBytes(d: Disk, d': Disk, v: Volume, chain: seq<nat>, chain': seq<nat>, k: nat)
    requires WellFormed(v, |d|) && IsChain(d, v, chain) && Grown(d, d', v, chain, chain')
    requires k < |chain| * ClusterSize(v)
    ensures FileByte(d', v, chain', k) == FileByte(d, v, chain, k)
  {
    hide Entry, ClusterSector, SectorCluster;
    InCapacity(v, k, |chain|);
    HomeRange(v, |d|, chain, k / SECTOR_SIZE);
    assert chain'[ChainIndex(v, k / SECTOR_SIZE)] == chain[ChainIndex(v, k / SECTOR_SIZE)];
    TwoCopies(v, |d|);
    hide WellFormed;
  }

  lemma CapacityGrows(v: Volume, a: nat, b: nat, c: nat)
    requires a <= b <= c
    ensures a * ClusterSize(v) <= b * ClusterSize(v) <= c * ClusterSize(v)
  {
    MulLe(ClusterSize(v), a, b);
    MulLe(ClusterSize(v), b, c);
    assert a * ClusterSize(v) == ClusterSize(v) * a && b * ClusterSize(v) == ClusterSize(v) * b
           && c * ClusterSize(v) == ClusterSize(v) * c;
  }

  lemma ForeignIsElsewhere(v: Volume, sectors: nat, chain: seq<nat>, g: nat, s: nat)
    requires WellFormed(v, sectors) && ChainIndex(v, g) < |chain| && IsCluster(v, chain[ChainIndex(v, g)])
    requires Foreign(v, chain, s)
    ensures s != Home(v, chain, g)
  {
    hide Home, SectorCluster;
    HomeRange(v, sectors, chain, g);
    TwoCopies(v, sectors);
  }

  /** Writing a sector of the file and growing its chain leaves everything else as it was. */
  lemma OthersStep(d0: Disk, d1: Disk, d2: Disk, d3: Disk, v: Volume, chain1: seq<nat>, chain2: seq<nat>, g: nat)
    requires WellFormed(v, |d1|) && v.filesystem != FAT12 && IsChain(d1, v, chain1) && ChainIndex(v, g) < |chain1|
    requires OthersKept(d0, d1, v, chain1, |d1|) && 0 <= Home(v, chain1, g) < |d1| == |d2|
    requires d2 == d1[Home(v, chain1, g) := d2[Home(v, chain1, g)]]
    requires Grown(d2, d3, v, chain1, chain2)
    ensures OthersKept(d0, d3, v, chain2, |d3|)
  {
    hide Entry, Home, SectorCluster;
    HomeRange(v, |d1|, chain1, g);
    WriteHome(d1, v, chain1, g, d2[Home(v, chain1, g)]);
    forall s: nat | s < |d0| && Foreign(v, chain2, s) ensures d3[s] == d0[s] {
      assert Foreign(v, chain1, s) by { forall i | 0 <= i < |chain1| ensures chain1[i] == chain2[i] {} }
      ForeignIsElsewhere(v, |d1|, chain1, g, s);
      assert d2[s] == d1[s];
    }
    forall c: nat | IsCluster(v, c) && c !in chain2 ensures Entry(d3, v, c) == Entry(d0, v, c) {
      assert c !in chain1;
      assert Entry(d2, v, c) == Entry(d1, v, c) == Entry(d0, v, c);
    }
  }

  lemma FreshStep(d0: Disk, d1: Disk, d2: Disk, d3: Disk, v: Volume, chain: seq<nat>, chain1: seq<nat>,
                  chain2: seq<nat>)
    requires OthersKept(d0, d1, v, chain1, |d1|) && WasFree(d0, v, chain1, |chain|)
    requires Grown(d2, d3, v, chain1, chain2) && IsChain(d2, v, chain1)
    requires forall c: nat {:trigger Entry(d2, v, c)} :: IsCluster(v, c) ==> Entry(d2, v, c) == Entry(d1, v, c)
    ensures WasFree(d0, v, chain2, |chain|)
  {
    hide Entry;
    forall i | |chain| <= i < |chain2| ensures Entry(d0, v, chain2[i]) == 0 {
      if i < |chain1| {
        assert chain2[i] == chain1[i];
      } else {
        assert i == |chain1| && IsCluster(v, chain2[i]);
        ChainHasNoFree(d2, v, chain1, chain2[i]);
        assert Entry(d2, v, chain2[i]) == Entry(d1, v, chain2[i]) == Entry(d0, v, chain2[i]);
      }
    }
  }

  lemma Progresses(d0: Disk, d1: Disk, d2: Disk, d3: Disk, v: Volume, chain: seq<nat>, chain1: seq<nat>,
                   chain2: seq<nat>,
                   buffer: seq<Byte>, p0: nat, done: nat, n: nat, len1: nat, len2: nat)
    requires WellFormed(v, |d1|) && v.filesystem != FAT12 && IsChain(d1, v, chain1) && v.secperclus > 0
    requires Progress(d0, d1, v, chain, chain1, buffer, p0, done, len1) && done + n <= |buffer| && p0 + done <= len1
    requires p0 + done < |chain1| * ClusterSize(v) && len2 == Max(len1, p0 + done + n) <= |chain1| * ClusterSize(v)
    requires var h := Home(v, chain1, (p0 + done) / SECTOR_SIZE); 0 <= h < |d1| == |d2| && d2 == d1[h := d2[h]]
    requires Written(d1, d2, v, chain1, p0 + done, buffer[done..done + n], len1)
    requires Grown(d2, d3, v, chain1, chain2)
    ensures Progress(d0, d3, v, chain, chain2, buffer, p0, done + n, len2)
  {
    hide Entry, Home, OthersKept, WasFree, Grown, WellFormed, FileByte, Written, IsChain, ChainIndex, ClusterSize;
    var g := (p0 + done) / SECTOR_SIZE;
    InCapacity(v, p0 + done, |chain1|);
    WriteHome(d1, v, chain1, g, d2[Home(v, chain1, g)]);
    ChainKept(d1, d2, v, chain1);
    OthersStep(d0, d1, d2, d3, v, chain1, chain2, g);
    FreshStep(d0, d1, d2, d3, v, chain, chain1, chain2);
    forall k: nat | k < len2
      ensures FileByte(d3, v, chain2, k)
              == if p0 <= k < p0 + done + n then buffer[k - p0] else FileByte(d0, v, chain, k)
    {
      ByteProgresses(d0, d1, d2, d3, v, chain, chain1, chain2, buffer, p0, done, n, len1, len2, k);
    }
  }

  lemma ByteProgresses(d0: Disk, d1: Disk, d2: Disk, d3: Disk, v: Volume, chain: seq<nat>, chain1: seq<nat>,
                       chain2: seq<nat>,
                       buffer: seq<Byte>, p0: nat, done: nat, n: nat, len1: nat, len2: nat, k: nat)
    requires WellFormed(v, |d2|) && IsChain(d2, v, chain1)
    requires Progress(d0, d1, v, chain, chain1, buffer, p0, done, len1) && done + n <= |buffer| && p0 + done <= len1
    requires k < len2 == Max(len1, p0 + done + n) <= |chain1| * ClusterSize(v)
    requires Written(d1, d2, v, chain1, p0 + done, buffer[done..done + n], len1)
    requires Grown(d2, d3, v, chain1, chain2)
    ensures FileByte(d3, v, chain2, k) == if p0 <= k < p0 + done + n then buffer[k - p0] else FileByte(d0, v, chain, k)
  {
    hide Entry, OthersKept, WasFree, Grown, WellFormed, FileByte, Written, IsChain, ClusterSize;
    GrownBytes(d2, d3, v, chain1, chain2, k);
    WrittenByte(d1, d2, v, chain1, p0 + done, buffer[done..done + n], len1, k);
    if p0 + done <= k < p0 + done + n { assert buffer[done..done + n][k - (p0 + done)] == buffer[k - p0]; }
    if k < len1 {
      assert FileByte(d1, v, chain1, k) == if p0 <= k < p0 + done then buffer[k - p0] else FileByte(d0, v, chain, k);
    }
  }

  lemma WrittenByte(d: Disk, d': Disk, v: Volume, chain: seq<nat>, p: nat, data: seq<Byte>, len: nat, k: nat)
    requires Written(d, d', v, chain, p, data, len) && k < |chain| * ClusterSize(v)
    ensures p <= k < p + |data| ==> FileByte(d', v, chain, k) == data[k - p]
    ensures k < len && !(p <= k < p + |data|) ==> FileByte(d', v, chain, k) == FileByte(d, v, chain, k)
  {
    hide FileByte;
    assert FileByte(d', v, chain, k) == FileByte(d', v, chain, k);
  }

  lemma ChainKept(d: Disk, d': Disk, v: Volume, chain: seq<nat>)
    requires IsChain(d, v, chain)
    requires forall c: nat {:trigger Entry(d', v, c)} :: IsCluster(v, c) ==> Entry(d', v, c) == Entry(d, v, c)
    ensures IsChain(d', v, chain)
  {
    hide Entry;
    forall i | 0 <= i < |chain|
      ensures if i + 1 < |chain| then Entry(d', v, chain[i]) == chain[i + 1]
                else IsEnd(v.filesystem, Entry(d', v, chain[i]))
    {
      LinkOf(d, v, chain, i);
    }
  }

  lemma SplicedContent(d0: Disk, d: Disk, v: Volume, chain: seq<nat>, chain': seq<nat>, buffer: seq<Byte>, p0: nat,
                       done: nat, len0: nat, len: nat)
    requires Progress(d0, d, v, chain, chain', buffer, p0, done, len) && p0 <= len0 && len == Max(len0, p0 + done)
    ensures FileContent(d, v, chain', len) == Splice(FileContent(d0, v, chain, len0), p0, buffer[..done])
  {
    hide FileByte, OthersKept, WasFree;
    var a, b := FileContent(d, v, chain', len), Splice(FileContent(d0, v, chain, len0), p0, buffer[..done]);
    assert |a| == |b|;
    forall k | 0 <= k < len ensures a[k] == b[k] {
      assert FileByte(d, v, chain', k) == if p0 <= k < p0 + done then buffer[k - p0] else FileByte(d0, v, chain, k);
    }
  }

  /** The bytes read are a slice of the file. */
  lemma ContentRead(d: Disk, v: Volume, chain: seq<nat>, len: nat, p: nat, n: nat, buffer: seq<Byte>, before: seq<Byte>)
    requires p + n <= len && n <= |buffer| == |before|
    requires forall i :: 0 <= i < n ==> buffer[i] == FileByte(d, v, chain, p + i)
    requires forall i :: n <= i < |buffer| ==> buffer[i] == before[i]
    ensures buffer == FileContent(d, v, chain, len)[p..p + n] + before[n..]
  {
    hide FileByte;
    var content := FileContent(d, v, chain, len);
    forall i | 0 <= i < n ensures buffer[i] == content[p..p + n][i] {}
  }

  /** A write leaves every other file alone: its chain shares no cluster with the grown chain, because the clusters
      linked on were free, and neither its links nor its bytes change. */
  lemma OtherFilesUntouched(d0: Disk, d: Disk, v: Volume, chain: seq<nat>, chain': seq<nat>, but: nat, other: seq<nat>)
    requires WellFormed(v, |d0|) && chain <= chain' && WasFree(d0, v, chain', |chain|)
    requires OthersKept(d0, d, v, chain', but)
    requires IsChain(d0, v, other)
    requires forall i :: 0 <= i < |other| ==>
               other[i] !in chain && (but >= v.dataarea ==> SectorCluster(v, but) != other[i])
    ensures IsChain(d, v, other) && forall i :: 0 <= i < |other| ==> other[i] !in chain'
    ensures forall k: nat {:trigger FileByte(d, v, other, k)} :: ChainIndex(v, k / SECTOR_SIZE) < |other| ==>
              FileByte(d, v, other, k) == FileByte(d0, v, other, k)
  {
    hide Entry, SectorCluster, FileByte;
    forall i, j | 0 <= i < |other| && 0 <= j < |chain'| ensures other[i] != chain'[j] {
      if j < |chain| { assert chain'[j] == chain[j]; } else { ChainHasNoFree(d0, v, other, chain'[j]); }
    }
    hide WasFree, IsChain, OthersKept, WellFormed;
    OtherFileKept(d0, d, v, chain', but, other);
  }

  /** The directory's cluster was not free, so it was not added to the chain. */
  lemma DirectoryStillApart(d0: Disk, d: Disk, v: Volume, chain: seq<nat>, chain': seq<nat>, s: nat)
    requires DirectoryApart(d0, v, chain, s) && chain <= chain' && WasFree(d0, v, chain', |chain|)
    requires OthersKept(d0, d, v, chain', |d|)
    ensures s < |d| && !(v.fat1 <= s < v.fat1 + 2 * v.secperfat) && d[s] == d0[s] && v.secperclus > 0
    ensures s >= v.dataarea ==> SectorCluster(v, s) !in chain'
    ensures Foreign(v, chain', s)
  {
    hide Entry, SectorCluster;
    if s >= v.dataarea {
      forall i | 0 <= i < |chain'| ensures chain'[i] != SectorCluster(v, s) {
        if i < |chain| { assert chain'[i] == chain[i]; }
      }
    }
  }

  lemma OthersWeaken(d: Disk, d': Disk, v: Volume, chain: seq<nat>, but: nat)
    requires OthersKept(d, d', v, chain, |d'|)
    ensures OthersKept(d, d', v, chain, but)
  {
    hide Entry;
  }

  /** Writing the directory's sector changes no entry and no byte of the file. */
  lemma DirectoryWrite(d0: Disk, d: Disk, v: Volume, chain: seq<nat>, s: nat, sector: Sector, len: nat)
    requires WellFormed(v, |d|) && v.filesystem != FAT12 && IsChain(d, v, chain) && s < |d|
    requires !(v.fat1 <= s < v.fat1 + 2 * v.secperfat)
    requires v.secperclus > 0 && len <= |chain| * ClusterSize(v) && (s >= v.dataarea ==> SectorCluster(v, s) !in chain)
    requires OthersKept(d0, d, v, chain, s)
    ensures var d' := d[s := sector];
            && OthersKept(d0, d', v, chain, s) && FileContent(d', v, chain, len) == FileContent(d, v, chain, len)
            && forall c: nat {:trigger Entry(d', v, c)} :: IsCluster(v, c) ==> Entry(d', v, c) == Entry(d, v, c)
  {
    hide SectorCluster, Home;
    var d' := d[s := sector];
    forall c: nat | IsCluster(v, c) ensures Entry(d', v, c) == Entry(d, v, c) { SlotFits(v, |d|, c); }
    hide Entry;
    forall k: nat | k < len ensures FileByte(d', v, chain, k) == FileByte(d, v, chain, k) {
      InCapacity(v, k, |chain|);
      HomeRange(v, |d|, chain, k / SECTOR_SIZE);
    }
    hide FileByte;
    assert FileContent(d', v, chain, len) == FileContent(d, v, chain, len);
  }

  // ----- directory entries

  const DIRENT_SIZE: nat := 32
  const DIRENTS: nat := 16
  const FILESIZE_OFFSET: nat := 28

  function DirSize(s: Sector, o: nat): nat
    requires o < DIRENTS
  {
    var at := o * DIRENT_SIZE + FILESIZE_OFFSET;
    ByteAt(s, at) + 0x100 * ByteAt(s, at + 1) + 0x1_0000 * ByteAt(s, at + 2) + 0x100_0000 * ByteAt(s, at + 3)
  }

  function DirSized(s: Sector, o: nat, len: nat): Sector
    requires o < DIRENTS && len < WORD
  {
    var at := o * DIRENT_SIZE + FILESIZE_OFFSET;
    s[at := len % 256][at + 1 := (len / 0x100) % 256][at + 2 := (len / 0x1_0000) % 256][at + 3 := len / 0x100_0000]
  }

  /** The length lies in the last four bytes of its entry of 32, low byte first. */
  lemma LengthAt(s: Sector, o: nat, len: nat)
    requires o < 16 && len < WORD
    ensures var t, at := DirSized(s, o, len), 32 * o;
            && t[at + 28] == len % 256 && t[at + 29] == len / 256 % 256 && t[at + 30] == len / 0x1_0000 % 256
            && t[at + 31] == len / 0x100_0000
            && forall i :: 0 <= i < 512 && !(at + 28 <= i < at + 32) ==> t[i] == s[i]
  {}

  lemma SameContent(d: Disk, d': Disk, v: Volume, chain: seq<nat>, len: nat)
    requires FileContent(d', v, chain, len) == FileContent(d, v, chain, len)
    ensures forall k: nat {:trigger FileByte(d', v, chain, k)} :: k < len ==>
              FileByte(d', v, chain, k) == FileByte(d, v, chain, k)
  {
    hide FileByte;
    forall k: nat | k < len ensures FileByte(d', v, chain, k) == FileByte(d, v, chain, k) {
      assert FileContent(d', v, chain, len)[k] == FileContent(d, v, chain, len)[k];
    }
  }

  lemma DirRoundTrip(s: Sector, o: nat, len: nat)
    requires o < DIRENTS && len < WORD
    ensures DirSize(DirSized(s, o, len), o) == len
  {
    SizeFromBytes(len);
  }

  // ----- unlinking

  /** A value at or above the bad-cluster mark stops the freeing loop. */
  predicate AtEnd(fs: FatType, e: nat) {
    match fs case FAT12 => e >= 0xff7 case FAT16 => e >= 0xfff7 case FAT32 => e >= 0x0fff_fff7
  }

  lemma MarkIsEnd(fs: FatType, e: nat)
    requires IsEnd(fs, e)
    ensures AtEnd(fs, e)
  {}

  /** Entries that the freeing loop runs through: distinct, each naming the next, the last one a mark that stops it. */
  ghost predicate IsRun(d: Disk, v: Volume, run: seq<nat>) {
    && run != []
    && (forall i {:trigger run[i]} :: 0 <= i < |run| ==> HasEntry(v, run[i]) && !AtEnd(v.filesystem, run[i]))
    && (forall i, j :: 0 <= i < j < |run| ==> run[i] != run[j])
    && (forall i {:trigger Entry(d, v, run[i])} :: 0 <= i < |run| ==>
          if i + 1 < |run| then Entry(d, v, run[i]) == run[i + 1] else AtEnd(v.filesystem, Entry(d, v, run[i])))
  }

  lemma RunLink(d: Disk, v: Volume, run: seq<nat>, k: nat)
    requires IsRun(d, v, run) && (k < |run| || k == 0)
    ensures |run| > 0 && k < |run| && HasEntry(v, run[k]) && !AtEnd(v.filesystem, run[k])
    ensures if k + 1 < |run| then Entry(d, v, run[k]) == run[k + 1] else AtEnd(v.filesystem, Entry(d, v, run[k]))
  {
    hide Entry;
    assert Entry(d, v, run[k]) == Entry(d, v, run[k]);
  }

  /** A file's first cluster: that of its chain, or zero for a file without one. */
  ghost predicate HasFirst(d: Disk, v: Volume, chain: seq<nat>, first: nat) {
    if chain == [] then first == 0 && AtEnd(v.filesystem, Entry(d, v, 0)) else IsChain(d, v, chain) && first == chain[0]
  }

  lemma ChainClusters(d: Disk, v: Volume, chain: seq<nat>, first: nat)
    requires HasFirst(d, v, chain, first)
    ensures forall i {:trigger chain[i]} :: 0 <= i < |chain| ==> IsCluster(v, chain[i])
  {
    hide Entry;
  }

  /** What the loop frees: the chain, or the table's first entry if there is none. */
  function RunOf(chain: seq<nat>): seq<nat> {
    if chain == [] then [0] else chain
  }

  lemma FirstIsRun(d0: Disk, d: Disk, v: Volume, chain: seq<nat>, first: nat)
    requires WellFormed(v, |d|) && HasFirst(d0, v, chain, first) && |d| == |d0|
    requires forall c: nat {:trigger Entry(d, v, c)} :: HasEntry(v, c) ==> Entry(d, v, c) == Entry(d0, v, c)
    ensures IsRun(d, v, RunOf(chain)) && first == RunOf(chain)[0]
  {
    hide Entry;
    if chain == [] {
      assert HasEntry(v, 0) && Entry(d, v, 0) == Entry(d0, v, 0);
    } else {
      ChainKept(d0, d, v, chain);
      ChainIsRun(d, v, chain);
    }
  }

  lemma ChainIsRun(d: Disk, v: Volume, chain: seq<nat>)
    requires WellFormed(v, |d|) && IsChain(d, v, chain)
    ensures IsRun(d, v, chain)
  {
    hide Entry;
    forall i | 0 <= i < |chain|
      ensures HasEntry(v, chain[i]) && !AtEnd(v.filesystem, chain[i])
      ensures if i + 1 < |chain| then Entry(d, v, chain[i]) == chain[i + 1]
                else AtEnd(v.filesystem, Entry(d, v, chain[i]))
    {
      LinkOf(d, v, chain, i);
      ClusterIsNoMark(v, |d|, chain[i]);
      if i + 1 == |chain| { MarkIsEnd(v.filesystem, Entry(d, v, chain[i])); }
    }
  }

  /** The first k entries of the run are zero; its other entries and everything outside the table are as before. */
  ghost predicate Freed(d0: Disk, d: Disk, v: Volume, run: seq<nat>, k: nat) {
    && |d| == |d0|
    && (forall i {:trigger run[i]} :: 0 <= i < |run| ==>
          Entry(d, v, run[i]) == if i < k then 0 else Entry(d0, v, run[i]))
    && (forall c: nat {:trigger Entry(d, v, c)} :: HasEntry(v, c) && c !in run ==> Entry(d, v, c) == Entry(d0, v, c))
    && (forall s: nat {:trigger d[s]} :: s < |d| && !(v.fat1 <= s < v.fat1 + 2 * v.secperfat) ==> d[s] == d0[s])
  }

  lemma FreedNothing(d: Disk, v: Volume, run: seq<nat>)
    ensures Freed(d, d, v, run, 0)
  {}

  lemma FreedEntry(d0: Disk, d: Disk, v: Volume, run: seq<nat>, k: nat)
    requires Freed(d0, d, v, run, k) && k < |run|
    ensures Entry(d, v, run[k]) == Entry(d0, v, run[k])
  {
    hide Entry;
  }

  lemma FreedOneMore(d0: Disk, d: Disk, v: Volume, run: seq<nat>, k: nat)
    requires WellFormed(v, |d|) && IsRun(d0, v, run) && Freed(d0, d, v, run, k) && k < |run|
    ensures Freed(d0, SetEntry(d, v, run[k], 0), v, run, k + 1) && |SetEntry(d, v, run[k], 0)| == |d|
  {
    hide Entry, SetEntry, WellFormed, AtEnd;
    SetEntryStores(d, v, run[k], 0);
    ZeroIsStored(v.filesystem, run[k]);
    var d' := SetEntry(d, v, run[k], 0);
    forall i | 0 <= i < |run| ensures Entry(d', v, run[i]) == if i < k + 1 then 0 else Entry(d0, v, run[i]) {
      if i != k { assert run[i] != run[k] && HasEntry(v, run[i]); }
    }
  }

  /** A run ends the loop, and is what it frees. */
  lemma {:induction false} RunEnds(d0: Disk, d: Disk, v: Volume, run: seq<nat>, k: nat)
    requires WellFormed(v, |d|) && IsRun(d0, v, run) && k < |run| && Freed(d0, d, v, run, k)
    ensures EndsIn(d, v, run[k], |run| - k) && Freed(d0, Emptied(d, v, run[k], |run| - k), v, run, |run|)
    decreases |run| - k
  {
    hide Entry, SetEntry, WellFormed, AtEnd, Freed, IsRun;
    RunLink(d0, v, run, k);
    FreedEntry(d0, d, v, run, k);
    FreedOneMore(d0, d, v, run, k);
    if k + 1 < |run| {
      RunEnds(d0, SetEntry(d, v, run[k], 0), v, run, k + 1);
    }
  }

  // ----- when the freeing loop ends

  /** The loop ends after at most n turns, and does not leave the table. */
  ghost predicate EndsIn(d: Disk, v: Volume, c: nat, n: nat)
    decreases n
  {
    AtEnd(v.filesystem, c) || (n > 0 && HasEntry(v, c) && EndsIn(SetEntry(d, v, c, 0), v, Entry(d, v, c), n - 1))
  }

  /** The disk after n turns, or when the loop has ended. */
  ghost function Emptied(d: Disk, v: Volume, c: nat, n: nat): Disk
    decreases n
  {
    if n == 0 || AtEnd(v.filesystem, c) then d else Emptied(SetEntry(d, v, c, 0), v, Entry(d, v, c), n - 1)
  }

  ghost predicate Ends(d: Disk, v: Volume, c: nat) {
    exists n :: EndsIn(d, v, c, n)
  }

  /** Within n turns the loop comes to entry 0, and finds it clear. */
  ghost predicate StuckIn(d: Disk, v: Volume, c: nat, n: nat)
    decreases n
  {
    && !AtEnd(v.filesystem, c)
    && ((c == 0 && Entry(d, v, 0) == 0)
        || (n > 0 && HasEntry(v, c) && StuckIn(SetEntry(d, v, c, 0), v, Entry(d, v, c), n - 1)))
  }

  ghost predicate GetsStuck(d: Disk, v: Volume, c: nat) {
    exists n :: StuckIn(d, v, c, n)
  }

  /** Every entry is a mark or names an entry of the table. */
  ghost predicate Closed(d: Disk, v: Volume) {
    forall x: nat {:trigger Entry(d, v, x)} :: HasEntry(v, x) ==>
      AtEnd(v.filesystem, Entry(d, v, x)) || HasEntry(v, Entry(d, v, x))
  }

  /** What one turn of the loop does to the table. */
  lemma Turn(d: Disk, v: Volume, c: nat)
    requires WellFormed(v, |d|) && HasEntry(v, c)
    ensures var d' := SetEntry(d, v, c, 0);
            |d'| == |d| && forall x: nat {:trigger Entry(d', v, x)} :: HasEntry(v, x) ==>
              Entry(d', v, x) == if x == c then 0 else Entry(d, v, x)
  {
    hide Entry, SetEntry, WellFormed;
    SetEntryStores(d, v, c, 0);
    ZeroIsStored(v.filesystem, c);
  }

  /** Once it has come to entry 0 and found it clear, the loop repeats its own state: it stays there, and no entry
      changes any more. */
  lemma {:induction false} StuckRepeats(d: Disk, v: Volume, n: nat)
    requires WellFormed(v, |d|) && Entry(d, v, 0) == 0
    ensures !EndsIn(d, v, 0, n)
    ensures forall x: nat {:trigger Entry(Emptied(d, v, 0, n), v, x)} :: HasEntry(v, x) ==>
              Entry(Emptied(d, v, 0, n), v, x) == Entry(d, v, x)
    decreases n
  {
    hide Entry, SetEntry;
    if n > 0 {
      Turn(d, v, 0);
      assert HasEntry(v, 0);
      StuckRepeats(SetEntry(d, v, 0, 0), v, n - 1);
    }
  }

  lemma {:induction false} NotBoth(d: Disk, v: Volume, c: nat, m: nat, n: nat)
    requires WellFormed(v, |d|) && StuckIn(d, v, c, n)
    ensures !EndsIn(d, v, c, m)
    decreases n
  {
    hide Entry, SetEntry, WellFormed;
    if c == 0 && Entry(d, v, 0) == 0 {
      StuckRepeats(d, v, m);
    } else if m > 0 {
      Turn(d, v, c);
      NotBoth(SetEntry(d, v, c, 0), v, Entry(d, v, c), m - 1, n - 1);
    }
  }

  /** The entries that are not clear. */
  ghost function InUse(d: Disk, v: Volume): set<nat> {
    set x: nat | x < v.numclusters + 2 && Entry(d, v, x) != 0
  }

  lemma {:induction false} EndsOrSticks(d: Disk, v: Volume, c: nat) returns (n: nat)
    requires WellFormed(v, |d|) && Closed(d, v) && (AtEnd(v.filesystem, c) || HasEntry(v, c))
    ensures EndsIn(d, v, c, n) || StuckIn(d, v, c, n)
    decreases InUse(d, v), if c == 0 then 0 else 1
  {
    hide Entry, SetEntry, WellFormed, AtEnd;
    n := 0;
    if !AtEnd(v.filesystem, c) && !(c == 0 && Entry(d, v, 0) == 0) {
      Turn(d, v, c);
      var d' := SetEntry(d, v, c, 0);
      assert HasEntry(v, 0) && HasEntry(v, c);
      assert InUse(d', v) == InUse(d, v) - {c};
      if Entry(d, v, c) != 0 { assert c in InUse(d, v); }
      var m := EndsOrSticks(d', v, Entry(d, v, c));
      n := m + 1;
    }
  }

  /** Exactly when the loop ends: unless it comes to entry 0 and finds it clear. */
  lemma EndsIff(d: Disk, v: Volume, c: nat)
    requires WellFormed(v, |d|) && Closed(d, v) && (AtEnd(v.filesystem, c) || HasEntry(v, c))
    ensures Ends(d, v, c) <==> !GetsStuck(d, v, c)
  {
    hide EndsIn, StuckIn, Closed, WellFormed, AtEnd;
    var n := EndsOrSticks(d, v, c);
    if GetsStuck(d, v, c) {
      var k: nat :| StuckIn(d, v, c, k);
      forall m: nat ensures !EndsIn(d, v, c, m) { NotBoth(d, v, c, m, k); }
    }
  }

  /** Unlinking a file without a cluster ends if entry 0 is a mark, as on a formatted volume, and not if it is clear;
      and where it ends it has cleared that entry, so that unlinking another such file does not. */
  lemma EmptyUnlinks(d: Disk, v: Volume)
    requires WellFormed(v, |d|)
    ensures Entry(d, v, 0) == 0 ==> !Ends(d, v, 0)
    ensures AtEnd(v.filesystem, Entry(d, v, 0)) ==> EndsIn(d, v, 0, 1) && !Ends(Emptied(d, v, 0, 1), v, 0)
  {
    hide Entry, SetEntry;
    assert HasEntry(v, 0);
    if Entry(d, v, 0) == 0 {
      forall m: nat ensures !EndsIn(d, v, 0, m) { StuckRepeats(d, v, m); }
    }
    if AtEnd(v.filesystem, Entry(d, v, 0)) {
      Turn(d, v, 0);
      var d' := SetEntry(d, v, 0, 0);
      assert Emptied(d, v, 0, 1) == Emptied(d', v, Entry(d, v, 0), 0) == d';
      forall m: nat ensures !EndsIn(d', v, 0, m) { StuckRepeats(d', v, m); }
    }
  }

  lemma DirectoryBounds(d: Disk, v: Volume, chain: seq<nat>, s: nat)
    requires DirectoryApart(d, v, chain, s)
    ensures s < |d|
  {}

  lemma EntriesKept(d: Disk, v: Volume, chain: seq<nat>, s: nat, sector: Sector)
    requires WellFormed(v, |d|) && DirectoryApart(d, v, chain, s)
    ensures s < |d|
    ensures forall c: nat {:trigger Entry(d[s := sector], v, c)} :: HasEntry(v, c) ==>
              Entry(d[s := sector], v, c) == Entry(d, v, c)
  {
    hide Entry;
    var d' := d[s := sector];
    forall c: nat | HasEntry(v, c) ensures Entry(d', v, c) == Entry(d, v, c) { EntryInTable(d, d', v, c); }
  }

  lemma NothingFreed(d0: Disk, d1: Disk, v: Volume, chain: seq<nat>, s: nat)
    requires s < |d0| == |d1| && d1 == d0[s := d1[s]]
    requires forall c: nat {:trigger Entry(d1, v, c)} :: HasEntry(v, c) ==> Entry(d1, v, c) == Entry(d0, v, c)
    ensures OthersKept(d0, d1, v, chain, s) && Entry(d1, v, 0) == Entry(d0, v, 0)
  {
    hide Entry;
    assert HasEntry(v, 0);
  }

  lemma FreedOthers(d0: Disk, d1: Disk, d: Disk, v: Volume, chain: seq<nat>, s: nat)
    requires WellFormed(v, |d1|) && OthersKept(d0, d1, v, chain, s) && DirectoryApart(d0, v, chain, s)
    requires Freed(d1, d, v, RunOf(chain), |RunOf(chain)|)
    requires forall i {:trigger chain[i]} :: 0 <= i < |chain| ==> IsCluster(v, chain[i])
    ensures OthersKept(d0, d, v, chain, s) && s < |d| && d[s] == d1[s]
    ensures forall i {:trigger chain[i]} :: 0 <= i < |chain| ==> Entry(d, v, chain[i]) == 0
    ensures Entry(d, v, 0) == if chain == [] then 0 else Entry(d1, v, 0)
  {
    hide Entry, SectorCluster;
    TwoCopies(v, |d1|);
    assert HasEntry(v, 0);
    if chain == [] { assert RunOf(chain)[0] == 0; }
  }
}
