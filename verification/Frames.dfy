/** Physical frames (kernel/frame.c): zones of memory, each with a bitmap of the frames in use. */
module Frames {
  import opened Words
  import opened Bitmap

  const PAGE_SIZE: nat := 4096
  const ZONES: nat := 8

  /** An entry of pmzone[]; those past the last zone have limit zero and no bitmap. */
  datatype Zone = Zone(base: nat, limit: nat, bitmap: BitSet?)

  /** n frames from number idx of zone z on, handed out and not yet freed. */
  datatype Run = Run(z: nat, idx: nat, n: nat)

  predicate Apart(a: Run, b: Run) {
    a.z != b.z || a.n == 0 || b.n == 0 || a.idx + a.n <= b.idx || b.idx + b.n <= a.idx
  }

  predicate Covers(r: Run, z: nat, b: nat) {
    r.z == z && r.idx <= b < r.idx + r.n
  }

  /** No two outstanding runs share a frame of a zone; whether frames of different zones can be the same memory is
      the subject of MemoryApartIff. */
  ghost predicate AllApart(runs: seq<Run>) {
    forall i, j {:trigger runs[i], runs[j]} :: 0 <= i < j < |runs| ==> Apart(runs[i], runs[j])
  }

  ghost predicate Covered(runs: seq<Run>, z: nat, b: nat) {
    exists i :: 0 <= i < |runs| && Covers(runs[i], z, b)
  }

  /** In zone z exactly the frames of outstanding runs are marked. */
  ghost predicate Marked(runs: seq<Run>, z: nat, s: seq<bool>) {
    && (forall i {:trigger runs[i]} :: 0 <= i < |runs| && runs[i].z == z ==> AllAre(s, runs[i].idx, runs[i].n, true))
    && (forall b {:trigger s[b]} :: 0 <= b < |s| && s[b] ==> Covered(runs, z, b))
  }

  /** A run of marked frames and a run of clear ones have none in common. */
  lemma ClearApart(s: seq<bool>, a: Run, r: Run)
    requires AllAre(s, a.idx, a.n, true) && AllAre(s, r.idx, r.n, false)
    ensures Apart(a, r)
  {
    var b := if a.idx < r.idx then r.idx else a.idx;
    assert b < a.idx + a.n ==> s[b];
    assert b < r.idx + r.n ==> !s[b];
  }

  /** Is there no run of n clear frames? */
  ghost predicate NoRun(s: seq<bool>, n: nat) {
    forall i :: 0 <= i ==> !AllAre(s, i, n, false)
  }

  /** The first run of n clear frames. */
  ghost predicate FirstRun(s: seq<bool>, idx: nat, n: nat) {
    AllAre(s, idx, n, false) && forall i :: 0 <= i < idx ==> !AllAre(s, i, n, false)
  }

  /** Handing out a run of clear frames. */
  lemma HandOut(runs: seq<Run>, z: nat, s: seq<bool>, r: Run)
    requires AllApart(runs) && Marked(runs, z, s) && r.z == z && AllAre(s, r.idx, r.n, false)
    ensures AllApart(runs + [r]) && Marked(runs + [r], z, Filled(s, r.idx, r.n, true))
  {
    var t, rs := Filled(s, r.idx, r.n, true), runs + [r];
    forall i | 0 <= i < |runs| ensures Apart(runs[i], r) {
      if runs[i].z == z { ClearApart(s, runs[i], r); }
    }
    forall b | 0 <= b < |t| && t[b] ensures Covered(rs, z, b) {
      if r.idx <= b < r.idx + r.n {
        assert Covers(rs[|runs|], z, b);
      } else {
        assert s[b];
        var i :| 0 <= i < |runs| && Covers(runs[i], z, b);
        assert Covers(rs[i], z, b);
      }
    }
  }

  lemma OtherZone(runs: seq<Run>, z: nat, s: seq<bool>, r: Run)
    requires Marked(runs, z, s) && r.z != z
    ensures Marked(runs + [r], z, s)
  {
    forall b | 0 <= b < |s| && s[b] ensures Covered(runs + [r], z, b) {
      var i :| 0 <= i < |runs| && Covers(runs[i], z, b);
      assert Covers((runs + [r])[i], z, b);
    }
  }

  function Dropped(runs: seq<Run>, k: nat): seq<Run>
    requires k < |runs|
  {
    runs[..k] + runs[k + 1..]
  }

  lemma DroppedAt(runs: seq<Run>, k: nat, i: nat)
    requires k < |runs| && i < |runs| - 1
    ensures Dropped(runs, k)[i] == runs[if i < k then i else i + 1]
  {}

  /** Taking back an outstanding run. */
  lemma TakeBack(runs: seq<Run>, z: nat, s: seq<bool>, k: nat)
    requires AllApart(runs) && Marked(runs, z, s) && k < |runs| && runs[k].z == z
    ensures Marked(Dropped(runs, k), z, Filled(s, runs[k].idx, runs[k].n, false))
  {
    var t, rs, r := Filled(s, runs[k].idx, runs[k].n, false), Dropped(runs, k), runs[k];
    forall i | 0 <= i < |rs| && rs[i].z == z ensures AllAre(t, rs[i].idx, rs[i].n, true) {
      DroppedAt(runs, k, i);
      var j := if i < k then i else i + 1;
      assert Apart(runs[if j < k then j else k], runs[if j < k then k else j]);
    }
    forall b | 0 <= b < |t| && t[b] ensures Covered(rs, z, b) {
      assert s[b];
      var j :| 0 <= j < |runs| && Covers(runs[j], z, b);
      assert j != k;
      var i := if j < k then j else j - 1;
      DroppedAt(runs, k, i);
      assert Covers(rs[i], z, b);
    }
  }

  lemma TakeBackElsewhere(runs: seq<Run>, z: nat, s: seq<bool>, k: nat)
    requires AllApart(runs) && Marked(runs, z, s) && k < |runs| && runs[k].z != z
    ensures Marked(Dropped(runs, k), z, s)
  {
    var rs := Dropped(runs, k);
    forall i | 0 <= i < |rs| && rs[i].z == z ensures AllAre(s, rs[i].idx, rs[i].n, true) {
      DroppedAt(runs, k, i);
    }
    forall b | 0 <= b < |s| && s[b] ensures Covered(rs, z, b) {
      var j :| 0 <= j < |runs| && Covers(runs[j], z, b);
      var i := if j < k then j else j - 1;
      DroppedAt(runs, k, i);
      assert Covers(rs[i], z, b);
    }
  }

  lemma DroppedApart(runs: seq<Run>, k: nat)
    requires AllApart(runs) && k < |runs|
    ensures AllApart(Dropped(runs, k))
  {
    var rs := Dropped(runs, k);
    forall i, j | 0 <= i < j < |rs| ensures Apart(rs[i], rs[j]) {
      DroppedAt(runs, k, i);
      DroppedAt(runs, k, j);
    }
  }

  // ----- runs as memory

  /** The memory that the bits of a zone's bitmap stand for. */
  datatype Span = Span(base: nat, frames: nat)

  function SpanEnd(s: Span): nat { s.base + s.frames * PAGE_SIZE }

  predicate InSpan(spans: seq<Span>, r: Run) {
    r.z < |spans| && r.idx + r.n <= spans[r.z].frames
  }

  function RunStart(spans: seq<Span>, r: Run): nat
    requires r.z < |spans|
  {
    spans[r.z].base + r.idx * PAGE_SIZE
  }

  function RunEnd(spans: seq<Span>, r: Run): nat
    requires r.z < |spans|
  {
    spans[r.z].base + (r.idx + r.n) * PAGE_SIZE
  }

  /** Do two runs have an address in common? */
  predicate SharesMemory(spans: seq<Span>, a: Run, b: Run)
    requires a.z < |spans| && b.z < |spans|
  {
    a.n > 0 && b.n > 0 && RunStart(spans, a) < RunEnd(spans, b) && RunStart(spans, b) < RunEnd(spans, a)
  }

  predicate TwoApart(s: Span, t: Span) {
    s.frames == 0 || t.frames == 0 || SpanEnd(s) <= t.base || SpanEnd(t) <= s.base
  }

  ghost predicate SpansApart(spans: seq<Span>) {
    forall y, z {:trigger spans[y], spans[z]} :: 0 <= y < z < |spans| ==> TwoApart(spans[y], spans[z])
  }

  lemma RunApart(spans: seq<Span>, a: Run, b: Run)
    requires SpansApart(spans) && InSpan(spans, a) && InSpan(spans, b) && Apart(a, b)
    ensures !SharesMemory(spans, a, b)
  {
    if a.z != b.z {
      var y, z := if a.z < b.z then a.z else b.z, if a.z < b.z then b.z else a.z;
      assert TwoApart(spans[y], spans[z]);
    }
  }

  /** Runs that do not overlap in the bitmaps have no memory in common, exactly if the bitmaps of different zones
      stand for disjoint memory. */
  lemma MemoryApartIff(spans: seq<Span>)
    ensures SpansApart(spans)
            <==> forall a, b {:trigger SharesMemory(spans, a, b)} ::
                   InSpan(spans, a) && InSpan(spans, b) && Apart(a, b) ==> !SharesMemory(spans, a, b)
  {
    if SpansApart(spans) {
      forall a, b | InSpan(spans, a) && InSpan(spans, b) && Apart(a, b) ensures !SharesMemory(spans, a, b) {
        RunApart(spans, a, b);
      }
    } else {
      var y, z :| 0 <= y < z < |spans| && !TwoApart(spans[y], spans[z]);
      assert SharesMemory(spans, Run(y, 0, spans[y].frames), Run(z, 0, spans[z].frames));
    }
  }

  // ----- the zones that init_frame makes

  const BITMAP_HEADER: nat := 8
  const ELEM_BYTES: nat := 4

  function RoundUp(x: nat): nat { (x + PAGE_SIZE - 1) / PAGE_SIZE * PAGE_SIZE }

  /** The pages that init_frame sets aside for the bitmap of a range of memory, in bytes. */
  function BitmapBytes(start: nat, end: nat): nat
    requires start <= end
  {
    RoundUp(BITMAP_HEADER + ELEM_BYTES * ElemCnt((end - start) / PAGE_SIZE))
  }

  /** Its size: whole pages, the fewest that hold eight bytes and, for each 32 frames of the range, one word. */
  lemma BitmapSize(start: nat, end: nat)
    requires start <= end
    ensures var bytes, words := BitmapBytes(start, end), ((end - start) / 4096 + 31) / 32;
            bytes % 4096 == 0 && 8 + 4 * words <= bytes < 8 + 4 * words + 4096
  {}

  /** What the bits of that bitmap stand for: their number is that of all frames of the range, but the first of them
      stands for the first frame behind the bitmap's own pages. */
  function InitSpan(start: nat, end: nat): Span
    requires start <= end
  {
    Span(start + BitmapBytes(start, end), (end - start) / PAGE_SIZE)
  }

  /** The last frames of a zone lie outside its range of memory, as many as the bitmap has pages. */
  lemma SpanOverruns(start: nat, end: nat)
    requires start <= end && start % PAGE_SIZE == 0 && end % PAGE_SIZE == 0
    ensures SpanEnd(InitSpan(start, end)) == end + BitmapBytes(start, end) > end
  {
    var count := (end - start) / PAGE_SIZE;
    assert end - start == count * PAGE_SIZE;
  }

  /** Two ranges, one after the other, become zones without memory in common exactly if the gap between them and the
      second bitmap are together no smaller than the first bitmap. */
  lemma InitApartIff(start: nat, end: nat, start': nat, end': nat)
    requires start < end <= start' < end'
    requires start % PAGE_SIZE == 0 && end % PAGE_SIZE == 0 && start' % PAGE_SIZE == 0 && end' % PAGE_SIZE == 0
    ensures SpansApart([InitSpan(start, end), InitSpan(start', end')])
            <==> BitmapBytes(start, end) <= (start' - end) + BitmapBytes(start', end')
  {
    SpanOverruns(start, end);
    SpanOverruns(start', end');
    var spans := [InitSpan(start, end), InitSpan(start', end')];
    assert spans[0].frames > 0 && spans[1].frames > 0;
    hide BitmapBytes;
    assert SpansApart(spans) <==> TwoApart(spans[0], spans[1]);
  }

  /** 256 megabytes of memory and then 16 more: a frame of the first zone is the first of the second. */
  lemma SameFrameTwice() returns (spans: seq<Span>, a: Run, b: Run)
    ensures spans == [InitSpan(0x10_0000, 0x1010_0000), InitSpan(0x1010_0000, 0x1110_0000)]
    ensures InSpan(spans, a) && InSpan(spans, b) && Apart(a, b) && a.n == b.n == 1
    ensures RunStart(spans, a) == RunStart(spans, b) && SharesMemory(spans, a, b)
  {
    spans := [InitSpan(0x10_0000, 0x1010_0000), InitSpan(0x1010_0000, 0x1110_0000)];
    assert ElemCnt(0x1_0000) == 0x800 && ElemCnt(0x1000) == 0x80;
    a, b := Run(0, 0xfffe, 1), Run(1, 0, 1);
  }

  // ----- finding the zone of an address

  /** Does an address lie in a zone? */
  predicate InZone(zones: seq<Zone>, z: nat, pa: nat) {
    z < |zones| && zones[z].base <= pa < zones[z].base + zones[z].limit
  }

  function FrameNumber(zones: seq<Zone>, z: nat, pa: nat): nat
    requires InZone(zones, z, pa)
  {
    (pa - zones[z].base) / PAGE_SIZE
  }

  /** The search of frame_free, from zone z on; |zones| if it finds none. */
  function FindZone(zones: seq<Zone>, z: nat, pa: nat): (j: nat)
    requires z <= |zones|
    ensures z <= j <= |zones| && (j < |zones| ==> InZone(zones, j, pa))
    decreases |zones| - z
  {
    if z == |zones| || zones[z].limit == 0 then |zones|
    else if InZone(zones, z, pa) then z
    else FindZone(zones, z + 1, pa)
  }

  /** What frame_free makes of the bitmap of zone y. */
  function Freed(zones: seq<Zone>, y: nat, s: seq<bool>, pa: nat, n: nat): seq<bool> {
    var z := FindZone(zones, 0, pa);
    if z < |zones| && y == z then Filled(s, FrameNumber(zones, z, pa), n, false) else s
  }

  /** The first `used` zones are not empty, whole pages and disjoint. */
  ghost predicate Ranges(zones: seq<Zone>, used: nat) {
    && used <= |zones| == ZONES
    && (forall z {:trigger zones[z]} :: 0 <= z < used ==>
          zones[z].limit > 0 && zones[z].base % PAGE_SIZE == 0 && zones[z].base + zones[z].limit <= WORD)
    && (forall z {:trigger zones[z]} :: used <= z < ZONES ==> zones[z].limit == 0)
    && (forall y, z {:trigger zones[y], zones[z]} :: 0 <= y < z < used ==>
          zones[y].base + zones[y].limit <= zones[z].base || zones[z].base + zones[z].limit <= zones[y].base)
  }

  /** An address lies in one zone at most. */
  lemma OneZone(zones: seq<Zone>, used: nat, y: nat, z: nat, pa: nat)
    requires Ranges(zones, used) && InZone(zones, y, pa) && InZone(zones, z, pa)
    ensures y == z && z < used
  {}

  /** The search finds the zone that an address lies in. */
  lemma {:induction false} Finds(zones: seq<Zone>, used: nat, i: nat, z: nat, pa: nat)
    requires Ranges(zones, used) && i <= z && InZone(zones, z, pa)
    ensures FindZone(zones, i, pa) == z
    decreases z - i
  {
    OneZone(zones, used, z, z, pa);
    if InZone(zones, i, pa) {
      OneZone(zones, used, i, z, pa);
    } else {
      Finds(zones, used, i + 1, z, pa);
    }
  }

  function Start(zones: seq<Zone>, r: Run): nat
    requires r.z < |zones|
  {
    zones[r.z].base + r.idx * PAGE_SIZE
  }

  /** Is the run the one that is freed, and does it start below its zone's limit? */
  predicate Findable(zones: seq<Zone>, r: Run, pa: nat, n: nat) {
    r.z < |zones| && pa == Start(zones, r) && n == r.n && r.idx * PAGE_SIZE < zones[r.z].limit
  }

  lemma StartFound(zones: seq<Zone>, used: nat, r: Run)
    requires Ranges(zones, used) && r.z < used && r.idx * PAGE_SIZE < zones[r.z].limit
    ensures InZone(zones, r.z, Start(zones, r)) && FrameNumber(zones, r.z, Start(zones, r)) == r.idx
    ensures FindZone(zones, 0, Start(zones, r)) == r.z
  {
    Finds(zones, used, 0, r.z, Start(zones, r));
  }

  /** Freeing a run by its address clears exactly its frames, exactly if it starts below its zone's limit; otherwise
      its frames stay marked, and what is cleared, if anything, lies in another zone. */
  lemma FreedRightIff(zones: seq<Zone>, used: nat, bits: seq<seq<bool>>, r: Run)
    requires Ranges(zones, used) && |bits| == used && r.z < used && r.n > 0
    requires AllAre(bits[r.z], r.idx, r.n, true)
    ensures (forall y {:trigger bits[y]} :: 0 <= y < used ==>
               Freed(zones, y, bits[y], Start(zones, r), r.n)
               == if y == r.z then Filled(bits[y], r.idx, r.n, false) else bits[y])
            <==> r.idx * PAGE_SIZE < zones[r.z].limit
    ensures r.idx * PAGE_SIZE >= zones[r.z].limit ==>
              Freed(zones, r.z, bits[r.z], Start(zones, r), r.n) == bits[r.z]
  {
    if r.idx * PAGE_SIZE < zones[r.z].limit {
      StartFound(zones, used, r);
    } else {
      var s := bits[r.z];
      assert !InZone(zones, r.z, Start(zones, r));
      assert s[r.idx] && !Filled(s, r.idx, r.n, false)[r.idx];
    }
  }

  /** A zone as init_frame makes it of a range of memory, but for its bitmap. */
  function InitZone(start: nat, end: nat): Zone
    requires start <= end && start + BitmapBytes(start, end) <= end
  {
    Zone(start + BitmapBytes(start, end), end - start - BitmapBytes(start, end), null)
  }

  const NO_ZONE: Zone := Zone(0, 0, null)

  /** Every zone has frames that are not found when they are freed: its last ones, as many as its bitmap has pages. */
  lemma NotFound(start: nat, end: nat, idx: nat)
    requires start % PAGE_SIZE == 0 && end % PAGE_SIZE == 0
    requires start <= end && start + BitmapBytes(start, end) <= end
    ensures 0 < BitmapBytes(start, end) / PAGE_SIZE <= InitSpan(start, end).frames
    ensures idx * PAGE_SIZE >= InitZone(start, end).limit
            <==> idx >= InitSpan(start, end).frames - BitmapBytes(start, end) / PAGE_SIZE
  {
    SpanOverruns(start, end);
    var m := BitmapBytes(start, end) / PAGE_SIZE;
    assert BitmapBytes(start, end) == m * PAGE_SIZE;
  }

  /** The one zone of a machine with 16 megabytes: its last frame stays marked when it is freed. */
  lemma LostFrame() returns (zones: seq<Zone>, r: Run)
    ensures zones == [InitZone(0x10_0000, 0x110_0000)] + seq(ZONES - 1, _ => NO_ZONE) && Ranges(zones, 1)
    ensures InSpan([InitSpan(0x10_0000, 0x110_0000)], r) && r == Run(0, 4095, 1) && |zones| == 8
    ensures forall s :: Freed(zones, 0, s, Start(zones, r), 1) == s
  {
    assert ElemCnt(0x1000) == 0x80;
    zones := [InitZone(0x10_0000, 0x110_0000)] + seq(ZONES - 1, _ => NO_ZONE);
    r := Run(0, 4095, 1);
    assert zones[0] == Zone(0x10_1000, 0xff_f000, null) && zones[1].limit == 0;
    assert FindZone(zones, 1, Start(zones, r)) == |zones|;
  }

  /** On the memory of SameFrameTwice, freeing frame 0xfffe of the first zone clears frame 0 of the second. */
  lemma OtherZoneCleared() returns (zones: seq<Zone>, r: Run)
    ensures zones == TwoRanges() && Ranges(zones, 2) && r == Run(0, 0xfffe, 1)
    ensures forall s :: Freed(zones, 0, s, Start(zones, r), 1) == s
    ensures forall s :: Freed(zones, 1, s, Start(zones, r), 1) == Filled(s, 0, 1, false)
  {
    zones, r := TwoRanges(), Run(0, 0xfffe, 1);
    TwoRangesAre();
    assert Start(zones, r) == 0x1010_1000;
    Finds(zones, 2, 0, 1, 0x1010_1000);
  }

  function TwoRanges(): seq<Zone> {
    [InitZone(0x10_0000, 0x1010_0000), InitZone(0x1010_0000, 0x1110_0000)] + seq(ZONES - 2, _ => NO_ZONE)
  }

  lemma TwoRangesAre()
    ensures TwoRanges()[0] == Zone(0x10_3000, 0xfff_d000, null) && TwoRanges()[1] == Zone(0x1010_1000, 0xff_f000, null)
    ensures Ranges(TwoRanges(), 2)
  {
    assert ElemCnt(0x1_0000) == 0x800 && ElemCnt(0x1000) == 0x80;
  }

  class FrameAllocator {
    const zones: seq<Zone>
    ghost const used: nat
    ghost var runs: seq<Run>

    ghost function Repr(): set<object> {
      (set z | z in zones && z.bitmap != null :: z.bitmap as object)
      + (set z | z in zones && z.bitmap != null :: z.bitmap.bits as object)
    }

    /** The first `used` zones are disjoint whole pages, each with a bitmap of its own that has a bit for every frame
        (it may have more). */
    ghost predicate ZonesOk()
      reads Repr()
    {
      Ranges(zones, used) && BitmapsOk()
    }

    ghost predicate BitmapsOk()
      reads Repr()
    {
      && used <= |zones|
      && (forall z {:trigger zones[z]} :: 0 <= z < used ==>
            && zones[z].bitmap != null && zones[z].bitmap.Valid()
            && zones[z].limit <= zones[z].bitmap.bitCnt * PAGE_SIZE
            && zones[z].base + zones[z].bitmap.bitCnt * PAGE_SIZE < WORD)
      && (forall y, z {:trigger zones[y], zones[z]} :: 0 <= y < z < used ==>
            && zones[y].bitmap != zones[z].bitmap && zones[y].bitmap != null && zones[z].bitmap != null
            && zones[y].bitmap.bits != zones[z].bitmap.bits)
    }

    lemma HasShape()
      requires Valid()
      ensures ZonesOk()
    {}

    ghost function Contents(z: nat): seq<bool>
      reads Repr()
    {
      if z < |zones| && zones[z].bitmap != null then zones[z].bitmap.Contents() else []
    }

    ghost predicate Valid()
      reads this, Repr()
    {
      && ZonesOk() && AllApart(runs)
      && (forall z {:trigger Contents(z)} :: 0 <= z < used ==> Marked(runs, z, Contents(z)))
      && (forall i {:trigger runs[i]} :: 0 <= i < |runs| ==> runs[i].z < used)
    }

    function Address(z: nat, idx: nat): nat
      requires z < |zones|
    {
      zones[z].base + idx * PAGE_SIZE
    }

    /** The zones as init_frame leaves them, with every frame clear. */
    constructor (zones: seq<Zone>, ghost used: nat)
      requires Ranges(zones, used)
      requires forall z {:trigger zones[z]} :: 0 <= z < used ==>
                 && zones[z].bitmap != null && zones[z].bitmap.Valid()
                 && zones[z].limit <= zones[z].bitmap.bitCnt * PAGE_SIZE
                 && zones[z].base + zones[z].bitmap.bitCnt * PAGE_SIZE < WORD
                 && zones[z].bitmap.Contents() == seq(zones[z].bitmap.bitCnt, _ => false)
      requires forall y, z {:trigger zones[y], zones[z]} :: 0 <= y < z < used ==>
                 && zones[y].bitmap != zones[z].bitmap && zones[y].bitmap != null && zones[z].bitmap != null
                 && zones[y].bitmap.bits != zones[z].bitmap.bits
      ensures Valid() && runs == [] && this.zones == zones && this.used == used
    {
      hide Unpack, AllAre, Marked;
      this.zones, this.used := zones, used;
      runs := [];
      new;
      forall z | 0 <= z < used ensures Marked(runs, z, Contents(z)) {
        assert Contents(z) == seq(zones[z].bitmap.bitCnt, _ => false);
        NoneMarked(z, Contents(z));
      }
    }

    /** frame_alloc_in_addr: take the frames from address pa on, if all of them are clear. */
    method FrameAllocInAddr(pa: nat, nframes: nat) returns (r: nat)
      requires ZonesOk() && pa < BITMAP_ERROR
      requires forall z {:trigger InZone(zones, z, pa)} :: 0 <= z < used && InZone(zones, z, pa) ==>
                 FrameNumber(zones, z, pa) + nframes <= |Contents(z)|
      modifies this, Repr()
      ensures ZonesOk() && (old(Valid()) ==> Valid()) && (r == pa || r == 0xffff_ffff)
      ensures r == pa
              <==> exists z ::
                     0 <= z < used && InZone(zones, z, pa)
                     && AllAre(old(Contents(z)), FrameNumber(zones, z, pa), nframes, false)
      ensures r == 0xffff_ffff ==> runs == old(runs) && forall y :: 0 <= y < used ==> Contents(y) == old(Contents(y))
      ensures r == pa ==>
                exists z ::
                  0 <= z < used && InZone(zones, z, pa)
                  && runs == old(runs) + [Run(z, FrameNumber(zones, z, pa), nframes)]
    {
      hide Marked, AllApart, AllAre, Filled, Unpack;
      var found, k := FindClear(pa, nframes);
      assert forall y :: 0 <= y < used ==> Contents(y) == old(Contents(y));
      if !found { return BITMAP_ERROR; }
      Take(k, FrameNumber(zones, k, pa), nframes);
      r := pa;
    }

    /** The loop of frame_alloc_in_addr. */
    method FindClear(pa: nat, nframes: nat) returns (found: bool, z: nat)
      requires ZonesOk()
      requires forall z {:trigger InZone(zones, z, pa)} :: 0 <= z < used && InZone(zones, z, pa) ==>
                 FrameNumber(zones, z, pa) + nframes <= |Contents(z)|
      ensures found ==>
                z < used && InZone(zones, z, pa) && AllAre(old(Contents(z)), FrameNumber(zones, z, pa), nframes, false)
      ensures !found ==>
                forall y {:trigger InZone(zones, y, pa)} :: 0 <= y < used && InZone(zones, y, pa) ==>
                  !AllAre(old(Contents(y)), FrameNumber(zones, y, pa), nframes, false)
    {
      hide Marked, AllApart, AllAre, Unpack;
      z := 0;
      while z < ZONES
        invariant 0 <= z <= ZONES
        invariant forall y {:trigger InZone(zones, y, pa)} :: 0 <= y < z && y < used && InZone(zones, y, pa) ==>
                    !AllAre(old(Contents(y)), FrameNumber(zones, y, pa), nframes, false)
      {
        if InZone(zones, z, pa) {
          OneZone(zones, used, z, z, pa);
          assert Contents(z) == old(Contents(z));
          SizeOf(z);
          // bitmap_none
          var any := zones[z].bitmap.Contains(FrameNumber(zones, z, pa), nframes, true);
          assert zones[z].bitmap.Contents() == old(Contents(z));
          if !any { return true, z; }
        }
        z := z + 1;
      }
      found := false;
    }

    lemma SizeOf(z: nat)
      requires ZonesOk() && z < used
      ensures z < |zones| && zones[z].bitmap != null && |Contents(z)| == zones[z].bitmap.bitCnt
    {}

    /** frame_free: give back the run that starts at an address.  k names the outstanding run that is meant, if there is
        one.  It is given back if it starts below its zone's limit; otherwise it stays marked, and the account
        stays valid only if no frame of another zone is cleared in its place. */
    method FrameFree(paddr: nat, nframes: nat, ghost k: nat)
      requires ZonesOk()
      modifies this, Repr()
      ensures ZonesOk()
      ensures forall y :: 0 <= y < used ==> Contents(y) == Freed(zones, y, old(Contents(y)), paddr, nframes)
      ensures k < |old(runs)| && Findable(zones, old(runs)[k], paddr, nframes) ==>
                runs == Dropped(old(runs), k) && (old(Valid()) ==> Valid())
      ensures !(k < |old(runs)| && Findable(zones, old(runs)[k], paddr, nframes)) ==>
                && runs == old(runs)
                && (old(Valid()) ==> (Valid() <==> forall y :: 0 <= y < used ==> Contents(y) == old(Contents(y))))
    {
      hide Marked, AllApart, AllAre, Filled, Unpack, Dropped, BitmapsOk;
      var z := 0;
      while z < ZONES && zones[z].limit != 0 && !InZone(zones, z, paddr)
        invariant 0 <= z <= ZONES && FindZone(zones, 0, paddr) == FindZone(zones, z, paddr)
      {
        z := z + 1;
      }
      if z < ZONES && zones[z].limit != 0 {
        OneZone(zones, used, z, z, paddr);
        Clear(z, FrameNumber(zones, z, paddr), nframes, k, paddr);
      } else {
        NoneFound(zones, used, runs, k, paddr, nframes);
        assert forall y :: 0 <= y < used ==> Contents(y) == old(Contents(y));
      }
    }

    /** Clear frames, as far as the zone's bitmap goes. */
    method Clear(z: nat, idx: nat, n: nat, ghost k: nat, ghost paddr: nat)
      requires ZonesOk() && z < used && InZone(zones, z, paddr) && idx == FrameNumber(zones, z, paddr)
      modifies this, Repr()
      ensures ZonesOk()
      ensures forall y :: 0 <= y < used ==>
                Contents(y) == if y == z then Filled(old(Contents(y)), idx, n, false) else old(Contents(y))
      ensures k < |old(runs)| && Findable(zones, old(runs)[k], paddr, n) ==>
                runs == Dropped(old(runs), k) && (old(Valid()) ==> Valid())
      ensures !(k < |old(runs)| && Findable(zones, old(runs)[k], paddr, n)) ==>
                && runs == old(runs)
                && (old(Valid()) ==> (Valid() <==> forall y :: 0 <= y < used ==> Contents(y) == old(Contents(y))))
    {
      hide Marked, AllApart, AllAre, Filled, Unpack, Dropped, Ranges;
      ghost var rs, s, valid := runs, Contents(z), Valid();
      SizeOf(z);
      NumberBelow(zones, z, paddr, zones[z].bitmap.bitCnt);
      FilledClipped(s, idx, n, false);
      zones[z].bitmap.SetMultiple(idx,
                                  if idx + n <= zones[z].bitmap.bitCnt then n else zones[z].bitmap.bitCnt - idx, false);
      assert forall y :: 0 <= y < used ==> Contents(y) == if y == z then Filled(s, idx, n, false) else old(Contents(y));
      if k < |rs| && Findable(zones, rs[k], paddr, n) {
        RunFound(zones, used, rs[k], z, paddr);
        runs := Dropped(rs, k);
        if valid {
          TakeBack(rs, z, s, k);
          DroppedApart(rs, k);
          DroppedZones(rs, k, used);
          forall y | 0 <= y < used ensures Marked(runs, y, Contents(y)) {
            if y != z {
              assert Contents(y) == old(Contents(y));
              TakeBackElsewhere(rs, y, Contents(y), k);
            }
          }
        }
      } else if valid {
        ClearedBreaks(rs, z, s, idx, n);
      }
    }

    /** frame_alloc: the first run of clear frames in the first zone that has one. */
    method FrameAlloc(nframes: nat) returns (pa: nat, ghost z: nat, ghost idx: nat)
      requires ZonesOk()
      modifies this, Repr()
      ensures ZonesOk() && (old(Valid()) ==> Valid())
      ensures pa == 0xffff_ffff ==>
                runs == old(runs)
                && forall y :: 0 <= y < used ==> Contents(y) == old(Contents(y)) && NoRun(Contents(y), nframes)
      ensures pa != 0xffff_ffff ==>
                && z < used && pa == zones[z].base + 4096 * idx && runs == old(runs) + [Run(z, idx, nframes)]
                && FirstRun(old(Contents(z)), idx, nframes)
                && (forall y :: 0 <= y < z ==> NoRun(old(Contents(y)), nframes))
                && (forall y :: 0 <= y < used ==>
                      Contents(y) == if y == z then Filled(old(Contents(y)), idx, nframes, true) else old(Contents(y)))
    {
      hide ZonesOk, Marked, AllApart, AllAre, Filled, NoRun, FirstRun;
      var found, k, at := FirstFit(nframes);
      z, idx := k, at;
      assert forall y :: 0 <= y < used ==> Contents(y) == old(Contents(y));
      if !found { return BITMAP_ERROR, z, idx; }
      FirstIsRun(Contents(k), at, nframes);
      AddressBelow(k, at);
      Take(k, at, nframes);
      pa := zones[k].base + at * PAGE_SIZE;
    }

    /** The loop of frame_alloc. */
    method FirstFit(nframes: nat) returns (found: bool, k: nat, at: nat)
      requires ZonesOk()
      ensures found ==> k < used && FirstRun(old(Contents(k)), at, nframes)
      ensures forall y :: 0 <= y < (if found then k else used) ==> NoRun(old(Contents(y)), nframes)
    {
      hide Marked, AllApart, AllAre, Unpack;
      k, at := 0, 0;
      while k < ZONES
        invariant 0 <= k <= ZONES && k <= used && forall y :: 0 <= y < k ==> NoRun(old(Contents(y)), nframes)
      {
        if zones[k].limit == 0 { break; }
        assert Contents(k) == old(Contents(k));
        at := zones[k].bitmap.Scan(0, nframes, false);
        assert zones[k].bitmap.Contents() == old(Contents(k));
        if at != BITMAP_ERROR { return true, k, at; }
        k := k + 1;
      }
      found := false;
    }

    /** Mark a run of clear frames. */
    method Take(z: nat, idx: nat, n: nat)
      requires ZonesOk() && z < used && AllAre(Contents(z), idx, n, false)
      modifies this, Repr()
      ensures ZonesOk() && (old(Valid()) ==> Valid()) && runs == old(runs) + [Run(z, idx, n)]
      ensures forall y :: 0 <= y < used ==>
                Contents(y) == if y == z then Filled(old(Contents(y)), idx, n, true) else old(Contents(y))
    {
      hide Marked, AllApart, Filled, Unpack, AllAre, Ranges;
      ghost var rs, s, r, valid := runs, Contents(z), Run(z, idx, n), Valid();
      SizeOf(z);
      RunFits(s, idx, n);
      zones[z].bitmap.SetMultiple(idx, n, true);
      runs := runs + [r];
      if valid {
        HandOut(rs, z, s, r);
        forall y | 0 <= y < used ensures Marked(runs, y, Contents(y)) {
          if y != z {
            assert Contents(y) == old(Contents(y));
            OtherZone(rs, y, Contents(y), r);
          }
        }
      }
    }

    /** Outstanding runs have no memory in common if the bitmaps of different zones stand for disjoint memory. */
    lemma OutstandingApart(spans: seq<Span>)
      requires Valid() && |spans| == used && SpansApart(spans)
      requires forall z {:trigger spans[z]} :: 0 <= z < used ==> spans[z] == Span(zones[z].base, |Contents(z)|)
      ensures forall i, j {:trigger runs[i], runs[j]} :: 0 <= i < j < |runs| ==> !SharesMemory(spans, runs[i], runs[j])
    {
      forall i, j | 0 <= i < j < |runs| ensures !SharesMemory(spans, runs[i], runs[j]) {
        assert AllAre(Contents(runs[i].z), runs[i].idx, runs[i].n, true);
        assert AllAre(Contents(runs[j].z), runs[j].idx, runs[j].n, true);
        RunApart(spans, runs[i], runs[j]);
      }
    }

    /** No valid allocator has handed out a frame twice. */
    lemma SameTwice(i: nat, j: nat)
      requires i < j < |runs| && runs[i] == runs[j] && runs[i].n > 0
      ensures !Valid()
    {
      assert !Apart(runs[i], runs[j]);
    }

    lemma AddressBelow(z: nat, idx: nat)
      requires ZonesOk() && z < used && idx <= |Contents(z)|
      ensures z < |zones| && Address(z, idx) < BITMAP_ERROR
    {
      hide Unpack;
      assert zones[z].bitmap != null;
      SizeOf(z);
    }
  }

  lemma NoneMarked(z: nat, s: seq<bool>)
    requires forall b :: 0 <= b < |s| ==> !s[b]
    ensures Marked([], z, s)
  {}

  /** A run is given back by clearing its frames; clearing anything else that is marked breaks the account. */
  lemma ClearedBreaks(runs: seq<Run>, z: nat, s: seq<bool>, idx: nat, n: nat)
    requires Marked(runs, z, s)
    ensures Marked(runs, z, Filled(s, idx, n, false)) <==> Filled(s, idx, n, false) == s
  {
    var t := Filled(s, idx, n, false);
    if t != s {
      var b :| 0 <= b < |s| && t[b] != s[b];
      assert s[b] && !t[b];
      var i :| 0 <= i < |runs| && Covers(runs[i], z, b);
    }
  }

  lemma FilledClipped(s: seq<bool>, idx: nat, n: nat, value: bool)
    requires idx <= |s|
    ensures Filled(s, idx, if idx + n <= |s| then n else |s| - idx, value) == Filled(s, idx, n, value)
  {}

  lemma NumberBelow(zones: seq<Zone>, z: nat, pa: nat, count: nat)
    requires InZone(zones, z, pa) && zones[z].limit <= count * PAGE_SIZE
    ensures FrameNumber(zones, z, pa) < count
  {}

  lemma RunFound(zones: seq<Zone>, used: nat, r: Run, z: nat, pa: nat)
    requires Ranges(zones, used) && Findable(zones, r, pa, r.n) && InZone(zones, z, pa)
    ensures r.z == z && r.idx == FrameNumber(zones, z, pa)
  {
    StartFound(zones, used, r);
    OneZone(zones, used, r.z, z, pa);
  }

  lemma NoneFound(zones: seq<Zone>, used: nat, runs: seq<Run>, k: nat, pa: nat, n: nat)
    requires Ranges(zones, used) && FindZone(zones, 0, pa) == |zones|
    ensures !(k < |runs| && Findable(zones, runs[k], pa, n))
  {
    if k < |runs| && Findable(zones, runs[k], pa, n) {
      StartFound(zones, used, runs[k]);
      assert false;
    }
  }

  lemma DroppedZones(runs: seq<Run>, k: nat, used: nat)
    requires k < |runs| && forall i {:trigger runs[i]} :: 0 <= i < |runs| ==> runs[i].z < used
    ensures forall i {:trigger Dropped(runs, k)[i]} :: 0 <= i < |Dropped(runs, k)| ==> Dropped(runs, k)[i].z < used
  {}

  lemma FirstIsRun(s: seq<bool>, idx: nat, n: nat)
    requires FirstRun(s, idx, n)
    ensures AllAre(s, idx, n, false) && idx <= |s|
  {}

  lemma RunFits(s: seq<bool>, idx: nat, n: nat)
    requires AllAre(s, idx, n, false)
    ensures idx + n <= |s|
  {}

  // ----- a frame handed out twice

  /** The first m frames are marked, and the others clear. */
  predicate Prefix(s: seq<bool>, m: nat) {
    m <= |s| && forall i {:trigger s[i]} :: 0 <= i < |s| ==> (s[i] <==> i < m)
  }

  lemma PrefixRun(s: seq<bool>, m: nat, n: nat)
    requires Prefix(s, m) && n > 0 && m + n <= |s|
    ensures !NoRun(s, n) && Prefix(Filled(s, m, n, true), m + n)
    ensures forall idx :: FirstRun(s, idx, n) ==> idx == m
  {
    assert AllAre(s, m, n, false);
    forall idx: nat | FirstRun(s, idx, n) ensures idx == m {
      assert !s[idx];
    }
  }

  lemma FullNoRun(s: seq<bool>, n: nat)
    requires Prefix(s, |s|) && n > 0
    ensures NoRun(s, n) && forall idx :: !FirstRun(s, idx, n)
  {
    forall i: nat ensures !AllAre(s, i, n, false) {
      if i + n <= |s| { assert s[i]; }
    }
  }

  lemma PrefixCleared(s: seq<bool>)
    requires Prefix(s, 1)
    ensures |Filled(s, 0, 1, false)| == |s| && Prefix(Filled(s, 0, 1, false), 0) && Filled(s, 0, 1, false) != s
  {
    assert s[0] && !Filled(s, 0, 1, false)[0];
  }

  /** With the zones before z full, frames come from the first clear one of z on. */
  method HandOutNext(f: FrameAllocator, n: nat, ghost z: nat, ghost m: nat) returns (pa: nat)
    requires f.ZonesOk() && f.used == 2 && |f.zones| == ZONES && z < 2
    requires n > 0 && Prefix(f.Contents(z), m) && m + n <= |f.Contents(z)|
    requires z == 1 ==> Prefix(f.Contents(0), |f.Contents(0)|)
    modifies f, f.Repr()
    ensures f.ZonesOk() && (old(f.Valid()) ==> f.Valid())
    ensures pa == f.Address(z, m) && f.runs == old(f.runs) + [Run(z, m, n)]
    ensures Prefix(f.Contents(z), m + n) && |f.Contents(z)| == |old(f.Contents(z))|
    ensures f.Contents(1 - z) == old(f.Contents(1 - z))
  {
    hide FrameAllocator.Valid, FrameAllocator.ZonesOk, FrameAllocator.Contents, Filled, AllAre, FirstRun, NoRun, Prefix;
    if z == 1 { FullNoRun(f.Contents(0), n); }
    PrefixRun(f.Contents(z), m, n);
    FilledSize(f.Contents(z), m, n);
    ghost var y, idx;
    pa, y, idx := f.FrameAlloc(n);
  }

  lemma FilledSize(s: seq<bool>, m: nat, n: nat)
    ensures |Filled(s, m, n, true)| == |s|
  {}

  /** The allocator has the zones of two ranges of memory. */
  ghost predicate HasTwoRanges(f: FrameAllocator) {
    && f.used == 2 && |f.zones| == ZONES
    && forall z :: 0 <= z < ZONES ==>
         f.zones[z].base == TwoRanges()[z].base && f.zones[z].limit == TwoRanges()[z].limit
  }

  lemma ClearsOther(f: FrameAllocator, s: seq<bool>)
    requires HasTwoRanges(f)
    ensures f.Address(0, 0xfffe) == 0x1010_1000 && f.Address(1, 0) == 0x1010_1000
    ensures Freed(f.zones, 0, s, 0x1010_1000, 1) == s && Freed(f.zones, 1, s, 0x1010_1000, 1) == Filled(s, 0, 1, false)
    ensures !Findable(f.zones, Run(0, 0xfffe, 1), 0x1010_1000, 1)
  {
    TwoRangesAre();
    assert f.zones[0].base == 0x10_3000 && f.zones[0].limit == 0xfff_d000;
    assert f.zones[1].base == 0x1010_1000 && f.zones[1].limit == 0xff_f000;
    assert !InZone(f.zones, 0, 0x1010_1000) && InZone(f.zones, 1, 0x1010_1000);
    assert FindZone(f.zones, 0, 0x1010_1000) == FindZone(f.zones, 1, 0x1010_1000) == 1;
  }

  /** Hand out all frames of the first zone; a is the address of the last but one. */
  method HandOutFirstZone(f: FrameAllocator) returns (a: nat)
    requires f.Valid() && f.runs == [] && f.used == 2 && |f.zones| == ZONES
    requires Prefix(f.Contents(0), 0) && |f.Contents(0)| == 0x1_0000
    modifies f, f.Repr()
    ensures f.Valid() && a == f.Address(0, 0xfffe)
    ensures f.runs == [Run(0, 0, 0xfffe), Run(0, 0xfffe, 1), Run(0, 0xffff, 1)]
    ensures Prefix(f.Contents(0), |f.Contents(0)|) && f.Contents(1) == old(f.Contents(1))
  {
    hide *;
    f.HasShape();
    var rest := HandOutNext(f, 0xfffe, 0, 0);
    a := HandOutNext(f, 1, 0, 0xfffe);
    rest := HandOutNext(f, 1, 0, 0xffff);
  }

  /** On the memory of SameFrameTwice: all frames of the first zone and one of the second are handed out, and a frame
      of the first zone is given back.  The next frame handed out is the second zone's again. */
  method HandOutTwice(f: FrameAllocator) returns (first: nat, second: nat)
    requires f.Valid() && f.runs == [] && HasTwoRanges(f)
    requires Prefix(f.Contents(0), 0) && |f.Contents(0)| == 0x1_0000
    requires Prefix(f.Contents(1), 0) && |f.Contents(1)| == 0x1000
    modifies f, f.Repr()
    ensures first == second && !f.Valid()
    ensures |f.runs| == 5 && f.runs[3] == f.runs[4] == Run(1, 0, 1)
  {
    hide *;
    TwoZones(f);
    var a := HandOutFirstZone(f);
    f.HasShape();
    first := HandOutNext(f, 1, 1, 0);
    ClearsOther(f, f.Contents(0));
    ClearsOther(f, f.Contents(1));
    PrefixCleared(f.Contents(1));
    f.FrameFree(a, 1, 1);
    second := HandOutNext(f, 1, 1, 0);
    f.SameTwice(3, 4);
  }

  lemma TwoZones(f: FrameAllocator)
    requires HasTwoRanges(f)
    ensures f.used == 2 && |f.zones| == ZONES
  {}
}
