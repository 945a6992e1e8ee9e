/** Bentley and McIlroy's qsort (userapp/lib/qsort.c): a partition with four moving pointers, whose equal elements
    are parked at both ends and swapped to the middle afterwards. */
module Qsort {

  type Compare<!T(!new)> = (T, T) -> int

  /** A comparison function that orders its arguments totally, up to equivalence. */
  ghost predicate IsPreorder<T(!new)>(cmp: Compare<T>) {
    && (forall x, y {:trigger cmp(x, y)} :: cmp(x, y) < 0 <==> cmp(y, x) > 0)
    && (forall x, y, z {:trigger cmp(x, y), cmp(y, z)} :: cmp(x, y) <= 0 && cmp(y, z) <= 0 ==> cmp(x, z) <= 0)
  }

  ghost predicate Sorted<T(!new)>(s: seq<T>, lo: nat, hi: nat, cmp: Compare<T>) {
    hi <= |s| && forall i, j {:trigger s[i], s[j]} :: lo <= i < j < hi ==> cmp(s[i], s[j]) <= 0
  }

  /** Everything in [i, j) comes no later than everything in [k, m). */
  ghost predicate Below<T(!new)>(s: seq<T>, i: nat, j: nat, k: nat, m: nat, cmp: Compare<T>) {
    j <= |s| && m <= |s| && forall x, y {:trigger s[x], s[y]} :: i <= x < j && k <= y < m ==> cmp(s[x], s[y]) <= 0
  }

  /** How elements compare with the pivot. */
  datatype Side = Less | Equal | Greater

  predicate OnSide<T(!new)>(x: T, v: T, side: Side, cmp: Compare<T>) {
    match side case Less => cmp(x, v) < 0 case Equal => cmp(x, v) == 0 case Greater => cmp(x, v) > 0
  }

  ghost predicate Zone<T(!new)>(s: seq<T>, i: nat, j: nat, v: T, side: Side, cmp: Compare<T>) {
    j <= |s| && forall k {:trigger s[k]} :: i <= k < j ==> OnSide(s[k], v, side, cmp)
  }

  // ----- rearrangements

  /** The same elements, rearranged within [lo, hi). */
  ghost predicate Rearranged<T>(s: seq<T>, t: seq<T>, lo: nat, hi: nat) {
    && |s| == |t| && multiset(s) == multiset(t)
    && forall i {:trigger t[i]} :: 0 <= i < |s| && !(lo <= i < hi) ==> s[i] == t[i]
  }

  lemma RearrangedTrans<T>(s: seq<T>, t: seq<T>, u: seq<T>, lo: nat, hi: nat, lo': nat, hi': nat)
    requires Rearranged(s, t, lo, hi) && Rearranged(t, u, lo', hi') && lo <= lo' && hi' <= hi
    ensures Rearranged(s, u, lo, hi)
  {
    forall i | 0 <= i < |s| && !(lo <= i < hi) ensures s[i] == u[i] { assert s[i] == t[i] && t[i] == u[i]; }
  }

  lemma SwapRearranges<T>(s: seq<T>, i: nat, j: nat, lo: nat, hi: nat)
    requires lo <= i < hi <= |s| && lo <= j < hi
    ensures Rearranged(s, s[i := s[j]][j := s[i]], lo, hi)
  {
    SwapMultiset(s, i, j);
  }

  lemma SwapMultiset<T>(s: seq<T>, i: nat, j: nat)
    requires i < |s| && j < |s|
    ensures multiset(s[i := s[j]][j := s[i]]) == multiset(s)
  {
    var t := s[i := s[j]];
    var m := multiset(s);
    assert multiset(t) == m - multiset{s[i]} + multiset{s[j]};
    assert multiset(t[j := s[i]]) == multiset(t) - multiset{s[j]} + multiset{s[i]};
    assert s[i] in m;
  }

  /** One more exchange within the range. */
  lemma Swapped<T>(s0: seq<T>, s: seq<T>, t: seq<T>, i: nat, j: nat, lo: nat, hi: nat)
    requires Rearranged(s0, s, lo, hi) && lo <= i < hi <= |s| && lo <= j < hi && t == s[i := s[j]][j := s[i]]
    ensures Rearranged(s0, t, lo, hi)
  {
    hide Rearranged;
    SwapRearranges(s, i, j, lo, hi);
    RearrangedTrans(s0, s, t, lo, hi, lo, hi);
  }

  /** Within its range a rearrangement keeps the elements too. */
  lemma SameSegment<T>(s: seq<T>, t: seq<T>, lo: nat, hi: nat)
    requires Rearranged(s, t, lo, hi) && lo <= hi <= |s|
    ensures multiset(s[lo..hi]) == multiset(t[lo..hi])
  {
    assert s[..lo] == t[..lo] && s[hi..] == t[hi..];
    ThreeParts(s, lo, hi);
    ThreeParts(t, lo, hi);
    hide Rearranged;
    var m := multiset(s[..lo]) + multiset(s[hi..]);
    assert multiset(s[lo..hi]) == multiset(s) - m && multiset(t[lo..hi]) == multiset(t) - m;
  }

  lemma ThreeParts<T>(s: seq<T>, lo: nat, hi: nat)
    requires lo <= hi <= |s|
    ensures multiset(s) == multiset(s[..lo]) + multiset(s[hi..]) + multiset(s[lo..hi])
  {
    assert s == s[..lo] + s[lo..hi] + s[hi..];
  }

  /** Every element of the range was in the range before. */
  lemma CameFrom<T>(s: seq<T>, t: seq<T>, lo: nat, hi: nat, k: nat) returns (k': nat)
    requires Rearranged(s, t, lo, hi) && lo <= k < hi <= |s|
    ensures lo <= k' < hi && k < |t| && s[k'] == t[k]
  {
    SameSegment(s, t, lo, hi);
    assert t[lo..hi][k - lo] in multiset(s[lo..hi]);
    var i :| 0 <= i < hi - lo && s[lo..hi][i] == t[k];
    k' := lo + i;
  }

  lemma ZoneKept<T(!new)>(s: seq<T>, t: seq<T>, lo: nat, hi: nat, i: nat, j: nat, v: T, side: Side, cmp: Compare<T>)
    requires Rearranged(s, t, lo, hi) && lo <= hi && Zone(s, i, j, v, side, cmp)
    requires (i <= lo && hi <= j) || j <= lo || hi <= i
    ensures Zone(t, i, j, v, side, cmp)
  {
    forall k | i <= k < j ensures OnSide(t[k], v, side, cmp) {
      if lo <= k < hi {
        var k' := CameFrom(s, t, lo, hi, k);
        assert OnSide(s[k'], v, side, cmp);
      } else {
        assert t[k] == s[k];
      }
    }
  }

  lemma BelowKept<T(!new)>(s: seq<T>, t: seq<T>, lo: nat, hi: nat, i: nat, cmp: Compare<T>)
    requires Rearranged(s, t, lo, hi) && i <= lo <= hi <= |s| && Below(s, i, lo, lo, hi, cmp) && Sorted(s, i, lo, cmp)
    ensures Below(t, i, lo, lo, hi, cmp) && Sorted(t, i, lo, cmp)
  {
    forall x, y | i <= x < lo && lo <= y < hi ensures cmp(t[x], t[y]) <= 0 {
      var y' := CameFrom(s, t, lo, hi, y);
      assert t[x] == s[x] && cmp(s[x], s[y']) <= 0;
    }
  }

  // ----- the parts of the algorithm

  /** swap(a, b): exchange two elements, word by word or byte by byte. */
  method Swap<T>(a: array<T>, i: nat, j: nat)
    requires i < a.Length && j < a.Length
    modifies a
    ensures a[..] == old(a[..])[i := old(a[j])][j := old(a[i])]
  {
    a[i], a[j] := a[j], a[i];
  }

  /** Where the element at k comes from when n elements from i are exchanged with n elements from j. */
  function Source(i: nat, j: nat, n: nat, k: nat): nat {
    if i <= k < i + n then k - i + j else if j <= k < j + n then k - j + i else k
  }

  ghost predicate VecSwapped<T>(s: seq<T>, t: seq<T>, i: nat, j: nat, n: nat) {
    |t| == |s| && i + n <= j && j + n <= |s|
    && forall k: nat {:trigger t[k]} :: k < |s| ==> t[k] == s[Source(i, j, n, k)]
  }

  lemma OneMoreSwapped<T>(s: seq<T>, t: seq<T>, i: nat, j: nat, n: nat)
    requires VecSwapped(s, t, i, j, n) && i + n < j && j + n < |s|
    ensures VecSwapped(s, t[i + n := t[j + n]][j + n := t[i + n]], i, j, n + 1)
  {}

  lemma NoneSwapped<T>(s: seq<T>, i: nat, j: nat)
    requires i <= j <= |s|
    ensures VecSwapped(s, s, i, j, 0)
  {}

  /** vecswap: exchange n elements from i with n elements from j. */
  method VecSwap<T>(a: array<T>, i: nat, j: nat, n: nat)
    requires i + n <= j && j + n <= a.Length
    modifies a
    ensures VecSwapped(old(a[..]), a[..], i, j, n)
    ensures Rearranged(old(a[..]), a[..], i, j + n)
  {
    hide Rearranged, VecSwapped;
    RearrangedRefl(a[..], i, j + n);
    NoneSwapped(a[..], i, j);
    var k := 0;
    while k < n
      invariant 0 <= k <= n
      invariant VecSwapped(old(a[..]), a[..], i, j, k)
      invariant Rearranged(old(a[..]), a[..], i, j + n)
    {
      ghost var s := a[..];
      OneMoreSwapped(old(a[..]), s, i, j, k);
      Swap(a, i + k, j + k);
      Swapped(old(a[..]), s, a[..], i + k, j + k, i, j + n);
      k := k + 1;
    }
  }

  lemma RearrangedRefl<T>(s: seq<T>, lo: nat, hi: nat)
    ensures Rearranged(s, s, lo, hi)
  {}

  /** The median of three elements, by position. */
  function Med3<T(!new)>(s: seq<T>, i: nat, j: nat, k: nat, cmp: Compare<T>): (m: nat)
    requires i < |s| && j < |s| && k < |s|
    ensures m == i || m == j || m == k
  {
    if cmp(s[i], s[j]) < 0 then (if cmp(s[j], s[k]) < 0 then j else if cmp(s[i], s[k]) < 0 then k else i)
    else (if cmp(s[j], s[k]) > 0 then j else if cmp(s[i], s[k]) < 0 then i else k)
  }

  /** med3 names a median: of the three elements, some other is no greater, and some other no smaller. */
  lemma Med3IsMedian<T(!new)>(s: seq<T>, i: nat, j: nat, k: nat, cmp: Compare<T>)
    requires IsPreorder(cmp) && i < |s| && j < |s| && k < |s|
    ensures var m := s[Med3(s, i, j, k, cmp)];
            var x, y, z := s[i], s[j], s[k];
            || (cmp(x, m) <= 0 && cmp(m, y) <= 0 && (m == z || cmp(m, z) == 0))
               || (cmp(x, m) <= 0 && cmp(m, z) <= 0 && (m == y || cmp(m, y) == 0))
            || (cmp(y, m) <= 0 && cmp(m, x) <= 0 && (m == z || cmp(m, z) == 0))
               || (cmp(y, m) <= 0 && cmp(m, z) <= 0 && (m == x || cmp(m, x) == 0))
            || (cmp(z, m) <= 0 && cmp(m, x) <= 0 && (m == y || cmp(m, y) == 0))
               || (cmp(z, m) <= 0 && cmp(m, y) <= 0 && (m == x || cmp(m, x) == 0))
  {
    var x, y, z := s[i], s[j], s[k];
    assert cmp(x, x) == 0 && cmp(y, y) == 0 && cmp(z, z) == 0;
    assert (cmp(y, x) < 0 <==> cmp(x, y) > 0) && (cmp(z, y) < 0 <==> cmp(y, z) > 0)
           && (cmp(z, x) < 0 <==> cmp(x, z) > 0);
  }

  /** [lo, pm] is sorted but for the element at pl, which may belong further left. */
  ghost predicate SortedBut<T(!new)>(s: seq<T>, lo: nat, pl: nat, pm: nat, cmp: Compare<T>) {
    pm < |s| && forall i, j {:trigger s[i], s[j]} :: lo <= i < j <= pm && j != pl ==> cmp(s[i], s[j]) <= 0
  }

  lemma MoveLeft<T(!new)>(s: seq<T>, lo: nat, pl: nat, pm: nat, cmp: Compare<T>)
    requires IsPreorder(cmp) && SortedBut(s, lo, pl, pm, cmp) && lo < pl <= pm && cmp(s[pl - 1], s[pl]) > 0
    ensures SortedBut(s[pl := s[pl - 1]][pl - 1 := s[pl]], lo, pl - 1, pm, cmp)
  {
    var t := s[pl := s[pl - 1]][pl - 1 := s[pl]];
    forall i, j | lo <= i < j <= pm && j != pl - 1 ensures cmp(t[i], t[j]) <= 0 {
      if j == pl && i == pl - 1 {
        assert cmp(s[pl], s[pl - 1]) < 0;
      } else if j == pl {
        assert cmp(s[i], s[pl - 1]) <= 0;
      } else if i == pl {
        assert cmp(s[pl - 1], s[j]) <= 0;
      } else if i == pl - 1 {
        assert cmp(s[pl], s[j]) <= 0;
      } else {
        assert cmp(s[i], s[j]) <= 0;
      }
    }
  }

  lemma Unsettled<T(!new)>(s: seq<T>, lo: nat, pm: nat, cmp: Compare<T>)
    requires lo <= pm < |s| && Sorted(s, lo, pm, cmp)
    ensures SortedBut(s, lo, pm, pm, cmp)
  {}

  lemma Settled<T(!new)>(s: seq<T>, lo: nat, pl: nat, pm: nat, cmp: Compare<T>)
    requires IsPreorder(cmp) && SortedBut(s, lo, pl, pm, cmp) && lo <= pl <= pm
    requires pl > lo ==> cmp(s[pl - 1], s[pl]) <= 0
    ensures Sorted(s, lo, pm + 1, cmp)
  {
    forall i, j | lo <= i < j < pm + 1 ensures cmp(s[i], s[j]) <= 0 {
      if j == pl && i < pl - 1 { assert cmp(s[i], s[pl - 1]) <= 0; }
    }
  }

  /** The inner loop: move the element at pm left to its place. */
  method Insert<T(!new)>(a: array<T>, lo: nat, pm: nat, cmp: Compare<T>)
    requires lo <= pm < a.Length && IsPreorder(cmp) && Sorted(a[..], lo, pm, cmp)
    modifies a
    ensures Rearranged(old(a[..]), a[..], lo, pm + 1) && Sorted(a[..], lo, pm + 1, cmp)
  {
    hide Rearranged, Sorted, SortedBut, IsPreorder;
    Unsettled(a[..], lo, pm, cmp);
    RearrangedRefl(a[..], lo, pm + 1);
    var pl := pm;
    while pl > lo && cmp(a[pl - 1], a[pl]) > 0
      invariant lo <= pl <= pm && SortedBut(a[..], lo, pl, pm, cmp)
      invariant Rearranged(old(a[..]), a[..], lo, pm + 1)
      decreases pl
    {
      ghost var s := a[..];
      MoveLeft(s, lo, pl, pm, cmp);
      Swap(a, pl, pl - 1);
      Swapped(old(a[..]), s, a[..], pl, pl - 1, lo, pm + 1);
      pl := pl - 1;
    }
    Settled(a[..], lo, pl, pm, cmp);
  }

  /** The insertion sort that the algorithm falls back on. */
  method InsertionSort<T(!new)>(a: array<T>, lo: nat, n: nat, cmp: Compare<T>)
    requires lo + n <= a.Length && IsPreorder(cmp)
    modifies a
    ensures Rearranged(old(a[..]), a[..], lo, lo + n) && Sorted(a[..], lo, lo + n, cmp)
  {
    hide Rearranged, Sorted, IsPreorder;
    RearrangedRefl(a[..], lo, lo + n);
    SortedOne(a[..], lo, lo, cmp);
    if n > 0 { SortedOne(a[..], lo, lo + 1, cmp); }
    var pm := lo + 1;
    while pm < lo + n
      invariant lo < pm && (pm <= lo + n || n == 0)
      invariant Sorted(a[..], lo, Min(pm, lo + n), cmp)
      invariant Rearranged(old(a[..]), a[..], lo, lo + n)
    {
      ghost var s := a[..];
      Insert(a, lo, pm, cmp);
      RearrangedTrans(old(a[..]), s, a[..], lo, lo + n, lo, pm + 1);
      pm := pm + 1;
    }
  }

  lemma SortedOne<T(!new)>(s: seq<T>, lo: nat, hi: nat, cmp: Compare<T>)
    requires lo <= hi <= lo + 1 && hi <= |s|
    ensures Sorted(s, lo, hi, cmp)
  {}

  /** Choose a pivot: the middle element, or a median of three, or a median of three medians. */
  method ChoosePivot<T(!new)>(a: array<T>, lo: nat, n: nat, cmp: Compare<T>) returns (pm: nat)
    requires n >= 7 && lo + n <= a.Length
    ensures lo <= pm < lo + n
  {
    pm := lo + n / 2;
    if n > 7 {
      var pl := lo;
      var pn := lo + (n - 1);
      if n > 40 {
        var d := n / 8;
        pl := Med3(a[..], pl, pl + d, pl + 2 * d, cmp);
        pm := Med3(a[..], pm - d, pm, pm + d, cmp);
        pn := Med3(a[..], pn - 2 * d, pn - d, pn, cmp);
      }
      pm := Med3(a[..], pl, pm, pn, cmp);
    }
  }

  /** The state of the partition loop: equal elements at both ends, then the smaller ones up to pb, the unknown ones
      up to pc, and the greater ones. */
  ghost predicate Parted<T(!new)>(s: seq<T>, lo: nat, hi: nat, pa: nat, pb: nat, pc: int, pd: int, v: T,
                           cmp: Compare<T>) {
    && hi <= |s| && lo < pa <= pb <= pc + 1 <= pd + 1 <= hi
    && Zone(s, lo, pa, v, Equal, cmp) && Zone(s, pa, pb, v, Less, cmp)
    && Zone(s, pc + 1, pd + 1, v, Greater, cmp) && Zone(s, pd + 1, hi, v, Equal, cmp)
    && s[lo] == v
  }

  lemma TakeLess<T(!new)>(s: seq<T>, lo: nat, hi: nat, pa: nat, pb: nat, pc: int, pd: int, v: T, cmp: Compare<T>)
    requires Parted(s, lo, hi, pa, pb, pc, pd, v, cmp) && pb <= pc && cmp(s[pb], v) < 0
    ensures Parted(s, lo, hi, pa, pb + 1, pc, pd, v, cmp)
  {}

  lemma TakeEqual<T(!new)>(s: seq<T>, lo: nat, hi: nat, pa: nat, pb: nat, pc: int, pd: int, v: T, cmp: Compare<T>)
    requires Parted(s, lo, hi, pa, pb, pc, pd, v, cmp) && pb <= pc && cmp(s[pb], v) == 0
    ensures Parted(s[pa := s[pb]][pb := s[pa]], lo, hi, pa + 1, pb + 1, pc, pd, v, cmp)
  {}

  lemma TakeGreater<T(!new)>(s: seq<T>, lo: nat, hi: nat, pa: nat, pb: nat, pc: int, pd: int, v: T, cmp: Compare<T>)
    requires Parted(s, lo, hi, pa, pb, pc, pd, v, cmp) && pb <= pc && cmp(s[pc], v) > 0
    ensures Parted(s, lo, hi, pa, pb, pc - 1, pd, v, cmp)
  {}

  lemma TakeEqualRight<T(!new)>(s: seq<T>, lo: nat, hi: nat, pa: nat, pb: nat, pc: int, pd: int, v: T, cmp: Compare<T>)
    requires Parted(s, lo, hi, pa, pb, pc, pd, v, cmp) && pb <= pc && cmp(s[pc], v) == 0
    ensures Parted(s[pc := s[pd]][pd := s[pc]], lo, hi, pa, pb, pc - 1, pd - 1, v, cmp)
  {}

  lemma Exchange<T(!new)>(s: seq<T>, lo: nat, hi: nat, pa: nat, pb: nat, pc: int, pd: int, v: T, cmp: Compare<T>)
    requires Parted(s, lo, hi, pa, pb, pc, pd, v, cmp) && pb < pc && cmp(s[pb], v) > 0 && cmp(s[pc], v) < 0
    ensures Parted(s[pb := s[pc]][pc := s[pb]], lo, hi, pa, pb + 1, pc - 1, pd, v, cmp)
  {}

  lemma PartedBounds<T(!new)>(s: seq<T>, lo: nat, hi: nat, pa: nat, pb: nat, pc: int, pd: int, v: T, cmp: Compare<T>)
    requires Parted(s, lo, hi, pa, pb, pc, pd, v, cmp)
    ensures hi <= |s| && lo < pa <= pb <= pc + 1 <= pd + 1 <= hi && s[lo] == v
  {}

  lemma PartedZones<T(!new)>(s: seq<T>, lo: nat, hi: nat, pa: nat, pb: nat, pc: int, pd: int, v: T, cmp: Compare<T>)
    requires Parted(s, lo, hi, pa, pb, pc, pd, v, cmp)
    ensures pc + 1 >= 0 && pd + 1 >= 0
    ensures Zone(s, lo, pa, v, Equal, cmp) && Zone(s, pa, pb, v, Less, cmp)
    ensures Zone(s, pc + 1, pd + 1, v, Greater, cmp) && Zone(s, pd + 1, hi, v, Equal, cmp)
  {
    hide Zone;
  }

  /** Move pb right over elements no greater than the pivot, parking equal ones at the left end. */
  method ScanLeft<T(!new)>(a: array<T>, lo: nat, hi: nat, pa0: nat, pb0: nat, pc: int, pd: int, cmp: Compare<T>,
                    ghost v: T)
    returns (pa: nat, pb: nat, moved: bool)
    requires Parted(a[..], lo, hi, pa0, pb0, pc, pd, v, cmp)
    modifies a
    ensures Parted(a[..], lo, hi, pa, pb, pc, pd, v, cmp) && pb0 <= pb
    ensures Rearranged(old(a[..]), a[..], lo, hi) && (!moved ==> a[..] == old(a[..]))
    ensures pb <= pc ==> cmp(a[pb], v) > 0
  {
    hide Parted, Rearranged;
    pa, pb, moved := pa0, pb0, false;
    RearrangedRefl(a[..], lo, hi);
    PartedBounds(a[..], lo, hi, pa, pb, pc, pd, v, cmp);
    while pb <= pc && cmp(a[pb], a[lo]) <= 0
      invariant Parted(a[..], lo, hi, pa, pb, pc, pd, v, cmp) && pb0 <= pb
      invariant lo < pa <= pb <= pc + 1 <= pd + 1 <= hi && a[lo] == v
      invariant Rearranged(old(a[..]), a[..], lo, hi) && (!moved ==> a[..] == old(a[..]))
      decreases pc - pb
    {
      ghost var s := a[..];
      if cmp(a[pb], a[lo]) == 0 {
        moved := true;
        TakeEqual(s, lo, hi, pa, pb, pc, pd, v, cmp);
        Swap(a, pa, pb);
        Swapped(old(a[..]), s, a[..], pa, pb, lo, hi);
        pa := pa + 1;
      } else {
        TakeLess(s, lo, hi, pa, pb, pc, pd, v, cmp);
      }
      pb := pb + 1;
      PartedBounds(a[..], lo, hi, pa, pb, pc, pd, v, cmp);
    }
  }

  /** Move pc left over elements no smaller than the pivot, parking equal ones at the right end. */
  method ScanRight<T(!new)>(a: array<T>, lo: nat, hi: nat, pa: nat, pb: nat, pc0: int, pd0: int, cmp: Compare<T>,
                     ghost v: T)
    returns (pc: int, pd: int, moved: bool)
    requires Parted(a[..], lo, hi, pa, pb, pc0, pd0, v, cmp) && (pb <= pc0 ==> cmp(a[pb], v) > 0)
    modifies a
    ensures Parted(a[..], lo, hi, pa, pb, pc, pd, v, cmp) && pc <= pc0
    ensures Rearranged(old(a[..]), a[..], lo, hi) && (!moved ==> a[..] == old(a[..]))
    ensures pb <= pc ==> cmp(a[pc], v) < 0 && cmp(a[pb], v) > 0
  {
    hide Parted, Rearranged;
    pc, pd, moved := pc0, pd0, false;
    RearrangedRefl(a[..], lo, hi);
    PartedBounds(a[..], lo, hi, pa, pb, pc, pd, v, cmp);
    while pb <= pc && cmp(a[pc], a[lo]) >= 0
      invariant Parted(a[..], lo, hi, pa, pb, pc, pd, v, cmp) && pc <= pc0
      invariant lo < pa <= pb <= pc + 1 <= pd + 1 <= hi && a[lo] == v
      invariant Rearranged(old(a[..]), a[..], lo, hi) && (!moved ==> a[..] == old(a[..]))
      invariant pb <= pc ==> cmp(a[pb], v) > 0
      decreases pc - pb
    {
      ghost var s := a[..];
      if cmp(a[pc], a[lo]) == 0 {
        moved := true;
        TakeEqualRight(s, lo, hi, pa, pb, pc, pd, v, cmp);
        Swap(a, pc, pd);
        Swapped(old(a[..]), s, a[..], pc, pd, lo, hi);
        pd := pd - 1;
      } else {
        TakeGreater(s, lo, hi, pa, pb, pc, pd, v, cmp);
      }
      pc := pc - 1;
      PartedBounds(a[..], lo, hi, pa, pb, pc, pd, v, cmp);
    }
  }

  /** The loop that moves pb and pc towards each other. */
  method Partition<T(!new)>(a: array<T>, lo: nat, n: nat, cmp: Compare<T>)
    returns (pa: nat, pb: nat, pc: int, pd: int, swapped: bool)
    requires n >= 7 && lo + n <= a.Length && IsPreorder(cmp)
    modifies a
    ensures Parted(a[..], lo, lo + n, pa, pb, pc, pd, a[lo], cmp) && pb == pc + 1
    ensures Rearranged(old(a[..]), a[..], lo, lo + n) && (!swapped ==> a[..] == old(a[..]))
  {
    ghost var v := a[lo];
    var hi := lo + n;
    assert cmp(v, v) == 0;
    hide IsPreorder, Rearranged;
    RearrangedRefl(a[..], lo, hi);
    swapped := false;
    pa, pb := lo + 1, lo + 1;
    pc, pd := lo + (n - 1), lo + (n - 1);
    assert Parted(a[..], lo, hi, pa, pb, pc, pd, v, cmp);
    hide Parted;
    while true
      invariant Parted(a[..], lo, hi, pa, pb, pc, pd, v, cmp)
      invariant Rearranged(old(a[..]), a[..], lo, hi) && (!swapped ==> a[..] == old(a[..]))
      decreases pc - pb + 1
    {
      ghost var s := a[..];
      var moved;
      pa, pb, moved := ScanLeft(a, lo, hi, pa, pb, pc, pd, cmp, v);
      swapped := swapped || moved;
      RearrangedTrans(old(a[..]), s, a[..], lo, hi, lo, hi);
      s := a[..];
      pc, pd, moved := ScanRight(a, lo, hi, pa, pb, pc, pd, cmp, v);
      swapped := swapped || moved;
      RearrangedTrans(old(a[..]), s, a[..], lo, hi, lo, hi);
      PartedBounds(a[..], lo, hi, pa, pb, pc, pd, v, cmp);
      if pb > pc { break; }
      s := a[..];
      Exchange(s, lo, hi, pa, pb, pc, pd, v, cmp);
      Swap(a, pb, pc);
      Swapped(old(a[..]), s, a[..], pb, pc, lo, hi);
      swapped := true;
      pb := pb + 1;
      pc := pc - 1;
    }
  }

  // ----- after the partition

  function Min(a: int, b: int): int { if a < b then a else b }

  /** Exchanging the equal elements at the left end with as many of the smaller ones brings them to the middle. */
  lemma LowerGathered<T(!new)>(s: seq<T>, t: seq<T>, lo: nat, pa: nat, pb: nat, v: T, cmp: Compare<T>)
    requires lo <= pa <= pb && Zone(s, lo, pa, v, Equal, cmp) && Zone(s, pa, pb, v, Less, cmp)
    requires var r := Min(pa - lo, pb - pa); VecSwapped(s, t, lo, pb - r, r)
    ensures Zone(t, lo, lo + (pb - pa), v, Less, cmp) && Zone(t, lo + (pb - pa), pb, v, Equal, cmp)
  {
    var r := Min(pa - lo, pb - pa);
    forall k | lo <= k < pb ensures OnSide(t[k], v, if k < lo + (pb - pa) then Less else Equal, cmp) {
      assert t[k] == s[Source(lo, pb - r, r, k)];
    }
  }

  lemma UpperGathered<T(!new)>(s: seq<T>, t: seq<T>, pb: nat, pd1: nat, hi: nat, v: T, cmp: Compare<T>)
    requires pb <= pd1 <= hi && Zone(s, pb, pd1, v, Greater, cmp) && Zone(s, pd1, hi, v, Equal, cmp)
    requires var r := Min(pd1 - pb, hi - pd1); VecSwapped(s, t, pb, hi - r, r)
    ensures Zone(t, pb, hi - (pd1 - pb), v, Equal, cmp) && Zone(t, hi - (pd1 - pb), hi, v, Greater, cmp)
  {
    var r := Min(pd1 - pb, hi - pd1);
    forall k | pb <= k < hi ensures OnSide(t[k], v, if k < hi - (pd1 - pb) then Equal else Greater, cmp) {
      assert t[k] == s[Source(pb, hi - r, r, k)];
    }
  }

  /** The two vecswaps: smaller, equal, greater. */
  method Gather<T(!new)>(a: array<T>, lo: nat, hi: nat, pa: nat, pb: nat, pc: int, pd: int, cmp: Compare<T>, ghost v: T)
    requires Parted(a[..], lo, hi, pa, pb, pc, pd, v, cmp) && pb == pc + 1
    modifies a
    ensures Rearranged(old(a[..]), a[..], lo, hi)
    ensures Zone(a[..], lo, lo + (pb - pa), v, Less, cmp) && Zone(a[..], lo + (pb - pa), hi - (pd - pc), v, Equal, cmp)
    ensures Zone(a[..], hi - (pd - pc), hi, v, Greater, cmp)
  {
    hide Parted, Zone, Rearranged, VecSwapped;
    ghost var s0 := a[..];
    PartedBounds(s0, lo, hi, pa, pb, pc, pd, v, cmp);
    PartedZones(s0, lo, hi, pa, pb, pc, pd, v, cmp);
    var r := Min(pa - lo, pb - pa);
    VecSwap(a, lo, pb - r, r);
    ghost var s1 := a[..];
    LowerGathered(s0, s1, lo, pa, pb, v, cmp);
    ZoneBeyond(s0, s1, lo, pb, pb, pd + 1, v, Greater, cmp);
    ZoneBeyond(s0, s1, lo, pb, pd + 1, hi, v, Equal, cmp);
    r := Min(pd - pc, hi - pd - 1);
    VecSwap(a, pb, hi - r, r);
    UpperGathered(s1, a[..], pb, pd + 1, hi, v, cmp);
    ZoneBeyond(s1, a[..], pb, hi, lo, lo + (pb - pa), v, Less, cmp);
    ZoneBeyond(s1, a[..], pb, hi, lo + (pb - pa), pb, v, Equal, cmp);
    ZoneJoin(a[..], lo + (pb - pa), pb, hi - (pd - pc), v, Equal, cmp);
    RearrangedWiden(s0, s1, lo, pb, lo, hi);
    RearrangedTrans(s0, s1, a[..], lo, hi, pb, hi);
  }

  lemma ZoneBeyond<T(!new)>(s: seq<T>, t: seq<T>, lo: nat, hi: nat, i: nat, j: nat, v: T, side: Side, cmp: Compare<T>)
    requires Rearranged(s, t, lo, hi) && Zone(s, i, j, v, side, cmp) && (j <= lo || hi <= i)
    ensures Zone(t, i, j, v, side, cmp)
  {
    forall k | i <= k < j ensures OnSide(t[k], v, side, cmp) { assert t[k] == s[k]; }
  }

  lemma ZoneJoin<T(!new)>(s: seq<T>, i: nat, j: nat, k: nat, v: T, side: Side, cmp: Compare<T>)
    requires Zone(s, i, j, v, side, cmp) && Zone(s, j, k, v, side, cmp)
    ensures Zone(s, i, k, v, side, cmp)
  {}

  lemma RearrangedWiden<T>(s: seq<T>, t: seq<T>, lo: nat, hi: nat, lo': nat, hi': nat)
    requires Rearranged(s, t, lo, hi) && lo' <= lo && hi <= hi'
    ensures Rearranged(s, t, lo', hi')
  {}

  /** Sorted smaller elements, then equal ones, then greater ones. */
  lemma PiecesInOrder<T(!new)>(s: seq<T>, lo: nat, m1: nat, m2: nat, hi: nat, v: T, cmp: Compare<T>)
    requires IsPreorder(cmp) && lo <= m1 <= m2 <= hi && Sorted(s, lo, m1, cmp)
    requires Zone(s, lo, m1, v, Less, cmp) && Zone(s, m1, m2, v, Equal, cmp) && Zone(s, m2, hi, v, Greater, cmp)
    ensures Sorted(s, lo, m2, cmp) && Below(s, lo, m2, m2, hi, cmp)
  {
    forall i, j | lo <= i < j < hi && i < m2 && (j >= m1) ensures cmp(s[i], s[j]) <= 0 {
      assert cmp(s[i], v) <= 0;
      assert cmp(s[j], v) >= 0;
      assert cmp(v, s[j]) <= 0 by { assert cmp(s[j], v) < 0 <==> cmp(v, s[j]) > 0; }
    }
  }

  lemma JoinSorted<T(!new)>(s: seq<T>, i: nat, lo: nat, hi: nat, cmp: Compare<T>)
    requires i <= lo <= hi && Sorted(s, i, lo, cmp) && Sorted(s, lo, hi, cmp) && Below(s, i, lo, lo, hi, cmp)
    ensures Sorted(s, i, hi, cmp)
  {}

  lemma JoinBelow<T(!new)>(s: seq<T>, i: nat, lo: nat, m: nat, hi: nat, cmp: Compare<T>)
    requires i <= lo <= m <= hi && Below(s, i, lo, lo, hi, cmp) && Below(s, lo, m, m, hi, cmp) && Sorted(s, lo, m, cmp)
    ensures Below(s, i, m, m, hi, cmp) && Below(s, i, lo, lo, m, cmp)
  {}

  lemma NothingBelow<T(!new)>(s: seq<T>, lo: nat, hi: nat, cmp: Compare<T>)
    requires lo <= hi <= |s|
    ensures Sorted(s, lo, lo, cmp) && Below(s, lo, lo, lo, hi, cmp)
  {}

  /** The rest has been sorted: the whole is sorted. */
  lemma Finished<T(!new)>(s0: seq<T>, s: seq<T>, t: seq<T>, lo0: nat, lo: nat, hi: nat, cmp: Compare<T>)
    requires Rearranged(s0, s, lo0, hi) && Rearranged(s, t, lo, hi) && lo0 <= lo <= hi <= |s|
    requires Sorted(s, lo0, lo, cmp) && Below(s, lo0, lo, lo, hi, cmp) && Sorted(t, lo, hi, cmp)
    ensures Sorted(t, lo0, hi, cmp) && Rearranged(s0, t, lo0, hi)
  {
    hide Rearranged, Sorted, Below;
    BelowKept(s, t, lo, hi, lo0, cmp);
    JoinSorted(t, lo0, lo, hi, cmp);
    RearrangedTrans(s0, s, t, lo0, hi, lo, hi);
  }

  /** The smaller elements have been sorted: what remains are the greater ones. */
  lemma Advance<T(!new)>(s0: seq<T>, s: seq<T>, t: seq<T>, lo0: nat, lo: nat, m1: nat, m2: nat, hi: nat, v: T,
                  cmp: Compare<T>)
    requires IsPreorder(cmp) && Rearranged(s0, s, lo0, hi) && Rearranged(s, t, lo, m1)
    requires lo0 <= lo <= m1 <= m2 <= hi <= |s|
    requires Sorted(s, lo0, lo, cmp) && Below(s, lo0, lo, lo, hi, cmp) && Sorted(t, lo, m1, cmp)
    requires Zone(s, lo, m1, v, Less, cmp) && Zone(s, m1, m2, v, Equal, cmp) && Zone(s, m2, hi, v, Greater, cmp)
    ensures Sorted(t, lo0, m2, cmp) && Below(t, lo0, m2, m2, hi, cmp) && Rearranged(s0, t, lo0, hi)
  {
    hide Rearranged, Sorted, Below, Zone, IsPreorder;
    ZoneKept(s, t, lo, m1, lo, m1, v, Less, cmp);
    ZoneKept(s, t, lo, m1, m1, m2, v, Equal, cmp);
    ZoneKept(s, t, lo, m1, m2, hi, v, Greater, cmp);
    PiecesInOrder(t, lo, m1, m2, hi, v, cmp);
    RearrangedWiden(s, t, lo, m1, lo, hi);
    BelowKept(s, t, lo, hi, lo0, cmp);
    JoinBelow(t, lo0, lo, m2, hi, cmp);
    JoinSorted(t, lo0, lo, m2, cmp);
    RearrangedTrans(s0, s, t, lo0, hi, lo, hi);
  }

  /** Choose a pivot, partition, and gather the equal elements in the middle; or report that nothing was swapped. */
  method Divide<T(!new)>(a: array<T>, lo: nat, n: nat, cmp: Compare<T>)
    returns (left: nat, right: nat, swapped: bool, ghost v: T)
    requires n >= 7 && lo + n <= a.Length && IsPreorder(cmp)
    modifies a
    ensures Rearranged(old(a[..]), a[..], lo, lo + n)
    ensures swapped ==> left + right < n && Zone(a[..], lo, lo + left, v, Less, cmp)
                        && Zone(a[..], lo + left, lo + n - right, v, Equal, cmp)
                        && Zone(a[..], lo + n - right, lo + n, v, Greater, cmp)
  {
    hide Rearranged, Parted, Zone, IsPreorder;
    var pm := ChoosePivot(a, lo, n, cmp);
    SwapRearranges(a[..], lo, pm, lo, lo + n);
    Swap(a, lo, pm);
    ghost var s := a[..];
    var pa, pb, pc, pd;
    pa, pb, pc, pd, swapped := Partition(a, lo, n, cmp);
    RearrangedTrans(old(a[..]), s, a[..], lo, lo + n, lo, lo + n);
    v := a[lo];
    PartedBounds(a[..], lo, lo + n, pa, pb, pc, pd, v, cmp);
    left, right := pb - pa, pd - pc;
    if swapped {
      s := a[..];
      Gather(a, lo, lo + n, pa, pb, pc, pd, cmp, v);
      RearrangedTrans(old(a[..]), s, a[..], lo, lo + n, lo, lo + n);
    }
  }

  /** Sort n elements from lo on. */
  method Qsort<T(!new)>(a: array<T>, lo: nat, n: nat, cmp: Compare<T>)
    requires lo + n <= a.Length && IsPreorder(cmp)
    modifies a
    ensures Sorted(a[..], lo, lo + n, cmp)
    ensures multiset(a[lo..lo + n]) == multiset(old(a[lo..lo + n]))
    ensures forall i :: 0 <= i < a.Length && !(lo <= i < lo + n) ==> a[i] == old(a[i])
    decreases n
  {
    QsortSegment(a, lo, n, cmp);
    SameSegment(old(a[..]), a[..], lo, lo + n);
    assert a[lo..lo + n] == a[..][lo..lo + n] && old(a[lo..lo + n]) == old(a[..])[lo..lo + n];
  }

  /** The function itself: `goto loop` sorts the greater elements without recursion. */
  method QsortSegment<T(!new)>(a: array<T>, lo0: nat, n0: nat, cmp: Compare<T>)
    requires lo0 + n0 <= a.Length && IsPreorder(cmp)
    modifies a
    ensures Sorted(a[..], lo0, lo0 + n0, cmp) && Rearranged(old(a[..]), a[..], lo0, lo0 + n0)
    decreases n0
  {
    hide Rearranged, Sorted, Below, Zone, Parted, IsPreorder;
    var lo: nat, n: nat := lo0, n0;
    var hi := lo0 + n0;
    RearrangedRefl(a[..], lo0, hi);
    NothingBelow(a[..], lo0, hi, cmp);
    while true
      invariant lo0 <= lo && lo + n == hi && n <= n0
      invariant Sorted(a[..], lo0, lo, cmp) && Below(a[..], lo0, lo, lo, hi, cmp)
      invariant Rearranged(old(a[..]), a[..], lo0, hi)
      decreases n
    {
      ghost var s := a[..];
      if n < 7 {
        InsertionSort(a, lo, n, cmp);
        Finished(old(a[..]), s, a[..], lo0, lo, hi, cmp);
        return;
      }
      var left, right, swapped; ghost var v;
      left, right, swapped, v := Divide(a, lo, n, cmp);
      RearrangedTrans(old(a[..]), s, a[..], lo0, hi, lo, hi);
      BelowKept(s, a[..], lo, hi, lo0, cmp);
      s := a[..];
      if !swapped {
        InsertionSort(a, lo, n, cmp);
        Finished(old(a[..]), s, a[..], lo0, lo, hi, cmp);
        return;
      }
      if left > 1 {
        QsortSegment(a, lo, left, cmp);
      } else {
        RearrangedRefl(s, lo, lo + left);
        SortedOne(s, lo, lo + left, cmp);
      }
      Advance(old(a[..]), s, a[..], lo0, lo, lo + left, hi - right, hi, v, cmp);
      if right <= 1 {
        SortedOne(a[..], hi - right, hi, cmp);
        JoinSorted(a[..], lo0, hi - right, hi, cmp);
        return;
      }
      // the greater elements take the place of the range
      lo, n := hi - right, right;
    }
  }
}
