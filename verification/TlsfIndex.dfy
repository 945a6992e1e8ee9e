/** Taking blocks off the free lists and putting them on, with everything else in memory undisturbed
    (remove_free_block and insert_free_block, lib/tlsf/tlsf.c:458-506). */
module TlsfIndex {
  import opened Words
  import opened TlsfMapping
  import opened TlsfLayout
  import opened TlsfLists
  import opened TlsfMemory

  /** A block whose links may be written: a free block of the pool, or block_null outside it. */
  ghost predicate LinkTarget(h: Layout, base: int, nil: int, x: int) {
    (0 < x && x == nil && x + 16 <= base) || (x in h && h[x].free)
  }

  lemma TargetFar(h: Layout, base: int, end: int, nil: int, x: int, a: int)
    requires Tiled(h, base, end) && LinkTarget(h, base, nil, x) && a in h
    ensures Far(a, x) && base <= a
  {
    if x in h { HeadersFar(h, base, end, a, x); }
  }

  /** A write to a link word of a free block or of block_null disturbs neither headers nor payloads. */
  lemma LinkWrite(m: Memory, h: Layout, base: int, end: int, nil: int, stale: set<int>, x: int, d: int, v: Word)
    requires Tiled(h, base, end) && Mapped(m, base, end, nil) && Encoded(m, h, base, stale)
    requires LinkTarget(h, base, nil, x) && (d == 8 || d == 12)
    ensures Encoded(m[x + d := v], h, base, stale) && Mapped(m[x + d := v], base, end, nil)
    ensures PayloadsKept(h, m, m[x + d := v], {})
  {
    hide Tiled, Mapped;
    var m' := m[x + d := v];
    MappedWrite(m, base, end, nil, x + d, v);
    forall a | a in h ensures HeaderEncoded(m', h, base, a, a in stale) {
      TargetFar(h, base, end, nil, x, a);
      assert HeaderEncoded(m, h, base, a, a in stale);
    }
    forall u | u in h && !h[u].free ensures Kept(m, m', u + 8, h[u].size) {
      LinkWordOutside(h, base, end, nil, u, x, d);
    }
  }

  lemma LinkWordOutside(h: Layout, base: int, end: int, nil: int, u: int, x: int, d: int)
    requires Tiled(h, base, end) && LinkTarget(h, base, nil, x) && u in h && !h[u].free && (d == 8 || d == 12)
    ensures !(u + 8 <= x + d < u + 8 + h[u].size)
  {
    if x in h {
      if u != end && u + 8 <= x + d < u + 8 + h[u].size { PayloadWord(h, base, end, u, x + d, x); }
    } else {
      TargetFar(h, base, end, nil, x, u);
    }
  }

  lemma ListedTarget(h: Layout, base: int, lists: Table, out: set<int>, nil: int, c: nat, i: int)
    requires Listed(h, lists, out) && c < CLASSES && 0 < nil && nil + 16 <= base
    ensures LinkTarget(h, base, nil, At(lists[c], i, nil))
  {
    hide Class;
    if 0 <= i < |lists[c]| { assert OnList(h, lists[c][i], c, out); }
  }

  lemma ListSpaced(h: Layout, base: int, end: int, nil: int, s: seq<int>)
    requires Tiled(h, base, end) && nil + 16 <= base && forall i {:trigger s[i]} :: 0 <= i < |s| ==> s[i] in h
    ensures Spaced(s, nil)
  {
    forall i, j | 0 <= i < |s| && 0 <= j < |s| && s[i] < s[j] ensures s[i] + 16 <= s[j] {
      HeadersApart(h, base, end, s[i], s[j]);
    }
  }

  lemma UnlinkIndexed(m: Memory, h: Layout, base: int, end: int, nil: int, lists: Table, out: set<int>, c: nat, k: nat,
                      prev: Word, next: Word)
    requires Tiled(h, base, end) && nil + 16 <= base && 0 < nil && Listed(h, lists, out) && AllLinked(m, lists, nil)
    requires c < CLASSES && k < |lists[c]| && prev == At(lists[c], k - 1, nil) && next == At(lists[c], k + 1, nil)
    ensures AllLinked(Unlink(m, prev, next), lists[c := Without(lists[c], k)], nil)
  {
    hide Tiled, Class, NextLink, PrevLink, Linked, Unlink, Spaced, LinkTarget;
    var m' := Unlink(m, prev, next);
    assert Linked(m, lists[c], nil);
    forall i | 0 <= i < |lists[c]| ensures lists[c][i] in h { assert OnList(h, lists[c][i], c, out); }
    ListSpaced(h, base, end, nil, lists[c]);
    UnlinkLinked(m, lists[c], k, nil, prev, next);
    ListedTarget(h, base, lists, out, nil, c, k - 1);
    ListedTarget(h, base, lists, out, nil, c, k + 1);
    forall d | 0 <= d < CLASSES && d != c ensures Linked(m', lists[d], nil) {
      forall i | 0 <= i < |lists[d]|
        ensures NextLink(m', lists[d][i]) == NextLink(m, lists[d][i])
        ensures PrevLink(m', lists[d][i]) == PrevLink(m, lists[d][i])
      {
        OtherList(h, base, end, nil, lists, out, d, i, c, k - 1);
        OtherList(h, base, end, nil, lists, out, d, i, c, k + 1);
        TargetsFar(h, base, end, nil, prev, next);
        UnlinkReads(m, prev, next, lists[d][i]);
      }
      LinkedFrame(m, m', lists[d], nil);
    }
  }

  lemma TargetsFar(h: Layout, base: int, end: int, nil: int, x: int, y: int)
    requires Tiled(h, base, end) && LinkTarget(h, base, nil, x) && LinkTarget(h, base, nil, y)
    ensures Far(x, y)
  {
    if x in h { TargetFar(h, base, end, nil, y, x); } else if y in h { TargetFar(h, base, end, nil, x, y); }
  }

  /** A block of one list is far from, and not, the elements of another. */
  lemma OtherList(h: Layout, base: int, end: int, nil: int, lists: Table, out: set<int>, d: nat, i: nat, c: nat, j: int)
    requires Tiled(h, base, end) && Listed(h, lists, out) && 0 < nil && nil + 16 <= base
    requires d < CLASSES && i < |lists[d]| && c < CLASSES && c != d
    ensures lists[d][i] in h && lists[d][i] != At(lists[c], j, nil) && Far(lists[d][i], At(lists[c], j, nil))
  {
    hide Class;
    assert OnList(h, lists[d][i], d, out);
    ListedTarget(h, base, lists, out, nil, c, j);
    TargetFar(h, base, end, nil, At(lists[c], j, nil), lists[d][i]);
    if 0 <= j < |lists[c]| { assert OnList(h, lists[c][j], c, out); }
  }

  lemma PushIndexed(m: Memory, h: Layout, base: int, end: int, nil: Word, lists: Table, out: set<int>, c: nat, b: Word,
                    current: Word)
    requires Tiled(h, base, end) && nil + 16 <= base && 0 < nil && Listed(h, lists, out) && AllLinked(m, lists, nil)
    requires c < CLASSES && b in h && h[b].free && b in out && current == At(lists[c], 0, nil)
    ensures AllLinked(PushFront(m, b, current, nil), lists[c := [b] + lists[c]], nil)
  {
    hide Tiled, Class, NextLink, PrevLink, Linked, PushFront, Spaced, LinkTarget;
    var m' := PushFront(m, b, current, nil);
    assert Linked(m, lists[c], nil);
    var l := [b] + lists[c];
    forall i | 0 <= i < |l| ensures l[i] in h && (i > 0 ==> l[i] != b) {
      if i > 0 { assert l[i] == lists[c][i - 1]; assert OnList(h, lists[c][i - 1], c, out); }
    }
    forall i | 0 <= i < |lists[c]| ensures lists[c][i] != b { assert l[i + 1] == lists[c][i]; }
    ListSpaced(h, base, end, nil, l);
    PushFrontLinked(m, lists[c], b, current, nil);
    forall d | 0 <= d < CLASSES && d != c ensures Linked(m', lists[d], nil) {
      forall i | 0 <= i < |lists[d]|
        ensures NextLink(m', lists[d][i]) == NextLink(m, lists[d][i])
        ensures PrevLink(m', lists[d][i]) == PrevLink(m, lists[d][i])
      {
        assert OnList(h, lists[d][i], d, out);
        OtherList(h, base, end, nil, lists, out, d, i, c, 0);
        HeadersFar(h, base, end, lists[d][i], b);
        ListedTarget(h, base, lists, out, nil, c, 0);
        TargetFar(h, base, end, nil, current, b);
        BlockIsNotHead(h, base, end, nil, lists, out, c, b);
        PushFrontReads(m, b, current, nil, lists[d][i]);
      }
      LinkedFrame(m, m', lists[d], nil);
    }
  }

  lemma BlockIsNotHead(h: Layout, base: int, end: int, nil: int, lists: Table, out: set<int>, c: nat, b: int)
    requires Tiled(h, base, end) && nil + 16 <= base && Listed(h, lists, out) && c < CLASSES && b in h && b in out
    ensures b != At(lists[c], 0, nil)
  {
    hide Class;
    if lists[c] != [] { assert OnList(h, lists[c][0], c, out); }
  }

  lemma HeadedUpdate(heads: seq<int>, lists: Table, nil: int, c: nat, l: seq<int>)
    requires Headed(heads, lists, nil) && c < |lists|
    ensures Headed(heads[c := At(l, 0, nil)], lists[c := l], nil)
  {}

  /** The neighbours that a listed block's links name. */
  lemma Neighbours(m: Memory, h: Layout, base: int, end: int, nil: int, stale: set<int>, lists: Table, out: set<int>,
                   c: nat, k: nat)
    requires Tiled(h, base, end) && Mapped(m, base, end, nil) && Encoded(m, h, base, stale)
    requires Listed(h, lists, out) && AllLinked(m, lists, nil) && c < CLASSES && k < |lists[c]|
    ensures var b := lists[c][k];
            && b in h && b + 8 in m && b + 12 in m
            && NextLink(m, b) == At(lists[c], k + 1, nil) && PrevLink(m, b) == At(lists[c], k - 1, nil)
    ensures LinkTarget(h, base, nil, At(lists[c], k + 1, nil)) && LinkTarget(h, base, nil, At(lists[c], k - 1, nil))
    ensures forall i :: 0 <= i < |lists[c]| && lists[c][i] == lists[c][k] ==> i == k
    ensures forall i :: 0 <= i < |lists[c]| ==> lists[c][i] != nil
  {
    hide Class, Tiled, Mapped, Encoded, LinkTarget, NextLink, PrevLink;
    var b := lists[c][k];
    assert OnList(h, b, c, out);
    BlockMapped(m, h, base, end, nil, b);
    assert Linked(m, lists[c], nil);
    assert NextLink(m, b) == At(lists[c], k + 1, nil) && PrevLink(m, b) == At(lists[c], k - 1, nil);
    ListedTarget(h, base, lists, out, nil, c, k - 1);
    ListedTarget(h, base, lists, out, nil, c, k + 1);
    forall i | 0 <= i < |lists[c]| ensures lists[c][i] != nil {
      assert OnList(h, lists[c][i], c, out);
      BlockMapped(m, h, base, end, nil, lists[c][i]);
    }
  }

  lemma BlockMapped(m: Memory, h: Layout, base: int, end: int, nil: int, b: int)
    requires Tiled(h, base, end) && Mapped(m, base, end, nil) && b in h && h[b].free
    ensures b + 4 in m && b + 8 in m && b + 12 in m && 0 < nil < nil + 16 <= base <= b < WORD && base % 4 == 0
  {
    assert Next(h, b) in h;
  }

  /** remove_free_block keeps memory, lists and heads in step. */
  lemma RemoveSteps(m: Memory, h: Layout, base: int, end: int, nil: int, stale: set<int>, lists: Table, out: set<int>,
                    c: nat, k: nat,
                    prev: Word, next: Word, heads: seq<int>)
    requires Tiled(h, base, end) && Mapped(m, base, end, nil) && Encoded(m, h, base, stale)
    requires Listed(h, lists, out) && AllLinked(m, lists, nil) && Headed(heads, lists, nil) && c < CLASSES
    requires k < |lists[c]|
    requires prev == At(lists[c], k - 1, nil) && next == At(lists[c], k + 1, nil)
    ensures var m', lists' := m[next + 12 := prev][prev + 8 := next], lists[c := Without(lists[c], k)];
            && Mapped(m', base, end, nil) && Encoded(m', h, base, stale) && PayloadsKept(h, m, m', {})
            && Listed(h, lists', out + {lists[c][k]}) && AllLinked(m', lists', nil)
            && Headed(if k == 0 then heads[c := next] else heads, lists', nil)
  {
    hide Tiled, Mapped, Encoded, Class, Linked, NextLink, PrevLink;
    Neighbours(m, h, base, end, nil, stale, lists, out, c, k);
    BlockMapped2(m, h, base, end, nil, lists, out, c, k);
    LinkWrite(m, h, base, end, nil, stale, next, 12, prev);
    LinkWrite(m[next + 12 := prev], h, base, end, nil, stale, prev, 8, next);
    PayloadsKeptTrans(h, m, m[next + 12 := prev], m[next + 12 := prev][prev + 8 := next], {});
    UnlinkIndexed(m, h, base, end, nil, lists, out, c, k, prev, next);
    TakeOff(h, lists, out, c, k);
    if k == 0 { assert At(Without(lists[c], 0), 0, nil) == At(lists[c], 1, nil); }
    assert At(Without(lists[c], k), 0, nil) == if k == 0 then next else At(lists[c], 0, nil);
    HeadedUpdate(heads, lists, nil, c, Without(lists[c], k));
    assert k > 0 ==> heads[c := At(lists[c], 0, nil)] == heads;
  }

  lemma InRange(h: Layout, lists: Table, out: set<int>)
    requires Listed(h, lists, out)
    ensures |lists| == CLASSES
  {}

  lemma BlockMapped2(m: Memory, h: Layout, base: int, end: int, nil: int, lists: Table, out: set<int>, c: nat, k: nat)
    requires Tiled(h, base, end) && Mapped(m, base, end, nil) && Listed(h, lists, out) && AllLinked(m, lists, nil)
    requires c < CLASSES && k < |lists[c]|
    ensures nil + 16 <= base && 0 < nil
    ensures forall i, j :: 0 <= i < j < |lists[c]| ==> lists[c][i] != lists[c][j]
  {
    assert Linked(m, lists[c], nil);
  }

  /** insert_free_block keeps memory, lists and heads in step. */
  lemma InsertSteps(m: Memory, h: Layout, base: int, end: int, nil: Word, stale: set<int>, lists: Table, out: set<int>,
                    c: nat, b: Word,
                    current: Word, heads: seq<int>)
    requires Tiled(h, base, end) && Mapped(m, base, end, nil) && Encoded(m, h, base, stale)
    requires Listed(h, lists, out) && AllLinked(m, lists, nil) && Headed(heads, lists, nil)
    requires b in h && h[b].free && b in out && c == Class(h[b].size) && current == At(lists[c], 0, nil)
    ensures var m', lists' := m[b + 8 := current][b + 12 := nil][current + 12 := b], lists[c := [b] + lists[c]];
            && Mapped(m', base, end, nil) && Encoded(m', h, base, stale) && PayloadsKept(h, m, m', {})
            && Listed(h, lists', out - {b}) && AllLinked(m', lists', nil) && Headed(heads[c := b], lists', nil)
  {
    hide Tiled, Mapped, Encoded, Class, Linked, NextLink, PrevLink, Listed, AllLinked, PayloadsKept;
    BlockMapped(m, h, base, end, nil, b);
    InRange(h, lists, out);
    ListedTarget(h, base, lists, out, nil, c, 0);
    var m1 := m[b + 8 := current];
    var m2 := m1[b + 12 := nil];
    var m3 := m2[current + 12 := b];
    LinkWrite(m, h, base, end, nil, stale, b, 8, current);
    LinkWrite(m1, h, base, end, nil, stale, b, 12, nil);
    LinkWrite(m2, h, base, end, nil, stale, current, 12, b);
    PayloadsKeptTrans(h, m, m1, m2, {});
    PayloadsKeptTrans(h, m, m2, m3, {});
    PushIndexed(m, h, base, end, nil, lists, out, c, b, current);
    PutOn(h, lists, out, b);
    HeadedUpdate(heads, lists, nil, c, [b] + lists[c]);
  }
}
