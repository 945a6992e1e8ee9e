/** The segregated free lists of the TLSF allocator: doubly linked lists threaded through the payloads of free
    blocks, their heads, and the two levels of bitmaps (lib/tlsf/tlsf.c:458-521). */
module TlsfLists {
  import opened Words
  import opened TlsfMapping
  import opened TlsfLayout

  /** next_free and prev_free of a block. */
  function NextLink(m: Memory, b: int): int { Fetch(m, b + 8) }
  function PrevLink(m: Memory, b: int): int { Fetch(m, b + 12) }

  /** Element i of a list, or block_null beyond its ends. */
  function At(s: seq<int>, i: int, nil: int): int {
    if 0 <= i < |s| then s[i] else nil
  }

  /** The memory threads the blocks of s, in that order and each once, into a doubly linked list ended by nil. */
  ghost predicate Linked(m: Memory, s: seq<int>, nil: int) {
    && (forall i, j :: 0 <= i < j < |s| ==> s[i] != s[j])
    && (forall i {:trigger NextLink(m, s[i])} :: 0 <= i < |s| ==> NextLink(m, s[i]) == At(s, i + 1, nil))
    && (forall i {:trigger PrevLink(m, s[i])} :: 0 <= i < |s| ==> PrevLink(m, s[i]) == At(s, i - 1, nil))
  }

  /** Link words of different blocks never coincide. */
  ghost predicate Spaced(s: seq<int>, nil: int) {
    && (forall i :: 0 <= i < |s| ==> nil + 16 <= s[i])
    && (forall i, j :: 0 <= i < |s| && 0 <= j < |s| && s[i] < s[j] ==> s[i] + 16 <= s[j])
  }

  function Without<T>(s: seq<T>, k: int): seq<T>
    requires 0 <= k < |s|
  {
    s[..k] + s[k + 1..]
  }

  /** What remove_free_block writes to the links of the neighbours. */
  function Unlink(m: Memory, prev: Word, next: Word): Memory {
    m[next + 12 := prev][prev + 8 := next]
  }

  /** What insert_free_block writes to the links of the block and of the old head. */
  function PushFront(m: Memory, b: Word, current: Word, nil: Word): Memory {
    m[b + 8 := current][b + 12 := nil][current + 12 := b]
  }

  predicate Far(a: int, b: int) { a == b || a + 16 <= b || b + 16 <= a }

  lemma UnlinkReads(m: Memory, prev: Word, next: Word, b: int)
    requires Far(b, prev) && Far(b, next) && Far(prev, next)
    ensures NextLink(Unlink(m, prev, next), b) == if b == prev then next else NextLink(m, b)
    ensures PrevLink(Unlink(m, prev, next), b) == if b == next then prev else PrevLink(m, b)
  {}

  lemma PushFrontReads(m: Memory, b: Word, current: Word, nil: Word, a: int)
    requires Far(a, b) && Far(a, current) && Far(b, current) && b != current
    ensures NextLink(PushFront(m, b, current, nil), a) == if a == b then current else NextLink(m, a)
    ensures PrevLink(PushFront(m, b, current, nil), a) ==
            if a == current then b else if a == b then nil else PrevLink(m, a)
  {}

  lemma UnlinkLinked(m: Memory, s: seq<int>, k: int, nil: int, prev: Word, next: Word)
    requires Linked(m, s, nil) && Spaced(s, nil) && 0 <= k < |s|
    requires prev == At(s, k - 1, nil) && next == At(s, k + 1, nil)
    ensures Linked(Unlink(m, prev, next), Without(s, k), nil)
  {
    var m', s' := Unlink(m, prev, next), Without(s, k);
    forall i | 0 <= i < |s'|
      ensures NextLink(m', s'[i]) == At(s', i + 1, nil) && PrevLink(m', s'[i]) == At(s', i - 1, nil)
    {
      UnlinkLinkedAt(m, s, k, nil, prev, next, i);
    }
    hide Unlink, NextLink, PrevLink, Spaced;
  }

  lemma UnlinkLinkedAt(m: Memory, s: seq<int>, k: int, nil: int, prev: Word, next: Word, i: int)
    requires Linked(m, s, nil) && Spaced(s, nil) && 0 <= k < |s| && 0 <= i < |s| - 1
    requires prev == At(s, k - 1, nil) && next == At(s, k + 1, nil)
    ensures var m', s' := Unlink(m, prev, next), Without(s, k);
            NextLink(m', s'[i]) == At(s', i + 1, nil) && PrevLink(m', s'[i]) == At(s', i - 1, nil)
  {
    hide Unlink, NextLink, PrevLink;
    var j := if i < k then i else i + 1;
    assert Without(s, k)[i] == s[j];
    UnlinkReads(m, prev, next, s[j]);
    assert NextLink(m, s[j]) == At(s, j + 1, nil);
    assert PrevLink(m, s[j]) == At(s, j - 1, nil);
  }

  lemma PushFrontLinked(m: Memory, s: seq<int>, b: Word, current: Word, nil: Word)
    requires Linked(m, s, nil) && Spaced([b] + s, nil) && b !in s && current == At(s, 0, nil)
    ensures Linked(PushFront(m, b, current, nil), [b] + s, nil)
  {
    var m', s' := PushFront(m, b, current, nil), [b] + s;
    forall i | 0 <= i < |s'|
      ensures NextLink(m', s'[i]) == At(s', i + 1, nil) && PrevLink(m', s'[i]) == At(s', i - 1, nil)
    {
      PushFrontLinkedAt(m, s, b, current, nil, i);
    }
    hide PushFront, NextLink, PrevLink, Spaced;
  }

  lemma PushFrontLinkedAt(m: Memory, s: seq<int>, b: Word, current: Word, nil: Word, i: int)
    requires Linked(m, s, nil) && Spaced([b] + s, nil) && b !in s && current == At(s, 0, nil) && 0 <= i <= |s|
    ensures var m', s' := PushFront(m, b, current, nil), [b] + s;
            NextLink(m', s'[i]) == At(s', i + 1, nil) && PrevLink(m', s'[i]) == At(s', i - 1, nil)
  {
    hide PushFront, NextLink, PrevLink;
    var s' := [b] + s;
    assert s'[0] == b;
    if s != [] { assert s'[1] == s[0]; }
    PushFrontReads(m, b, current, nil, s'[i]);
    if i > 0 {
      assert s'[i] == s[i - 1];
      assert NextLink(m, s[i - 1]) == At(s, i, nil);
      assert PrevLink(m, s[i - 1]) == At(s, i - 2, nil);
    }
  }

  lemma LinkedFrame(m: Memory, m': Memory, s: seq<int>, nil: int)
    requires Linked(m, s, nil)
    requires forall i :: 0 <= i < |s| ==>
               NextLink(m', s[i]) == NextLink(m, s[i]) && PrevLink(m', s[i]) == PrevLink(m, s[i])
    ensures Linked(m', s, nil)
  {
    forall i | 0 <= i < |s|
      ensures NextLink(m', s[i]) == At(s, i + 1, nil) && PrevLink(m', s[i]) == At(s, i - 1, nil)
    {
      assert NextLink(m, s[i]) == At(s, i + 1, nil) && PrevLink(m, s[i]) == At(s, i - 1, nil);
    }
  }

  // ----- the table of lists

  type Table = seq<seq<int>>

  function Class(size: int): (c: nat)
    ensures c < CLASSES
  {
    if 0 <= size < BLOCK_SIZE_MAX then ClassInterval(size); MappingInsert(size).Flat() else 0
  }

  /** The lists hold exactly the free blocks outside `out`, each on the list of its class. */
  ghost predicate Listed(h: Layout, lists: Table, out: set<int>) {
    && |lists| == CLASSES
    && (forall c, i {:trigger lists[c][i]} :: 0 <= c < CLASSES && 0 <= i < |lists[c]| ==>
          OnList(h, lists[c][i], c, out))
    && (forall b {:trigger h[b]} :: b in h && h[b].free && b !in out ==> b in lists[Class(h[b].size)])
  }

  ghost predicate OnList(h: Layout, b: int, c: int, out: set<int>) {
    b in h && h[b].free && b !in out && Class(h[b].size) == c
  }

  ghost predicate AllLinked(m: Memory, lists: Table, nil: int) {
    forall c {:trigger lists[c]} :: 0 <= c < |lists| ==> Linked(m, lists[c], nil)
  }

  ghost predicate Headed(heads: seq<int>, lists: Table, nil: int) {
    |heads| == |lists| && forall c {:trigger heads[c]} :: 0 <= c < |lists| ==> heads[c] == At(lists[c], 0, nil)
  }

  /** A bit of a second-level bitmap is set iff its list is not empty; a bit of the first-level bitmap iff its
      row's bitmap is not zero. */
  ghost predicate Mirrored(fl: nat, sl: seq<nat>, lists: Table) {
    && |sl| == FL_INDEX_COUNT && |lists| == CLASSES && fl < Pow2(FL_INDEX_COUNT)
    && (forall f {:trigger sl[f]} :: 0 <= f < FL_INDEX_COUNT ==> sl[f] < WORD && (Bit(fl, f) <==> sl[f] != 0))
    && (forall f, s {:trigger Bit(sl[f], s)} :: 0 <= f < FL_INDEX_COUNT && 0 <= s < SL_INDEX_COUNT ==>
          (Bit(sl[f], s) <==> lists[f * 32 + s] != []))
  }

  lemma OnListIndex(h: Layout, lists: Table, out: set<int>, b: int) returns (c: nat, k: nat)
    requires Listed(h, lists, out) && b in h && h[b].free && b !in out
    ensures c == Class(h[b].size) && k < |lists[c]| && lists[c][k] == b
  {
    hide Class;
    c := Class(h[b].size);
    k :| 0 <= k < |lists[c]| && lists[c][k] == b;
  }

  lemma TakeOff(h: Layout, lists: Table, out: set<int>, c: nat, k: nat)
    requires Listed(h, lists, out) && c < CLASSES && k < |lists[c]|
    requires forall i, j :: 0 <= i < j < |lists[c]| ==> lists[c][i] != lists[c][j]
    ensures Listed(h, lists[c := Without(lists[c], k)], out + {lists[c][k]})
  {
    hide Class;
    var b, l := lists[c][k], Without(lists[c], k);
    var lists', out' := lists[c := l], out + {b};
    assert OnList(h, b, c, out);
    forall d, i | 0 <= d < CLASSES && 0 <= i < |lists'[d]| ensures OnList(h, lists'[d][i], d, out') {
      if d == c {
        var j := if i < k then i else i + 1;
        assert lists'[d][i] == lists[c][j];
        assert OnList(h, lists[c][j], c, out);
      } else {
        assert OnList(h, lists[d][i], d, out);
      }
    }
    forall a | a in h && h[a].free && a !in out' ensures a in lists'[Class(h[a].size)] {
      assert a in lists[Class(h[a].size)];
      if Class(h[a].size) == c { InWithout(lists[c], k, a); }
    }
  }

  lemma InWithout(s: seq<int>, k: nat, a: int)
    requires k < |s| && a in s && a != s[k]
    ensures a in Without(s, k)
  {
    var i :| 0 <= i < |s| && s[i] == a;
    assert Without(s, k)[if i < k then i else i - 1] == a;
  }

  lemma PutOn(h: Layout, lists: Table, out: set<int>, b: int)
    requires Listed(h, lists, out) && b in h && h[b].free && b in out
    ensures var c := Class(h[b].size);
            Listed(h, lists[c := [b] + lists[c]], out - {b}) && b !in lists[c]
  {
    hide Class;
    var c := Class(h[b].size);
    var l := [b] + lists[c];
    var lists', out' := lists[c := l], out - {b};
    assert forall i {:trigger lists[c][i]} :: 0 <= i < |lists[c]| ==> OnList(h, lists[c][i], c, out);
    forall d, i | 0 <= d < CLASSES && 0 <= i < |lists'[d]| ensures OnList(h, lists'[d][i], d, out') {
      if d == c {
        if i > 0 { assert l[i] == lists[c][i - 1]; assert OnList(h, lists[c][i - 1], c, out); }
      } else {
        assert OnList(h, lists[d][i], d, out);
      }
    }
    forall a | a in h && h[a].free && a !in out' ensures a in lists'[Class(h[a].size)] {
      if a == b { assert l[0] == b; } else { assert a in lists[Class(h[a].size)]; }
    }
  }

  /** The lists stay right when the layout changes around the listed blocks only. */
  lemma ListedFrame(h: Layout, h': Layout, lists: Table, out: set<int>, out': set<int>)
    requires Listed(h, lists, out)
    requires forall b {:trigger h[b]} {:trigger h'[b]} ::
               (b in h && h[b].free && b !in out) <==> (b in h' && h'[b].free && b !in out')
    requires forall b {:trigger h'[b]} :: b in h && h[b].free && b !in out ==> h'[b].size == h[b].size
    ensures Listed(h', lists, out')
  {
    hide Class;
    forall d, i | 0 <= d < CLASSES && 0 <= i < |lists[d]| ensures OnList(h', lists[d][i], d, out') {
      assert OnList(h, lists[d][i], d, out);
      assert h'[lists[d][i]].size == h[lists[d][i]].size;
    }
  }

  // ----- bitmaps

  /** The table position of a row and a column determines both. */
  lemma FlatUnique(f: nat, s: nat, g: nat, t: nat)
    requires s < 32 && t < 32 && f * 32 + s == g * 32 + t
    ensures f == g && s == t
  {}

  lemma SetBit(w: nat, i: nat, n: nat)
    requires w < Pow2(n) && i < n
    ensures Or(w, Pow2(i)) < Pow2(n) && Or(w, Pow2(i)) != 0
    ensures forall j: nat :: Bit(Or(w, Pow2(i)), j) <==> j == i || Bit(w, j)
  {
    hide Or, Bit;
    Pow2Mono(i, n);
    OrBound(w, Pow2(i), n);
    forall j: nat ensures Bit(Or(w, Pow2(i)), j) <==> j == i || Bit(w, j) {
      BitOr(w, Pow2(i), j);
      BitOfPow2(i, j);
    }
  }

  lemma ClearBit(w: nat, i: nat)
    requires w < WORD && i < 32
    ensures Pow2(i) < WORD && And(w, Not(Pow2(i))) <= w
    ensures forall j: nat :: j < 32 ==> (Bit(And(w, Not(Pow2(i))), j) <==> j != i && Bit(w, j))
  {
    hide And, Bit;
    Pow2Values();
    Pow2Mono(i, 32);
    AndBound(w, Not(Pow2(i)));
    forall j: nat | j < 32 ensures Bit(And(w, Not(Pow2(i))), j) <==> j != i && Bit(w, j) {
      BitAnd(w, Not(Pow2(i)), j);
      BitNot(Pow2(i), j);
      BitOfPow2(i, j);
    }
  }

  /** Inserting into list (f, s) sets both bits. */
  lemma MirrorSet(fl: nat, sl: seq<nat>, lists: Table, f: nat, s: nat, l: seq<int>)
    requires Mirrored(fl, sl, lists) && f < FL_INDEX_COUNT && s < SL_INDEX_COUNT && l != []
    ensures Mirrored(Or(fl, Pow2(f)), sl[f := Or(sl[f], Pow2(s))], lists[f * 32 + s := l])
  {
    hide Or, Bit, Pow2;
    Pow2Is32();
    SetBit(fl, f, FL_INDEX_COUNT);
    SetBit(sl[f], s, 32);
    var sl' := sl[f := Or(sl[f], Pow2(s))];
    forall g, t | 0 <= g < FL_INDEX_COUNT && 0 <= t < SL_INDEX_COUNT
      ensures Bit(sl'[g], t) <==> lists[f * 32 + s := l][g * 32 + t] != []
    {
      assert Bit(sl[g], t) <==> lists[g * 32 + t] != [];
      if g * 32 + t == f * 32 + s { FlatUnique(g, t, f, s); }
    }
  }

  lemma Pow2Is32()
    ensures Pow2(32) == WORD
  {
    Pow2Values();
  }

  /** Replacing list (f, s) by a list that is empty only if its bits are cleared as remove_free_block does. */
  lemma MirrorClear(fl: nat, sl: seq<nat>, lists: Table, f: nat, s: nat)
    requires Mirrored(fl, sl, lists) && f < FL_INDEX_COUNT && s < SL_INDEX_COUNT
    ensures Pow2(f) < WORD && Pow2(s) < WORD && fl < WORD
    ensures var slf := And(sl[f], Not(Pow2(s)));
            var fl' := if slf == 0 then And(fl, Not(Pow2(f))) else fl;
            Mirrored(fl', sl[f := slf], lists[f * 32 + s := []])
  {
    hide And, Bit, Pow2;
    Pow2Is32();
    assert Pow2(FL_INDEX_COUNT) < WORD by { Pow2Mono(FL_INDEX_COUNT, 32); }
    ClearBit(fl, f);
    ClearBit(sl[f], s);
    var slf := And(sl[f], Not(Pow2(s)));
    var sl' := sl[f := slf];
    forall g, t | 0 <= g < FL_INDEX_COUNT && 0 <= t < SL_INDEX_COUNT
      ensures Bit(sl'[g], t) <==> lists[f * 32 + s := []][g * 32 + t] != []
    {
      assert Bit(sl[g], t) <==> lists[g * 32 + t] != [];
      if g * 32 + t == f * 32 + s { FlatUnique(g, t, f, s); }
    }
    var fl' := if slf == 0 then And(fl, Not(Pow2(f))) else fl;
    forall g | 0 <= g < FL_INDEX_COUNT ensures sl'[g] < WORD && (Bit(fl', g) <==> sl'[g] != 0) {
      assert Bit(fl, g) <==> sl[g] != 0;
    }
  }

  /** Replacing a list by another nonempty one leaves the bitmaps right. */
  lemma MirrorKeep(fl: nat, sl: seq<nat>, lists: Table, c: nat, l: seq<int>)
    requires Mirrored(fl, sl, lists) && c < CLASSES && lists[c] != [] && l != []
    ensures Mirrored(fl, sl, lists[c := l])
  {
    hide Bit, Pow2;
    forall g, t | 0 <= g < FL_INDEX_COUNT && 0 <= t < SL_INDEX_COUNT
      ensures Bit(sl[g], t) <==> lists[c := l][g * 32 + t] != []
    {
      assert Bit(sl[g], t) <==> lists[g * 32 + t] != [];
    }
  }
}
