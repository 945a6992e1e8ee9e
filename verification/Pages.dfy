/** Virtual address zones (kernel/page.c): two linked lists, sorted by address, of the ranges in use in the user half
    and in the kernel half of the address space. */
module Pages {
  import opened Words

  const PAGE_SIZE: nat := 4096
  const USER_MIN: nat := 0x0040_0000
  const USER_MAX: nat := 0xbfc0_0000
  const KERN_MAX: nat := 0xffff_f000
  const SIZE_MAX: nat := 0xffff_ffff
  const PROT_ALL: nat := 7

  /** What a zone says: the addresses from base on, `limit` of them, and their protection. */
  datatype Range = Range(base: nat, limit: nat, protect: nat)

  function End(r: Range): nat { r.base + r.limit }

  // ----- sorted lists of ranges

  predicate Aligned(a: nat) { a % PAGE_SIZE == 0 }

  /** The ranges are whole pages, lie within [lo, hi), and come in order without overlap. */
  ghost predicate Ordered(rs: seq<Range>, lo: nat, hi: nat) {
    && (forall i {:trigger rs[i]} :: 0 <= i < |rs| ==>
          lo <= rs[i].base && rs[i].limit > 0 && End(rs[i]) <= hi && Aligned(rs[i].base) && Aligned(rs[i].limit))
    && (forall i, j {:trigger rs[i], rs[j]} :: 0 <= i < j < |rs| ==> End(rs[i]) <= rs[j].base)
  }

  predicate Meets(r: Range, va: nat, size: nat) {
    va < End(r) && r.base < va + size
  }

  /** No range in the list meets [va, va + size). */
  ghost predicate Free(rs: seq<Range>, va: nat, size: nat) {
    forall i {:trigger rs[i]} :: 0 <= i < |rs| ==> !Meets(rs[i], va, size)
  }

  function Insert(rs: seq<Range>, k: nat, r: Range): seq<Range>
    requires k <= |rs|
  {
    rs[..k] + [r] + rs[k..]
  }

  function Delete(rs: seq<Range>, k: nat): seq<Range>
    requires k < |rs|
  {
    rs[..k] + rs[k + 1..]
  }

  lemma InsertOrdered(rs: seq<Range>, lo: nat, hi: nat, k: nat, r: Range)
    requires Ordered(rs, lo, hi) && k <= |rs| && lo <= r.base && r.limit > 0 && End(r) <= hi && Aligned(r.base)
    requires Aligned(r.limit)
    requires k > 0 ==> End(rs[k - 1]) <= r.base
    requires k < |rs| ==> End(r) <= rs[k].base
    ensures Ordered(Insert(rs, k, r), lo, hi)
  {
    hide Aligned;
    var t := Insert(rs, k, r);
    forall i, j | 0 <= i < j < |t| ensures End(t[i]) <= t[j].base { PairInOrder(rs, lo, hi, k, r, i, j); }
  }

  lemma PairInOrder(rs: seq<Range>, lo: nat, hi: nat, k: nat, r: Range, i: nat, j: nat)
    requires Ordered(rs, lo, hi) && k <= |rs| && i < j <= |rs|
    requires k > 0 ==> End(rs[k - 1]) <= r.base
    requires k < |rs| ==> End(r) <= rs[k].base
    ensures End(Insert(rs, k, r)[i]) <= Insert(rs, k, r)[j].base
  {
    hide Aligned;
    if i == k {
      if j - 1 > k { assert End(rs[k]) <= rs[j - 1].base && rs[k].limit > 0; }
    } else if j == k {
      if i < k - 1 { assert End(rs[i]) <= rs[k - 1].base && rs[k - 1].limit > 0; }
    }
  }

  lemma DeleteOrdered(rs: seq<Range>, lo: nat, hi: nat, k: nat)
    requires Ordered(rs, lo, hi) && k < |rs|
    ensures Ordered(Delete(rs, k), lo, hi)
  {
    var t := Delete(rs, k);
    forall i, j | 0 <= i < j < |t| ensures End(t[i]) <= t[j].base {
      assert t[i] == rs[if i < k then i else i + 1] && t[j] == rs[if j < k then j else j + 1];
    }
  }

  // ----- the page-to-protection map

  /** Protection of an address; -1 where there is no zone. */
  function Protection(rs: seq<Range>, va: nat): int {
    if rs == [] then -1 else if rs[0].base <= va < End(rs[0]) then rs[0].protect else Protection(rs[1..], va)
  }

  lemma {:induction false} ProtectionAt(rs: seq<Range>, lo: nat, hi: nat, k: nat, va: nat)
    requires Ordered(rs, lo, hi) && k < |rs| && rs[k].base <= va < End(rs[k])
    ensures Protection(rs, va) == rs[k].protect
  {
    if k > 0 {
      assert End(rs[0]) <= rs[k].base;
      ProtectionAt(rs[1..], lo, hi, k - 1, va);
    }
  }

  lemma {:induction false} ProtectionNone(rs: seq<Range>, va: nat)
    requires forall i {:trigger rs[i]} :: 0 <= i < |rs| ==> !(rs[i].base <= va < End(rs[i]))
    ensures Protection(rs, va) == -1
  {
    if rs != [] {
      assert forall i {:trigger rs[1..][i]} :: 0 <= i < |rs[1..]| ==> rs[1..][i] == rs[i + 1];
      ProtectionNone(rs[1..], va);
    }
  }

  /** Taking a free range gives its pages their protection, and changes no other page's. */
  lemma InsertProtects(rs: seq<Range>, lo: nat, hi: nat, k: nat, r: Range, va: nat)
    requires Ordered(rs, lo, hi) && k <= |rs| && Ordered(Insert(rs, k, r), lo, hi)
    ensures Protection(Insert(rs, k, r), va) == if r.base <= va < End(r) then r.protect else Protection(rs, va)
  {
    var t := Insert(rs, k, r);
    if r.base <= va < End(r) {
      assert t[k] == r;
      ProtectionAt(t, lo, hi, k, va);
    } else if i :| 0 <= i < |rs| && rs[i].base <= va < End(rs[i]) {
      var j := if i < k then i else i + 1;
      assert t[j] == rs[i];
      ProtectionAt(t, lo, hi, j, va);
      ProtectionAt(rs, lo, hi, i, va);
    } else {
      forall j | 0 <= j < |t| ensures !(t[j].base <= va < End(t[j])) {
        assert t[j] == if j < k then rs[j] else if j == k then r else rs[j - 1];
      }
      ProtectionNone(t, va);
      ProtectionNone(rs, va);
    }
  }

  lemma DeleteUnprotects(rs: seq<Range>, lo: nat, hi: nat, k: nat, va: nat)
    requires Ordered(rs, lo, hi) && k < |rs|
    ensures Protection(Delete(rs, k), va) == if rs[k].base <= va < End(rs[k]) then -1 else Protection(rs, va)
  {
    DeleteOrdered(rs, lo, hi, k);
    var t := Delete(rs, k);
    assert Insert(t, k, rs[k]) == rs;
    InsertProtects(t, lo, hi, k, rs[k], va);
    if rs[k].base <= va < End(rs[k]) {
      forall j | 0 <= j < |t| ensures !(t[j].base <= va < End(t[j])) {
        assert t[j] == rs[if j < k then j else j + 1];
      }
      ProtectionNone(t, va);
    }
  }

  /** The addresses from va on, so many bytes of them, get a protection, and no other address changes its own. */
  ghost predicate Reprotected(before: seq<Range>, after: seq<Range>, va: nat, bytes: int, prot: int) {
    forall a: nat {:trigger Protection(after, a)} ::
      Protection(after, a) == if va <= a < va + bytes then prot else Protection(before, a)
  }

  lemma InsertReprotects(rs: seq<Range>, lo: nat, hi: nat, k: nat, r: Range)
    requires Ordered(rs, lo, hi) && k <= |rs| && Ordered(Insert(rs, k, r), lo, hi)
    ensures Reprotected(rs, Insert(rs, k, r), r.base, r.limit, r.protect)
  {
    forall a: nat
      ensures Protection(Insert(rs, k, r), a) == if r.base <= a < r.base + r.limit then r.protect else Protection(rs, a)
    {
      InsertProtects(rs, lo, hi, k, r, a);
    }
  }

  lemma DeleteReprotects(rs: seq<Range>, lo: nat, hi: nat, k: nat, va: nat, size: nat)
    requires Ordered(rs, lo, hi) && k < |rs| && IsAt(rs, k, va, size)
    ensures Reprotected(rs, Delete(rs, k), va, size, -1)
  {
    forall a: nat
      ensures Protection(Delete(rs, k), a) == if va <= a < va + size then -1 else Protection(rs, a)
    {
      DeleteUnprotects(rs, lo, hi, k, a);
    }
  }

  // ----- zones in memory

  class VmZone {
    var base: nat
    var limit: nat
    var protect: nat
    var next: VmZone?

    constructor (base: nat, limit: nat, protect: nat)
      ensures this.base == base && this.limit == limit && this.protect == protect && next == null
    {
      this.base, this.limit, this.protect, this.next := base, limit, protect, null;
    }
  }

  /** A null-terminated list of zones that holds the ranges, in order. */
  ghost predicate Represents(head: VmZone?, nodes: seq<VmZone>, rs: seq<Range>)
    reads nodes
  {
    && |nodes| == |rs| && head == (if nodes == [] then null else nodes[0])
    && (forall i, j :: 0 <= i < j < |nodes| ==> nodes[i] != nodes[j])
    && (forall i {:trigger nodes[i]} :: 0 <= i < |nodes| ==>
          nodes[i].base == rs[i].base && nodes[i].limit == rs[i].limit && nodes[i].protect == rs[i].protect
          && nodes[i].next == if i + 1 < |nodes| then nodes[i + 1] else null)
  }

  ghost function SpliceNodes(nodes: seq<VmZone>, k: nat, x: VmZone): seq<VmZone>
    requires k <= |nodes|
  {
    nodes[..k] + [x] + nodes[k..]
  }

  /** Link a new zone between q and p, at position k of a list. */
  method Splice(head: VmZone?, q: VmZone?, p: VmZone?, va: nat, size: nat, prot: nat, ghost nodes: seq<VmZone>,
                ghost rs: seq<Range>, ghost k: nat)
    returns (head': VmZone?, x: VmZone)
    requires Represents(head, nodes, rs) && k <= |nodes|
    requires q == (if k > 0 then nodes[k - 1] else null) && p == (if k < |nodes| then nodes[k] else null)
    modifies if q == null then {} else {q}
    ensures fresh(x) && k <= |rs| && Represents(head', SpliceNodes(nodes, k, x), Insert(rs, k, Range(va, size, prot)))
    ensures head' == if q == null then x else head
  {
    x := new VmZone(va, size, prot);
    SplicedDistinct(nodes, k, x);
    SplicedAt(nodes, rs, k, x, Range(va, size, prot));
    hide SpliceNodes, Insert;
    if q == null {
      x.next := p;
      head' := x;
    } else {
      x.next := q.next;
      q.next := x;
      head' := head;
    }
    ghost var nodes', rs' := SpliceNodes(nodes, k, x), Insert(rs, k, Range(va, size, prot));
    forall i | 0 <= i < |nodes'|
      ensures nodes'[i].base == rs'[i].base && nodes'[i].limit == rs'[i].limit && nodes'[i].protect == rs'[i].protect
              && nodes'[i].next == if i + 1 < |nodes'| then nodes'[i + 1] else null
    {
      if i < k {
        assert nodes'[i] == nodes[i];
      } else if i > k {
        assert nodes'[i] == nodes[i - 1];
      }
    }
  }

  lemma SplicedDistinct(nodes: seq<VmZone>, k: nat, x: VmZone)
    requires k <= |nodes| && x !in nodes && forall i, j :: 0 <= i < j < |nodes| ==> nodes[i] != nodes[j]
    ensures forall i, j :: 0 <= i < j < |SpliceNodes(nodes, k, x)| ==>
                             SpliceNodes(nodes, k, x)[i] != SpliceNodes(nodes, k, x)[j]
  {}

  lemma SplicedAt(nodes: seq<VmZone>, rs: seq<Range>, k: nat, x: VmZone, r: Range)
    requires k <= |nodes| == |rs|
    ensures |SpliceNodes(nodes, k, x)| == |Insert(rs, k, r)| == |nodes| + 1
    ensures forall i {:trigger SpliceNodes(nodes, k, x)[i]} {:trigger Insert(rs, k, r)[i]} :: 0 <= i <= |nodes| ==>
              SpliceNodes(nodes, k, x)[i] == (if i < k then nodes[i] else if i == k then x else nodes[i - 1])
              && Insert(rs, k, r)[i] == if i < k then rs[i] else if i == k then r else rs[i - 1]
  {}

  class AddressSpace {
    var kvmzone: VmZone?
    var uvmzone: VmZone?
    ghost var kernel: seq<Range>
    ghost var user: seq<Range>
    ghost var kernelNodes: seq<VmZone>
    ghost var userNodes: seq<VmZone>

    /** The two lists in memory; the kernel's starts with the kernel image. */
    ghost predicate Shape()
      reads this, kernelNodes, userNodes
    {
      && Represents(kvmzone, kernelNodes, kernel) && Represents(uvmzone, userNodes, user)
      && (forall i, j :: 0 <= i < |userNodes| && 0 <= j < |kernelNodes| ==> userNodes[i] != kernelNodes[j])
      && |kernel| > 0 && kernel[0].base == USER_MAX
    }

    /** Both lists are sorted, without overlap and inside their half. */
    ghost predicate Valid()
      reads this, kernelNodes, userNodes
    {
      Shape() && Ordered(user, USER_MIN, USER_MAX) && Ordered(kernel, USER_MAX, KERN_MAX)
    }

    ghost function Zones(user: bool): seq<Range>
      reads this
    {
      if user then this.user else kernel
    }

    /** init_vmspace: km0 covers the kernel image up to brk. */
    constructor (brk: nat)
      requires USER_MAX < brk <= KERN_MAX && Aligned(brk)
      ensures Valid() && user == [] && kernel == [Range(USER_MAX, brk - USER_MAX, PROT_ALL)]
    {
      var km0 := new VmZone(USER_MAX, brk - USER_MAX, PROT_ALL);
      kvmzone, uvmzone := km0, null;
      kernel, user := [Range(USER_MAX, brk - USER_MAX, PROT_ALL)], [];
      kernelNodes, userNodes := [km0], [];
    }

    /** page_prot: the protection of the zone an address lies in, or -1. */
    method PageProt(va: nat) returns (prot: int)
      requires Valid()
      ensures prot == Protection(Zones(va < USER_MAX), va)
    {
      hide Ordered, Protection, Represents;
      var p := kvmzone;
      ghost var nodes, rs := kernelNodes, kernel;
      if va < USER_MAX {
        p := uvmzone;
        nodes, rs := userNodes, user;
      }
      HeadNode(p, nodes, rs);
      ghost var head, i: nat := p, 0;
      assert rs[0..] == rs;
      while p != null
        invariant 0 <= i <= |nodes| == |rs| && p == (if i < |nodes| then nodes[i] else null)
        invariant Protection(rs[i..], va) == Protection(rs, va)
        decreases |nodes| - i
      {
        NodeAt(head, nodes, rs, i);
        ProtectionStep(rs, i, va);
        if p.base <= va < p.base + p.limit {
          return p.protect;
        }
        p := p.next;
        i := i + 1;
      }
      ProtectionEnd(rs, va);
      prot := -1;
    }

    /** Link a new zone between q and p, the neighbours at position k of a list. */
    method Link(inUser: bool, q: VmZone?, p: VmZone?, va: nat, size: nat, prot: nat, ghost k: nat)
      requires Valid() && k <= |Zones(inUser)| == |Nodes(inUser)| && (k == 0 ==> inUser)
      requires q == (if k > 0 then Nodes(inUser)[k - 1] else null)
      requires p == (if k < |Nodes(inUser)| then Nodes(inUser)[k] else null)
      modifies this, kernelNodes, userNodes
      ensures Shape() && Zones(inUser) == Insert(old(Zones(inUser)), k, Range(va, size, prot))
      ensures Zones(!inUser) == old(Zones(!inUser))
      ensures FitsAt(old(Zones(inUser)), k, va, size, Bottom(inUser), Top(inUser)) ==> Valid()
    {
      hide Ordered, Aligned, Represents, FitsAt;
      ghost var rs, nodes, r := Zones(inUser), Nodes(inUser), Range(va, size, prot);
      if FitsAt(rs, k, va, size, Bottom(inUser), Top(inUser)) {
        InsertFits(rs, Bottom(inUser), Top(inUser), k, r);
      }
      InsertStart(rs, k, r);
      var head, x := Splice(if inUser then uvmzone else kvmzone, q, p, va, size, prot, nodes, rs, k);
      if q == null { uvmzone := head; }
      if inUser {
        user, userNodes := Insert(rs, k, r), SpliceNodes(nodes, k, x);
      } else {
        kernel, kernelNodes := Insert(rs, k, r), SpliceNodes(nodes, k, x);
      }
    }

    ghost function Nodes(inUser: bool): seq<VmZone>
      reads this
    {
      if inUser then userNodes else kernelNodes
    }

    /** page_alloc_in_addr: take the pages from va on. */
    method PageAllocInAddr(va: nat, npages: int, prot: nat) returns (r: nat, ghost k: nat)
      requires Valid() && va < WORD
      modifies this, kernelNodes, userNodes
      ensures r == if Accepted(old(Zones(va < USER_MAX)), va, npages) then va else SIZE_MAX
      ensures va + npages * PAGE_SIZE < WORD ==>
                (r == va && va != SIZE_MAX <==>
                 Legal(va, npages) && Free(old(Zones(va < USER_MAX)), va, npages * PAGE_SIZE))
      ensures Accepted(old(Zones(va < USER_MAX)), va, npages) ==>
                && k <= |old(Zones(va < USER_MAX))|
                && Zones(va < USER_MAX)
                   == Insert(old(Zones(va < USER_MAX)), k, Range(va, (npages * PAGE_SIZE) % WORD, prot))
                && Zones(va >= USER_MAX) == old(Zones(va >= USER_MAX))
      ensures !Accepted(old(Zones(va < USER_MAX)), va, npages) ==> user == old(user) && kernel == old(kernel)
      ensures Shape()
      ensures !(Accepted(old(Zones(va < USER_MAX)), va, npages) && va + npages * PAGE_SIZE >= WORD) ==> Valid()
      ensures r != 0xffff_ffff && va + 4096 * npages < 0x1_0000_0000 ==>
                Reprotected(old(Zones(va < USER_MAX)), Zones(va < USER_MAX), va, 4096 * npages, prot)
    {
      hide Ordered, Aligned, Represents, Free, FitsAt, Legal, Accepted, Clear, Reprotected;
      AcceptedRight(Zones(va < USER_MAX), va, npages);
      AcceptedMeans(Zones(va < USER_MAX), va, npages);
      k := 0;
      var size := (npages * PAGE_SIZE) % WORD;
      SumOfRemainder(va, npages * PAGE_SIZE);
      if npages <= 0 { return SIZE_MAX, k; }
      if va % PAGE_SIZE != 0 { return SIZE_MAX, k; }
      if va < USER_MIN || va >= KERN_MAX || Add32(va, size) > KERN_MAX { return SIZE_MAX, k; }
      if va < USER_MAX && Add32(va, size) > USER_MAX { return SIZE_MAX, k; }
      var p, q, fits;
      p, q, fits, k := FindPlace(va, size);
      if !fits { return SIZE_MAX, k; }
      if k == 0 { KernelStart(kernel, va); }
      PlaceFits(Zones(va < USER_MAX), va, npages, k);
      ghost var rs := Zones(va < USER_MAX);
      Link(va < USER_MAX, q, p, va, size, prot, k);
      r := va;
      if va + npages * PAGE_SIZE < WORD {
        InsertReprotects(rs, Bottom(va < USER_MAX), Top(va < USER_MAX), k, Range(va, size, prot));
      }
    }

    /** page_alloc: take the first gap that is large enough after the first zone of a half. */
    method PageAlloc(npages: int, prot: nat, inUser: bool) returns (r: nat, ghost k: nat)
      requires Valid()
      modifies this, kernelNodes, userNodes
      ensures npages > 0 ==> r == Chosen(old(Zones(inUser)), inUser, (npages * PAGE_SIZE) % WORD)
      ensures npages <= 0 ==> r == SIZE_MAX
      ensures Shape() && Zones(!inUser) == old(Zones(!inUser))
      ensures r == SIZE_MAX ==> Valid() && Zones(inUser) == old(Zones(inUser))
      ensures r != SIZE_MAX ==>
                && k <= |old(Zones(inUser))|
                && Zones(inUser) == Insert(old(Zones(inUser)), k, Range(r, (npages * PAGE_SIZE) % WORD, prot))
      ensures npages * PAGE_SIZE >= WORD ==>
                (Right(old(Zones(inUser)), inUser, npages * PAGE_SIZE, r) <==> r == SIZE_MAX)
      ensures 0 < npages * PAGE_SIZE < WORD && !WronglyTaken(old(Zones(inUser)), inUser, npages * PAGE_SIZE) ==>
                Valid() && Right(old(Zones(inUser)), inUser, npages * PAGE_SIZE, r)
      ensures r != 0xffff_ffff && 4096 * npages < 0x1_0000_0000 && Valid() ==>
                Reprotected(old(Zones(inUser)), Zones(inUser), r, 4096 * npages, prot)
    {
      hide Ordered, Aligned, Represents, FitsAt, Right, WronglyTaken, StopAt, Reprotected;
      k := 0;
      var size := (npages * PAGE_SIZE) % WORD;
      if npages <= 0 { return SIZE_MAX, k; }
      ghost var rs := Zones(inUser);
      if npages * PAGE_SIZE < WORD {
        SizeAligned(npages);
        ChosenRightIff(rs, inUser, size);
      } else {
        HugeRightIff(rs, inUser, npages);
      }
      var p, q, va;
      p, q, va, k := FindGap(size, inUser);
      var max := Top(inUser);
      if va >= max || Add32(va, size) > max { return SIZE_MAX, k; }
      if npages * PAGE_SIZE < WORD && !WronglyTaken(rs, inUser, size) {
        RightFits(rs, inUser, size);
      }
      Link(inUser, q, p, va, size, prot, k);
      r := va;
      if npages * PAGE_SIZE < WORD && Valid() {
        InsertReprotects(rs, Bottom(inUser), Top(inUser), k, Range(r, size, prot));
      }
    }

    /** The loop of page_alloc. */
    method FindGap(size: nat, inUser: bool) returns (p: VmZone?, q: VmZone?, va: nat, ghost k: nat)
      requires Valid()
      ensures k == Place(Zones(inUser), size) <= |Nodes(inUser)| == |Zones(inUser)| && (k == 0 ==> inUser)
      ensures q == (if k > 0 then Nodes(inUser)[k - 1] else null)
      ensures p == (if k < |Nodes(inUser)| then Nodes(inUser)[k] else null)
      ensures va == CandidateAt(Zones(inUser), k)
    {
      hide Ordered, Represents;
      p, q, k := if inUser then uvmzone else kvmzone, null, 0;
      ghost var nodes, rs, head := Nodes(inUser), Zones(inUser), p;
      HeadNode(p, nodes, rs);
      if p == null {
        va := USER_MIN;
      } else {
        NodeAt(head, nodes, rs, 0);
        va := p.base + p.limit;
        q, p, k := p, p.next, 1;
      }
      while p != null
        invariant |nodes| == |rs| && (0 < k <= |nodes| || (k == 0 && p == null && rs == [] && inUser))
        invariant p == (if k < |nodes| then nodes[k] else null) && q == (if k > 0 then nodes[k - 1] else null)
        invariant va == CandidateAt(rs, k) && (k > 0 ==> StopAt(rs, k, size) == StopAt(rs, 1, size))
        decreases |nodes| - k
      {
        NodeAt(head, nodes, rs, k);
        if Add32(va, size) <= p.base { break; }
        va := p.base + p.limit;
        q, p := p, p.next;
        k := k + 1;
      }
    }

    /** page_free: release a zone given by its address and size; never the kernel image. */
    method PageFree(va: nat, npages: int) returns (r: int, ghost k: nat)
      requires Valid()
      modifies this, kernelNodes, userNodes
      ensures Valid() && (r == 0 || r == -1) && Zones(va >= USER_MAX) == old(Zones(va >= USER_MAX))
      ensures r == 0
              <==> npages > 0 && va != USER_MAX && Has(old(Zones(va < USER_MAX)), va, (npages * PAGE_SIZE) % WORD)
      ensures r == 0 ==>
                k < |old(Zones(va < USER_MAX))| && IsAt(old(Zones(va < USER_MAX)), k, va, (npages * PAGE_SIZE) % WORD)
                         && Zones(va < USER_MAX) == Delete(old(Zones(va < USER_MAX)), k)
      ensures r == -1 ==> Zones(va < USER_MAX) == old(Zones(va < USER_MAX))
      ensures r == 0 && 4096 * npages < 0x1_0000_0000 ==>
                Reprotected(old(Zones(va < USER_MAX)), Zones(va < USER_MAX), va, 4096 * npages, -1)
    {
      hide Ordered, Aligned, Represents, IsAt, Reprotected;
      k := 0;
      var size := (npages * PAGE_SIZE) % WORD;
      if npages <= 0 { return -1, k; }
      // the kernel image
      if va == USER_MAX { return -1, k; }
      var p, q, found;
      p, q, found, k := FindZone(va, size);
      if !found { return -1, k; }
      ghost var inUser, rs, nodes := va < USER_MAX, Zones(va < USER_MAX), Nodes(va < USER_MAX);
      if k == 0 { KernelStart(kernel, va); }
      Unlinked(rs, Bottom(inUser), Top(inUser), k, va, size);
      DeleteReprotects(rs, Bottom(inUser), Top(inUser), k, va, size);
      var head := Bypass(if va < USER_MAX then uvmzone else kvmzone, q, p, nodes, rs, k);
      if q == null { uvmzone := head; }
      if inUser {
        user, userNodes := Delete(rs, k), DropNode(nodes, k);
      } else {
        kernel, kernelNodes := Delete(rs, k), DropNode(nodes, k);
      }
      r := 0;
    }

    method FindZone(va: nat, size: nat) returns (p: VmZone?, q: VmZone?, found: bool, ghost k: nat)
      requires Valid()
      ensures found <==> Has(Zones(va < USER_MAX), va, size)
      ensures found ==> var nodes := Nodes(va < USER_MAX);
                        k < |nodes| == |Zones(va < USER_MAX)| && p == nodes[k]
                        && q == (if k > 0 then nodes[k - 1] else null) && IsAt(Zones(va < USER_MAX), k, va, size)
    {
      hide Ordered, Aligned, Represents;
      p, q, k := if va < USER_MAX then uvmzone else kvmzone, null, 0;
      ghost var nodes, rs, head := Nodes(va < USER_MAX), Zones(va < USER_MAX), p;
      HeadNode(p, nodes, rs);
      while p != null
        invariant 0 <= k <= |nodes| == |rs| && p == (if k < |nodes| then nodes[k] else null)
        invariant q == (if k > 0 then nodes[k - 1] else null)
        invariant forall i :: 0 <= i < k ==> !IsAt(rs, i, va, size)
        decreases |nodes| - k
      {
        NodeAt(head, nodes, rs, k);
        if va == p.base && size == p.limit {
          assert IsAt(rs, k, va, size);
          found := true;
          return;
        }
        q, p := p, p.next;
        k := k + 1;
      }
      found := false;
    }

    /** The loop of page_alloc_in_addr: the zones that the range comes after and before, if it meets none. */
    method FindPlace(va: nat, size: nat) returns (p: VmZone?, q: VmZone?, fits: bool, ghost k: nat)
      requires Valid()
      ensures fits <==> Clear(Zones(va < USER_MAX), va, Add32(va, size))
      ensures k <= |Nodes(va < USER_MAX)| == |Zones(va < USER_MAX)|
      ensures fits ==> var nodes := Nodes(va < USER_MAX);
                       && Between(Zones(va < USER_MAX), k, va)
                       && q == (if k > 0 then nodes[k - 1] else null) && p == (if k < |nodes| then nodes[k] else null)
    {
      hide Ordered, Represents, Clear;
      p, q, k := kvmzone, null, 0;
      if va < USER_MAX { p := uvmzone; }
      ghost var nodes, rs, head := Nodes(va < USER_MAX), Zones(va < USER_MAX), p;
      HeadNode(p, nodes, rs);
      while p != null
        invariant 0 <= k <= |nodes| == |rs|
        invariant p == (if k < |nodes| then nodes[k] else null) && q == (if k > 0 then nodes[k - 1] else null)
        invariant k > 0 ==> End(rs[k - 1]) <= va
        decreases |nodes| - k
      {
        NodeAt(head, nodes, rs, k);
        if p.base <= va < p.base + p.limit {
          NotClear(rs, k, va, Add32(va, size));
          fits := false;
          return;
        }
        if va < p.base {
          if Add32(va, size) > p.base {
            NotClear(rs, k, va, Add32(va, size));
            fits := false;
            return;
          }
          break;
        }
        q, p := p, p.next;
        k := k + 1;
      }
      ClearHere(rs, Bottom(va < USER_MAX), Top(va < USER_MAX), k, va, Add32(va, size));
      fits := true;
    }
  }

  /** The sum of 32-bit words. */
  function Add32(a: nat, b: nat): nat { (a + b) % WORD }

  /** The zones before position k end at or before va, and the others begin after it. */
  predicate Between(rs: seq<Range>, k: nat, va: nat) {
    k <= |rs| && (k > 0 ==> End(rs[k - 1]) <= va) && (k < |rs| ==> va < rs[k].base)
  }

  /** No zone holds va, and a zone above va begins at or after end. */
  ghost predicate Clear(rs: seq<Range>, va: nat, end: nat) {
    forall i {:trigger rs[i]} :: 0 <= i < |rs| ==>
      !(rs[i].base <= va < End(rs[i])) && (va < rs[i].base ==> end <= rs[i].base)
  }

  lemma NotClear(rs: seq<Range>, k: nat, va: nat, end: nat)
    requires k < |rs| && (rs[k].base <= va < End(rs[k]) || (va < rs[k].base && end > rs[k].base))
    ensures !Clear(rs, va, end)
  {}

  lemma ClearHere(rs: seq<Range>, lo: nat, hi: nat, k: nat, va: nat, end: nat)
    requires Ordered(rs, lo, hi) && Between(rs, k, va) && (k < |rs| ==> end <= rs[k].base)
    ensures Clear(rs, va, end)
  {
    hide Aligned;
    forall i | 0 <= i < |rs|
      ensures !(rs[i].base <= va < End(rs[i])) && (va < rs[i].base ==> end <= rs[i].base)
    {
      if i < k - 1 { assert End(rs[i]) <= rs[k - 1].base && rs[k - 1].limit > 0; }
      if i > k { assert End(rs[k]) <= rs[i].base && rs[k].limit > 0; }
      if i < k { assert rs[i].limit > 0; }
    }
  }

  /** What page_alloc_in_addr grants, its sums taken modulo 2^32. */
  ghost predicate Accepted(rs: seq<Range>, va: nat, npages: int) {
    && npages > 0 && Aligned(va) && USER_MIN <= va < KERN_MAX && Add32(va, npages * PAGE_SIZE) <= KERN_MAX
    && (va < USER_MAX ==> Add32(va, npages * PAGE_SIZE) <= USER_MAX) && Clear(rs, va, Add32(va, npages * PAGE_SIZE))
  }

  lemma AcceptedMeans(rs: seq<Range>, va: nat, npages: int)
    ensures Accepted(rs, va, npages) <==>
              npages > 0 && va % PAGE_SIZE == 0
              && !(va < USER_MIN || va >= KERN_MAX || Add32(va, npages * PAGE_SIZE) > KERN_MAX)
              && !(va < USER_MAX && Add32(va, npages * PAGE_SIZE) > USER_MAX)
              && Clear(rs, va, Add32(va, npages * PAGE_SIZE))
  {}

  /** Without wrap-around, what is granted is what is legal and free. */
  lemma AcceptedRight(rs: seq<Range>, va: nat, npages: int)
    requires va < WORD && Ordered(rs, Bottom(va < USER_MAX), Top(va < USER_MAX))
    ensures va + npages * PAGE_SIZE < WORD ==>
              (Accepted(rs, va, npages) <==> Legal(va, npages) && Free(rs, va, npages * PAGE_SIZE))
  {
    if 0 < npages && va + npages * PAGE_SIZE < WORD {
      var size := npages * PAGE_SIZE;
      assert Add32(va, size) == va + size;
      forall i | 0 <= i < |rs|
        ensures !Meets(rs[i], va, size)
                <==> !(rs[i].base <= va < End(rs[i])) && (va < rs[i].base ==> va + size <= rs[i].base)
      {
        assert rs[i].limit > 0;
      }
      hide Aligned, Meets, Add32, Ordered;
    }
  }

  /** Exactly when page_alloc_in_addr decides rightly: unless the range runs past 2^32 and is granted all the same,
      which for a size below 2^32 means that it begins at a page that could be taken. */
  lemma AcceptedRightIff(rs: seq<Range>, va: nat, npages: int)
    requires va < WORD && Ordered(rs, Bottom(va < USER_MAX), Top(va < USER_MAX))
    ensures (Accepted(rs, va, npages) <==> Legal(va, npages) && Free(rs, va, npages * PAGE_SIZE))
            <==> !(va + npages * PAGE_SIZE >= WORD && Accepted(rs, va, npages))
    ensures npages * PAGE_SIZE < WORD <= va + npages * PAGE_SIZE ==>
              (Accepted(rs, va, npages) <==> Aligned(va) && USER_MIN <= va < KERN_MAX && Clear(rs, va, va))
  {
    hide Ordered, Free, Aligned;
    AcceptedRight(rs, va, npages);
    if npages * PAGE_SIZE < WORD <= va + npages * PAGE_SIZE {
      assert Add32(va, npages * PAGE_SIZE) == va + npages * PAGE_SIZE - WORD;
    }
  }

  lemma SumOfRemainder(a: nat, b: int)
    ensures b >= 0 ==> Add32(a, b % WORD) == Add32(a, b)
  {}

  lemma PlaceFits(rs: seq<Range>, va: nat, npages: int, k: nat)
    requires Ordered(rs, Bottom(va < USER_MAX), Top(va < USER_MAX)) && Between(rs, k, va) && Accepted(rs, va, npages)
    ensures va + npages * PAGE_SIZE < WORD ==>
              FitsAt(rs, k, va, (npages * PAGE_SIZE) % WORD, Bottom(va < USER_MAX), Top(va < USER_MAX))
  {
    hide Ordered;
    assert Aligned(npages * PAGE_SIZE);
    hide Aligned;
    if va + npages * PAGE_SIZE < WORD { assert Add32(va, npages * PAGE_SIZE) == va + npages * PAGE_SIZE; }
  }

  // ----- the search of page_alloc

  /** The address behind the zones before position k. */
  function CandidateAt(rs: seq<Range>, k: nat): nat
    requires k <= |rs|
  {
    if k == 0 then USER_MIN else End(rs[k - 1])
  }

  /** Where the loop of page_alloc stops, from position k on. */
  function StopAt(rs: seq<Range>, k: nat, size: nat): (j: nat)
    requires 0 < k <= |rs|
    ensures k <= j <= |rs|
    decreases |rs| - k
  {
    if k == |rs| || Add32(End(rs[k - 1]), size) <= rs[k].base then k else StopAt(rs, k + 1, size)
  }

  function Place(rs: seq<Range>, size: nat): (j: nat)
    ensures j <= |rs| && (j == 0 <==> rs == [])
  {
    if rs == [] then 0 else StopAt(rs, 1, size)
  }

  /** What page_alloc answers, its sums taken modulo 2^32. */
  function Chosen(rs: seq<Range>, inUser: bool, size: nat): nat {
    var va := CandidateAt(rs, Place(rs, size));
    if va >= Top(inUser) || Add32(va, size) > Top(inUser) then SIZE_MAX else va
  }

  /** Where page_alloc starts to look: after the first zone of the half. */
  function SearchStart(rs: seq<Range>, inUser: bool): nat {
    if rs == [] then (if inUser then USER_MIN else USER_MAX) else End(rs[0])
  }

  /** From where the search starts, va is the lowest address at which the range is free and inside the half. */
  ghost predicate LowestFit(rs: seq<Range>, inUser: bool, va: nat, size: nat) {
    && SearchStart(rs, inUser) <= va && va + size <= Top(inUser) && Free(rs, va, size)
    && forall v :: SearchStart(rs, inUser) <= v < va ==> !Free(rs, v, size)
  }

  ghost predicate NothingBefore(rs: seq<Range>, inUser: bool, size: nat, va: nat) {
    SearchStart(rs, inUser) <= va && forall v :: SearchStart(rs, inUser) <= v < va ==> !Free(rs, v, size)
  }

  /** The right answer: the lowest fit if there is one, and the error value if there is none. */
  ghost predicate Right(rs: seq<Range>, inUser: bool, size: nat, r: nat) {
    if r == SIZE_MAX then !HasFit(rs, inUser, size) else LowestFit(rs, inUser, r, size)
  }

  ghost predicate HasFit(rs: seq<Range>, inUser: bool, size: nat) {
    exists v :: SearchStart(rs, inUser) <= v && v + size <= Top(inUser) && Free(rs, v, size)
  }

  /** A candidate inside the half from which the range runs past 2^32. */
  predicate Wraps(rs: seq<Range>, inUser: bool, size: nat, i: nat) {
    i <= |rs| && (i == 0 <==> rs == []) && CandidateAt(rs, i) < Top(inUser) && CandidateAt(rs, i) + size >= WORD
  }

  /** The range fits nowhere, and behind some zone of the half it runs past 2^32. */
  ghost predicate WronglyTaken(rs: seq<Range>, inUser: bool, size: nat) {
    !HasFit(rs, inUser, size) && exists i :: Wraps(rs, inUser, size, i)
  }

  // ----- ranges as sets of addresses

  /** The address a is in the i-th zone. */
  predicate Holds(rs: seq<Range>, i: int, a: int) {
    0 <= i < |rs| && rs[i].base <= a < rs[i].base + rs[i].limit
  }

  /** No address of [va, va + size) is in a zone. */
  ghost predicate Untouched(rs: seq<Range>, va: nat, size: nat) {
    forall i, a :: va <= a < va + size ==> !Holds(rs, i, a)
  }

  lemma FreeIs(rs: seq<Range>, va: nat, size: nat)
    requires size > 0 && forall i :: 0 <= i < |rs| ==> rs[i].limit > 0
    ensures Free(rs, va, size) <==> Untouched(rs, va, size)
  {
    if !Free(rs, va, size) {
      var i :| 0 <= i < |rs| && Meets(rs[i], va, size);
      assert Holds(rs, i, if va >= rs[i].base then va else rs[i].base);
    }
  }

  /** The two halves: pages from 4 megabytes up to 0xbfc00000, and from there up to 0xfffff000; a range lies in one
      of them. */
  lemma LegalIs(va: nat, npages: int)
    ensures Legal(va, npages) <==>
              npages > 0 && va % 4096 == 0
              && ((0x0040_0000 <= va && va + 4096 * npages <= 0xbfc0_0000)
                  || (0xbfc0_0000 <= va && va + 4096 * npages <= 0xffff_f000))
  {}

  /** The right answer in addresses: the least address behind the first zone, or from 4 megabytes on in an empty half,
      from which as many bytes are free below the top of the half; or 0xffffffff if there is none. */
  lemma RightIs(rs: seq<Range>, inUser: bool, size: nat, r: nat)
    requires size > 0 && forall i :: 0 <= i < |rs| ==> rs[i].limit > 0
    requires rs == [] ==> inUser
    ensures var start := if rs == [] then 0x0040_0000 else rs[0].base + rs[0].limit;
            var top := if inUser then 0xbfc0_0000 else 0xffff_f000;
            Right(rs, inUser, size, r) <==>
              (r != 0xffff_ffff ==> start <= r && r + size <= top && Untouched(rs, r, size))
              && forall v :: start <= v && Untouched(rs, v, size) ==>
                               if r == 0xffff_ffff then v + size > top else v >= r
  {
    forall v: nat ensures Free(rs, v, size) <==> Untouched(rs, v, size) { FreeIs(rs, v, size); }
    hide Free, Untouched;
  }

  lemma StartsEmpty(rs: seq<Range>, inUser: bool, size: nat)
    ensures NothingBefore(rs, inUser, size, SearchStart(rs, inUser))
  {}

  lemma SizeAligned(npages: int)
    requires npages > 0
    ensures Aligned(npages * PAGE_SIZE)
  {}

  /** Between two zones that are too close the range fits nowhere. */
  lemma GapTooSmall(rs: seq<Range>, inUser: bool, k: nat, size: nat)
    requires 0 < k < |rs| && size > 0 && NothingBefore(rs, inUser, size, End(rs[k - 1]))
    requires End(rs[k - 1]) + size > rs[k].base
    requires Ordered(rs, Bottom(inUser), Top(inUser))
    ensures NothingBefore(rs, inUser, size, End(rs[k]))
  {
    hide Aligned;
    assert End(rs[k - 1]) <= rs[k].base;
    forall v | SearchStart(rs, inUser) <= v < End(rs[k]) ensures !Free(rs, v, size) {
      if v >= End(rs[k - 1]) { assert Meets(rs[k], v, size); }
    }
  }

  /** Where the loop stops, the range fits before the next zone unless the sum has wrapped, and nothing fits before. */
  lemma {:induction false} StopFrom(rs: seq<Range>, inUser: bool, size: nat, k: nat)
    requires Ordered(rs, Bottom(inUser), Top(inUser)) && 0 < size < WORD && 0 < k <= |rs|
    requires NothingBefore(rs, inUser, size, End(rs[k - 1]))
    ensures var j := StopAt(rs, k, size);
            && NothingBefore(rs, inUser, size, CandidateAt(rs, j))
            && (Wraps(rs, inUser, size, j) || (j < |rs| ==> CandidateAt(rs, j) + size <= rs[j].base))
            && (forall i :: k <= i <= |rs| && Wraps(rs, inUser, size, i) ==> j <= i)
    decreases |rs| - k
  {
    hide Aligned, NothingBefore;
    if k < |rs| {
      assert End(rs[k - 1]) <= rs[k].base < End(rs[k]) <= Top(inUser);
      assert Add32(End(rs[k - 1]), size) == End(rs[k - 1]) + size
             || (End(rs[k - 1]) + size >= WORD && Add32(End(rs[k - 1]), size) == End(rs[k - 1]) + size - WORD);
      if Add32(End(rs[k - 1]), size) > rs[k].base {
        GapTooSmall(rs, inUser, k, size);
        hide Ordered;
        StopFrom(rs, inUser, size, k + 1);
      }
    }
  }

  lemma Stopped(rs: seq<Range>, inUser: bool, size: nat)
    requires Ordered(rs, Bottom(inUser), Top(inUser)) && 0 < size < WORD && (rs == [] ==> inUser)
    ensures var j := Place(rs, size);
            && NothingBefore(rs, inUser, size, CandidateAt(rs, j))
            && (Wraps(rs, inUser, size, j) || (j < |rs| ==> CandidateAt(rs, j) + size <= rs[j].base))
            && (forall i :: Wraps(rs, inUser, size, i) ==> j <= i)
  {
    StartsEmpty(rs, inUser, size);
    if rs != [] {
      hide Ordered, NothingBefore;
      StopFrom(rs, inUser, size, 1);
    }
  }

  /** Exactly when page_alloc decides rightly: unless the range fits nowhere in the half and, behind some zone of
      it, runs past 2^32. */
  lemma ChosenRightIff(rs: seq<Range>, inUser: bool, size: nat)
    requires Ordered(rs, Bottom(inUser), Top(inUser)) && 0 < size < WORD && Aligned(size) && (rs == [] ==> inUser)
    ensures Right(rs, inUser, size, Chosen(rs, inUser, size)) <==> !WronglyTaken(rs, inUser, size)
  {
    Stopped(rs, inUser, size);
    var j := Place(rs, size);
    if Wraps(rs, inUser, size, j) {
      TakenAtWrap(rs, inUser, size, j);
    } else {
      FitOrNone(rs, inUser, size, j);
    }
  }

  /** A request of 2^32 bytes or more, of which only the remainder is looked for: the answer is right exactly if it
      is the error value. */
  lemma HugeRightIff(rs: seq<Range>, inUser: bool, npages: int)
    requires npages * PAGE_SIZE >= WORD
    ensures var r := Chosen(rs, inUser, (npages * PAGE_SIZE) % WORD);
            Right(rs, inUser, npages * PAGE_SIZE, r) <==> r == SIZE_MAX
  {
    hide Chosen, Free;
  }

  /** A wrapped sum is taken for a fit, although there is none. */
  lemma TakenAtWrap(rs: seq<Range>, inUser: bool, size: nat, j: nat)
    requires j == Place(rs, size) && Wraps(rs, inUser, size, j) && 0 < size < WORD
    requires NothingBefore(rs, inUser, size, CandidateAt(rs, j))
    ensures Chosen(rs, inUser, size) == CandidateAt(rs, j) != SIZE_MAX
    ensures WronglyTaken(rs, inUser, size) && !Right(rs, inUser, size, Chosen(rs, inUser, size))
  {
    var va := CandidateAt(rs, j);
    assert Add32(va, size) == va + size - WORD;
    hide Place, Free;
  }

  /** Where no sum has wrapped, the answer is right, and no candidate behind it can wrap unless there is a fit. */
  lemma FitOrNone(rs: seq<Range>, inUser: bool, size: nat, j: nat)
    requires Ordered(rs, Bottom(inUser), Top(inUser)) && 0 < size < WORD && Aligned(size) && (rs == [] ==> inUser)
    requires j == Place(rs, size) && !Wraps(rs, inUser, size, j) && NothingBefore(rs, inUser, size, CandidateAt(rs, j))
    requires (j < |rs| ==> CandidateAt(rs, j) + size <= rs[j].base) && forall i :: Wraps(rs, inUser, size, i) ==> j <= i
    ensures Right(rs, inUser, size, Chosen(rs, inUser, size)) && !WronglyTaken(rs, inUser, size)
    ensures Chosen(rs, inUser, size) != SIZE_MAX ==>
              FitsAt(rs, j, CandidateAt(rs, j), size, Bottom(inUser), Top(inUser))
  {
    var va := CandidateAt(rs, j);
    CandidateIn(rs, inUser, j);
    assert va < Top(inUser) ==> Add32(va, size) == va + size;
    hide Aligned;
    if j < |rs| { assert rs[j].limit > 0 && End(rs[j]) <= Top(inUser); }
    if va + size <= Top(inUser) {
      FitsHere(rs, Bottom(inUser), Top(inUser), j, va, size);
    } else {
      assert forall i :: Wraps(rs, inUser, size, i) ==> i == j;
    }
    hide Ordered, Free, Place;
  }

  lemma CandidateIn(rs: seq<Range>, inUser: bool, j: nat)
    requires Ordered(rs, Bottom(inUser), Top(inUser)) && j <= |rs|
    requires j == 0 ==> inUser
    ensures Bottom(inUser) <= CandidateAt(rs, j) <= Top(inUser) && Aligned(CandidateAt(rs, j))
  {
    EndAligned(rs, Bottom(inUser), Top(inUser), j);
  }

  /** An address that page_alloc rightly answers is a place for the zone. */
  lemma RightFits(rs: seq<Range>, inUser: bool, size: nat)
    requires Ordered(rs, Bottom(inUser), Top(inUser)) && 0 < size < WORD && Aligned(size) && (rs == [] ==> inUser)
    requires !WronglyTaken(rs, inUser, size) && Chosen(rs, inUser, size) != SIZE_MAX
    ensures FitsAt(rs, Place(rs, size), CandidateAt(rs, Place(rs, size)), size, Bottom(inUser), Top(inUser))
  {
    hide Ordered, Aligned, NothingBefore, FitsAt;
    Stopped(rs, inUser, size);
    var j := Place(rs, size);
    if Wraps(rs, inUser, size, j) { TakenAtWrap(rs, inUser, size, j); } else { FitOrNone(rs, inUser, size, j); }
  }

  /** 2^32 bytes are taken for none, and granted in an empty user half; 2^32 and a page more are taken for a page. */
  lemma HugeRangeTaken() returns (kernel: seq<Range>)
    ensures Chosen([], true, (0x10_0000 * PAGE_SIZE) % WORD) == USER_MIN
    ensures !Right([], true, 0x10_0000 * PAGE_SIZE, USER_MIN)
    ensures Ordered(kernel, USER_MAX, KERN_MAX) && kernel == [Range(USER_MAX, 0x10_0000, PROT_ALL)]
    ensures Accepted(kernel, 0xd000_0000, 0x10_0001) && !Legal(0xd000_0000, 0x10_0001)
  {
    kernel := [Range(USER_MAX, 0x10_0000, PROT_ALL)];
    HugeRightIff([], true, 0x10_0000);
    assert Add32(0xd000_0000, 0x10_0001 * PAGE_SIZE) == 0xd000_1000;
  }

  /** One page is left at the end of the kernel half, and two are asked for: the sum is 0, the final check passes,
      and the zone taken ends outside the half. */
  lemma WrappedRangeTaken() returns (kernel: seq<Range>, size: nat)
    ensures Ordered(kernel, USER_MAX, KERN_MAX) && size == 2 * PAGE_SIZE
    ensures !HasFit(kernel, false, size) && Chosen(kernel, false, size) != SIZE_MAX
    ensures var va := Chosen(kernel, false, size);
            Legal(va, 1) && !Legal(va, 2) && Free(kernel, va, PAGE_SIZE) && Accepted(kernel, va, 2)
  {
    kernel, size := [Range(USER_MAX, KERN_MAX - PAGE_SIZE - USER_MAX, PROT_ALL)], 2 * PAGE_SIZE;
    assert End(kernel[0]) == KERN_MAX - PAGE_SIZE == 0xffff_e000;
    assert Add32(0xffff_e000, size) == 0;
    assert Chosen(kernel, false, size) == 0xffff_e000;
  }

  /** Exactly when the final check of page_alloc decides rightly: unless the sum wraps around to a small number. */
  lemma CheckDecidesIff(va: nat, size: nat, inUser: bool)
    requires va < WORD && size < WORD
    ensures !(va >= Top(inUser) || Add32(va, size) > Top(inUser)) <==> (va < Top(inUser) && va + size <= Top(inUser))
            <==> !(va < Top(inUser) && WORD <= va + size <= WORD + Top(inUser))
  {
    assert Add32(va, size) == if va + size < WORD then va + size else va + size - WORD;
  }

  lemma EndAligned(rs: seq<Range>, lo: nat, hi: nat, k: nat)
    requires Ordered(rs, lo, hi) && k <= |rs|
    ensures k > 0 ==> Aligned(End(rs[k - 1])) && lo <= rs[k - 1].base && End(rs[k - 1]) <= hi
  {}

  predicate IsAt(rs: seq<Range>, i: nat, va: nat, size: nat) {
    i < |rs| && rs[i].base == va && rs[i].limit == size
  }

  predicate Has(rs: seq<Range>, va: nat, size: nat) {
    exists i :: 0 <= i < |rs| && IsAt(rs, i, va, size)
  }

  lemma Unlinked(rs: seq<Range>, lo: nat, hi: nat, k: nat, va: nat, size: nat)
    requires Ordered(rs, lo, hi) && k < |rs| && IsAt(rs, k, va, size)
    ensures Ordered(Delete(rs, k), lo, hi) && (k > 0 ==> |Delete(rs, k)| > 0 && Delete(rs, k)[0] == rs[0])
    ensures rs[k].base == va
  {
    DeleteOrdered(rs, lo, hi, k);
    hide Ordered;
  }

  /** Unlink the zone at position k of a list. */
  method Bypass(head: VmZone?, q: VmZone?, p: VmZone, ghost nodes: seq<VmZone>, ghost rs: seq<Range>, ghost k: nat)
    returns (head': VmZone?)
    requires Represents(head, nodes, rs) && k < |nodes| && q == (if k > 0 then nodes[k - 1] else null) && p == nodes[k]
    modifies if q == null then {} else {q}
    ensures k < |rs| && Represents(head', DropNode(nodes, k), Delete(rs, k))
    ensures head' == if q == null then p.next else head
  {
    DroppedDistinct(nodes, k);
    BypassedAt(nodes, rs, k);
    hide Delete, DropNode;
    if q == null {
      head' := p.next;
    } else {
      q.next := p.next;
      head' := head;
    }
    ghost var nodes', rs' := DropNode(nodes, k), Delete(rs, k);
    forall i | 0 <= i < |nodes'|
      ensures nodes'[i].base == rs'[i].base && nodes'[i].limit == rs'[i].limit && nodes'[i].protect == rs'[i].protect
              && nodes'[i].next == if i + 1 < |nodes'| then nodes'[i + 1] else null
    {
      assert nodes'[i] == nodes[if i < k then i else i + 1];
    }
  }

  ghost function DropNode(nodes: seq<VmZone>, k: nat): seq<VmZone>
    requires k < |nodes|
  {
    nodes[..k] + nodes[k + 1..]
  }

  lemma DroppedDistinct(nodes: seq<VmZone>, k: nat)
    requires k < |nodes| && forall i, j :: 0 <= i < j < |nodes| ==> nodes[i] != nodes[j]
    ensures forall i, j :: 0 <= i < j < |nodes| - 1 ==> DropNode(nodes, k)[i] != DropNode(nodes, k)[j]
  {}

  lemma BypassedAt(nodes: seq<VmZone>, rs: seq<Range>, k: nat)
    requires k < |nodes| == |rs|
    ensures |DropNode(nodes, k)| == |Delete(rs, k)| == |nodes| - 1
    ensures forall i {:trigger DropNode(nodes, k)[i]} {:trigger Delete(rs, k)[i]} :: 0 <= i < |nodes| - 1 ==>
              DropNode(nodes, k)[i] == nodes[if i < k then i else i + 1]
              && Delete(rs, k)[i] == rs[if i < k then i else i + 1]
  {}

  function Bottom(inUser: bool): nat { if inUser then USER_MIN else USER_MAX }
  function Top(inUser: bool): nat { if inUser then USER_MAX else KERN_MAX }

  /** The arguments that page_alloc_in_addr accepts. */
  predicate Legal(va: nat, npages: int) {
    && npages > 0 && Aligned(va) && USER_MIN <= va < KERN_MAX && va + npages * PAGE_SIZE <= KERN_MAX
    && (va < USER_MAX ==> va + npages * PAGE_SIZE <= USER_MAX)
  }

  /** A range of whole pages fits between the neighbours at position k. */
  ghost predicate FitsAt(rs: seq<Range>, k: nat, va: nat, size: nat, lo: nat, hi: nat) {
    && k <= |rs| && lo <= va && size > 0 && va + size <= hi && Aligned(va) && Aligned(size)
    && (k > 0 ==> End(rs[k - 1]) <= va) && (k < |rs| ==> va + size <= rs[k].base)
  }

  lemma InsertFits(rs: seq<Range>, lo: nat, hi: nat, k: nat, r: Range)
    requires Ordered(rs, lo, hi) && FitsAt(rs, k, r.base, r.limit, lo, hi)
    ensures k <= |rs| && Ordered(Insert(rs, k, r), lo, hi)
  {
    hide Aligned;
    InsertOrdered(rs, lo, hi, k, r);
  }

  lemma InsertStart(rs: seq<Range>, k: nat, r: Range)
    requires k <= |rs|
    ensures |Insert(rs, k, r)| == |rs| + 1 && (k > 0 ==> Insert(rs, k, r)[0] == rs[0])
  {}

  lemma FitsHere(rs: seq<Range>, lo: nat, hi: nat, k: nat, va: nat, size: nat)
    requires Ordered(rs, lo, hi) && k <= |rs| && lo <= va && size > 0 && va + size <= hi && Aligned(va) && Aligned(size)
    requires (k > 0 ==> End(rs[k - 1]) <= va) && (k < |rs| ==> va + size <= rs[k].base)
    ensures FitsAt(rs, k, va, size, lo, hi) && Free(rs, va, size)
  {
    hide Aligned;
    forall i | 0 <= i < |rs| ensures !Meets(rs[i], va, size) {
      if i < k - 1 { assert End(rs[i]) <= rs[k - 1].base && rs[k - 1].limit > 0; }
      if i > k { assert End(rs[k]) <= rs[i].base && rs[k].limit > 0; }
    }
  }

  lemma KernelStart(kernel: seq<Range>, va: nat)
    requires |kernel| > 0 && kernel[0].base == USER_MAX
    ensures va < kernel[0].base <==> va < USER_MAX
  {}

  lemma ProtectionStep(rs: seq<Range>, i: nat, va: nat)
    requires i < |rs|
    ensures Protection(rs[i..], va)
            == if rs[i].base <= va < End(rs[i]) then rs[i].protect else Protection(rs[i + 1..], va)
  {
    assert rs[i..][1..] == rs[i + 1..];
  }

  lemma ProtectionEnd(rs: seq<Range>, va: nat)
    ensures Protection(rs[|rs|..], va) == -1
  {}

  lemma HeadNode(head: VmZone?, nodes: seq<VmZone>, rs: seq<Range>)
    requires Represents(head, nodes, rs)
    ensures |nodes| == |rs| && head == if nodes == [] then null else nodes[0]
  {}

  lemma NodeAt(head: VmZone?, nodes: seq<VmZone>, rs: seq<Range>, i: nat)
    requires Represents(head, nodes, rs) && i < |nodes|
    ensures |nodes| == |rs| && nodes[i].base == rs[i].base && nodes[i].limit == rs[i].limit
    ensures nodes[i].protect == rs[i].protect
    ensures nodes[i].next == if i + 1 < |nodes| then nodes[i + 1] else null
  {}
}
