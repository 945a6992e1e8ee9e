/** The scheduler, the wait queues and the system calls on threads and semaphores (kernel/task.c, kernel/sem.c), on
    linked lists in memory. */
module Tasks {
  import opened Threads
  import opened FixedPoint

  /** A pointer to a control block, a queue node or a semaphore.  A queue node lies on the stack of the thread that
      sleeps, so the thread's number serves as its address. */
  datatype Ptr = Null | At(addr: nat)

  /** How a system call comes back: with an error, with a value, or not before the thread is woken. */
  datatype Outcome = Failed | Returned(code: int) | Asleep

  function PtrAt(s: seq<nat>, i: nat): Ptr {
    if i < |s| then At(s[i]) else Null
  }

  /** A null-terminated list: from `head` along `next` lie the elements of s. */
  ghost predicate Linked(head: Ptr, next: map<nat, Ptr>, s: seq<nat>) {
    && head == PtrAt(s, 0)
    && forall i {:trigger s[i]} :: 0 <= i < |s| ==> s[i] in next && next[s[i]] == PtrAt(s, i + 1)
  }

  lemma LinkedFrame(head: Ptr, next: map<nat, Ptr>, next': map<nat, Ptr>, s: seq<nat>)
    requires Linked(head, next, s)
    requires forall x :: x in s && x in next ==> x in next' && next'[x] == next[x]
    ensures Linked(head, next', s)
  {}

  lemma LinkedApart(head: Ptr, next: map<nat, Ptr>, s: seq<nat>, x: nat, p: Ptr)
    requires Linked(head, next, s) && x !in s
    ensures Linked(head, next[x := p], s)
  {}

  lemma FirstInList(head: Ptr, next: map<nat, Ptr>, s: seq<nat>)
    requires Linked(head, next, s)
    ensures head == PtrAt(s, 0)
  {}

  lemma NextInList(head: Ptr, next: map<nat, Ptr>, s: seq<nat>, i: nat)
    requires Linked(head, next, s) && i < |s|
    ensures s[i] in next && next[s[i]] == PtrAt(s, i + 1)
  {}

  lemma WokenNone(threads: map<Tid, Thread>, s: seq<Tid>)
    ensures Woken(threads, s[..0]) == threads
  {}

  lemma WokenOneMore(threads: map<Tid, Thread>, s: seq<Tid>, i: nat)
    requires i < |s| && forall t :: t in s ==> t in threads
    ensures s[i] in Woken(threads, s[..i])
    ensures Woken(threads, s[..i + 1]) == Woken(threads, s[..i])[s[i] := Woken(threads, s[..i])[s[i]].(status := Ready)]
  {
    assert s[i] in s;
    assert forall t :: t in s[..i + 1] <==> t in s[..i] || t == s[i];
  }

  lemma {:induction false} WithoutAt(s: seq<nat>, k: nat)
    requires Distinct(s) && k < |s|
    ensures Without(s, s[k]) == s[..k] + s[k + 1..]
  {
    if k > 0 {
      WithoutAt(s[1..], k - 1);
      assert s[1..][k - 1] == s[k];
      assert [s[0]] + (s[1..][..k - 1] + s[1..][k..]) == s[..k] + s[k + 1..];
    }
  }

  /** Bypassing node k of a list removes that node. */
  lemma Bypassed(head: Ptr, next: map<nat, Ptr>, s: seq<nat>, k: nat)
    requires Linked(head, next, s) && Distinct(s) && 0 < k < |s| && s[k - 1] in next && s[k] in next
    ensures Linked(head, next[s[k - 1] := next[s[k]]], Without(s, s[k]))
  {
    WithoutAt(s, k);
    var next' := next[s[k - 1] := next[s[k]]];
    var w := s[..k] + s[k + 1..];
    hide Without;
    NextInList(head, next, s, k);
    forall i | 0 <= i < |w| ensures w[i] in next' && next'[w[i]] == PtrAt(w, i + 1) {
      BypassedAt(head, next, s, k, i);
    }
  }

  lemma BypassedAt(head: Ptr, next: map<nat, Ptr>, s: seq<nat>, k: nat, i: nat)
    requires Linked(head, next, s) && Distinct(s) && 0 < k < |s| && i + 1 < |s| && s[k - 1] in next && s[k] in next
    ensures var w := s[..k] + s[k + 1..];
            var next' := next[s[k - 1] := next[s[k]]];
            w[i] in next' && next'[w[i]] == PtrAt(w, i + 1)
  {
    NextInList(head, next, s, k);
    if i < k - 1 {
      NextInList(head, next, s, i);
      assert s[i] != s[k - 1];
    } else if i >= k {
      NextInList(head, next, s, i + 1);
      assert s[k - 1] != s[i + 1];
    }
    hide Linked, Distinct;
  }

  lemma HeadDropped(head: Ptr, next: map<nat, Ptr>, s: seq<nat>)
    requires Linked(head, next, s) && Distinct(s) && |s| > 0 && s[0] in next
    ensures Without(s, s[0]) == s[1..] && Linked(next[s[0]], next, s[1..])
  {
    forall i | 0 <= i < |s[1..]| ensures s[1..][i] in next && next[s[1..][i]] == PtrAt(s[1..], i + 1) {
      assert s[1..][i] == s[i + 1];
    }
  }

  lemma Appended(head: Ptr, next: map<nat, Ptr>, s: seq<nat>, x: nat)
    requires Linked(head, next, s) && Distinct(s) && x !in s
    ensures s == [] ==> Linked(At(x), next[x := Null], s + [x])
    ensures s != [] ==> Linked(head, next[x := Null][s[|s| - 1] := At(x)], s + [x])
    ensures Distinct(s + [x])
  {}

  // ----- the scheduler's choice

  predicate Runnable(thread: map<Tid, Thread>, t: Tid) {
    t != TASK0 && t in thread && thread[t].status == Ready
  }

  function PriorityOf(prio: map<Tid, int>, t: Tid): int {
    if t in prio then prio[t] else 0
  }

  /** The selection loop of schedule() over the rest of the task list. */
  function Pick(thread: map<Tid, Thread>, prio: map<Tid, int>, s: seq<Tid>, select: Tid): Tid
    decreases |s|
  {
    if s == [] then select
    else
      var better := Runnable(thread, s[0]) && (PriorityOf(prio, s[0]) > PriorityOf(prio, select) || select == TASK0);
      Pick(thread, prio, s[1..], if better then s[0] else select)
  }

  function Dispatch(thread: map<Tid, Thread>, prio: map<Tid, int>, tasks: seq<Tid>, r: Tid): Tid {
    var select := Pick(thread, prio, if tasks == [] then [] else tasks[1..], r);
    if select != r then select else if r in thread && thread[r].status == Ready then r else TASK0
  }

  lemma {:induction false} PickBest(thread: map<Tid, Thread>, prio: map<Tid, int>, s: seq<Tid>, select: Tid)
    ensures var p := Pick(thread, prio, s, select);
            && (p != select ==>
                  p in s && Runnable(thread, p) && (select != TASK0 ==> PriorityOf(prio, p) > PriorityOf(prio, select)))
            && (forall c :: c in s && Runnable(thread, c) ==> p != TASK0 && PriorityOf(prio, c) <= PriorityOf(prio, p))
    decreases |s|
  {
    if s != [] {
      var better := Runnable(thread, s[0]) && (PriorityOf(prio, s[0]) > PriorityOf(prio, select) || select == TASK0);
      PickBest(thread, prio, s[1..], if better then s[0] else select);
      assert forall c :: c in s <==> c == s[0] || c in s[1..];
    }
  }

  /** The scheduler never picks a waiting thread or a zombie; it picks the idle thread while another could run exactly
      when the thread that gives up the processor had a priority that no runnable thread exceeds; and a thread it
      does pick has the highest priority of all that could run. */
  lemma DispatchBest(thread: map<Tid, Thread>, prio: map<Tid, int>, tasks: seq<Tid>, r: Tid)
    requires |tasks| > 0 && tasks[0] == TASK0 && r in tasks && Distinct(tasks)
    requires forall t :: t in tasks <==> t in thread
    requires thread[TASK0].status == Ready
    ensures var next := Dispatch(thread, prio, tasks, r);
            && next in thread && thread[next].status == Ready
            && (next != TASK0 ==> forall c :: Runnable(thread, c) ==> PriorityOf(prio, c) <= PriorityOf(prio, next))
            && ((exists c :: Runnable(thread, c)) ==>
                  (next == TASK0 <==>
                   && thread[r].status != Ready
                   && forall c :: Runnable(thread, c) ==> PriorityOf(prio, c) <= PriorityOf(prio, r)))
  {
    PickBest(thread, prio, tasks[1..], r);
    forall c | Runnable(thread, c) ensures c in tasks[1..] {
      assert c in tasks;
    }
  }

  /** Thread c has used at least four ticks less of the processor than thread t, and is as nice. */
  predicate FourTicksLess(estcpu: map<Tid, int>, nice: map<Tid, int>, c: Tid, t: Tid) {
    && c in estcpu && t in estcpu && c in nice && t in nice && nice[c] == nice[t]
    && 0 <= estcpu[c] && estcpu[c] + 4 * 256 <= estcpu[t] < 0x8000_0000
  }

  /** A thread is neither kept nor picked while one that is as nice could run and has used four ticks less. */
  lemma LessUsedFirst(thread: map<Tid, Thread>, estcpu: map<Tid, int>, nice: map<Tid, int>, prio: map<Tid, int>,
                      tasks: seq<Tid>, r: Tid)
    requires |tasks| > 0 && tasks[0] == TASK0 && r in tasks && Distinct(tasks)
    requires (forall t :: t in tasks <==> t in thread)
    requires forall t :: t in thread ==>
               t in prio && t in estcpu && t in nice && prio[t] == Priority(estcpu[t], nice[t])
    ensures thread[TASK0].status == Ready ==>
              var next := Dispatch(thread, prio, tasks, r);
              forall c :: Runnable(thread, c) && FourTicksLess(estcpu, nice, c, next) ==> next == TASK0
  {
    if thread[TASK0].status == Ready {
      DispatchBest(thread, prio, tasks, r);
      var next := Dispatch(thread, prio, tasks, r);
      forall c | Runnable(thread, c) && FourTicksLess(estcpu, nice, c, next) ensures next == TASK0 {
        FourTicksCost(estcpu[c], estcpu[next], nice[c]);
      }
      hide Priority, Dispatch;
    }
  }

  lemma DispatchIs(thread: map<Tid, Thread>, prio: map<Tid, int>, tasks: seq<Tid>, r: Tid)
    requires |tasks| > 0
    ensures var select := Pick(thread, prio, tasks[1..], r);
            Dispatch(thread, prio, tasks, r)
            == if select != r then select else if r in thread && thread[r].status == Ready then r else TASK0
  {
    hide Pick;
  }

  /** Among threads of equal priority: the running thread keeps the processor, and otherwise it goes to the first of
      them on the task list. */
  lemma {:induction false} PickFirst(thread: map<Tid, Thread>, prio: map<Tid, int>, s: seq<Tid>, select: Tid, i: nat)
    requires Pick(thread, prio, s, select) != select && Distinct(s) && i < |s| && s[i] == Pick(thread, prio, s, select)
    ensures forall j :: 0 <= j < i && Runnable(thread, s[j]) ==> PriorityOf(prio, s[j]) < PriorityOf(prio, s[i])
    decreases |s|
  {
    var better := Runnable(thread, s[0]) && (PriorityOf(prio, s[0]) > PriorityOf(prio, select) || select == TASK0);
    var select' := if better then s[0] else select;
    if i > 0 {
      assert s[1..][i - 1] == s[i] && s[0] != s[i];
      assert Pick(thread, prio, s, select) == Pick(thread, prio, s[1..], select') != select';
      PickFirst(thread, prio, s[1..], select', i - 1);
      PickBest(thread, prio, s[1..], select');
      forall j | 0 <= j < i && Runnable(thread, s[j]) ensures PriorityOf(prio, s[j]) < PriorityOf(prio, s[i]) {
        if j > 0 { assert s[j] == s[1..][j - 1]; }
      }
    }
  }

  lemma DispatchTies(thread: map<Tid, Thread>, prio: map<Tid, int>, tasks: seq<Tid>, r: Tid)
    requires |tasks| > 0 && tasks[0] == TASK0 && r in tasks && Distinct(tasks)
    requires (forall t :: t in tasks <==> t in thread)
    ensures var next := Dispatch(thread, prio, tasks, r);
            && (Runnable(thread, r)
                && (forall c :: Runnable(thread, c) ==> PriorityOf(prio, c) <= PriorityOf(prio, r)) ==>
                  next == r)
            && (next != r && next != TASK0 ==>
                  forall i, j :: 0 <= j < i < |tasks| && tasks[i] == next && Runnable(thread, tasks[j]) ==>
                    PriorityOf(prio, tasks[j]) < PriorityOf(prio, next))
  {
    PickBest(thread, prio, tasks[1..], r);
    var next := Dispatch(thread, prio, tasks, r);
    if next != r && next != TASK0 {
      forall i, j | 0 <= j < i < |tasks| && tasks[i] == next && Runnable(thread, tasks[j])
        ensures PriorityOf(prio, tasks[j]) < PriorityOf(prio, next)
      {
        assert j > 0 && tasks[1..][i - 1] == next && tasks[1..][j - 1] == tasks[j];
        PickFirst(thread, prio, tasks[1..], r, i - 1);
      }
    }
  }

  /** After boot two threads are created, and a semaphore without units. */
  function TwoCreated(): seq<Event> {
    [Create] + [Create] + [SemCreate(0)] + [Yield(1)]
  }

  function TwoReady(running: Tid): Sys {
    var r := Thread(Ready, 0, Out);
    Sys(map[0 := r, 1 := r, 2 := r], [0, 1, 2],
        map[ExitQueue(0) := [], ExitQueue(1) := [], ExitQueue(2) := [], SemQueue(0) := []],
        map[0 := Semaphore(0, 0, 0, 0, 0)], running, 3, 1)
  }

  lemma TwoAreReady()
    ensures Possible(Boot(), TwoCreated()) && Run(Boot(), TwoCreated()) == TwoReady(1)
  {
    Snoc(Boot(), [Create], Create);
    Snoc(Boot(), [Create] + [Create], SemCreate(0));
    assert After(After(After(Boot(), Create), Create), SemCreate(0)) == TwoReady(0);
    Snoc(Boot(), [Create] + [Create] + [SemCreate(0)], Yield(1));
  }

  /** Thread 1 then waits for the semaphore.  Thread 2 is ready, and all priorities are the same: the idle thread is
      picked. */
  lemma IdlesBesideRunnable() returns (s: Sys, prio: map<Tid, int>)
    ensures Possible(Boot(), TwoCreated() + [SemWait(0, TASK0)])
    ensures s == Act(Run(Boot(), TwoCreated()), SemWait(0, TASK0))
    ensures Switches(Run(Boot(), TwoCreated()), SemWait(0, TASK0))
    ensures prio == map t | t in s.threads :: Priority(0, 0)
    ensures Runnable(s.threads, 2) && Dispatch(s.threads, prio, s.tasks, s.running) == TASK0
  {
    TwoAreReady();
    s := Act(TwoReady(1), SemWait(0, TASK0));
    Snoc(Boot(), TwoCreated(), SemWait(0, TASK0));
    prio := map t | t in s.threads :: Priority(0, 0);
    hide Run, Possible, Priority;
    assert s.tasks[1..] == [1, 2] && [1, 2][1..] == [2] && [2][1..] == [];
    assert !Runnable(s.threads, 1) && Runnable(s.threads, 2) && s.running == 1;
    assert PriorityOf(prio, 1) == PriorityOf(prio, 2);
    assert Pick(s.threads, prio, [1, 2], 1) == Pick(s.threads, prio, [2], 1) == 1;
  }

  /** The same event, with another thread picked by the scheduler. */
  function To(e: Event, n: Tid): Event {
    match e
    case SemWait(x, _) => SemWait(x, n)
    case TaskWait(t, _) => TaskWait(t, n)
    case Exit(code, _) => Exit(code, n)
    case Yield(_) => Yield(n)
    case _ => e
  }

  /** Every queue is a list in memory. */
  ghost predicate AllLinked(queueHead: map<QueueId, Ptr>, nodeNext: map<Tid, Ptr>, queue: map<QueueId, seq<Tid>>) {
    forall q :: q in queue ==> q in queueHead && Linked(queueHead[q], nodeNext, queue[q])
  }

  lemma QueueRemoved(queueHead: map<QueueId, Ptr>, nodeNext: map<Tid, Ptr>, queue: map<QueueId, seq<Tid>>, q: QueueId)
    requires AllLinked(queueHead, nodeNext, queue)
    ensures AllLinked(queueHead - {q}, nodeNext, queue - {q})
    ensures q in queue ==> q in queueHead && (queueHead[q] == Null <==> queue[q] == [])
  {
    hide Linked;
    if q in queue { FirstInList(queueHead[q], nodeNext, queue[q]); }
  }

  /** Every thread has its scheduling attributes. */
  ghost predicate HaveAttributes(thread: map<Tid, Thread>, estcpu: map<Tid, int>, nice: map<Tid, int>,
                                 priority: map<Tid, int>) {
    thread.Keys <= estcpu.Keys && thread.Keys <= nice.Keys && thread.Keys <= priority.Keys
  }

  lemma FewerThreads(thread: map<Tid, Thread>, estcpu: map<Tid, int>, nice: map<Tid, int>, priority: map<Tid, int>,
                     t: Tid)
    requires HaveAttributes(thread, estcpu, nice, priority)
    ensures HaveAttributes(thread - {t}, estcpu, nice, priority)
  {}

  /** The semaphores on the list are those in memory. */
  ghost predicate SemsAgree(value: map<SemId, int>, semList: seq<SemId>, sems: map<SemId, Semaphore>) {
    forall x {:trigger x in value} {:trigger x in sems} {:trigger x in semList} ::
      (x in semList <==> x in value) && (x in value <==> x in sems)
      && (x in value && x in sems ==> value[x] == sems[x].value)
  }

  lemma SemAdded(value: map<SemId, int>, semList: seq<SemId>, sems: map<SemId, Semaphore>, x: SemId, v: int)
    requires SemsAgree(value, semList, sems) && x !in sems
    ensures x !in semList && SemsAgree(value[x := v], semList + [x], sems[x := Semaphore(v, v, 0, 0, 0)])
  {
    assert forall y :: y in semList + [x] <==> y in semList || y == x;
  }

  lemma SemInList(value: map<SemId, int>, semList: seq<SemId>, sems: map<SemId, Semaphore>, x: SemId)
    requires SemsAgree(value, semList, sems)
    ensures (x in semList <==> x in value) && (x in value <==> x in sems)
  {}

  lemma SemChanged(value: map<SemId, int>, semList: seq<SemId>, sems: map<SemId, Semaphore>, x: SemId, m: Semaphore)
    requires SemsAgree(value, semList, sems) && x in value
    ensures x in sems && SemsAgree(value[x := m.value], semList, sems[x := m]) && value[x] == sems[x].value
    ensures value[x := value[x]] == value
  {}

  ghost predicate Prioritised(priority: map<Tid, int>, estcpu: map<Tid, int>, nice: map<Tid, int>, s: seq<Tid>) {
    forall t {:trigger priority[t]} :: t in s && t in priority && t in estcpu && t in nice ==>
      priority[t] == Priority(estcpu[t], nice[t])
  }

  lemma OneMorePriority(priority: map<Tid, int>, estcpu: map<Tid, int>, nice: map<Tid, int>, s: seq<Tid>, i: nat)
    requires i < |s| && s[i] in estcpu && s[i] in nice && Prioritised(priority, estcpu, nice, s[..i])
    ensures Prioritised(priority[s[i] := Priority(estcpu[s[i]], nice[s[i]])], estcpu, nice, s[..i + 1])
  {
    hide Priority;
    assert forall t :: t in s[..i + 1] <==> t in s[..i] || t == s[i];
  }

  class Kernel {
    var thread: map<Tid, Thread>
    var estcpu: map<Tid, int>
    var nice: map<Tid, int>
    var priority: map<Tid, int>
    var taskHead: Ptr
    var taskNext: map<Tid, Ptr>
    var running: Tid
    var nextTid: Tid

    var queueHead: map<QueueId, Ptr>
    var nodeNext: map<Tid, Ptr>

    var value: map<SemId, int>
    var semFirst: Ptr
    var semNext: map<SemId, Ptr>
    var nextSem: SemId

    ghost var tasks: seq<Tid>
    ghost var queue: map<QueueId, seq<Tid>>
    ghost var sems: map<SemId, Semaphore>
    ghost var semList: seq<SemId>

    ghost function Abs(): Sys
      reads this
    {
      Sys(thread, tasks, queue, sems, running, nextTid, nextSem)
    }

    ghost predicate QueuesLinked()
      reads this`queue, this`queueHead, this`nodeNext
    {
      AllLinked(queueHead, nodeNext, queue)
    }

    ghost predicate TasksLinked()
      reads this`tasks, this`taskHead, this`taskNext
    {
      Linked(taskHead, taskNext, tasks)
    }

    ghost predicate SemsLinked()
      reads this`sems, this`value, this`semFirst, this`semNext, this`semList
    {
      Linked(semFirst, semNext, semList) && Distinct(semList) && SemsAgree(value, semList, sems)
    }

    ghost predicate Attributes()
      reads this`thread, this`estcpu, this`nice, this`priority
    {
      HaveAttributes(thread, estcpu, nice, priority)
    }

    ghost predicate Valid()
      reads this
    {
      Inv(Abs()) && QueuesLinked() && TasksLinked() && SemsLinked() && Attributes()
    }

    /** init_task, and the switch to the idle thread. */
    constructor ()
      ensures Valid() && Abs() == Boot()
      ensures thread == map[0 := Thread(Ready, 0, Out)] && tasks == [0] && running == 0 && nextTid == 1
      ensures value == map[]
    {
      thread := map[TASK0 := Thread(Ready, 0, Out)];
      estcpu, nice, priority := map[TASK0 := 0], map[TASK0 := 0], map[TASK0 := 0];
      taskHead, taskNext := At(TASK0), map[TASK0 := Null];
      running, nextTid := TASK0, 1;
      queueHead, nodeNext := map[ExitQueue(TASK0) := Null], map[];
      value, semFirst, semNext, nextSem := map[], Null, map[], 0;
      tasks, queue, sems, semList := [TASK0], map[ExitQueue(TASK0) := []], map[], [];
      new;
      BootInv();
    }

    // ----- wait queues

    /** A head cell that holds no queue. */
    method NewQueue(q: QueueId)
      requires QueuesLinked()
      modifies this`queueHead, this`queue
      ensures QueuesLinked() && queue == old(queue)[q := []]
    {
      queueHead := queueHead[q := Null];
      queue := queue[q := []];
    }

    /** sleep_on up to the call of schedule(): link a node in front of the queue, and wait. */
    method Enqueue(q: QueueId)
      requires q in queue && running in thread && QueuesLinked()
      requires forall p :: p in queue ==> running !in queue[p]
      modifies this`thread, this`queueHead, this`nodeNext, this`queue
      ensures QueuesLinked()
      ensures queue == old(queue)[q := [running] + old(queue[q])]
      ensures thread == old(thread)[running := old(thread[running]).(status := Waiting, at := In(q))]
    {
      ghost var next0 := nodeNext;
      nodeNext := nodeNext[running := queueHead[q]];
      queueHead := queueHead[q := At(running)];
      thread := thread[running := thread[running].(status := Waiting, at := In(q))];
      queue := queue[q := [running] + queue[q]];
      forall p | p in queue ensures p in queueHead && Linked(queueHead[p], nodeNext, queue[p]) {
        if p != q { LinkedFrame(queueHead[p], next0, nodeNext, queue[p]); }
      }
    }

    /** sleep_on after schedule() has come back: unlink the running thread's node. */
    method Unlink(q: QueueId)
      requires q in queue && running in queue[q] && running in thread && QueuesLinked()
      requires forall p :: p in queue ==> Distinct(queue[p])
      requires forall p, x :: p in queue && p != q && x in queue[p] ==> x !in queue[q]
      modifies this`thread, this`queueHead, this`nodeNext, this`queue
      ensures QueuesLinked()
      ensures queue == old(queue)[q := Without(old(queue[q]), running)]
      ensures thread == old(thread)[running := old(thread[running]).(at := Out)]
    {
      ghost var s, next0 := queue[q], nodeNext;
      ghost var k: nat :| k < |s| && s[k] == running;
      if queueHead[q] == At(running) {
        HeadDropped(queueHead[q], nodeNext, s);
        queueHead := queueHead[q := nodeNext[running]];
      } else {
        var p := queueHead[q];
        ghost var i := 0;
        while p != Null
          invariant 0 <= i < k && p == At(s[i]) && nodeNext == next0
          decreases k - i
        {
          var prev := p.addr;
          p := nodeNext[prev];
          if p == At(running) {
            assert i + 1 == k;
            Bypassed(queueHead[q], nodeNext, s, k);
            nodeNext := nodeNext[prev := nodeNext[p.addr]];
            break;
          }
          i := i + 1;
        }
      }
      thread := thread[running := thread[running].(at := Out)];
      queue := queue[q := Without(s, running)];
      forall p | p in queue ensures p in queueHead && Linked(queueHead[p], nodeNext, queue[p]) {
        if p != q { LinkedFrame(queueHead[p], next0, nodeNext, queue[p]); }
      }
    }

    /** Mark the first n threads of a queue ready, or all if n is negative.  Their nodes stay where they are. */
    method WakeUp(q: QueueId, n: int)
      requires q in queue && QueuesLinked()
      requires forall t :: t in queue[q] ==> t in thread
      modifies this`thread
      ensures thread == Woken(old(thread), queue[q][..WakeCount(n, |queue[q]|)])
    {
      ghost var s, t0 := queue[q], thread;
      assert q in queueHead && Linked(queueHead[q], nodeNext, s);
      hide QueuesLinked, Linked, Woken;
      FirstInList(queueHead[q], nodeNext, s);
      WokenNone(t0, s);
      var p, m := queueHead[q], n;
      ghost var i: nat := 0;
      while p != Null && m != 0
        invariant 0 <= i <= |s| && p == PtrAt(s, i) && m == n - i && (n >= 0 ==> i <= n)
        invariant thread == Woken(t0, s[..i])
        decreases |s| - i
      {
        WokenOneMore(t0, s, i);
        NextInList(queueHead[q], nodeNext, s, i);
        thread := thread[p.addr := thread[p.addr].(status := Ready)];
        p := nodeNext[p.addr];
        m := m - 1;
        i := i + 1;
      }
    }

    // ----- the task list

    method AddTask(t: Tid)
      requires TasksLinked() && Distinct(tasks) && t !in tasks && t in taskNext && taskNext[t] == Null
      modifies this`taskHead, this`taskNext, this`tasks
      ensures TasksLinked() && tasks == old(tasks) + [t]
    {
      Appended(taskHead, taskNext, tasks, t);
      assert taskNext[t := Null] == taskNext;
      if taskHead == Null {
        taskHead := At(t);
      } else {
        var p := taskHead;
        var q := t;
        ghost var i: nat := 0;
        while p != Null
          invariant 0 <= i <= |tasks| && p == PtrAt(tasks, i) && (i > 0 ==> q == tasks[i - 1])
          decreases |tasks| - i
        {
          q := p.addr;
          p := taskNext[q];
          i := i + 1;
        }
        taskNext := taskNext[q := At(t)];
      }
      tasks := tasks + [t];
    }

    method RemoveTask(t: Tid)
      requires TasksLinked() && Distinct(tasks) && t in tasks
      modifies this`taskHead, this`taskNext, this`tasks
      ensures TasksLinked() && tasks == Without(old(tasks), t)
    {
      ghost var s := tasks;
      ghost var k: nat :| k < |s| && s[k] == t;
      if taskHead != Null {
        if At(t) == taskHead {
          HeadDropped(taskHead, taskNext, s);
          taskHead := taskNext[t];
        } else {
          var p := taskHead;
          var q := t;
          ghost var i: nat := 0;
          while p != Null
            invariant 0 <= i < k && p == At(s[i])
            decreases k - i
          {
            q := p.addr;
            p := taskNext[q];
            if p == At(t) {
              assert i + 1 == k;
              break;
            }
            i := i + 1;
          }
          if p == At(t) {
            Bypassed(taskHead, taskNext, s, k);
            taskNext := taskNext[q := taskNext[p.addr]];
          }
        }
      }
      tasks := Without(s, t);
    }

    method GetTask(tid: int) returns (tsk: Ptr)
      requires TasksLinked()
      ensures tsk == if tid >= 0 && tid in tasks then At(tid) else Null
    {
      tsk := taskHead;
      ghost var i: nat := 0;
      while tsk != Null
        invariant 0 <= i <= |tasks| && tsk == PtrAt(tasks, i)
        invariant forall j :: 0 <= j < i ==> tasks[j] != tid
        decreases |tasks| - i
      {
        if tsk.addr == tid { break; }
        tsk := taskNext[tsk.addr];
        i := i + 1;
      }
    }

    /** Recompute every thread's priority, and switch to the thread chosen. */
    method Schedule()
      requires TasksLinked() && Attributes() && Distinct(tasks) && |tasks| > 0 && tasks[0] == TASK0
      requires (forall t :: t in tasks <==> t in thread) && running in thread
      modifies this`priority, this`running
      ensures Attributes() && forall t :: t in thread ==> priority[t] == Priority(estcpu[t], nice[t])
      ensures running == Dispatch(thread, priority, tasks, old(running))
      ensures thread[TASK0].status == Ready ==>
                forall c :: Runnable(thread, c) && FourTicksLess(estcpu, nice, c, running) ==> running == TASK0
    {
      hide Priority, Pick, Linked, Distinct, Prioritised, FourTicksLess, Dispatch;
      ghost var r := running;
      Prioritise();
      var select := Select();
      if select == running {
        if thread[select].status == Ready {
          DispatchIs(thread, priority, tasks, r);
          LessUsedFirst(thread, estcpu, nice, priority, tasks, r);
          return;
        }
        select := TASK0;
      }
      running := select;
      DispatchIs(thread, priority, tasks, r);
      LessUsedFirst(thread, estcpu, nice, priority, tasks, r);
    }

    /** The selection loop. */
    method Select() returns (select: Tid)
      requires TasksLinked() && Attributes() && |tasks| > 0 && (forall t :: t in tasks <==> t in thread)
      requires running in thread
      ensures select == Pick(thread, priority, tasks[1..], running) && select in thread
    {
      select := running;
      var chain := taskHead;
      ghost var i: nat := 0;
      while true
        invariant 0 <= i < |tasks| && chain == At(tasks[i]) && select in thread
        invariant Pick(thread, priority, tasks[i + 1..], select) == Pick(thread, priority, tasks[1..], running)
        decreases |tasks| - i
      {
        chain := taskNext[chain.addr];
        if chain == Null { break; }
        assert tasks[i + 1..][1..] == tasks[i + 2..];
        assert chain.addr in tasks;
        if chain.addr != TASK0 && thread[chain.addr].status == Ready {
          if priority[chain.addr] > priority[select] || select == TASK0 { select := chain.addr; }
        }
        i := i + 1;
      }
    }

    method Prioritise()
      requires TasksLinked() && Attributes() && Distinct(tasks) && forall t :: t in tasks <==> t in thread
      modifies this`priority
      ensures Attributes() && forall t :: t in thread ==> priority[t] == Priority(estcpu[t], nice[t])
    {
      hide Priority, Linked;
      FirstInList(taskHead, taskNext, tasks);
      var select := taskHead;
      ghost var i: nat := 0;
      while select != Null
        invariant 0 <= i <= |tasks| && select == PtrAt(tasks, i) && thread.Keys <= priority.Keys
        invariant Prioritised(priority, estcpu, nice, tasks[..i])
        decreases |tasks| - i
      {
        assert tasks[i] in tasks;
        NextInList(taskHead, taskNext, tasks, i);
        OneMorePriority(priority, estcpu, nice, tasks, i);
        priority := priority[select.addr := Priority(estcpu[select.addr], nice[select.addr])];
        select := taskNext[select.addr];
        i := i + 1;
      }
      assert tasks[..i] == tasks;
    }

    // ----- the system calls

    /** sys_task_create: the stack must be word aligned, and there must be memory for a control block. */
    method SysTaskCreate(tos: nat, memory: bool) returns (tsk: Ptr)
      requires Valid() && nextTid < 0x7fff_ffff && thread[running].at == Out
      modifies this`thread, this`estcpu, this`nice, this`priority, this`taskHead, this`taskNext, this`tasks,
        this`nextTid, this`queueHead, this`queue
      ensures Valid()
      ensures if tos % 4 == 0 && memory then tsk == At(old(nextTid)) && Abs() == After(old(Abs()), Create)
              else tsk == Null && Abs() == old(Abs())
      ensures tsk != Null ==> estcpu == old(estcpu)[old(nextTid) := 0] && nice == old(nice)[old(nextTid) := 0]
      ensures tsk == Null ==> estcpu == old(estcpu) && nice == old(nice)
    {
      hide Inv, Linked;
      if tos % 4 != 0 { return Null; }
      if !memory { return Null; }
      tsk := NewTask();
    }

    method NewTask() returns (tsk: Ptr)
      requires Valid() && thread[running].at == Out
      modifies this`thread, this`estcpu, this`nice, this`priority, this`taskHead, this`taskNext, this`tasks,
        this`nextTid, this`queueHead, this`queue
      ensures Valid() && tsk == At(old(nextTid)) && Abs() == After(old(Abs()), Create)
      ensures estcpu == old(estcpu)[old(nextTid) := 0] && nice == old(nice)[old(nextTid) := 0]
    {
      hide Inv, Linked, Act, After, Enabled, Distinct, MayAct, SemsLinked, TasksLinked, QueuesLinked, Attributes;
      ghost var s0 := Abs();
      RunningFacts(s0);
      FreshTid(s0);
      CreateIs(s0);
      var tid := nextTid;
      nextTid := nextTid + 1;
      AddBlock(tid);
      tsk := At(tid);
      StepInv(s0, Create);
    }

    /** Fill in a new control block, and put it on the task list. */
    method AddBlock(tid: Tid)
      requires QueuesLinked() && TasksLinked() && Attributes() && Distinct(tasks) && tid !in tasks
      modifies this`thread, this`estcpu, this`nice, this`priority, this`taskHead, this`taskNext, this`tasks,
        this`queueHead, this`queue
      ensures QueuesLinked() && TasksLinked() && Attributes()
      ensures thread == old(thread)[tid := Thread(Ready, 0, Out)] && tasks == old(tasks) + [tid]
      ensures queue == old(queue)[ExitQueue(tid) := []]
      ensures estcpu == old(estcpu)[tid := 0] && nice == old(nice)[tid := 0]
    {
      hide *;
      NewBlock(tid);
      NewQueue(ExitQueue(tid));
      AddTask(tid);
    }

    /** Fill in a new control block. */
    method NewBlock(tid: Tid)
      requires TasksLinked() && Attributes() && tid !in tasks
      modifies this`thread, this`estcpu, this`nice, this`priority, this`taskNext
      ensures TasksLinked() && Attributes() && tid in taskNext && taskNext[tid] == Null
      ensures thread == old(thread)[tid := Thread(Ready, 0, Out)]
      ensures estcpu == old(estcpu)[tid := 0] && nice == old(nice)[tid := 0]
    {
      LinkedApart(taskHead, taskNext, tasks, tid, Null);
      taskNext := taskNext[tid := Null];
      thread := thread[tid := Thread(Ready, 0, Out)];
      estcpu, nice, priority := estcpu[tid := 0], nice[tid := 0], priority[tid := 0];
    }

    /** sys_task_exit: wake everybody who waits for this thread, and never run again. */
    method SysTaskExit(code: int)
      requires Valid() && running != TASK0 && thread[running].at == Out
      modifies this`thread, this`priority, this`running
      ensures Valid() && Enabled(old(Abs()), Exit(code, running)) && Abs() == After(old(Abs()), Exit(code, running))
      ensures running == Dispatch(thread, priority, tasks, old(running))
    {
      hide Inv, Linked, Dispatch, Act, Enabled, After, MayAct, Switches, Distinct, QueuesLinked, TasksLinked,
        SemsLinked;
      ghost var s0 := Abs();
      Finish(code, s0);
      SwitchAway(s0, Exit(code, TASK0));
    }

    /** Wake the waiters, and become a zombie. */
    method Finish(code: int, ghost s0: Sys)
      requires Inv(s0) && Abs() == s0 && QueuesLinked() && Attributes()
      requires running != TASK0 && thread[running].at == Out
      modifies this`thread
      ensures MayAct(s0, Exit(code, TASK0)) && Switches(s0, Exit(code, TASK0))
      ensures Abs() == Act(s0, Exit(code, TASK0)) && Attributes()
    {
      hide Inv, Linked, Woken, Act, MayAct, Switches, Distinct, QueuesLinked;
      RunningFacts(s0);
      ExitQueueFacts(s0, running);
      ExitIs(s0, Exit(code, TASK0));
      WakeUp(ExitQueue(running), -1);
      AllOf(queue[ExitQueue(running)]);
      thread := thread[running := thread[running].(status := Zombie, code := code)];
    }

    /** sys_task_yield. */
    method SysTaskYield()
      requires Valid() && thread[running].at == Out
      modifies this`priority, this`running
      ensures Valid() && Enabled(old(Abs()), Yield(running)) && Abs() == After(old(Abs()), Yield(running))
      ensures running == Dispatch(thread, priority, tasks, old(running))
    {
      hide Inv, Linked, Dispatch;
      ghost var s0 := Abs();
      RunningFacts(s0);
      SwitchAway(s0, Yield(TASK0));
    }

    /** sys_task_wait, up to the point where the caller may fall asleep: fails for the idle thread and for a thread
        that is not there; returns the exit code of a zombie, and frees it if nobody is queued for it. */
    method SysTaskWait(tid: int) returns (r: Outcome)
      requires Valid() && running != TASK0 && thread[running].at == Out
      modifies this`thread, this`priority, this`running, this`queueHead, this`nodeNext, this`queue, this`taskHead,
        this`taskNext, this`tasks
      ensures Valid()
      ensures tid <= 0 || tid !in old(thread) ==> r == Failed && Abs() == old(Abs())
      ensures tid > 0 && tid in old(thread) ==>
                Enabled(old(Abs()), TaskWait(tid, running)) && Abs() == After(old(Abs()), TaskWait(tid, running))
                && (if old(thread)[tid].status == Zombie then r == Returned(old(thread)[tid].code) else r == Asleep)
      ensures tid > 0 && tid in old(thread) ==>
                (tid !in thread <==>
                 && old(thread)[tid].status == Zombie
                 && forall u :: u in old(thread) ==> old(thread)[u].at != In(ExitQueue(tid)))
      ensures tid > 0 && tid !in thread ==> tid !in tasks
      ensures r == Asleep ==> running == Dispatch(thread, priority, tasks, old(running))
    {
      hide Inv, Linked, Act, Enabled, After, MayAct, Switches, Distinct, SemsLinked, Dispatch, QueuesLinked, AllLinked;
      if tid == 0 { return Failed; }
      ghost var s0 := Abs();
      ListFacts(s0);
      var tsk := GetTask(tid);
      if tsk == Null { return Failed; }
      var t := tsk.addr;
      if thread[t].status != Zombie {
        SleepForExit(t);
        r := Asleep;
      } else {
        r := Returned(thread[t].code);
        ExitQueueFacts(s0, t);
        WaitReaps(s0, TaskWait(t, running));
        StepInv(s0, TaskWait(t, running));
        ReapIfUnwanted(t);
      }
      RemovedByWait(s0, t, running);
      NotListed(Abs(), t);
    }

    method SleepForExit(t: Tid)
      requires Valid() && running != TASK0 && thread[running].at == Out && t != TASK0 && t in thread
      requires thread[t].status != Zombie
      modifies this`thread, this`priority, this`running, this`queueHead, this`nodeNext, this`queue
      ensures Valid() && Enabled(old(Abs()), TaskWait(t, running)) && Abs() == After(old(Abs()), TaskWait(t, running))
      ensures running == Dispatch(thread, priority, tasks, old(running))
    {
      hide Inv, Linked, Act, Enabled, After, MayAct, Switches, Distinct, SemsLinked, TasksLinked, Dispatch,
        QueuesLinked, AllLinked;
      ghost var s0 := Abs();
      RunningFacts(s0);
      ExitQueueFacts(s0, t);
      WaitSleeps(s0, TaskWait(t, TASK0));
      OutOfQueues(s0);
      Enqueue(ExitQueue(t));
      SleepKeys(s0, ExitQueue(t));
      SwitchAway(s0, TaskWait(t, TASK0));
    }

    /** The end of sys_task_wait: with nobody queued for it, remove the thread and free its control block. */
    method ReapIfUnwanted(t: Tid)
      requires QueuesLinked() && TasksLinked() && Attributes() && Distinct(tasks) && t in tasks && ExitQueue(t) in queue
      modifies this`thread, this`queueHead, this`queue, this`taskHead, this`taskNext, this`tasks
      ensures QueuesLinked() && TasksLinked() && Attributes() && Abs() == Reap(old(Abs()), t)
    {
      hide Linked, Distinct, AllLinked, TasksLinked, HaveAttributes, Without;
      FewerThreads(thread, estcpu, nice, priority, t);
      QueueRemoved(queueHead, nodeNext, queue, ExitQueue(t));
      if queueHead[ExitQueue(t)] == Null {
        RemoveTask(t);
        thread := thread - {t};
        queueHead := queueHead - {ExitQueue(t)};
        queue := queue - {ExitQueue(t)};
      }
    }

    /** A thread that slept runs again, still inside sleep_on: it unlinks its node and finishes its system call. */
    method ResumeCall() returns (r: Outcome)
      requires Valid() && thread[running].at.In?
      modifies this`thread, this`queueHead, this`nodeNext, this`queue, this`taskHead, this`taskNext, this`tasks,
        this`sems
      ensures Valid() && Enabled(old(Abs()), Resume) && Abs() == After(old(Abs()), Resume)
      ensures match old(thread[running]).at.queue
              case SemQueue(_) => r == Returned(0)
              case ExitQueue(t) => t in old(thread) && old(thread)[t].status == Zombie
                                   && r == Returned(old(thread)[t].code)
      ensures match old(thread[running]).at.queue
              case SemQueue(_) => thread.Keys == old(thread).Keys
              case ExitQueue(t) =>
                && (t !in thread <==>
                    forall u :: u in old(thread) && u != running ==> old(thread)[u].at != In(ExitQueue(t)))
                && (t !in thread ==> t !in tasks)
    {
      hide Inv, Linked, Act, Enabled, After, MayAct, Distinct, AllLinked;
      ghost var s0 := Abs();
      RunningFacts(s0);
      match thread[running].at.queue
      case SemQueue(x) =>
        ResumeSem(x);
        r := Returned(0);
        ResumeSemDoes(s0, x);
      case ExitQueue(t) =>
        WokenByExit(s0);
        r := Returned(thread[t].code);
        ResumeWait(t);
        RemovedByResume(s0, t);
        NotListed(Abs(), t);
    }

    method ResumeSem(x: SemId)
      requires Valid() && thread[running].at == In(SemQueue(x))
      modifies this`thread, this`queueHead, this`nodeNext, this`queue, this`sems
      ensures Valid() && Enabled(old(Abs()), Resume) && Abs() == After(old(Abs()), Resume)
    {
      hide Inv, Linked, Act, Enabled, After, MayAct, Distinct, AllLinked, TasksLinked, SemsLinked, Without;
      ghost var s0 := Abs();
      RunningFacts(s0);
      ResumeIs(s0);
      OwnQueue(s0);
      StepInv(s0, Resume);
      Unlink(SemQueue(x));
      UnsleepKeys(s0);
      CountGrant(x);
    }

    /** History: one more wait on the semaphore has come back. */
    ghost method CountGrant(x: SemId)
      requires SemsLinked() && x in sems
      modifies this`sems
      ensures SemsLinked() && sems == old(sems)[x := old(sems)[x].(granted := old(sems)[x].granted + 1)]
    {
      hide Linked, Distinct, SemsAgree;
      SemInList(value, semList, sems, x);
      SemChanged(value, semList, sems, x, sems[x].(granted := sems[x].granted + 1));
      sems := sems[x := sems[x].(granted := sems[x].granted + 1)];
    }

    method ResumeWait(t: Tid)
      requires Valid() && thread[running].at == In(ExitQueue(t))
      modifies this`thread, this`queueHead, this`nodeNext, this`queue, this`taskHead, this`taskNext, this`tasks
      ensures Valid() && Enabled(old(Abs()), Resume) && Abs() == After(old(Abs()), Resume)
    {
      hide Inv, Linked, Act, Enabled, After, MayAct, Distinct, AllLinked, TasksLinked, QueuesLinked, SemsLinked,
        Without;
      ghost var s0 := Abs();
      RunningFacts(s0);
      ResumeIs(s0);
      OwnQueue(s0);
      WokenByExit(s0);
      ListFacts(s0);
      StepInv(s0, Resume);
      Unlink(ExitQueue(t));
      UnsleepKeys(s0);
      ReapIfUnwanted(t);
    }

    // ----- semaphores

    method AddSemaphore(x: SemId)
      requires Linked(semFirst, semNext, semList) && Distinct(semList) && x !in semList && x in semNext
      requires semNext[x] == Null
      modifies this`semFirst, this`semNext, this`semList
      ensures Linked(semFirst, semNext, semList) && Distinct(semList) && semList == old(semList) + [x]
    {
      Appended(semFirst, semNext, semList, x);
      assert semNext[x := Null] == semNext;
      if semFirst == Null {
        semFirst := At(x);
      } else {
        var a, b := semFirst, x;
        ghost var i: nat := 0;
        while true
          invariant 0 <= i < |semList| && a == At(semList[i])
          decreases |semList| - i
        {
          b := a.addr;
          a := semNext[b];
          if a == Null {
            semNext := semNext[b := At(x)];
            break;
          }
          i := i + 1;
        }
      }
      semList := semList + [x];
    }

    method GetSemaphore(semid: int) returns (sem: Ptr)
      requires SemsLinked()
      ensures sem == if semid >= 0 && semid in value then At(semid) else Null
    {
      hide Linked, SemsAgree;
      FirstInList(semFirst, semNext, semList);
      sem := semFirst;
      ghost var i: nat := 0;
      while sem != Null
        invariant 0 <= i <= |semList| && sem == PtrAt(semList, i)
        invariant forall j :: 0 <= j < i ==> semList[j] != semid
        decreases |semList| - i
      {
        NextInList(semFirst, semNext, semList, i);
        if sem.addr == semid { break; }
        sem := semNext[sem.addr];
        i := i + 1;
      }
      if semid >= 0 { SemInList(value, semList, sems, semid); }
    }

    method SysSemCreate(v: int) returns (semid: SemId)
      requires Valid() && thread[running].at == Out
      modifies this`value, this`semFirst, this`semNext, this`semList, this`sems, this`nextSem, this`queueHead,
        this`queue
      ensures Valid() && semid == old(nextSem) && Enabled(old(Abs()), SemCreate(v))
      ensures Abs() == After(old(Abs()), SemCreate(v)) && value == old(value)[semid := v]
    {
      hide Inv, Linked, Act, Enabled, After, Distinct, TasksLinked, AllLinked, SemsLinked, Attributes;
      ghost var s0 := Abs();
      RunningFacts(s0);
      SemCreateIs(s0, v);
      StepInv(s0, SemCreate(v));
      semid := nextSem;
      nextSem := nextSem + 1;
      NewQueue(SemQueue(semid));
      NewSemaphore(semid, v);
    }

    method NewSemaphore(x: SemId, v: int)
      requires SemsLinked() && x !in sems
      modifies this`value, this`semFirst, this`semNext, this`semList, this`sems
      ensures SemsLinked() && sems == old(sems)[x := Semaphore(v, v, 0, 0, 0)] && value == old(value)[x := v]
    {
      hide Linked, Distinct, SemsAgree;
      SemAdded(value, semList, sems, x, v);
      LinkedApart(semFirst, semNext, semList, x, Null);
      semNext := semNext[x := Null];
      AddSemaphore(x);
      value := value[x := v];
      sems := sems[x := Semaphore(v, v, 0, 0, 0)];
    }

    method SysSemWait(semid: int) returns (r: Outcome)
      requires Valid() && thread[running].at == Out
      requires semid >= 0 && semid in value && value[semid] <= 0 ==> running != TASK0
      modifies this`thread, this`priority, this`running, this`queueHead, this`nodeNext, this`queue, this`value,
        this`sems
      ensures Valid()
      ensures semid < 0 || semid !in old(value) ==> r == Failed && Abs() == old(Abs())
      ensures semid >= 0 && semid in old(value) ==>
                Enabled(old(Abs()), SemWait(semid, running)) && Abs() == After(old(Abs()), SemWait(semid, running))
                && (if old(value)[semid] <= 0 then r == Asleep else r == Returned(0))
                && value == old(value)[semid := old(value)[semid] - 1]
      ensures r == Asleep ==> running == Dispatch(thread, priority, tasks, old(running))
    {
      hide Inv, Linked, Act, Enabled, After, MayAct, Switches, Distinct, TasksLinked, Dispatch, AllLinked, SemsAgree;
      var sem := GetSemaphore(semid);
      if sem == Null { return Failed; }
      var x := sem.addr;
      ghost var s0 := Abs();
      SemInList(value, semList, sems, x);
      SemChanged(value, semList, sems, x, sems[x].(value := sems[x].value - 1, waits := sems[x].waits + 1));
      SemChanged(value, semList, sems, x,
                 sems[x].(value := sems[x].value - 1, waits := sems[x].waits + 1, granted := sems[x].granted + 1));
      value := value[x := value[x] - 1];
      if value[x] < 0 {
        SemSleep(x, s0);
        r := Asleep;
      } else {
        RunningFacts(s0);
        SemWaitPasses(s0, SemWait(x, running));
        StepInv(s0, SemWait(x, running));
        sems := sems[x := sems[x].(value := sems[x].value - 1, waits := sems[x].waits + 1,
                                   granted := sems[x].granted + 1)];
        r := Returned(0);
      }
    }

    /** The semaphore has been taken below zero: sleep on it. */
    method SemSleep(x: SemId, ghost s0: Sys)
      requires Inv(s0) && Abs() == s0 && QueuesLinked() && TasksLinked() && Attributes()
      requires running != TASK0 && thread[running].at == Out && x in sems && sems[x].value - 1 < 0
      modifies this`thread, this`priority, this`running, this`queueHead, this`nodeNext, this`queue, this`sems
      ensures Inv(Abs()) && QueuesLinked() && TasksLinked() && Attributes()
      ensures sems == old(sems)[x := old(sems)[x].(value := old(sems)[x].value - 1, waits := old(sems)[x].waits + 1)]
      ensures Enabled(s0, SemWait(x, running)) && Abs() == After(s0, SemWait(x, running))
      ensures running == Dispatch(thread, priority, tasks, old(running))
    {
      hide Inv, Linked, Act, Enabled, After, MayAct, Switches, Distinct, TasksLinked, QueuesLinked, AllLinked, Dispatch;
      RunningFacts(s0);
      SemWaitSleeps(s0, SemWait(x, TASK0));
      OutOfQueues(s0);
      sems := sems[x := sems[x].(value := sems[x].value - 1, waits := sems[x].waits + 1)];
      Enqueue(SemQueue(x));
      SleepKeys(s0, SemQueue(x));
      SwitchAway(s0, SemWait(x, TASK0));
    }

    method SysSemSignal(semid: int) returns (r: Outcome)
      requires Valid() && thread[running].at == Out
      modifies this`thread, this`value, this`sems
      ensures Valid()
      ensures semid < 0 || semid !in old(value) ==> r == Failed && Abs() == old(Abs())
      ensures semid >= 0 && semid in old(value) ==>
                r == Returned(0) && Enabled(old(Abs()), SemSignal(semid))
                && Abs() == After(old(Abs()), SemSignal(semid))
                && value == old(value)[semid := old(value)[semid] + 1]
    {
      hide Inv, Linked, Act, Enabled, After, MayAct, Distinct, TasksLinked, SemsAgree;
      var sem := GetSemaphore(semid);
      if sem == Null { return Failed; }
      var x := sem.addr;
      ghost var s0 := Abs();
      SemInList(value, semList, sems, x);
      SemChanged(value, semList, sems, x, sems[x].(value := sems[x].value + 1, signals := sems[x].signals + 1));
      RunningFacts(s0);
      SignalIs(s0, x);
      StepInv(s0, SemSignal(x));
      value := value[x := value[x] + 1];
      sems := sems[x := sems[x].(value := sems[x].value + 1, signals := sems[x].signals + 1)];
      if value[x] <= 0 {
        WakeUp(SemQueue(x), 1);
        WokenKeys(s0.threads, queue[SemQueue(x)][..WakeCount(1, |queue[SemQueue(x)]|)]);
      }
      r := Returned(0);
    }

    /** The call of schedule() at the end of a step. */
    method SwitchAway(ghost s: Sys, ghost e: Event)
      requires Inv(s) && MayAct(s, e) && Switches(s, e) && Abs() == Act(s, e) && TasksLinked() && Attributes()
      modifies this`priority, this`running
      ensures Attributes() && Inv(Abs())
      ensures Enabled(s, To(e, running)) && Abs() == After(s, To(e, running))
      ensures running == Dispatch(thread, priority, tasks, old(running))
      ensures forall t :: t in thread ==> priority[t] == Priority(estcpu[t], nice[t])
    {
      hide Inv, Linked, Dispatch, Act, Enabled, After, MayAct, Switches, Priority;
      SwitchFrom(s, e);
      ghost var r := running;
      Schedule();
      DispatchBest(thread, priority, tasks, r);
      Switched(s, e, running);
    }
  }

  lemma RemovedByWait(s: Sys, t: Tid, n: Tid)
    requires Inv(s) && Enabled(s, TaskWait(t, n)) && t in s.threads && s.threads[s.running].at == Out
    ensures t !in After(s, TaskWait(t, n)).threads <==>
              s.threads[t].status == Zombie && forall u :: u in s.threads ==> s.threads[u].at != In(ExitQueue(t))
  {
    hide Inv, Enabled, After;
    RemovedExactly(s, TaskWait(t, n), t);
  }

  lemma RemovedByResume(s: Sys, t: Tid)
    requires Inv(s) && Enabled(s, Resume) && s.running in s.threads && s.threads[s.running].at == In(ExitQueue(t))
    ensures t !in After(s, Resume).threads <==>
              forall u :: u in s.threads && u != s.running ==> s.threads[u].at != In(ExitQueue(t))
  {
    WokenByExit(s);
    hide Inv, Enabled, After;
    RemovedExactly(s, Resume, t);
  }

  lemma NotListed(s: Sys, t: Tid)
    requires Inv(s)
    ensures t in s.tasks <==> t in s.threads
  {
    hide Queued, Statuses, ExitWaiters, Accounts, QueueHeads;
  }

  lemma RunningFacts(s: Sys)
    requires Inv(s)
    ensures s.running in s.threads && s.threads[s.running].status == Ready
    ensures forall t :: t in s.threads ==> t != s.nextTid
  {}

  lemma ExitIs(s: Sys, e: Event)
    requires Inv(s) && e.Exit? && s.running != TASK0 && s.threads[s.running].at == Out
    ensures ExitQueue(s.running) in s.queue && MayAct(s, e) && s.running in s.threads && Switches(s, e)
    ensures var w := Woken(s.threads, s.queue[ExitQueue(s.running)]);
            && w.Keys == s.threads.Keys
            && Act(s, e) == s.(threads := w[s.running := w[s.running].(status := Zombie, code := e.code)])
  {
    RunningFacts(s);
    ExitQueueFacts(s, s.running);
    hide Inv;
    WokenKeys(s.threads, s.queue[ExitQueue(s.running)]);
    WakeAll(s, ExitQueue(s.running));
    hide Woken, Wake;
  }

  lemma WakeAll(s: Sys, q: QueueId)
    requires q in s.queue
    ensures Wake(s, q, -1) == s.(threads := Woken(s.threads, s.queue[q]))
  {
    AllOf(s.queue[q]);
  }

  lemma AllOf(q: seq<Tid>)
    ensures q[..WakeCount(-1, |q|)] == q
  {}

  lemma WokenKeys(threads: map<Tid, Thread>, q: seq<Tid>)
    ensures Woken(threads, q).Keys == threads.Keys
  {
    var w := Woken(threads, q);
    assert w.Keys <= threads.Keys;
    assert threads.Keys <= w.Keys;
  }

  lemma CreateIs(s: Sys)
    requires s.running in s.threads && s.threads[s.running].at == Out
    ensures Enabled(s, Create)
    ensures After(s, Create)
            == s.(threads := s.threads[s.nextTid := Thread(Ready, 0, Out)], tasks := s.tasks + [s.nextTid],
                                   queue := s.queue[ExitQueue(s.nextTid) := []], nextTid := s.nextTid + 1)
  {}

  lemma SemCreateIs(s: Sys, v: int)
    requires Inv(s) && s.threads[s.running].at == Out
    ensures Enabled(s, SemCreate(v)) && s.nextSem !in s.sems
    ensures After(s, SemCreate(v))
            == s.(sems := s.sems[s.nextSem := Semaphore(v, v, 0, 0, 0)], queue := s.queue[SemQueue(s.nextSem) := []],
                                         nextSem := s.nextSem + 1)
  {
    hide Queued, ExitWaiters, Accounts, Statuses;
  }

  lemma ListFacts(s: Sys)
    requires Inv(s)
    ensures Distinct(s.tasks) && (forall t :: t in s.tasks <==> t in s.threads)
  {
    hide Queued, ExitWaiters, Accounts, Statuses, QueueHeads;
  }

  /** The running thread has no node in any queue while it is outside sleep_on. */
  lemma OutOfQueues(s: Sys)
    requires Inv(s) && s.threads[s.running].at == Out
    ensures forall q :: q in s.queue ==> s.running !in s.queue[q]
  {
    hide TaskList, ExitWaiters, Accounts, Statuses, QueueHeads;
  }

  lemma OwnQueue(s: Sys)
    requires Inv(s) && s.threads[s.running].at.In?
    ensures var q := s.threads[s.running].at.queue;
            && q in s.queue && s.running in s.queue[q] && (forall p :: p in s.queue ==> Distinct(s.queue[p]))
            && (forall p, x :: p in s.queue && p != q && x in s.queue[p] ==> x !in s.queue[q])
            && (q.SemQueue? ==> q.sem in s.sems)
  {
    hide TaskList, ExitWaiters, Accounts, Statuses;
  }

  lemma WaitSleeps(s: Sys, e: Event)
    requires Inv(s) && s.threads[s.running].at == Out && s.running != TASK0
    requires e.TaskWait? && e.tid != TASK0 && e.tid in s.threads && s.threads[e.tid].status != Zombie
    ensures MayAct(s, e) && Switches(s, e) && Act(s, e) == Sleep(s, ExitQueue(e.tid))
  {
    hide Inv, Sleep;
    RunningFacts(s);
  }

  lemma WaitReaps(s: Sys, e: Event)
    requires Inv(s) && s.threads[s.running].at == Out && s.running != TASK0
    requires e.TaskWait? && e.tid != TASK0 && e.tid in s.threads && s.threads[e.tid].status == Zombie
    ensures Enabled(s, e) && After(s, e) == Reap(s, e.tid)
  {
    hide Inv, Reap;
    RunningFacts(s);
  }

  /** One more wait on the semaphore has come back. */
  function Granted(s: Sys, x: SemId): Sys {
    if x in s.sems then s.(sems := s.sems[x := s.sems[x].(granted := s.sems[x].granted + 1)]) else s
  }

  lemma ResumeIs(s: Sys)
    requires Inv(s) && s.threads[s.running].at.In?
    ensures Enabled(s, Resume)
    ensures After(s, Resume) == match s.threads[s.running].at.queue
                                case SemQueue(x) => Granted(Unsleep(s), x)
                                case ExitQueue(t) => Reap(Unsleep(s), t)
  {
    RunningFacts(s);
    hide Inv, Reap, Unsleep;
  }

  lemma SemWaitSleeps(s: Sys, e: Event)
    requires Inv(s) && s.threads[s.running].at == Out && s.running != TASK0 && e.SemWait? && e.sem in s.sems
    requires s.sems[e.sem].value - 1 < 0
    ensures MayAct(s, e) && Switches(s, e) && SemQueue(e.sem) in s.queue
    ensures var m := s.sems[e.sem];
            Act(s, e)
            == Sleep(s.(sems := s.sems[e.sem := m.(value := m.value - 1, waits := m.waits + 1)]), SemQueue(e.sem))
  {
    RunningFacts(s);
    SemHasQueue(s, e.sem);
    hide Inv, Sleep;
  }

  lemma SemHasQueue(s: Sys, x: SemId)
    requires Inv(s) && x in s.sems
    ensures SemQueue(x) in s.queue && forall u :: u in s.queue[SemQueue(x)] ==> u in s.threads
  {
    hide TaskList, Statuses, ExitWaiters, Accounts;
    assert SemQueue(x) in s.queue <==> x in s.sems;
  }

  lemma SemWaitPasses(s: Sys, e: Event)
    requires Inv(s) && s.threads[s.running].at == Out && e.SemWait? && e.sem in s.sems && s.sems[e.sem].value - 1 >= 0
    ensures Enabled(s, e)
    ensures var m := s.sems[e.sem];
            After(s, e)
            == s.(sems := s.sems[e.sem := m.(value := m.value - 1, waits := m.waits + 1, granted := m.granted + 1)])
  {
    RunningFacts(s);
    hide Inv;
  }

  lemma SignalIs(s: Sys, x: SemId)
    requires Inv(s) && s.threads[s.running].at == Out && x in s.sems
    ensures Enabled(s, SemSignal(x)) && SemQueue(x) in s.queue
    ensures forall u :: u in s.queue[SemQueue(x)] ==> u in s.threads
    ensures var m := s.sems[x];
            var s' := s.(sems := s.sems[x := m.(value := m.value + 1, signals := m.signals + 1)]);
            After(s, SemSignal(x)) == if m.value + 1 <= 0
              then s'.(threads := Woken(s.threads, s.queue[SemQueue(x)][..WakeCount(1, |s.queue[SemQueue(x)]|)]))
                else s'
  {
    RunningFacts(s);
    SemHasQueue(s, x);
    hide Inv, Woken;
  }

  lemma SleepKeys(s: Sys, q: QueueId)
    requires s.running in s.threads && q in s.queue
    ensures Sleep(s, q).threads.Keys == s.threads.Keys
  {}

  lemma UnsleepKeys(s: Sys)
    requires s.running in s.threads && s.threads[s.running].at.In?
    ensures Unsleep(s).threads.Keys == s.threads.Keys
  {}

  lemma FreshTid(s: Sys)
    requires Inv(s)
    ensures s.nextTid !in s.tasks && s.nextTid !in s.threads && Distinct(s.tasks) && ExitQueue(s.nextTid) !in s.queue
  {
    hide Queued, Statuses, ExitWaiters, Accounts;
    assert s.nextTid !in s.threads;
    assert ExitQueue(s.nextTid) in s.queue <==> s.nextTid in s.threads;
  }

  lemma ExitQueueFacts(s: Sys, t: Tid)
    requires Inv(s) && t in s.threads
    ensures ExitQueue(t) in s.queue && forall u :: u in s.queue[ExitQueue(t)] ==> u in s.threads
  {
    hide TaskList, Statuses, ExitWaiters, Accounts;
    assert ExitQueue(t) in s.queue <==> t in s.threads;
  }

  /** What the scheduler relies on. */
  lemma SwitchFrom(s: Sys, e: Event)
    requires Inv(s) && MayAct(s, e)
    ensures var s' := Act(s, e);
            && s'.running in s'.threads && s'.running in s'.tasks && Distinct(s'.tasks) && |s'.tasks| > 0
            && s'.tasks[0] == TASK0
            && (forall t :: t in s'.tasks <==> t in s'.threads) && s'.threads[TASK0].status == Ready
  {
    hide Accounts, QueueHeads, Queued, ExitWaiters;
    ActShape(s, e);
    RunningThere(s, e);
    hide Act;
  }

  lemma RunningThere(s: Sys, e: Event)
    requires Shape(s) && RunningReady(s) && MayAct(s, e)
    ensures Act(s, e).running == s.running && s.running in Act(s, e).threads
  {
    if e.Resume? { UnsleepShape(s); }
  }

  /** The step is complete once the scheduler has picked a thread: e' is the event e, with that thread named. */
  lemma Switched(s: Sys, e: Event, n: Tid)
    requires Inv(s) && MayAct(s, e) && Switches(s, e)
    requires n in Act(s, e).threads && Act(s, e).threads[n].status == Ready
    ensures Enabled(s, To(e, n)) && After(s, To(e, n)) == Act(s, e).(running := n) && Inv(After(s, To(e, n)))
  {
    SameButNext(s, e, n);
    hide Inv, Act, MayAct, Switches;
    StepInv(s, To(e, n));
  }

  lemma SameButNext(s: Sys, e: Event, n: Tid)
    ensures Act(s, To(e, n)) == Act(s, e) && (MayAct(s, To(e, n)) <==> MayAct(s, e))
    ensures Switches(s, To(e, n)) <==> Switches(s, e)
    ensures Switches(s, e) ==> Next(To(e, n)) == n
  {
    hide Sleep, Reap, Wake, Unsleep;
  }
}
