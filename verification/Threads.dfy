/** Threads, wait queues and semaphores (kernel/task.c, kernel/sem.c) as a transition system.

    A step is one section that the kernel runs with interrupts off.  A thread that goes to sleep leaves its node in
    the queue; waking it only marks it ready, and the node stays until the thread runs again and unlinks it. */
module Threads {

  type Tid = nat
  type SemId = nat

  datatype Status = Ready | Waiting | Zombie

  /** The head cells that wait queues hang from: sem->waitqueue and tcb->wq_exit. */
  datatype QueueId = SemQueue(sem: SemId) | ExitQueue(tid: Tid)

  /** Where a thread's kernel stack stands: outside sleep_on, or inside it, with a node in a queue. */
  datatype Where = Out | In(queue: QueueId)

  datatype Thread = Thread(status: Status, code: int, at: Where)

  /** A semaphore; init, waits, signals and granted record its history. */
  datatype Semaphore = Semaphore(value: int, init: int, waits: nat, signals: nat, granted: nat)

  /** `tasks` is the task list, `queue` holds each wait queue from its head on. */
  datatype Sys = Sys(threads: map<Tid, Thread>, tasks: seq<Tid>, queue: map<QueueId, seq<Tid>>,
                     sems: map<SemId, Semaphore>, running: Tid, nextTid: Tid, nextSem: SemId)

  const TASK0: Tid := 0

  // ----- sequences

  predicate Distinct(s: seq<nat>) {
    forall i, j :: 0 <= i < j < |s| ==> s[i] != s[j]
  }

  /** s without its first x. */
  function Without(s: seq<nat>, x: nat): seq<nat> {
    if s == [] then [] else if s[0] == x then s[1..] else [s[0]] + Without(s[1..], x)
  }

  lemma {:induction false} WithoutMembers(s: seq<nat>, x: nat)
    requires Distinct(s)
    ensures Distinct(Without(s, x)) && forall y :: y in Without(s, x) <==> y in s && y != x
  {
    if s != [] {
      assert forall y :: y in s <==> y == s[0] || y in s[1..];
      if s[0] != x {
        WithoutMembers(s[1..], x);
        assert s[0] !in s[1..];
      }
    }
  }

  /** How many threads of a queue wake_up(head, n) reaches; a negative n means all. */
  function WakeCount(n: int, len: nat): (k: nat)
    ensures k <= len
  {
    if n < 0 || n > len then len else n
  }

  function Woken(threads: map<Tid, Thread>, q: seq<Tid>): map<Tid, Thread> {
    map t | t in threads :: if t in q then threads[t].(status := Ready) else threads[t]
  }

  /** How many threads of a queue are waiting. */
  function CountWaiting(threads: map<Tid, Thread>, q: seq<Tid>): nat {
    if q == [] then 0
    else (if q[0] in threads && threads[q[0]].status == Waiting then 1 else 0) + CountWaiting(threads, q[1..])
  }

  // ----- steps

  datatype Event =
    | Create
    | SemCreate(value: int)
    | SemWait(sem: SemId, next: Tid)
    | SemSignal(sem: SemId)
    | TaskWait(tid: Tid, next: Tid)
    | Exit(code: int, next: Tid)
    | Yield(next: Tid)
    | Resume

  /** The first half of sleep_on: link a node in front, and wait. */
  function Sleep(s: Sys, q: QueueId): Sys {
    if q in s.queue && s.running in s.threads then
      s.(queue := s.queue[q := [s.running] + s.queue[q]],
         threads := s.threads[s.running := s.threads[s.running].(status := Waiting, at := In(q))])
    else s
  }

  /** The second half of sleep_on, when the thread runs again: unlink the node. */
  function Unsleep(s: Sys): Sys {
    if s.running in s.threads && s.threads[s.running].at.In? && s.threads[s.running].at.queue in s.queue then
      var q := s.threads[s.running].at.queue;
      s.(queue := s.queue[q := Without(s.queue[q], s.running)],
         threads := s.threads[s.running := s.threads[s.running].(at := Out)])
    else s
  }

  function Wake(s: Sys, q: QueueId, n: int): Sys {
    if q in s.queue then s.(threads := Woken(s.threads, s.queue[q][..WakeCount(n, |s.queue[q]|)])) else s
  }

  /** The end of sys_task_wait: the last waiter removes the thread and frees its control block. */
  function Reap(s: Sys, t: Tid): Sys {
    if ExitQueue(t) in s.queue && s.queue[ExitQueue(t)] == [] then
      s.(threads := s.threads - {t}, tasks := Without(s.tasks, t), queue := s.queue - {ExitQueue(t)})
    else s
  }

  /** What a step does before it may call the scheduler. */
  function Act(s: Sys, e: Event): Sys {
    match e
    case Create =>
      s.(threads := s.threads[s.nextTid := Thread(Ready, 0, Out)], tasks := s.tasks + [s.nextTid],
         queue := s.queue[ExitQueue(s.nextTid) := []], nextTid := s.nextTid + 1)
    case SemCreate(v) =>
      s.(sems := s.sems[s.nextSem := Semaphore(v, v, 0, 0, 0)], queue := s.queue[SemQueue(s.nextSem) := []],
         nextSem := s.nextSem + 1)
    case SemWait(x, _) =>
      if x !in s.sems then s else
      var m := s.sems[x];
      if m.value - 1 < 0
        then Sleep(s.(sems := s.sems[x := m.(value := m.value - 1, waits := m.waits + 1)]), SemQueue(x))
      else s.(sems := s.sems[x := m.(value := m.value - 1, waits := m.waits + 1, granted := m.granted + 1)])
    case SemSignal(x) =>
      if x !in s.sems then s else
      var m := s.sems[x];
      var s' := s.(sems := s.sems[x := m.(value := m.value + 1, signals := m.signals + 1)]);
      if m.value + 1 <= 0 then Wake(s', SemQueue(x), 1) else s'
    case TaskWait(t, _) =>
      if t == TASK0 || t !in s.threads then s else
      if s.threads[t].status != Zombie then Sleep(s, ExitQueue(t)) else Reap(s, t)
    case Exit(code, _) =>
      var w := Wake(s, ExitQueue(s.running), -1);
      if s.running in w.threads
        then w.(threads := w.threads[s.running := w.threads[s.running].(status := Zombie, code := code)])
        else w
    case Yield(_) => s
    case Resume =>
      if s.running !in s.threads || s.threads[s.running].at.Out? then s else
      match s.threads[s.running].at.queue
      case SemQueue(x) =>
        var s' := Unsleep(s);
        if x in s'.sems then s'.(sems := s'.sems[x := s'.sems[x].(granted := s'.sems[x].granted + 1)]) else s'
      case ExitQueue(t) => Reap(Unsleep(s), t)
  }

  /** Does the step call the scheduler? */
  predicate Switches(s: Sys, e: Event) {
    match e
    case SemWait(x, _) => x in s.sems && s.sems[x].value - 1 < 0
    case TaskWait(t, _) => t != TASK0 && t in s.threads && s.threads[t].status != Zombie
    case Exit(_, _) => true
    case Yield(_) => true
    case _ => false
  }

  /** The thread that the scheduler picks. */
  function Next(e: Event): Tid {
    match e
    case SemWait(_, n) => n
    case TaskWait(_, n) => n
    case Exit(_, n) => n
    case Yield(n) => n
    case _ => TASK0
  }

  /** A thread inside sleep_on first finishes it; the idle thread never sleeps and never exits. */
  predicate MayAct(s: Sys, e: Event) {
    && s.running in s.threads
    && (e.Resume? <==> s.threads[s.running].at.In?)
    && (Switches(s, e) && s.running == TASK0 ==> e.Yield?)
  }

  /** The scheduler picks a ready thread. */
  predicate Enabled(s: Sys, e: Event) {
    MayAct(s, e)
    && (Switches(s, e) ==> var s' := Act(s, e); Next(e) in s'.threads && s'.threads[Next(e)].status == Ready)
  }

  function After(s: Sys, e: Event): Sys {
    if Switches(s, e) then Act(s, e).(running := Next(e)) else Act(s, e)
  }

  // ----- the invariant

  /** The control blocks in memory are those on the task list, each once, the idle thread's first. */
  ghost predicate TaskList(s: Sys) {
    && Distinct(s.tasks) && |s.tasks| > 0 && s.tasks[0] == TASK0
    && (forall t {:trigger t in s.threads} :: t in s.threads <==> t in s.tasks)
    && (forall t {:trigger t in s.threads} :: t in s.threads ==> t < s.nextTid)
    && (forall x {:trigger x in s.sems} :: x in s.sems ==> x < s.nextSem)
  }

  /** Which queues there are. */
  ghost predicate QueueHeads(s: Sys) {
    && (forall x {:trigger SemQueue(x)} :: SemQueue(x) in s.queue <==> x in s.sems)
    && (forall t {:trigger ExitQueue(t)} :: ExitQueue(t) in s.queue <==> t in s.threads)
  }

  /** A sleeper has exactly one node in exactly one queue; no other thread has any. */
  ghost predicate Queued(s: Sys) {
    && (forall q {:trigger s.queue[q]} :: q in s.queue ==> Distinct(s.queue[q]))
    && (forall q, t {:trigger t in s.queue[q]} :: q in s.queue && t in s.queue[q] ==>
          t in s.threads && s.threads[t].at == In(q))
    && (forall t {:trigger s.threads[t]} :: t in s.threads && s.threads[t].at.In? ==>
          s.threads[t].at.queue in s.queue && t in s.queue[s.threads[t].at.queue])
  }

  /** Only sleepers wait; zombies are no sleepers; the idle thread is always ready. */
  ghost predicate Statuses(s: Sys) {
    && TASK0 in s.threads && s.threads[TASK0].status == Ready && s.threads[TASK0].at == Out
    && (forall t {:trigger s.threads[t]} :: t in s.threads ==>
          && (s.threads[t].status == Waiting ==> s.threads[t].at.In?)
          && (s.threads[t].status == Zombie ==> s.threads[t].at == Out))
  }

  /** A thread waiting for another's exit has been woken exactly if that one has exited. */
  ghost predicate ExitWaiters(s: Sys) {
    forall t {:trigger s.threads[t]} :: t in s.threads && s.threads[t].at.In? && s.threads[t].at.queue.ExitQueue? ==>
      var u := s.threads[t].at.queue.tid;
      u in s.threads && (s.threads[t].status == Ready <==> s.threads[u].status == Zombie)
  }

  /** A semaphore's account. */
  ghost predicate Balanced(s: Sys, x: SemId)
    requires x in s.sems
  {
    var m := s.sems[x];
    && m.value == m.init + m.signals - m.waits
    && SemQueue(x) in s.queue && m.waits == m.granted + |s.queue[SemQueue(x)]|
    && (m.init >= 0 ==> CountWaiting(s.threads, s.queue[SemQueue(x)]) >= -m.value)
  }

  ghost predicate Accounts(s: Sys) {
    forall x {:trigger s.sems[x]} :: x in s.sems ==> Balanced(s, x)
  }

  ghost predicate Shape(s: Sys) {
    TaskList(s) && QueueHeads(s) && Queued(s) && Statuses(s) && ExitWaiters(s)
  }

  /** The running thread is ready: never a waiting one, nor a zombie. */
  ghost predicate RunningReady(s: Sys) {
    s.running in s.threads && s.threads[s.running].status == Ready
  }

  ghost predicate Inv(s: Sys) {
    Shape(s) && Accounts(s) && RunningReady(s)
  }

  function Boot(): Sys {
    Sys(map[TASK0 := Thread(Ready, 0, Out)], [TASK0], map[ExitQueue(TASK0) := []], map[], TASK0, 1, 0)
  }

  lemma BootInv()
    ensures Inv(Boot())
  {}

  // ----- every step keeps the shape

  lemma SleepShape(s: Sys, q: QueueId)
    requires Shape(s) && RunningReady(s) && s.running != TASK0 && s.threads[s.running].at == Out && q in s.queue
    requires q.ExitQueue? ==> s.threads[q.tid].status != Zombie
    ensures Shape(Sleep(s, q))
  {
    var r := s.running;
    var s' := Sleep(s, q);
    assert r !in s.queue[q];
    forall p | p in s'.queue ensures Distinct(s'.queue[p]) { assert Distinct(s.queue[p]); }
    forall p, t | p in s'.queue && t in s'.queue[p] ensures t in s'.threads && s'.threads[t].at == In(p) {
      assert t in s.queue[p] || (p == q && t == r);
    }
  }

  lemma UnsleepShape(s: Sys)
    requires Shape(s) && RunningReady(s) && s.threads[s.running].at.In?
    ensures Shape(Unsleep(s)) && RunningReady(Unsleep(s)) && s.threads[s.running].at.queue in s.queue
  {
    var r := s.running;
    var q := s.threads[r].at.queue;
    var s' := Unsleep(s);
    WithoutMembers(s.queue[q], r);
    forall p, t | p in s'.queue && t in s'.queue[p] ensures t in s'.threads && s'.threads[t].at == In(p) {
      assert t in s.queue[p];
    }
  }

  lemma WakeShape(s: Sys, x: SemId, n: int)
    requires Shape(s) && SemQueue(x) in s.queue
    ensures Shape(Wake(s, SemQueue(x), n))
  {
    var w := s.queue[SemQueue(x)][..WakeCount(n, |s.queue[SemQueue(x)]|)];
    var s' := Wake(s, SemQueue(x), n);
    forall t | t in s'.threads
      ensures s'.threads[t].at == s.threads[t].at && (t in w ==> s.threads[t].at == In(SemQueue(x)))
    {
      if t in w { assert t in s.queue[SemQueue(x)]; }
    }
  }

  lemma ExitShape(s: Sys, code: int, next: Tid)
    requires Shape(s) && RunningReady(s) && s.running != TASK0 && s.threads[s.running].at == Out
    ensures Shape(Act(s, Exit(code, next)))
  {
    hide Act, Woken;
    ExitThreads(s, code, next);
    OwnExitQueue(s);
  }

  lemma OwnExitQueue(s: Sys)
    requires Shape(s) && RunningReady(s)
    ensures ExitQueue(s.running) in s.queue
    ensures forall t :: t in s.threads ==>
              (t in s.queue[ExitQueue(s.running)] <==> s.threads[t].at == In(ExitQueue(s.running)))
  {
    hide TaskList, Statuses, ExitWaiters;
  }

  lemma ExitThreads(s: Sys, code: int, next: Tid)
    requires s.running in s.threads && ExitQueue(s.running) in s.queue
    ensures var s', q := Act(s, Exit(code, next)), s.queue[ExitQueue(s.running)];
            && s' == s.(threads := s'.threads) && s'.threads.Keys == s.threads.Keys
            && (forall t :: t in s.threads ==> s'.threads[t].at == s.threads[t].at)
            && (forall t :: t in s.threads && t != s.running ==>
                  s'.threads[t].status == if t in q then Ready else s.threads[t].status)
            && s'.threads[s.running].status == Zombie
  {
    var q := s.queue[ExitQueue(s.running)];
    assert q[..|q|] == q;
    assert Woken(s.threads, q).Keys == s.threads.Keys;
  }

  lemma ReapShape(s: Sys, t: Tid)
    requires Shape(s) && t != TASK0 && t in s.threads && s.threads[t].status == Zombie
    ensures Shape(Reap(s, t))
  {
    if ExitQueue(t) in s.queue && s.queue[ExitQueue(t)] == [] {
      var s' := Reap(s, t);
      WithoutMembers(s.tasks, t);
      WithoutHead(s.tasks, t);
      forall u | u in s'.threads && s'.threads[u].at.In? ensures s'.threads[u].at.queue in s'.queue {
        assert u in s.queue[s.threads[u].at.queue];
      }
      forall p, u | p in s'.queue && u in s'.queue[p] ensures u in s'.threads && s'.threads[u].at == In(p) {
        assert s.threads[u].at == In(p);
      }
      forall u | u in s'.threads && s'.threads[u].at.In? && s'.threads[u].at.queue.ExitQueue?
        ensures s'.threads[u].at.queue.tid in s'.threads
      {
        assert u in s.queue[s.threads[u].at.queue];
      }
    }
  }

  lemma WithoutHead(s: seq<nat>, x: nat)
    requires |s| > 0 && s[0] != x
    ensures |Without(s, x)| > 0 && Without(s, x)[0] == s[0]
  {}

  lemma CreateShape(s: Sys)
    requires Shape(s)
    ensures Shape(Act(s, Create))
  {
    var s' := Act(s, Create);
    assert s.nextTid !in s.threads;
    forall p, t | p in s'.queue && t in s'.queue[p] ensures t in s'.threads && s'.threads[t].at == In(p) {
      assert p in s.queue && t in s.queue[p];
    }
  }

  lemma SemCreateShape(s: Sys, v: int)
    requires Shape(s)
    ensures Shape(Act(s, SemCreate(v)))
  {
    var s' := Act(s, SemCreate(v));
    assert s.nextSem !in s.sems;
    forall p, t | p in s'.queue && t in s'.queue[p] ensures t in s'.threads && s'.threads[t].at == In(p) {
      assert p in s.queue && t in s.queue[p];
    }
  }

  lemma ActShape(s: Sys, e: Event)
    requires Shape(s) && RunningReady(s) && MayAct(s, e)
    ensures Shape(Act(s, e))
  {
    match e
    case Create => CreateShape(s);
    case SemCreate(v) => SemCreateShape(s, v);
    case SemWait(x, _) => SemWaitShape(s, e);
    case SemSignal(x) => SemSignalShape(s, x);
    case TaskWait(t, _) => TaskWaitShape(s, e);
    case Exit(code, next) => ExitShape(s, code, next);
    case Yield(_) =>
    case Resume => ResumeShape(s);
  }

  lemma SemWaitShape(s: Sys, e: Event)
    requires Shape(s) && RunningReady(s) && MayAct(s, e) && e.SemWait?
    ensures Shape(Act(s, e))
  {
    if e.sem in s.sems {
      hide Shape;
      SemTakeShape(s, e.sem, e.next);
    }
  }

  lemma SemTakeShape(s: Sys, x: SemId, next: Tid)
    requires Shape(s) && RunningReady(s) && s.threads[s.running].at == Out && x in s.sems
    requires s.sems[x].value - 1 < 0 ==> s.running != TASK0
    ensures Shape(Act(s, SemWait(x, next)))
  {
    hide Shape, Sleep;
    var m := s.sems[x];
    var m' := m.(value := m.value - 1, waits := m.waits + 1);
    if m.value - 1 < 0 {
      ShapeOfSems(s, x, m');
      SemHead(s, x);
      SleepShape(s.(sems := s.sems[x := m']), SemQueue(x));
    } else {
      ShapeOfSems(s, x, m'.(granted := m.granted + 1));
    }
  }

  lemma SemHead(s: Sys, x: SemId)
    requires Shape(s) && x in s.sems
    ensures SemQueue(x) in s.queue
  {
    hide TaskList, Queued, Statuses, ExitWaiters;
  }

  lemma SemSignalShape(s: Sys, x: SemId)
    requires Shape(s)
    ensures Shape(Act(s, SemSignal(x)))
  {
    hide Shape;
    if x in s.sems {
      var m' := s.sems[x].(value := s.sems[x].value + 1, signals := s.sems[x].signals + 1);
      ShapeOfSems(s, x, m');
      WakeShape(s.(sems := s.sems[x := m']), x, 1);
    }
  }

  lemma TaskWaitShape(s: Sys, e: Event)
    requires Shape(s) && RunningReady(s) && MayAct(s, e) && e.TaskWait?
    ensures Shape(Act(s, e))
  {
    var t := e.tid;
    if t != TASK0 && t in s.threads {
      assert ExitQueue(t) in s.queue;
      hide Shape;
      if s.threads[t].status != Zombie { SleepShape(s, ExitQueue(t)); } else { ReapShape(s, t); }
    }
  }

  lemma ResumeShape(s: Sys)
    requires Shape(s) && RunningReady(s) && MayAct(s, Resume)
    ensures Shape(Act(s, Resume))
  {
    hide Shape, Unsleep, Reap;
    UnsleepShape(s);
    var s' := Unsleep(s);
    match s.threads[s.running].at.queue {
      case SemQueue(x) =>
        if x in s'.sems { ShapeOfSems(s', x, s'.sems[x].(granted := s'.sems[x].granted + 1)); }
      case ExitQueue(t) =>
        WaitedIsZombie(s);
        ReapShape(s', t);
    }
  }

  lemma WaitedIsZombie(s: Sys)
    requires Shape(s) && RunningReady(s) && s.threads[s.running].at.In? && s.threads[s.running].at.queue.ExitQueue?
    ensures var t := s.threads[s.running].at.queue.tid;
            t in s.threads && s.threads[t].status == Zombie && t != s.running && t != TASK0
            && t in Unsleep(s).threads && Unsleep(s).threads[t] == s.threads[t]
  {}

  lemma ShapeOfSems(s: Sys, x: SemId, m: Semaphore)
    requires Shape(s) && x in s.sems
    ensures Shape(s.(sems := s.sems[x := m])) && SemQueue(x) in s.queue
  {
    var s' := s.(sems := s.sems[x := m]);
    assert TaskList(s');
  }

  // ----- every step keeps the semaphores' accounts

  lemma {:induction false} CountAgrees(a: map<Tid, Thread>, b: map<Tid, Thread>, q: seq<Tid>)
    requires forall t :: t in q ==> t in a && t in b && (a[t].status == Waiting <==> b[t].status == Waiting)
    ensures CountWaiting(a, q) == CountWaiting(b, q)
  {
    if q != [] { CountAgrees(a, b, q[1..]); }
  }

  lemma {:induction false} CountWithout(a: map<Tid, Thread>, q: seq<Tid>, x: Tid)
    requires x in q && x in a && a[x].status != Waiting
    ensures CountWaiting(a, Without(q, x)) == CountWaiting(a, q) && |Without(q, x)| == |q| - 1
  {
    if q[0] != x {
      CountWithout(a, q[1..], x);
      var w := Without(q[1..], x);
      assert Without(q, x) == [q[0]] + w;
      assert ([q[0]] + w)[1..] == w;
    }
  }

  /** A step that leaves a semaphore, its queue and its sleepers' states alone keeps its account. */
  lemma BalanceKept(s: Sys, s': Sys, x: SemId)
    requires Queued(s) && x in s.sems && Balanced(s, x)
    requires x in s'.sems && s'.sems[x] == s.sems[x] && SemQueue(x) in s'.queue
    requires s'.queue[SemQueue(x)] == s.queue[SemQueue(x)]
    requires forall t :: t in s.threads && s.threads[t].at == In(SemQueue(x)) ==>
               t in s'.threads && s'.threads[t].status == s.threads[t].status
    ensures Balanced(s', x)
  {
    CountAgrees(s.threads, s'.threads, s.queue[SemQueue(x)]);
  }

  lemma SleepBalance(s: Sys, x: SemId, m: Semaphore)
    requires Inv(s) && s.threads[s.running].at == Out && x in s.sems && s.sems[x].value - 1 < 0
    requires m == s.sems[x].(value := s.sems[x].value - 1, waits := s.sems[x].waits + 1)
    ensures SemQueue(x) in s.queue && Accounts(Sleep(s.(sems := s.sems[x := m]), SemQueue(x)))
  {
    var q := s.queue[SemQueue(x)];
    var s' := Sleep(s.(sems := s.sems[x := m]), SemQueue(x));
    assert Balanced(s, x);
    assert ([s.running] + q)[1..] == q;
    CountAgrees(s.threads, s'.threads, q);
    forall y | y in s'.sems ensures Balanced(s', y) {
      if y != x { assert Balanced(s, y); BalanceKept(s, s', y); }
    }
  }

  /** Waking only the head of a queue takes away at most one waiting thread. */
  lemma WakeHead(s: Sys, x: SemId)
    requires Queued(s) && SemQueue(x) in s.queue
    ensures var q := s.queue[SemQueue(x)];
            CountWaiting(Wake(s, SemQueue(x), 1).threads, q)
            == CountWaiting(s.threads,
                            q) - (if q != [] && q[0] in s.threads && s.threads[q[0]].status == Waiting then 1 else 0)
  {
    var q := s.queue[SemQueue(x)];
    var s' := Wake(s, SemQueue(x), 1);
    if q != [] {
      assert q[0] in q;
      assert Distinct(q);
      forall t | t in q[1..] ensures t in q && t != q[0] {}
      CountAgrees(s.threads, s'.threads, q[1..]);
    }
  }

  lemma SignalBalance(s: Sys, x: SemId)
    requires Inv(s) && x in s.sems
    ensures Accounts(Act(s, SemSignal(x)))
  {
    var s' := Act(s, SemSignal(x));
    assert Balanced(s, x);
    var m := s.sems[x];
    var s1 := s.(sems := s.sems[x := m.(value := m.value + 1, signals := m.signals + 1)]);
    if m.value + 1 <= 0 { WakeHead(s1, x); }
    assert forall t :: t in s.queue[SemQueue(x)] ==> s.threads[t].at == In(SemQueue(x));
    forall y | y in s'.sems ensures Balanced(s', y) {
      if y != x { assert Balanced(s, y); BalanceKept(s, s', y); }
    }
  }

  lemma UnsleepBalance(s: Sys, x: SemId)
    requires Inv(s) && s.threads[s.running].at == In(SemQueue(x))
    ensures Accounts(Act(s, Resume))
  {
    forall y | y in Act(s, Resume).sems ensures Balanced(Act(s, Resume), y) {
      assert Balanced(s, y);
      if y != x { BalanceKept(s, Act(s, Resume), y); } else { OwnBalance(s, x); }
    }
  }

  lemma OwnBalance(s: Sys, x: SemId)
    requires Shape(s) && RunningReady(s) && s.threads[s.running].at == In(SemQueue(x)) && x in s.sems && Balanced(s, x)
    ensures Balanced(Act(s, Resume), x)
  {
    LeaveQueue(s, x);
    hide Shape, Without, CountWaiting;
  }

  /** A ready thread that unlinks its node leaves the count of waiting threads as it was. */
  lemma LeaveQueue(s: Sys, x: SemId)
    requires Queued(s) && RunningReady(s) && s.threads[s.running].at == In(SemQueue(x))
    ensures SemQueue(x) in s.queue
    ensures var q := s.queue[SemQueue(x)];
            |Without(q, s.running)| == |q| - 1
            && CountWaiting(Act(s, Resume).threads, Without(q, s.running)) == CountWaiting(s.threads, q)
  {
    var q := s.queue[SemQueue(x)];
    CountWithout(s.threads, q, s.running);
    WithoutMembers(q, s.running);
    hide Without, CountWaiting;
    forall t | t in Without(q, s.running) ensures t in s.threads && t != s.running { assert t in q; }
    CountAgrees(s.threads, Act(s, Resume).threads, Without(q, s.running));
  }

  lemma ActAccounts(s: Sys, e: Event)
    requires Inv(s) && MayAct(s, e)
    ensures Accounts(Act(s, e))
  {
    var s' := Act(s, e);
    if e.SemWait? && e.sem in s.sems {
      var m := s.sems[e.sem];
      assert Balanced(s, e.sem);
      if m.value - 1 < 0 {
        SleepBalance(s, e.sem, m.(value := m.value - 1, waits := m.waits + 1));
      } else {
        forall y | y in s'.sems ensures Balanced(s', y) { assert Balanced(s, y); }
      }
    } else if e.SemSignal? && e.sem in s.sems {
      SignalBalance(s, e.sem);
    } else if e.Resume? && s.threads[s.running].at.queue.SemQueue? {
      UnsleepBalance(s, s.threads[s.running].at.queue.sem);
    } else {
      forall y | y in s'.sems ensures Balanced(s', y) {
        if y in s.sems { OtherStep(s, e, y); }
      }
    }
  }

  lemma OtherStep(s: Sys, e: Event, y: SemId)
    requires Inv(s) && MayAct(s, e) && y in s.sems
    requires !(e.SemWait? && e.sem in s.sems) && !(e.SemSignal? && e.sem in s.sems)
    requires !(e.Resume? && s.threads[s.running].at.queue.SemQueue?)
    ensures y in Act(s, e).sems && Balanced(Act(s, e), y)
  {
    assert Balanced(s, y);
    hide Balanced, ExitWaiters, Statuses, Accounts;
    SemSleepersKept(s, e);
    SemQueueKept(s, e, y);
    BalanceKept(s, Act(s, e), y);
  }

  lemma SemSleepersKept(s: Sys, e: Event)
    requires Shape(s) && RunningReady(s) && MayAct(s, e)
    requires !(e.SemSignal? && e.sem in s.sems) && !(e.Resume? && s.threads[s.running].at.queue.SemQueue?)
    ensures forall t :: t in s.threads && s.threads[t].at.In? && s.threads[t].at.queue.SemQueue? ==>
              t in Act(s, e).threads && Act(s, e).threads[t].status == s.threads[t].status
  {
    assert s.nextTid !in s.threads;
    hide Reap, Unsleep;
    if e.Exit? {
      OwnExitQueue(s);
      ExitThreads(s, e.code, e.next);
      hide Act;
    } else if e.Resume? {
      UnsleepShape(s);
      ReapedIsOut(Unsleep(s), s.threads[s.running].at.queue.tid);
    }
  }

  lemma ReapedIsOut(s: Sys, u: Tid)
    ensures forall t :: t in s.threads && t != u ==> t in Reap(s, u).threads && Reap(s, u).threads[t] == s.threads[t]
  {}

  lemma SemQueueKept(s: Sys, e: Event, y: SemId)
    requires Shape(s) && RunningReady(s) && MayAct(s, e) && y in s.sems
    requires !(e.SemWait? && e.sem in s.sems) && !(e.SemSignal? && e.sem in s.sems)
    requires !(e.Resume? && s.threads[s.running].at.queue.SemQueue?)
    ensures y in Act(s, e).sems && Act(s, e).sems[y] == s.sems[y]
    ensures SemQueue(y) in s.queue && SemQueue(y) in Act(s, e).queue
    ensures Act(s, e).queue[SemQueue(y)] == s.queue[SemQueue(y)]
  {
    assert s.nextSem !in s.sems;
  }

  // ----- every run

  lemma StepInv(s: Sys, e: Event)
    requires Inv(s) && Enabled(s, e)
    ensures Inv(After(s, e))
  {
    ActShape(s, e);
    ActAccounts(s, e);
    hide Shape, Accounts;
    SwitchKeeps(Act(s, e), After(s, e).running);
    if !Switches(s, e) { StaysReady(s, e); }
  }

  lemma SwitchKeeps(s: Sys, r: Tid)
    requires Shape(s) && Accounts(s)
    ensures Shape(s.(running := r)) && Accounts(s.(running := r))
  {
    forall x | x in s.sems ensures Balanced(s.(running := r), x) { assert Balanced(s, x); }
  }

  lemma StaysReady(s: Sys, e: Event)
    requires Inv(s) && Enabled(s, e) && !Switches(s, e)
    ensures RunningReady(Act(s, e)) && Act(s, e).running == s.running
  {
    if e.Resume? { UnsleepShape(s); }
  }

  function Run(s: Sys, es: seq<Event>): Sys
    decreases |es|
  {
    if es == [] then s else Run(After(s, es[0]), es[1..])
  }

  predicate Possible(s: Sys, es: seq<Event>)
    decreases |es|
  {
    es != [] ==> Enabled(s, es[0]) && Possible(After(s, es[0]), es[1..])
  }

  lemma {:induction false} RunInv(s: Sys, es: seq<Event>)
    requires Inv(s) && Possible(s, es)
    ensures Inv(Run(s, es))
    decreases |es|
  {
    if es != [] {
      StepInv(s, es[0]);
      RunInv(After(s, es[0]), es[1..]);
    }
  }

  /** In every interleaving, a semaphore created with a value of at least zero is worth its initial value plus the
      signals less the waits, lets no more waits through than that value and the signals allow, and has at least as
      many threads waiting as it is in debt. */
  lemma SemaphoreSafety(es: seq<Event>, x: SemId)
    requires Possible(Boot(), es) && x in Run(Boot(), es).sems && Run(Boot(), es).sems[x].init >= 0
    ensures var s := Run(Boot(), es);
            var m := s.sems[x];
            && m.value == m.init + m.signals - m.waits
            && m.granted <= m.init + m.signals
            && SemQueue(x) in s.queue && CountWaiting(s.threads, s.queue[SemQueue(x)]) >= -m.value
            && m.waits == m.granted + |s.queue[SemQueue(x)]|
  {
    BootInv();
    hide Inv;
    RunInv(Boot(), es);
    BalanceBounds(Run(Boot(), es), x);
  }

  lemma BalanceBounds(s: Sys, x: SemId)
    requires Inv(s) && x in s.sems && s.sems[x].init >= 0
    ensures Balanced(s, x) && s.sems[x].granted <= s.sems[x].init + s.sems[x].signals
  {
    assert Balanced(s, x);
    CountBound(s.threads, s.queue[SemQueue(x)]);
  }

  lemma {:induction false} CountBound(a: map<Tid, Thread>, q: seq<Tid>)
    ensures CountWaiting(a, q) <= |q|
  {
    if q != [] { CountBound(a, q[1..]); }
  }

  // ----- wake-ups

  /** As many threads wait as the semaphore is in debt: no wake-up has been lost. */
  ghost predicate Tight(s: Sys, x: SemId) {
    x in s.sems && SemQueue(x) in s.queue
    && CountWaiting(s.threads, s.queue[SemQueue(x)]) == if s.sems[x].value < 0 then -s.sems[x].value else 0
  }

  /** The signal would hit a thread that is awake already, and has only not run yet. */
  ghost predicate HitsAwake(s: Sys, e: Event) {
    e.SemSignal? && e.sem in s.sems && s.sems[e.sem].value < 0
    && SemQueue(e.sem) in s.queue && s.queue[SemQueue(e.sem)] != []
    && s.queue[SemQueue(e.sem)][0] in s.threads && s.threads[s.queue[SemQueue(e.sem)][0]].status != Waiting
  }

  /** Exactly when a step loses a wake-up: when it is a signal that hits a head already awake. */
  lemma WakeupLostIff(s: Sys, e: Event, x: SemId)
    requires Inv(s) && Enabled(s, e) && Tight(s, x) && s.sems[x].init >= 0
    ensures Tight(After(s, e), x) <==> !(HitsAwake(s, e) && e.sem == x)
  {
    StepInv(s, e);
    if e.SemSignal? && e.sem == x {
      SignalTight(s, x);
    } else {
      KeepsTight(s, e, x);
    }
  }

  lemma SignalTight(s: Sys, x: SemId)
    requires Inv(s) && Tight(s, x)
    ensures Tight(Act(s, SemSignal(x)), x) <==> !HitsAwake(s, SemSignal(x))
  {
    var m := s.sems[x];
    var s1 := s.(sems := s.sems[x := m.(value := m.value + 1, signals := m.signals + 1)]);
    var q := s.queue[SemQueue(x)];
    WakeHead(s1, x);
    if q != [] { assert q[0] in q; }
  }

  lemma KeepsTight(s: Sys, e: Event, x: SemId)
    requires Inv(s) && MayAct(s, e) && Tight(s, x) && !(e.SemSignal? && e.sem == x)
    ensures Tight(Act(s, e), x)
  {
    var s' := Act(s, e);
    if e.SemWait? && e.sem in s.sems {
      WaitKeepsTight(s, e, x);
    } else if e.SemSignal? && e.sem in s.sems {
      assert forall t :: t in s.queue[SemQueue(e.sem)] ==> s.threads[t].at == In(SemQueue(e.sem));
      TightKept(s, s', x);
    } else if e.Resume? && s.threads[s.running].at.queue.SemQueue? {
      ResumeKeepsTight(s, x);
    } else {
      SemSleepersKept(s, e);
      SemQueueKept(s, e, x);
      TightKept(s, s', x);
    }
  }

  lemma TightKept(s: Sys, s': Sys, x: SemId)
    requires Queued(s) && Tight(s, x)
    requires x in s'.sems && s'.sems[x].value == s.sems[x].value && SemQueue(x) in s'.queue
    requires s'.queue[SemQueue(x)] == s.queue[SemQueue(x)]
    requires forall t :: t in s.threads && s.threads[t].at == In(SemQueue(x)) ==>
               t in s'.threads && s'.threads[t].status == s.threads[t].status
    ensures Tight(s', x)
  {
    CountAgrees(s.threads, s'.threads, s.queue[SemQueue(x)]);
  }

  lemma WaitKeepsTight(s: Sys, e: Event, x: SemId)
    requires Inv(s) && MayAct(s, e) && Tight(s, x) && e.SemWait? && e.sem in s.sems
    ensures Tight(Act(s, e), x)
  {
    var q := s.queue[SemQueue(x)];
    var s' := Act(s, e);
    if e.sem == x {
      assert ([s.running] + q)[1..] == q;
      CountAgrees(s.threads, s'.threads, q);
    } else {
      TightKept(s, s', x);
    }
  }

  lemma ResumeKeepsTight(s: Sys, x: SemId)
    requires Inv(s) && Tight(s, x) && s.threads[s.running].at.In? && s.threads[s.running].at.queue.SemQueue?
    ensures Tight(Act(s, Resume), x)
  {
    hide Without, CountWaiting, Accounts, Statuses, ExitWaiters;
    if s.threads[s.running].at.queue.sem == x { LeaveQueue(s, x); } else { TightKept(s, Act(s, Resume), x); }
  }

  /** Two signals before the woken thread runs: both hit it, and the other sleeper is left waiting although the
      semaphore is no longer in debt. */
  lemma LostWakeup() returns (es: seq<Event>)
    ensures Possible(Boot(), es)
    ensures var s := Run(Boot(), es);
            0 in s.sems && s.sems[0].value == 0 && 1 in s.threads && s.threads[1].status == Waiting
  {
    TwoSleep();
    TwoSignals();
    hide After, Enabled, Run, Possible, TwoSleepers, FirstEvents;
    Snoc(Boot(), FirstEvents(), SemSignal(0));
    Snoc(Boot(), FirstEvents() + [SemSignal(0)], SemSignal(0));
    es := FirstEvents() + [SemSignal(0)] + [SemSignal(0)];
  }

  lemma TwoSignals()
    ensures Enabled(TwoSleepers(), SemSignal(0)) && Enabled(After(TwoSleepers(), SemSignal(0)), SemSignal(0))
    ensures var s := After(After(TwoSleepers(), SemSignal(0)), SemSignal(0));
            0 in s.sems && s.sems[0].value == 0 && 1 in s.threads && s.threads[1].status == Waiting
  {
    assert TwoSleepers().queue[SemQueue(0)][..1] == [2];
  }

  function FirstEvents(): seq<Event> {
    [Create] + [Create] + [Create] + [SemCreate(0)] + [Yield(1)] + [SemWait(0, 2)] + [SemWait(0, 3)]
  }

  /** Threads 1 and 2 sleep on a semaphore, and thread 3 is running. */
  function TwoSleepers(): Sys {
    var r := Thread(Ready, 0, Out);
    var w := Thread(Waiting, 0, In(SemQueue(0)));
    Sys(map[0 := r, 1 := w, 2 := w, 3 := r], [0, 1, 2, 3],
        map[ExitQueue(0) := [], ExitQueue(1) := [], ExitQueue(2) := [], ExitQueue(3) := [], SemQueue(0) := [2, 1]],
        map[0 := Semaphore(-2, 0, 2, 0, 0)], 3, 4, 1)
  }

  function FourReady(running: Tid): Sys {
    var r := Thread(Ready, 0, Out);
    Sys(map[0 := r, 1 := r, 2 := r, 3 := r], [0, 1, 2, 3],
        map[ExitQueue(0) := [], ExitQueue(1) := [], ExitQueue(2) := [], ExitQueue(3) := [], SemQueue(0) := []],
        map[0 := Semaphore(0, 0, 0, 0, 0)], running, 4, 1)
  }

  lemma TwoSleep()
    ensures Possible(Boot(), FirstEvents()) && Run(Boot(), FirstEvents()) == TwoSleepers()
  {
    var a := [Create] + [Create] + [Create] + [SemCreate(0)];
    Prepare();
    TwoWaits();
    Snoc(Boot(), a, Yield(1));
    Snoc(Boot(), a + [Yield(1)], SemWait(0, 2));
    Snoc(Boot(), a + [Yield(1)] + [SemWait(0, 2)], SemWait(0, 3));
    hide After, Enabled, Run, Possible, TwoSleepers, FourReady;
  }

  lemma TwoWaits()
    ensures Enabled(FourReady(0), Yield(1)) && After(FourReady(0), Yield(1)) == FourReady(1)
    ensures Enabled(FourReady(1), SemWait(0, 2))
    ensures var s1 := After(FourReady(1), SemWait(0, 2));
            Enabled(s1, SemWait(0, 3)) && After(s1, SemWait(0, 3)) == TwoSleepers()
  {
    var s1 := After(FourReady(1), SemWait(0, 2));
    var s2 := After(s1, SemWait(0, 3));
    assert s1.queue[SemQueue(0)] == [1];
    assert s2.queue[SemQueue(0)] == [2] + [1] == [2, 1];
    assert s2.queue == TwoSleepers().queue && s2.threads == TwoSleepers().threads && s2.sems == TwoSleepers().sems;
  }

  lemma Prepare()
    ensures var a := [Create] + [Create] + [Create] + [SemCreate(0)];
            Possible(Boot(), a) && Run(Boot(), a) == FourReady(0)
  {
    Snoc(Boot(), [Create], Create);
    Snoc(Boot(), [Create] + [Create], Create);
    Snoc(Boot(), [Create] + [Create] + [Create], SemCreate(0));
    assert After(After(After(After(Boot(), Create), Create), Create), SemCreate(0)) == FourReady(0);
  }

  lemma {:induction false} Snoc(s: Sys, es: seq<Event>, e: Event)
    ensures Possible(s, es + [e]) <==> Possible(s, es) && Enabled(Run(s, es), e)
    ensures Run(s, es + [e]) == After(Run(s, es), e)
    decreases |es|
  {
    if es != [] {
      assert (es + [e])[1..] == es[1..] + [e];
      Snoc(After(s, es[0]), es[1..], e);
    }
  }

  lemma Unfold2(s: Sys, e: Event, es: seq<Event>)
    ensures Possible(s, [e] + es) <==> Enabled(s, e) && Possible(After(s, e), es)
    ensures Run(s, [e] + es) == Run(After(s, e), es)
  {
    assert ([e] + es)[1..] == es;
  }

  // ----- exit and wait

  /** A control block goes away only when its thread has exited and nobody is queued for it; and it goes away at
      most once, because thread numbers are not used again. */
  lemma RemovedOnlyAsZombie(s: Sys, e: Event, t: Tid)
    requires Inv(s) && Enabled(s, e) && t in s.threads && t !in After(s, e).threads
    ensures s.threads[t].status == Zombie && (e.TaskWait? || e.Resume?) && t != s.running
    ensures forall u :: u in s.threads && s.threads[u].at == In(ExitQueue(t)) ==> u == s.running
    ensures t !in After(s, e).tasks && t in s.tasks && ExitQueue(t) !in After(s, e).queue
  {
    hide Inv, Enabled, Reap, Unsleep, Woken, Wake;
    StepInv(s, e);
    NotThere(After(s, e), t);
    There(s, t);
    RemovedBy(s, e, t);
    if e.Resume? { LastWaiter(s, t); } else { NoWaiter(s, t); }
  }

  lemma NotThere(s: Sys, t: Tid)
    requires Inv(s) && t !in s.threads
    ensures t !in s.tasks && ExitQueue(t) !in s.queue
  {
    hide Queued, Statuses, ExitWaiters, Accounts;
  }

  lemma There(s: Sys, t: Tid)
    requires Inv(s) && t in s.threads
    ensures t in s.tasks
  {
    hide Queued, Statuses, ExitWaiters, Accounts, QueueHeads;
  }

  /** Only the end of a wait for the thread's exit removes it, and only with nobody queued any more. */
  lemma RemovedBy(s: Sys, e: Event, t: Tid)
    requires Inv(s) && Enabled(s, e) && t in s.threads && t !in After(s, e).threads
    ensures s.running in s.threads && (e.TaskWait? || e.Resume?)
    ensures e.TaskWait? ==>
              s.threads[t].status == Zombie && t != s.running && ExitQueue(t) in s.queue && s.queue[ExitQueue(t)] == []
    ensures e.Resume? ==>
              && s.threads[s.running].at == In(ExitQueue(t)) && ExitQueue(t) in s.queue
              && Without(s.queue[ExitQueue(t)], s.running) == []
  {
    hide TaskList, Queued, Statuses, ExitWaiters, Accounts, QueueHeads, Without;
  }

  lemma LastWaiter(s: Sys, t: Tid)
    requires Inv(s) && t in s.threads && s.running in s.threads && s.threads[s.running].at == In(ExitQueue(t))
    requires ExitQueue(t) in s.queue && Without(s.queue[ExitQueue(t)], s.running) == []
    ensures s.threads[t].status == Zombie && t != s.running
    ensures forall u :: u in s.threads && s.threads[u].at == In(ExitQueue(t)) ==> u == s.running
  {
    var q := s.queue[ExitQueue(t)];
    WithoutMembers(q, s.running);
    assert forall u :: u in q ==> u in Without(q, s.running) || u == s.running;
    hide TaskList, QueueHeads, Accounts, Without;
  }

  lemma NoWaiter(s: Sys, t: Tid)
    requires Inv(s) && ExitQueue(t) in s.queue && s.queue[ExitQueue(t)] == []
    ensures forall u :: u in s.threads ==> s.threads[u].at != In(ExitQueue(t))
  {
    hide TaskList, QueueHeads, Statuses, ExitWaiters, Accounts;
  }

  lemma {:induction false} NeverAgain(s: Sys, es: seq<Event>, t: Tid)
    requires Inv(s) && Possible(s, es) && t < s.nextTid && t !in s.threads
    ensures t !in Run(s, es).threads && t < Run(s, es).nextTid
    decreases |es|
  {
    if es != [] {
      StepInv(s, es[0]);
      NewThreads(s, es[0]);
      NeverAgain(After(s, es[0]), es[1..], t);
    }
  }

  lemma NewThreads(s: Sys, e: Event)
    ensures forall t :: t in After(s, e).threads && t !in s.threads ==> t == s.nextTid && e.Create?
    ensures s.nextTid <= After(s, e).nextTid && (e.Create? ==> s.nextTid < After(s, e).nextTid)
  {}

  /** A zombie stays one, with its exit code, until it is removed. */
  lemma ZombieStays(s: Sys, e: Event, t: Tid)
    requires Inv(s) && Enabled(s, e) && t in s.threads && s.threads[t].status == Zombie
    ensures t in After(s, e).threads ==>
              After(s, e).threads[t].status == Zombie && After(s, e).threads[t].code == s.threads[t].code
  {
    hide Inv, Distinct, Without;
    ZombieIsIdle(s, t);
  }

  /** A zombie waits in no queue, and is neither running nor new. */
  lemma ZombieIsIdle(s: Sys, t: Tid)
    requires Inv(s) && t in s.threads && s.threads[t].status == Zombie
    ensures t != s.running && t != s.nextTid && forall q :: q in s.queue ==> t !in s.queue[q]
  {}

  lemma {:induction false} ZombieForever(s: Sys, es: seq<Event>, t: Tid, code: int)
    requires Inv(s) && Possible(s, es) && t < s.nextTid
    requires t in s.threads ==> s.threads[t].status == Zombie && s.threads[t].code == code
    ensures var s' := Run(s, es); t in s'.threads ==> s'.threads[t].status == Zombie && s'.threads[t].code == code
    decreases |es|
  {
    if es != [] {
      StepInv(s, es[0]);
      NewThreads(s, es[0]);
      if t in s.threads { ZombieStays(s, es[0], t); }
      ZombieForever(After(s, es[0]), es[1..], t, code);
    }
  }

  /** Every thread that slept for another's exit finds, when it runs again, that one's control block still there and
      in it the code it exited with. */
  lemma WaiterSeesCode(s: Sys, code: int, next: Tid, es: seq<Event>)
    requires Inv(s) && Possible(s, [Exit(code, next)] + es)
    ensures var s' := Run(s, [Exit(code, next)] + es);
            s'.running in s'.threads
            && (s'.threads[s'.running].at == In(ExitQueue(s.running)) ==>
                  s.running in s'.threads && s'.threads[s.running].status == Zombie
                  && s'.threads[s.running].code == code)
  {
    Unfold2(s, Exit(code, next), es);
    var s1 := After(s, Exit(code, next));
    StepInv(s, Exit(code, next));
    ZombieForever(s1, es, s.running, code);
    RunInv(s1, es);
  }

  /** Whoever sleeps for a thread's exit and is running again was woken by that exit and nothing else. */
  lemma WokenByExit(s: Sys)
    requires Inv(s) && s.threads[s.running].at.In? && s.threads[s.running].at.queue.ExitQueue?
    ensures var t := s.threads[s.running].at.queue.tid;
            t in s.threads && s.threads[t].status == Zombie && t != s.running
  {}

  // ----- what each step does

  lemma CreateDoes(s: Sys)
    ensures After(s, Create)
            == s.(threads := s.threads[s.nextTid := Thread(Ready, 0, Out)], tasks := s.tasks + [s.nextTid],
                  queue := s.queue[ExitQueue(s.nextTid) := []], nextTid := s.nextTid + 1)
  {}

  lemma SemCreateDoes(s: Sys, v: int)
    ensures After(s, SemCreate(v))
            == s.(sems := s.sems[s.nextSem := Semaphore(v, v, 0, 0, 0)], queue := s.queue[SemQueue(s.nextSem) := []],
                  nextSem := s.nextSem + 1)
  {}

  lemma YieldDoes(s: Sys, n: Tid)
    ensures After(s, Yield(n)) == s.(running := n)
  {}

  /** A thread that exits is a zombie with its code, and all that wait for it are ready. */
  lemma ExitDoes(s: Sys, code: int, n: Tid)
    requires Inv(s) && Enabled(s, Exit(code, n))
    ensures var s' := After(s, Exit(code, n));
            && s' == s.(threads := s'.threads, running := n) && s'.threads.Keys == s.threads.Keys
            && s.running in s.threads && s'.threads[s.running] == Thread(Zombie, code, Out)
            && forall u :: u in s.threads && u != s.running ==>
                 s'.threads[u] == if s.threads[u].at == In(ExitQueue(s.running)) then s.threads[u].(status := Ready)
                                  else s.threads[u]
  {
    OwnExitQueue(s);
    hide Inv;
    var q := s.queue[ExitQueue(s.running)];
    assert q[..|q|] == q;
    assert Woken(s.threads, q).Keys == s.threads.Keys;
  }

  /** A wait lowers the value; below zero the caller goes to sleep in front of the queue. */
  lemma SemWaitDoes(s: Sys, x: SemId, n: Tid)
    requires Inv(s) && Enabled(s, SemWait(x, n)) && x in s.sems
    ensures var m := s.sems[x];
            && SemQueue(x) in s.queue && s.running in s.threads
            && After(s, SemWait(x, n))
               == if m.value > 0
                    then s.(sems := s.sems[x := m.(value := m.value - 1, waits := m.waits + 1,
                                                   granted := m.granted + 1)])
                  else s.(sems := s.sems[x := m.(value := m.value - 1, waits := m.waits + 1)],
                          threads := s.threads[s.running := s.threads[s.running].(status := Waiting,
                                                                                  at := In(SemQueue(x)))],
                          queue := s.queue[SemQueue(x) := [s.running] + s.queue[SemQueue(x)]], running := n)
  {
    SemHead(s, x);
    hide Inv;
  }

  /** A signal raises the value; while it is not positive the head of the queue becomes ready. */
  lemma SemSignalDoes(s: Sys, x: SemId)
    requires Inv(s) && x in s.sems
    ensures var s', m := After(s, SemSignal(x)), s.sems[x];
            && SemQueue(x) in s.queue && s'.threads.Keys == s.threads.Keys
            && s' == s.(sems := s.sems[x := m.(value := m.value + 1, signals := m.signals + 1)], threads := s'.threads)
            && forall u :: u in s.threads ==>
                 s'.threads[u] == if m.value < 0 && s.queue[SemQueue(x)] != [] && u == s.queue[SemQueue(x)][0]
                                  then s.threads[u].(status := Ready) else s.threads[u]
  {
    SemHead(s, x);
    hide Inv;
    var q := s.queue[SemQueue(x)];
    if q != [] { assert q[..1] == [q[0]]; }
  }

  /** A wait for a thread that has not exited goes to sleep in front of its queue; for a zombie nothing changes but
      that the thread may be removed. */
  lemma TaskWaitDoes(s: Sys, t: Tid, n: Tid)
    requires Inv(s) && Enabled(s, TaskWait(t, n)) && t != TASK0 && t in s.threads
    ensures s.running in s.threads && ExitQueue(t) in s.queue
    ensures var s' := After(s, TaskWait(t, n));
            if s.threads[t].status != Zombie then
              s'
              == s.(threads := s.threads[s.running := s.threads[s.running].(status := Waiting, at := In(ExitQueue(t)))],
                       queue := s.queue[ExitQueue(t) := [s.running] + s.queue[ExitQueue(t)]], running := n)
            else if forall u :: u in s.threads ==> s.threads[u].at != In(ExitQueue(t)) then
              s' == s.(threads := s.threads - {t}, tasks := s'.tasks, queue := s.queue - {ExitQueue(t)})
              && forall u :: u in s'.tasks <==> u in s.tasks && u != t
            else s' == s
  {
    ExitQueueOf(s, t);
    TasksOnce(s);
    WithoutMembers(s.tasks, t);
    hide Inv;
  }

  lemma ExitQueueOf(s: Sys, t: Tid)
    requires Inv(s) && t in s.threads
    ensures ExitQueue(t) in s.queue
    ensures s.queue[ExitQueue(t)] == [] <==> forall u :: u in s.threads ==> s.threads[u].at != In(ExitQueue(t))
    ensures forall u :: u in s.queue[ExitQueue(t)] <==> u in s.threads && s.threads[u].at == In(ExitQueue(t))
  {
    hide TaskList, Statuses, ExitWaiters, Accounts;
    assert ExitQueue(t) in s.queue <==> t in s.threads;
    var q := s.queue[ExitQueue(t)];
    if q != [] { assert q[0] in q; }
  }

  lemma TasksOnce(s: Sys)
    requires Inv(s)
    ensures Distinct(s.tasks) && forall t :: t in s.tasks <==> t in s.threads
  {
    hide Queued, Statuses, ExitWaiters, Accounts, QueueHeads;
  }

  /** A thread that runs again after its sleep is in no queue any more; the others keep their order. */
  lemma ResumeDoes(s: Sys)
    requires Inv(s) && Enabled(s, Resume)
    ensures s.running in s.threads && s.threads[s.running].at.In? && s.threads[s.running].at.queue in s.queue
    ensures var s', q := After(s, Resume), s.threads[s.running].at.queue;
            && s'.running == s.running && s.running in s'.threads
            && s'.threads[s.running] == s.threads[s.running].(at := Out)
            && (forall u :: u in s'.threads && u != s.running ==> u in s.threads && s'.threads[u] == s.threads[u])
            && (forall p :: p in s'.queue && p != q ==> p in s.queue && s'.queue[p] == s.queue[p])
            && (q in s'.queue ==>
                  forall i: nat :: i < |s.queue[q]| && s.queue[q][i] == s.running ==>
                    s'.queue[q] == s.queue[q][..i] + s.queue[q][i + 1..])
  {
    OwnQueueIs(s);
    hide Inv;
    var q := s.threads[s.running].at.queue;
    forall i: nat | i < |s.queue[q]| && s.queue[q][i] == s.running
      ensures Without(s.queue[q], s.running) == s.queue[q][..i] + s.queue[q][i + 1..]
    {
      WithoutAt(s.queue[q], s.running, i);
    }
  }

  /** From a semaphore it comes back with one more wait granted, and every thread is still there. */
  lemma ResumeSemDoes(s: Sys, x: SemId)
    requires Inv(s) && Enabled(s, Resume) && s.threads[s.running].at == In(SemQueue(x))
    ensures x in s.sems
    ensures var s' := After(s, Resume);
            && s'.threads.Keys == s.threads.Keys && s'.tasks == s.tasks && s'.queue.Keys == s.queue.Keys
            && s'.sems == s.sems[x := s.sems[x].(granted := s.sems[x].granted + 1)]
  {
    OwnQueueIs(s);
    SemOf(s, x);
    hide Inv, Without;
  }

  lemma SemOf(s: Sys, x: SemId)
    requires Inv(s) && SemQueue(x) in s.queue
    ensures x in s.sems
  {
    hide TaskList, Queued, Statuses, ExitWaiters, Accounts;
  }

  lemma OwnQueueIs(s: Sys)
    requires Inv(s) && Enabled(s, Resume)
    ensures s.running in s.threads && s.threads[s.running].at.In? && s.threads[s.running].at.queue in s.queue
    ensures Distinct(s.queue[s.threads[s.running].at.queue])
    ensures s.threads[s.running].at.queue.ExitQueue? ==> s.threads[s.running].at.queue.tid != s.running
  {
    hide TaskList, Accounts;
  }

  lemma {:induction false} WithoutAt(q: seq<nat>, x: nat, i: nat)
    requires i < |q| && q[i] == x && forall j :: 0 <= j < i ==> q[j] != x
    ensures Without(q, x) == q[..i] + q[i + 1..]
  {
    if i > 0 {
      WithoutAt(q[1..], x, i - 1);
      assert q[..i] == [q[0]] + q[1..][..i - 1] && q[i + 1..] == q[1..][i..];
    } else {
      assert q[..0] + q[1..] == q[1..];
    }
  }

  /** Exactly when a step removes a thread: when it has exited, the step is a wait for it or the return from one, and
      nobody else is queued for it. */
  lemma RemovedExactly(s: Sys, e: Event, t: Tid)
    requires Inv(s) && Enabled(s, e) && t in s.threads
    ensures s.running in s.threads
    ensures t !in After(s, e).threads <==>
            && s.threads[t].status == Zombie
            && ((e.TaskWait? && e.tid == t) || (e.Resume? && s.threads[s.running].at == In(ExitQueue(t))))
            && forall u :: u in s.threads && s.threads[u].at == In(ExitQueue(t)) ==> u == s.running
    ensures t !in After(s, e).threads ==> t !in After(s, e).tasks
  {
    hide *;
    RunningIn(s);
    if t !in After(s, e).threads {
      RemovedOnlyAsZombie(s, e, t);
      RemovedByWhom(s, e, t);
    } else if s.threads[t].status == Zombie
              && ((e.TaskWait? && e.tid == t) || (e.Resume? && s.threads[s.running].at == In(ExitQueue(t)))) {
      StaysFor(s, e, t);
    }
  }

  lemma RunningIn(s: Sys)
    requires Inv(s)
    ensures s.running in s.threads
  {}

  lemma RemovedByWhom(s: Sys, e: Event, t: Tid)
    requires Inv(s) && Enabled(s, e) && t in s.threads && t !in After(s, e).threads
    ensures s.running in s.threads
    ensures (e.TaskWait? && e.tid == t) || (e.Resume? && s.threads[s.running].at == In(ExitQueue(t)))
  {
    hide TaskList, Queued, Statuses, ExitWaiters, Accounts, QueueHeads, Without;
  }

  lemma StaysFor(s: Sys, e: Event, t: Tid)
    requires Inv(s) && Enabled(s, e) && t in s.threads && t in After(s, e).threads && s.threads[t].status == Zombie
    requires s.running in s.threads
    requires (e.TaskWait? && e.tid == t) || (e.Resume? && s.threads[s.running].at == In(ExitQueue(t)))
    ensures exists u :: u in s.threads && u != s.running && s.threads[u].at == In(ExitQueue(t))
  {
    ExitQueueOf(s, t);
    if e.TaskWait? {
      NotIdle(s, t);
      hide Inv;
      assert s.queue[ExitQueue(t)] != [];
    } else {
      OwnQueueIs(s);
      hide Inv;
      var q := s.queue[ExitQueue(t)];
      assert Without(q, s.running) != [];
      WithoutMembers(q, s.running);
      assert Without(q, s.running)[0] in Without(q, s.running);
    }
  }

  lemma NotIdle(s: Sys, t: Tid)
    requires Inv(s) && t in s.threads && s.threads[t].status == Zombie
    ensures t != TASK0
  {}

  ghost function WaitingIn(threads: map<Tid, Thread>, q: seq<Tid>): set<Tid> {
    set t | t in q && t in threads && threads[t].status == Waiting
  }

  /** The number of waiting threads in a queue is that of a set. */
  lemma {:induction false} CountIs(threads: map<Tid, Thread>, q: seq<Tid>)
    requires Distinct(q)
    ensures CountWaiting(threads, q) == |WaitingIn(threads, q)|
  {
    if q == [] {
      assert WaitingIn(threads, q) == {};
    } else {
      CountIs(threads, q[1..]);
      assert q[0] !in q[1..] && forall t :: t in q <==> t == q[0] || t in q[1..];
      if q[0] in threads && threads[q[0]].status == Waiting {
        assert WaitingIn(threads, q) == WaitingIn(threads, q[1..]) + {q[0]};
      } else {
        assert WaitingIn(threads, q) == WaitingIn(threads, q[1..]);
      }
    }
  }
}
