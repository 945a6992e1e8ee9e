/** The timer interrupt (kernel/timer.c): the load average and the threads' estimates of recent CPU use. */
module Timer {
  import opened Words
  import opened FixedPoint

  const HZ: nat := 100
  const TIMESLICE: int := 4
  const NZERO: int := 20

  /** A control block takes a page, and there are no more pages than this. */
  const MAX_TASKS: nat := 0x10_0000

  datatype Task = Task(tid: nat, ready: bool, nice: int, estcpu: int, timeslice: int)

  /** `running` is the index of the running thread in the task list; -1 stands for none. */
  datatype Clock = Clock(ticks: nat, load: int, tasks: seq<Task>, running: int, resched: bool)

  /** Weight of a thread's past CPU use: 2 * load / (2 * load + 1). */
  function Ratio(load: int): int {
    var r := Mul(TWO, load);
    if Int32(r + ONE) == 0 then 0 else Div(r, Int32(r + ONE))
  }

  function Decayed(t: Task, ratio: int): Task {
    t.(estcpu := Int32(Mul(ratio, t.estcpu) + Int32(FromInt(t.nice))))
  }

  function ReadyCount(tasks: seq<Task>): nat {
    if tasks == [] then 0 else (if tasks[|tasks| - 1].ready then 1 else 0) + ReadyCount(tasks[..|tasks| - 1])
  }

  function NewLoad(load: int, ready: nat): int {
    Int32(Mul(251, load) + Mul(4, Int32(FromInt(ready))))
  }

  function DecayedTasks(tasks: seq<Task>, ratio: int): (r: seq<Task>)
    ensures |r| == |tasks|
  {
    seq(|tasks|, i requires 0 <= i < |tasks| => Decayed(tasks[i], ratio))
  }

  /** Is a thread other than the idle thread running? */
  predicate Busy(c: Clock) {
    0 <= c.running < |c.tasks| && c.tasks[c.running].tid != 0
  }

  /** One timer interrupt. */
  function Ticked(c: Clock): Clock {
    var ticks := (c.ticks + 1) % WORD;
    if !(0 <= c.running < |c.tasks|) then c.(ticks := ticks)
    else if c.tasks[c.running].tid == 0 then c.(ticks := ticks, resched := true)
    else
      var t := c.tasks[c.running];
      var charged := c.tasks[c.running := t.(estcpu := Int32(t.estcpu + ONE))];
      var tasks := if ticks % HZ == 0 then DecayedTasks(charged, Ratio(c.load)) else charged;
      var load := if ticks % HZ == 0 then NewLoad(c.load, ReadyCount(c.tasks)) else c.load;
      var slice := t.timeslice - 1;
      var expired := slice <= 0;
      c.(ticks := ticks, load := load, resched := c.resched || expired,
         tasks := tasks[c.running := tasks[c.running].(timeslice := if expired then TIMESLICE else slice)])
  }

  /** The interrupt handler, on the variables it updates. */
  class TimerState {
    var ticks: nat
    var loadAvg: int
    var tasks: seq<Task>
    var running: int
    var resched: bool

    ghost function Abs(): Clock
      reads this
    {
      Clock(ticks, loadAvg, tasks, running, resched)
    }

    method IsrTimer()
      requires IsInt32(loadAvg)
      requires Busy(Abs()) && (ticks + 1) % WORD % HZ == 0 ==> Int32(Mul(TWO, loadAvg) + ONE) != 0
      modifies this
      ensures Abs() == Ticked(old(Abs()))
    {
      hide Mul, Int32, Ratio, NewLoad, Decayed, DecayedTasks;
      ghost var c := Abs();
      ticks := (ticks + 1) % WORD;
      if 0 <= running < |tasks| {
        if tasks[running].tid == 0 {
          resched := true;
        } else {
          tasks := tasks[running := tasks[running].(estcpu := Int32(tasks[running].estcpu + ONE))];
          if ticks % HZ == 0 {
            SameReady(c.tasks, tasks);
            SlicesKept(tasks, Ratio(loadAvg));
            DecayAll();
          }
          tasks := tasks[running := tasks[running].(timeslice := tasks[running].timeslice - 1)];
          if tasks[running].timeslice <= 0 {
            resched := true;
            tasks := tasks[running := tasks[running].(timeslice := TIMESLICE)];
          }
        }
      }
    }

    /** Once a second: decay every thread's estimate, and update the load average. */
    method DecayAll()
      requires IsInt32(loadAvg) && Int32(Mul(TWO, loadAvg) + ONE) != 0
      modifies this`tasks, this`loadAvg
      ensures tasks == DecayedTasks(old(tasks), Ratio(old(loadAvg)))
      ensures loadAvg == NewLoad(old(loadAvg), ReadyCount(old(tasks)))
    {
      ghost var charged := tasks;
      RatioIsDiv(loadAvg);
      var select, nready: nat := 0, 0;
      while select < |tasks|
        invariant 0 <= select <= |tasks| == |charged| && loadAvg == old(loadAvg)
        invariant nready == ReadyCount(charged[..select])
        invariant forall i :: 0 <= i < select ==> tasks[i] == Decayed(charged[i], Ratio(loadAvg))
        invariant forall i :: select <= i < |tasks| ==> tasks[i] == charged[i]
      {
        hide Mul, Div, Int32, Ratio;
        assert charged[..select + 1][..select] == charged[..select];
        if tasks[select].ready { nready := nready + 1; }
        var ratio := Mul(TWO, loadAvg);
        ratio := FixedDiv(ratio, Int32(ratio + ONE));
        assert Decayed(tasks[select], ratio)
               == tasks[select].(estcpu := Int32(Mul(ratio, tasks[select].estcpu)
                                                 + Int32(FromInt(tasks[select].nice))));
        hide Decayed;
        tasks := tasks[select := tasks[select].(estcpu := Int32(Mul(ratio, tasks[select].estcpu)
                                                                + Int32(FromInt(tasks[select].nice))))];
        select := select + 1;
      }
      assert charged[..select] == charged;
      assert tasks == DecayedTasks(charged, Ratio(loadAvg)) by { hide Decayed; }
      Weights();
      hide Mul, Div, Int32, Ratio;
      var r59 := FixedDiv(FromInt(59), FromInt(60));
      var r01 := FixedDiv(ONE, FromInt(60));
      loadAvg := Int32(Mul(r59, loadAvg) + Mul(r01, Int32(FromInt(nready))));
    }
  }

  lemma SlicesKept(tasks: seq<Task>, ratio: int)
    ensures forall i :: 0 <= i < |tasks| ==> DecayedTasks(tasks, ratio)[i].timeslice == tasks[i].timeslice
  {}

  lemma RatioIsDiv(load: int)
    requires Int32(Mul(TWO, load) + ONE) != 0
    ensures Ratio(load) == Div(Mul(TWO, load), Int32(Mul(TWO, load) + ONE)) && IsInt32(Mul(TWO, load))
  {}

  lemma {:induction false} SameReady(a: seq<Task>, b: seq<Task>)
    requires |a| == |b| && forall i :: 0 <= i < |a| ==> a[i].ready == b[i].ready
    ensures ReadyCount(a) == ReadyCount(b)
  {
    if a != [] { SameReady(a[..|a| - 1], b[..|b| - 1]); }
  }

  lemma {:induction false} ReadyBound(a: seq<Task>)
    ensures ReadyCount(a) <= |a|
  {
    if a != [] { ReadyBound(a[..|a| - 1]); }
  }

  // ----- bounds over every run

  /** After a decay no estimate exceeds this, in raw units; each tick since then adds at most one. */
  const DECAYED_BOUND: int := 7_840_000

  predicate Bounded(t: Task, ticks: nat) {
    && -DECAYED_BOUND - ONE * (ticks % HZ) <= t.estcpu <= DECAYED_BOUND + ONE * (ticks % HZ)
    && -NZERO <= t.nice < NZERO && 1 <= t.timeslice <= TIMESLICE
  }

  /** At most n threads; the load average lies between zero and n, and no estimate of CPU use is out of bounds. */
  ghost predicate Inv(c: Clock, n: nat) {
    && n <= MAX_TASKS && |c.tasks| <= n && c.ticks < WORD
    && 0 <= c.load <= 205 * n
    && forall i {:trigger c.tasks[i]} :: 0 <= i < |c.tasks| ==> Bounded(c.tasks[i], c.ticks)
  }

  /** Every HZ-th tick finds a thread other than the idle thread running. */
  predicate BusyOnTheSecond(c: Clock) {
    (c.ticks + 1) % WORD % HZ == 0 ==> Busy(c)
  }

  lemma LoadBound(load: int, ready: nat, n: nat)
    requires 0 <= load <= 205 * n && ready <= n <= MAX_TASKS
    ensures 0 <= NewLoad(load, ready) <= 205 * n
  {
    hide Int32;
    Fits(FromInt(ready));
    Fits((251 * load) / ONE);
    Fits((4 * FromInt(ready)) / ONE);
    assert (4 * FromInt(ready)) / ONE == 4 * ready;
    Fits((251 * load) / ONE + 4 * ready);
  }

  lemma RatioBelowOne(load: int)
    requires 0 <= load < 0x1000_0000
    ensures 0 <= Ratio(load) <= 255
  {
    hide Ratio;
    RatioIs(load);
    Quotient(2 * load);
  }

  lemma Quotient(r: nat)
    ensures 0 <= (r * ONE) / (r + ONE) <= 255
  {
    var q, m := (r * ONE) / (r + ONE), (r * ONE) % (r + ONE);
    DivModIdentity(r * ONE, r + ONE);
    if q >= 256 { MulMono(r + ONE, 256, q); }
  }

  lemma MulMono(d: nat, a: nat, b: nat)
    requires a <= b
    ensures d * a <= d * b
  {
    assert d * b == d * a + d * (b - a);
  }

  lemma DecayBound(t: Task, ratio: int)
    requires 0 <= ratio <= 255 && -NZERO <= t.nice < NZERO
    requires -DECAYED_BOUND - ONE * HZ <= t.estcpu <= DECAYED_BOUND + ONE * HZ
    ensures -DECAYED_BOUND <= Decayed(t, ratio).estcpu <= DECAYED_BOUND
  {
    var b := DECAYED_BOUND + ONE * HZ;
    assert -255 * b <= ratio * t.estcpu <= 255 * b by { ProductBound(ratio, t.estcpu, b); }
    var p := ratio * t.estcpu;
    assert -DECAYED_BOUND + 5120 <= p / ONE <= DECAYED_BOUND - 5120;
    hide Int32;
    Fits(p / ONE);
    Fits(FromInt(t.nice));
    Fits(p / ONE + FromInt(t.nice));
  }

  lemma ProductBound(r: int, e: int, b: int)
    requires 0 <= r <= 255 && -b <= e <= b
    ensures -255 * b <= r * e <= 255 * b
  {
    assert r * (b - e) >= 0 && r * (b + e) >= 0 && (255 - r) * b >= 0;
  }

  /** One interrupt keeps the bounds. */
  lemma TickKeeps(c: Clock, n: nat)
    requires Inv(c, n) && BusyOnTheSecond(c)
    ensures Inv(Ticked(c), n)
  {
    var c' := Ticked(c);
    NextSecond(c.ticks);
    if Busy(c) {
      ReadyBound(c.tasks);
      LoadBound(c.load, ReadyCount(c.tasks), n);
      RatioBelowOne(c.load);
      hide NewLoad, Ratio, Decayed;
      forall i | 0 <= i < |c'.tasks| ensures Bounded(c'.tasks[i], c'.ticks) {
        TaskKeeps(c, n, i);
      }
    } else {
      forall i | 0 <= i < |c'.tasks| ensures Bounded(c'.tasks[i], c'.ticks) {
        assert Bounded(c.tasks[i], c.ticks);
      }
    }
  }

  lemma NextSecond(ticks: nat)
    requires ticks < WORD
    ensures var t := (ticks + 1) % WORD; t % HZ == 0 || t % HZ == ticks % HZ + 1
  {}

  lemma TaskKeeps(c: Clock, n: nat, i: nat)
    requires Inv(c, n) && Busy(c) && i < |c.tasks| && 0 <= Ratio(c.load) <= 255
    ensures Bounded(Ticked(c).tasks[i], Ticked(c).ticks)
  {
    NextSecond(c.ticks);
    assert Bounded(c.tasks[i], c.ticks);
    var t := c.tasks[i];
    Fits(t.estcpu + ONE);
    hide Int32, Ratio;
    var charged := if i == c.running then t.(estcpu := Int32(t.estcpu + ONE)) else t;
    if (c.ticks + 1) % WORD % HZ == 0 { DecayBound(charged, Ratio(c.load)); }
  }

  // ----- what a tick does

  /** A tick that ends no second: the running thread is charged 256 units and one tick of its slice of four, which
      starts again, with a switch requested, when it is used up; nothing else changes. */
  lemma OneTick(c: Clock, n: nat)
    requires Inv(c, n) && Busy(c) && (c.ticks + 1) % 0x1_0000_0000 % 100 != 0
    ensures var c', r, t := Ticked(c), c.running, c.tasks[c.running];
            && c'.ticks == (c.ticks + 1) % 0x1_0000_0000 && c'.load == c.load && c'.running == r
            && c'.resched == (c.resched || t.timeslice == 1) && |c'.tasks| == |c.tasks|
            && c'.tasks[r] == t.(estcpu := t.estcpu + 256, timeslice := if t.timeslice == 1 then 4 else t.timeslice - 1)
            && forall i :: 0 <= i < |c.tasks| && i != r ==> c'.tasks[i] == c.tasks[i]
  {
    assert Bounded(c.tasks[c.running], c.ticks);
    Fits(c.tasks[c.running].estcpu + 256);
    hide Int32, NewLoad, DecayedTasks;
  }

  /** The idle thread is not charged: a tick only asks for a switch.  And without a running thread it only counts. */
  lemma IdleTick(c: Clock)
    requires !Busy(c)
    ensures var ticks, running := (c.ticks + 1) % 0x1_0000_0000, 0 <= c.running < |c.tasks|;
            Ticked(c) == Clock(ticks, c.load, c.tasks, c.running, c.resched || running)
  {}

  /** A tick that ends a second: on top of that charge, every thread's estimate e becomes e * w plus its niceness, with
      the weight w = 2l / (2l + 1) of the load average l; and of the next load average the old one makes 251 parts in
      256, and each ready thread four. */
  lemma OneSecond(c: Clock, n: nat, i: nat)
    requires Inv(c, n) && Busy(c) && (c.ticks + 1) % 0x1_0000_0000 % 100 == 0 && i < |c.tasks|
    ensures Ticked(c).load == (251 * c.load) / 256 + 4 * ReadyCount(c.tasks)
    ensures var w := (2 * c.load * 256) / (2 * c.load + 256);
            Ticked(c).tasks[i].estcpu
            == w * (c.tasks[i].estcpu + if i == c.running then 256 else 0) / 256 + 256 * c.tasks[i].nice
  {
    assert Bounded(c.tasks[i], c.ticks);
    ReadyBound(c.tasks);
    LoadIs(c.load, ReadyCount(c.tasks), n);
    RatioIs(c.load);
    RatioBelowOne(c.load);
    var e := c.tasks[i].estcpu + if i == c.running then 256 else 0;
    Fits(e);
    var t := c.tasks[i].(estcpu := e);
    DecayedIs(t, Ratio(c.load));
    hide Int32, NewLoad, Ratio, Decayed;
  }

  lemma LoadIs(load: int, ready: nat, n: nat)
    requires 0 <= load <= 205 * n && ready <= n <= MAX_TASKS
    ensures NewLoad(load, ready) == (251 * load) / 256 + 4 * ready
  {
    hide Int32;
    Fits(FromInt(ready));
    Fits((251 * load) / 256);
    Fits((4 * FromInt(ready)) / 256);
    assert (4 * FromInt(ready)) / 256 == 4 * ready;
    Fits((251 * load) / 256 + 4 * ready);
  }

  lemma RatioIs(load: int)
    requires 0 <= load < 0x1000_0000
    ensures Ratio(load) == (2 * load * 256) / (2 * load + 256)
  {
    hide Int32, Div;
    var r := 2 * load;
    assert (TWO * load) / ONE == r;
    Fits(r);
    Fits(r + 256);
    BelowOne(r);
  }

  lemma BelowOne(r: int)
    requires 0 <= r < 0x2000_0000
    ensures Div(r, r + 256) == (r * 256) / (r + 256)
  {
    hide Div, Int32;
    DivOfNonNegative(r, r + 256);
    Quotient(r);
    Fits((r * 256) / (r + 256));
  }

  lemma DecayedIs(t: Task, ratio: int)
    requires 0 <= ratio <= 255 && -NZERO <= t.nice < NZERO
    requires -DECAYED_BOUND - ONE * HZ <= t.estcpu <= DECAYED_BOUND + ONE * HZ
    ensures Decayed(t, ratio) == t.(estcpu := ratio * t.estcpu / 256 + 256 * t.nice)
  {
    ProductBound(ratio, t.estcpu, DECAYED_BOUND + ONE * HZ);
    var p := ratio * t.estcpu;
    hide Int32;
    Fits(p / 256);
    Fits(256 * t.nice);
    Fits(p / 256 + 256 * t.nice);
  }

  /** How many threads are ready. */
  lemma {:induction false} ReadyIs(tasks: seq<Task>)
    ensures ReadyCount(tasks) == |set i | 0 <= i < |tasks| && tasks[i].ready|
  {
    var now := set i | 0 <= i < |tasks| && tasks[i].ready;
    if tasks != [] {
      var k := |tasks| - 1;
      ReadyIs(tasks[..k]);
      var before := set i | 0 <= i < |tasks[..k]| && tasks[..k][i].ready;
      assert now == if tasks[k].ready then before + {k} else before;
    }
  }

  /** What may happen between two interrupts: threads come with no CPU use, go, are switched to, sleep, wake and
      change their niceness. */
  ghost predicate Between(c: Clock, c': Clock, n: nat) {
    && c'.ticks == c.ticks && c'.load == c.load && |c'.tasks| <= n
    && forall i {:trigger c'.tasks[i]} :: 0 <= i < |c'.tasks| ==>
         && -NZERO <= c'.tasks[i].nice < NZERO
         && ((c'.tasks[i].estcpu == 0 && c'.tasks[i].timeslice == TIMESLICE)
             || exists j ::
                  0 <= j < |c.tasks| && c.tasks[j].estcpu == c'.tasks[i].estcpu
                  && c.tasks[j].timeslice == c'.tasks[i].timeslice)
  }

  /** States as the interrupts find them. */
  ghost predicate IsRun(cs: seq<Clock>, n: nat) {
    forall i :: 0 <= i < |cs| - 1 ==> BusyOnTheSecond(cs[i]) && Between(Ticked(cs[i]), cs[i + 1], n)
  }

  /** On every run on which every HZ-th tick finds a busy processor, the load average stays between zero and the
      largest number of threads, and every estimate of CPU use below 2^23 raw units. */
  lemma {:induction false} RunBounds(cs: seq<Clock>, n: nat, k: nat)
    requires IsRun(cs, n) && k < |cs| && Inv(cs[0], n)
    ensures Inv(cs[k], n)
    ensures 0 <= cs[k].load <= FromInt(n)
    ensures forall i :: 0 <= i < |cs[k].tasks| ==> -0x80_0000 < cs[k].tasks[i].estcpu < 0x80_0000
  {
    if k > 0 {
      RunBounds(cs, n, k - 1);
      hide Ticked;
      TickKeeps(cs[k - 1], n);
      assert Between(Ticked(cs[k - 1]), cs[k - 1 + 1], n);
      BetweenKeeps(Ticked(cs[k - 1]), cs[k], n);
    }
    forall i | 0 <= i < |cs[k].tasks| ensures -0x80_0000 < cs[k].tasks[i].estcpu < 0x80_0000 {
      assert Bounded(cs[k].tasks[i], cs[k].ticks);
    }
  }

  lemma BetweenKeeps(c: Clock, c': Clock, n: nat)
    requires Inv(c, n) && Between(c, c', n)
    ensures Inv(c', n)
  {
    forall i | 0 <= i < |c'.tasks| ensures Bounded(c'.tasks[i], c'.ticks) {
      if !(c'.tasks[i].estcpu == 0 && c'.tasks[i].timeslice == TIMESLICE) {
        var j :| 0 <= j < |c.tasks| && c.tasks[j].estcpu == c'.tasks[i].estcpu
        && c.tasks[j].timeslice == c'.tasks[i].timeslice;
        assert Bounded(c.tasks[j], c.ticks);
      }
    }
  }
}
