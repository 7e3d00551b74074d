/** A deterministic machine over time, and what is observed of it. */
module Orbits {

  /** The state n steps later. */
  function Iterate<T>(f: T -> T, s: T, n: nat): T
    decreases n
  {
    if n == 0 then s else Iterate(f, f(s), n - 1)
  }

  /** What is observed at the start of each of the next n steps. */
  function Watch<T, U>(f: T -> T, g: T -> U, s: T, n: nat): (r: seq<U>)
    ensures |r| == n
    decreases n
  {
    if n == 0 then [] else [g(s)] + Watch(f, g, f(s), n - 1)
  }

  lemma {:induction false} WatchAdd<T, U>(f: T -> T, g: T -> U, s: T, a: nat, b: nat)
    ensures Iterate(f, s, a + b) == Iterate(f, Iterate(f, s, a), b)
    ensures Watch(f, g, s, a + b) == Watch(f, g, s, a) + Watch(f, g, Iterate(f, s, a), b)
    decreases a
  {
    if a > 0 {
      WatchAdd(f, g, f(s), a - 1, b);
      assert a + b - 1 == (a - 1) + b;
    }
  }

  lemma {:induction false} WatchAt<T, U>(f: T -> T, g: T -> U, s: T, n: nat, m: nat)
    requires m < n
    ensures Watch(f, g, s, n)[m] == g(Iterate(f, s, m))
    decreases m
  {
    if m > 0 {
      WatchAt(f, g, f(s), n - 1, m - 1);
    }
  }

  lemma OneStep<T, U>(f: T -> T, g: T -> U, s: T)
    ensures Iterate(f, s, 1) == f(s) && Watch(f, g, s, 1) == [g(s)]
  {
    assert Iterate(f, f(s), 0) == f(s);
    assert Watch(f, g, f(s), 0) == [];
  }
}

/** The tick scheduler as a value machine, and what it does over whole epochs. */
module Epoch {
  import opened Orbits

  const PRIORITY_MIN: nat := 1
  const PRIORITY_MAX: nat := 10

  /** counter and priority of a task */
  datatype Job = Job(counter: nat, priority: nat)

  /** jobs[0] is the idle task, which is never chosen. */
  datatype Sched = Sched(jobs: seq<Job>, cur: nat)

  /** There is a task beside the idle one. */
  type System = s: Sched | |s.jobs| >= 2 && s.cur < |s.jobs| witness Sched([Job(0, 0), Job(0, 0)], 0)

  /** The first task with the largest counter among tasks 1 to n - 1. */
  function BestBelow(jobs: seq<Job>, n: nat): (b: nat)
    requires 2 <= n <= |jobs|
    ensures 1 <= b < n
  {
    if n == 2 then 1
    else
      var b := BestBelow(jobs, n - 1);
      if jobs[n - 1].counter > jobs[b].counter then n - 1 else b
  }

  lemma {:induction false} BestIsFirstLargest(jobs: seq<Job>, n: nat)
    requires 2 <= n <= |jobs|
    ensures var b := BestBelow(jobs, n);
            && (forall i :: 1 <= i < n ==> jobs[i].counter <= jobs[b].counter)
            && (forall i :: 1 <= i < b ==> jobs[i].counter < jobs[b].counter)
  {
    if n > 2 {
      BestIsFirstLargest(jobs, n - 1);
    }
  }

  function Best(jobs: seq<Job>): (b: nat)
    requires |jobs| >= 2
    ensures 1 <= b < |jobs|
  {
    BestBelow(jobs, |jobs|)
  }

  function Refill(jobs: seq<Job>): (r: seq<Job>)
    requires |jobs| >= 2
    ensures |r| == |jobs|
  {
    RefillBelow(jobs, |jobs|)
  }

  /** The first n tasks, all but the idle one refilled. */
  function RefillBelow(jobs: seq<Job>, n: nat): (r: seq<Job>)
    requires 1 <= n <= |jobs|
    ensures |r| == n
  {
    if n == 1 then [jobs[0]] else RefillBelow(jobs, n - 1) + [Job(jobs[n - 1].priority, jobs[n - 1].priority)]
  }

  lemma {:induction false} RefillAt(jobs: seq<Job>, n: nat)
    requires 1 <= n <= |jobs|
    ensures var r := RefillBelow(jobs, n);
            r[0] == jobs[0] && forall i :: 1 <= i < n ==> r[i] == Job(jobs[i].priority, jobs[i].priority)
  {
    if n > 1 {
      RefillAt(jobs, n - 1);
    }
  }

  /** schedule(), its one recursive call unfolded */
  function Pick(s: Sched): Sched
    requires |s.jobs| >= 2
  {
    if s.jobs[Best(s.jobs)].counter == 0 then Sched(Refill(s.jobs), Best(Refill(s.jobs)))
    else s.(cur := Best(s.jobs))
  }

  function WithCounter(s: Sched, c: nat): Sched
    requires s.cur < |s.jobs|
  {
    s.(jobs := s.jobs[s.cur := s.jobs[s.cur].(counter := c)])
  }

  /** do_timer() */
  function Tick(s: System): System
  {
    var c := s.jobs[s.cur].counter;
    if s.cur == 0 || c == 0 then Pick(s)
    else if c == 1 then Pick(WithCounter(s, 0))
    else WithCounter(s, c - 1)
  }

  /** A fork: the child has the parent's counter and priority. */
  function Cloned(s: Sched): Sched
    requires s.cur < |s.jobs|
  {
    s.(jobs := s.jobs + [s.jobs[s.cur]])
  }

  // ----------------------------------------------------------- the invariant

  ghost predicate JobsOk(jobs: seq<Job>) {
    && |jobs| >= 2
    && forall i :: 1 <= i < |jobs| ==> jobs[i].counter <= jobs[i].priority && PRIORITY_MIN <= jobs[i].priority <= PRIORITY_MAX
  }

  /** Once scheduling has begun the current task is never the idle one and has
      time left. */
  ghost predicate Running(s: Sched) {
    JobsOk(s.jobs) && 1 <= s.cur < |s.jobs| && s.jobs[s.cur].counter > 0
  }

  /** A second recursive call of schedule() never happens, and the task chosen
      has time left. */
  lemma PickRuns(s: Sched)
    requires JobsOk(s.jobs)
    ensures s.jobs[Best(s.jobs)].counter == 0 ==> Refill(s.jobs)[Best(Refill(s.jobs))].counter > 0
    ensures Running(Pick(s)) && |Pick(s).jobs| == |s.jobs|
  {
    RefillAt(s.jobs, |s.jobs|);
    BestIsFirstLargest(s.jobs, |s.jobs|);
    BestIsFirstLargest(Refill(s.jobs), |s.jobs|);
    assert Refill(s.jobs)[1].counter >= 1;
  }

  lemma TickRuns(s: Sched)
    requires JobsOk(s.jobs) && s.cur < |s.jobs|
    ensures Running(Tick(s)) && |Tick(s).jobs| == |s.jobs|
  {
    PickRuns(s);
    if s.cur > 0 && s.jobs[s.cur].counter > 0 { PickRuns(WithCounter(s, 0)); }
  }

  datatype Event = Timer | Clone

  function Step(s: System, e: Event): System
  {
    match e
    case Timer => Tick(s)
    case Clone => Cloned(s)
  }

  ghost predicate RunningAlong(s: Sched, es: seq<Event>)
    decreases |es|
  {
    Running(s) && (es != [] ==> RunningAlong(Step(s, es[0]), es[1..]))
  }

  /** task_init's state: all counters zero, the idle task current. */
  ghost predicate AtBoot(s: Sched) {
    JobsOk(s.jobs) && s.cur == 0 && forall i :: 0 <= i < |s.jobs| ==> s.jobs[i].counter == 0
  }

  /** From start_kernel's schedule() call on, over every sequence of timer
      interrupts and forks, every counter is at most its priority, priorities
      are in range, and the current task is a user task with time left. */
  lemma AlwaysRunning(s: Sched, es: seq<Event>)
    requires AtBoot(s)
    ensures RunningAlong(Pick(s), es)
  {
    PickRuns(s);
    StaysRunning(Pick(s), es);
  }

  lemma {:induction false} StaysRunning(s: Sched, es: seq<Event>)
    requires Running(s)
    ensures RunningAlong(s, es)
    decreases |es|
  {
    if es != [] {
      TickRuns(s);
      StaysRunning(Step(s, es[0]), es[1..]);
    }
  }

  // ----------------------------------------------------------- time

  /** The state n ticks later. */
  function After(s: System, n: nat): System { Iterate(Tick, s, n) }

  /** Who runs during each of the next n ticks. */
  function Trace(s: System, n: nat): (r: seq<nat>)
    ensures |r| == n
  {
    Watch(Tick, Current, s, n)
  }

  function Current(s: System): nat { s.cur }

  lemma TraceAdd(s: System, a: nat, b: nat)
    ensures After(s, a + b) == After(After(s, a), b)
    ensures Trace(s, a + b) == Trace(s, a) + Trace(After(s, a), b)
  {
    WatchAdd(Tick, Current, s, a, b);
  }

  lemma TraceAt(s: System, n: nat, m: nat)
    requires m < n
    ensures Trace(s, n)[m] == After(s, m).cur
  {
    WatchAt(Tick, Current, s, n, m);
  }

  lemma OneTick(s: System)
    ensures After(s, 1) == Tick(s) && Trace(s, 1) == [s.cur]
  {
    OneStep(Tick, Current, s);
  }

  /** Time left before the next refill. */
  function Remaining(jobs: seq<Job>, n: nat): nat
    requires 1 <= n <= |jobs|
  {
    if n == 1 then 0 else Remaining(jobs, n - 1) + jobs[n - 1].counter
  }

  function TimeLeft(s: Sched): nat
    requires |s.jobs| >= 2
  {
    Remaining(s.jobs, |s.jobs|)
  }

  lemma {:induction false} RemainingUpdate(jobs: seq<Job>, i: nat, c: nat, n: nat)
    requires 1 <= i < |jobs| && 1 <= n <= |jobs|
    ensures Remaining(jobs[i := jobs[i].(counter := c)], n) == Remaining(jobs, n) + if i < n then c - jobs[i].counter else 0
    decreases n
  {
    if n > 1 {
      RemainingUpdate(jobs, i, c, n - 1);
    }
  }

  lemma {:induction false} RemainingZero(jobs: seq<Job>, n: nat)
    requires 1 <= n <= |jobs|
    ensures Remaining(jobs, n) == 0 <==> forall i :: 1 <= i < n ==> jobs[i].counter == 0
    decreases n
  {
    if n > 1 {
      RemainingZero(jobs, n - 1);
    }
  }

  /** The state right after a refill. */
  function Fresh(jobs: seq<Job>): Sched
    requires |jobs| >= 2
  {
    Sched(Refill(jobs), Best(Refill(jobs)))
  }

  function Priorities(jobs: seq<Job>): (ps: seq<nat>)
    ensures |ps| == |jobs| && forall i :: 0 <= i < |jobs| ==> ps[i] == jobs[i].priority
  {
    seq(|jobs|, (i: nat) requires i < |jobs| => jobs[i].priority)
  }

  /** Sum of the priorities of tasks 1 to n - 1. */
  function Total(ps: seq<nat>, n: nat): nat
    requires 1 <= n <= |ps|
  {
    if n == 1 then 0 else Total(ps, n - 1) + ps[n - 1]
  }

  lemma {:induction false} RefilledTime(jobs: seq<Job>, r: seq<Job>, n: nat)
    requires 1 <= n <= |jobs| == |r|
    requires forall i :: 1 <= i < n ==> r[i].counter == jobs[i].priority
    ensures Remaining(r, n) == Total(Priorities(jobs), n)
    decreases n
  {
    if n > 1 {
      RefilledTime(jobs, r, n - 1);
    }
  }

  /** An epoch is as long as the priorities sum up to. */
  lemma EpochLength(jobs: seq<Job>)
    requires |jobs| >= 2
    ensures TimeLeft(Fresh(jobs)) == Total(Priorities(jobs), |jobs|)
  {
    RefillAt(jobs, |jobs|);
    RefilledTime(jobs, Refill(jobs), |jobs|);
  }

  lemma RefillAgain(jobs: seq<Job>, jobs': seq<Job>)
    requires |jobs| == |jobs'| >= 2 && jobs[0] == jobs'[0]
    requires forall i :: 1 <= i < |jobs| ==> jobs[i].priority == jobs'[i].priority
    ensures Refill(jobs) == Refill(jobs')
  {
    RefillAt(jobs, |jobs|);
    RefillAt(jobs', |jobs|);
  }

  /** schedule() refills exactly when no time is left. */
  lemma PickRefills(s: Sched)
    requires JobsOk(s.jobs)
    ensures TimeLeft(s) == 0 ==> Pick(s) == Fresh(s.jobs)
    ensures TimeLeft(s) > 0 ==> Pick(s) == s.(cur := Best(s.jobs)) && s.jobs[Best(s.jobs)].counter > 0
  {
    BestIsFirstLargest(s.jobs, |s.jobs|);
    RemainingZero(s.jobs, |s.jobs|);
  }

  lemma SpendOne(s: Sched)
    requires Running(s)
    ensures var s' := WithCounter(s, s.jobs[s.cur].counter - 1);
            && JobsOk(s'.jobs) && TimeLeft(s') == TimeLeft(s) - 1 && Refill(s'.jobs) == Refill(s.jobs)
            && (TimeLeft(s') == 0 ==> s.jobs[s.cur].counter == 1)
  {
    var c, n := s.jobs[s.cur].counter, |s.jobs|;
    var s' := WithCounter(s, c - 1);
    RemainingUpdate(s.jobs, s.cur, c - 1, n);
    RemainingZero(s'.jobs, n);
    RefillAgain(s.jobs, s'.jobs);
  }

  /** A tick uses up one unit of time; the last one refills. */
  lemma TickSpends(s: Sched)
    requires Running(s)
    ensures TimeLeft(s) >= 1 && Running(Tick(s))
    ensures TimeLeft(s) == 1 ==> Tick(s) == Fresh(s.jobs)
    ensures TimeLeft(s) > 1 ==> TimeLeft(Tick(s)) == TimeLeft(s) - 1 && Refill(Tick(s).jobs) == Refill(s.jobs)
  {
    var s' := WithCounter(s, s.jobs[s.cur].counter - 1);
    SpendOne(s);
    PickRefills(s');
    TickRuns(s);
  }

  /** However a state came about, once its remaining time is used up every task
      has a full counter again. */
  lemma {:induction false} DrainsToRefill(s: Sched)
    requires Running(s)
    ensures After(s, TimeLeft(s)) == Fresh(s.jobs)
    decreases TimeLeft(s)
  {
    TickSpends(s);
    TraceAdd(s, 1, TimeLeft(s) - 1);
    OneTick(s);
    if TimeLeft(s) > 1 {
      DrainsToRefill(Tick(s));
    }
  }

  // ----------------------------------------------------------- the order of an epoch

  /** Task a goes before task b: higher priority, or equal and lower index. */
  predicate Before(ps: seq<nat>, a: nat, b: nat)
    requires a < |ps| && b < |ps|
  {
    ps[a] > ps[b] || (ps[a] == ps[b] && a < b)
  }

  /** All tasks but the idle one, once each, highest priority first. */
  ghost predicate IsOrder(ps: seq<nat>, order: seq<nat>) {
    && (forall k :: 0 <= k < |order| ==> 1 <= order[k] < |ps|)
    && (forall i :: 1 <= i < |ps| ==> i in order)
    && (forall j, k :: 0 <= j < k < |order| ==> Before(ps, order[j], order[k]))
  }

  function Repeat(i: nat, n: nat): (r: seq<nat>)
    ensures |r| == n && forall k :: 0 <= k < n ==> r[k] == i
  {
    if n == 0 then [] else [i] + Repeat(i, n - 1)
  }

  /** Each task of the order for as many ticks as its priority. */
  function Expand(ps: seq<nat>, order: seq<nat>): seq<nat>
    requires forall k :: 0 <= k < |order| ==> order[k] < |ps|
  {
    if order == [] then [] else Repeat(order[0], ps[order[0]]) + Expand(ps, order[1..])
  }

  /** The first k tasks of the order have used up their time, the others have
      all of theirs. */
  ghost predicate AtBoundary(jobs: seq<Job>, order: seq<nat>, k: nat) {
    && IsOrder(Priorities(jobs), order)
    && forall j :: 0 <= j < |order| ==> jobs[order[j]].counter == if j < k then 0 else jobs[order[j]].priority
  }

  lemma NextInOrder(jobs: seq<Job>, order: seq<nat>, k: nat)
    requires JobsOk(jobs) && AtBoundary(jobs, order, k)
    ensures k < |order| ==> Best(jobs) == order[k]
    ensures k >= |order| ==> jobs[Best(jobs)].counter == 0
  {
    var ps, b := Priorities(jobs), Best(jobs);
    if k < |order| {
      assert forall i :: k < i < |order| ==> Before(ps, order[k], order[i]);
    }
    BestIsFirstLargest(jobs, |jobs|);
    assert b in order;
  }

  /** The current task keeps running until its counter is used up. */
  lemma {:induction false} RunsDown(s: Sched)
    requires Running(s)
    ensures var c := s.jobs[s.cur].counter;
            && Trace(s, c) == Repeat(s.cur, c)
            && After(s, c) == Pick(WithCounter(s, 0))
    decreases s.jobs[s.cur].counter
  {
    var c := s.jobs[s.cur].counter;
    OneTick(s);
    TraceAdd(s, 1, c - 1);
    if c > 1 {
      RunsDown(Tick(s));
      assert WithCounter(Tick(s), 0) == WithCounter(s, 0);
    } else {
      assert Repeat(s.cur, 1) == [s.cur] + Repeat(s.cur, 0);
    }
  }

  lemma Distinct(ps: seq<nat>, order: seq<nat>, j: nat, k: nat)
    requires IsOrder(ps, order) && j < |order| && k < |order|
    ensures j != k ==> order[j] != order[k]
  {
    assert j < k ==> Before(ps, order[j], order[k]);
    assert k < j ==> Before(ps, order[k], order[j]);
  }

  lemma NextBoundary(s: Sched, order: seq<nat>, k: nat)
    requires Running(s) && AtBoundary(s.jobs, order, k) && k < |order| && s.cur == order[k]
    ensures var s' := WithCounter(s, 0);
            && JobsOk(s'.jobs) && AtBoundary(s'.jobs, order, k + 1) && Priorities(s'.jobs) == Priorities(s.jobs)
            && Refill(s'.jobs) == Refill(s.jobs)
            && TimeLeft(s') == TimeLeft(s) - s.jobs[s.cur].priority
  {
    var s' := WithCounter(s, 0);
    assert Priorities(s'.jobs) == Priorities(s.jobs);
    forall j | 0 <= j < |order|
      ensures s'.jobs[order[j]].counter == if j < k + 1 then 0 else s'.jobs[order[j]].priority
    {
      Distinct(Priorities(s.jobs), order, j, k);
    }
    RemainingUpdate(s.jobs, s.cur, 0, |s.jobs|);
    RefillAgain(s.jobs, s'.jobs);
  }

  /** The rest of an epoch, from the turn of the k-th task on. */
  lemma {:induction false} RestOfEpoch(s: Sched, order: seq<nat>, k: nat)
    requires Running(s) && AtBoundary(s.jobs, order, k) && k < |order| && s.cur == order[k]
    ensures Trace(s, TimeLeft(s)) == Expand(Priorities(s.jobs), order[k..])
    decreases |order| - k
  {
    var ps, s' := Priorities(s.jobs), WithCounter(s, 0);
    FirstOfRest(s, order, k);
    NextInOrder(s'.jobs, order, k + 1);
    PickRuns(s');
    assert order[k..][1..] == order[k + 1..];
    if k + 1 < |order| {
      assert Pick(s') == s'.(cur := order[k + 1]);
      RestOfEpoch(Pick(s'), order, k + 1);
    } else {
      AllSpent(s'.jobs, order);
    }
  }

  /** The turn of the k-th task. */
  lemma FirstOfRest(s: Sched, order: seq<nat>, k: nat)
    requires Running(s) && AtBoundary(s.jobs, order, k) && k < |order| && s.cur == order[k]
    ensures var s' := WithCounter(s, 0);
            && JobsOk(s'.jobs) && AtBoundary(s'.jobs, order, k + 1) && Priorities(s'.jobs) == Priorities(s.jobs)
            && Trace(s, TimeLeft(s)) == Repeat(order[k], Priorities(s.jobs)[order[k]]) + Trace(Pick(s'), TimeLeft(s'))
  {
    var c := s.jobs[s.cur].counter;
    RunsDown(s);
    NextBoundary(s, order, k);
    TraceAdd(s, c, TimeLeft(s) - c);
  }

  lemma AllSpent(jobs: seq<Job>, order: seq<nat>)
    requires |jobs| >= 2 && AtBoundary(jobs, order, |order|)
    ensures Remaining(jobs, |jobs|) == 0
  {
    forall i | 1 <= i < |jobs|
      ensures jobs[i].counter == 0
    {
      assert i in order;
    }
    RemainingZero(jobs, |jobs|);
  }

  /** From a refill on, over as many ticks as the priorities sum up to, each
      task runs for exactly its priority in consecutive ticks, in order of
      decreasing priority with ties by lowest index; then everything is as it
      was. */
  lemma EpochTrace(jobs: seq<Job>, order: seq<nat>)
    requires JobsOk(jobs) && IsOrder(Priorities(jobs), order)
    ensures var s, n := Fresh(jobs), Total(Priorities(jobs), |jobs|);
            Trace(s, n) == Expand(Priorities(jobs), order) && After(s, n) == s
  {
    EpochLength(jobs);
    var s := Fresh(jobs);
    PickRuns(Sched(jobs, 0));
    RefillAt(jobs, |jobs|);
    assert Priorities(s.jobs) == Priorities(jobs);
    NextInOrder(s.jobs, order, 0);
    assert 1 in order;
    assert Running(s);
    RestOfEpoch(s, order, 0);
    assert order[0..] == order;
    DrainsToRefill(s);
    RefillAgain(jobs, s.jobs);
  }

  function Times(trace: seq<nat>, m: nat): seq<nat> {
    if m == 0 then [] else trace + Times(trace, m - 1)
  }

  /** And so in every later epoch. */
  lemma {:induction false} EpochsRepeat(jobs: seq<Job>, order: seq<nat>, m: nat)
    requires JobsOk(jobs) && IsOrder(Priorities(jobs), order)
    ensures var s, n := Fresh(jobs), Total(Priorities(jobs), |jobs|);
            Trace(s, m * n) == Times(Expand(Priorities(jobs), order), m) && After(s, m * n) == s
    decreases m
  {
    var s, n := Fresh(jobs), Total(Priorities(jobs), |jobs|);
    if m > 0 {
      EpochsRepeat(jobs, order, m - 1);
      EpochTrace(jobs, order);
      OneMore(m, n);
      TraceAdd(s, n, (m - 1) * n);
    }
  }

  lemma OneMore(m: nat, n: nat)
    requires m > 0
    ensures m * n == n + (m - 1) * n && (m - 1) * n >= 0
  {
  }

  /** The trace that the kernel's own scheduler test waits for, as its first 40
      ticks: four tasks with priorities 7, 10, 4 and 1. */
  lemma ExpectedOutput(jobs: seq<Job>)
    requires JobsOk(jobs) && Priorities(jobs) == [0, 7, 10, 4, 1]
    ensures var epoch := [2, 2, 2, 2, 2, 2, 2, 2, 2, 2, 1, 1, 1, 1, 1, 1, 1, 3, 3, 3, 3, 4];
            Trace(Fresh(jobs), 44) == epoch + epoch
  {
    var ps, order := [0, 7, 10, 4, 1], [2, 1, 3, 4];
    assert IsOrder(ps, order);
    EpochsRepeat(jobs, order, 2);
    assert Total(ps, 5) == 22;
    FirstEpoch(ps, order);
    Twice(Expand(ps, order));
  }

  lemma Twice(trace: seq<nat>)
    ensures Times(trace, 2) == trace + trace
  {
    assert Times(trace, 1) == trace + Times(trace, 0) == trace;
  }

  lemma FirstEpoch(ps: seq<nat>, order: seq<nat>)
    requires ps == [0, 7, 10, 4, 1] && order == [2, 1, 3, 4]
    ensures Expand(ps, order) == [2, 2, 2, 2, 2, 2, 2, 2, 2, 2, 1, 1, 1, 1, 1, 1, 1, 3, 3, 3, 3, 4]
  {
    assert order[1..] == [1, 3, 4] && order[1..][1..] == [3, 4] && order[1..][1..][1..] == [4];
    assert Expand(ps, [4]) == Repeat(4, 1) + [];
    assert Expand(ps, [3, 4]) == Repeat(3, 4) + Expand(ps, [4]) by { assert [3, 4][1..] == [4]; }
    assert Expand(ps, [1, 3, 4]) == Repeat(1, 7) + Expand(ps, [3, 4]) by { assert [1, 3, 4][1..] == [3, 4]; }
    FirstRuns();
  }

  lemma FirstRuns()
    ensures Repeat(2, 10) == [2, 2, 2, 2, 2, 2, 2, 2, 2, 2] && Repeat(1, 7) == [1, 1, 1, 1, 1, 1, 1]
    ensures Repeat(3, 4) == [3, 3, 3, 3] && Repeat(4, 1) == [4]
  {
  }

  // ----------------------------------------------------------- forks

  /** A fork lengthens what is left of the epoch by the parent's counter and every
      later one by the parent's priority; everyone else keeps both. */
  lemma CloneTime(s: Sched)
    requires Running(s)
    ensures var s', n := Cloned(s), |s.jobs|;
            && |s'.jobs| == n + 1 && s'.cur == s.cur && s'.jobs[..n] == s.jobs
            && TimeLeft(s') == TimeLeft(s) + s.jobs[s.cur].counter
            && Total(Priorities(s'.jobs), n + 1) == Total(Priorities(s.jobs), n) + s.jobs[s.cur].priority
  {
    var s', n := Cloned(s), |s.jobs|;
    RemainingSame(s.jobs, s'.jobs, n);
    TotalSame(Priorities(s.jobs), Priorities(s'.jobs), n);
  }

  lemma {:induction false} RemainingSame(jobs: seq<Job>, more: seq<Job>, n: nat)
    requires 1 <= n <= |jobs| <= |more| && forall i :: 0 <= i < n ==> more[i] == jobs[i]
    ensures Remaining(more, n) == Remaining(jobs, n)
  {
    if n > 1 { RemainingSame(jobs, more, n - 1); }
  }

  lemma {:induction false} TotalSame(ps: seq<nat>, more: seq<nat>, n: nat)
    requires 1 <= n <= |ps| <= |more| && forall i :: 0 <= i < n ==> more[i] == ps[i]
    ensures Total(more, n) == Total(ps, n)
  {
    if n > 1 { TotalSame(ps, more, n - 1); }
  }

  lemma {:induction false} ExpandOnly(ps: seq<nat>, order: seq<nat>, m: nat)
    requires (forall k :: 0 <= k < |order| ==> order[k] < |ps|) && m < |Expand(ps, order)|
    ensures Expand(ps, order)[m] in order
    decreases order
  {
    var p := ps[order[0]];
    if m >= p { ExpandOnly(ps, order[1..], m - p); }
  }

  lemma {:induction false} ExpandSplit(ps: seq<nat>, order: seq<nat>, k: nat)
    requires (forall j :: 0 <= j < |order| ==> order[j] < |ps|) && k < |order|
    ensures Expand(ps, order) == Expand(ps, order[..k]) + Repeat(order[k], ps[order[k]]) + Expand(ps, order[k + 1..])
    decreases k
  {
    if k > 0 {
      ExpandSplit(ps, order[1..], k - 1);
      assert order[..k][1..] == order[1..][..k - 1];
      assert order[1..][k..] == order[k + 1..];
    }
  }

  /** A task's turn in an epoch: it runs for its priority and at no other time,
      and every task before it in the order has had its turn by then. */
  lemma Turn(ps: seq<nat>, order: seq<nat>, k: nat) returns (a: nat)
    requires IsOrder(ps, order) && k < |order|
    ensures var trace := Expand(ps, order);
            && a + ps[order[k]] <= |trace|
            && (forall m :: 0 <= m < |trace| ==> (trace[m] == order[k] <==> a <= m < a + ps[order[k]]))
            && (forall m, j :: 0 <= j < k && 0 <= m < |trace| && trace[m] == order[j] ==> m < a)
  {
    ExpandSplit(ps, order, k);
    var trace, left, right := Expand(ps, order), Expand(ps, order[..k]), Expand(ps, order[k + 1..]);
    a := |left|;
    forall m | 0 <= m < |trace|
      ensures trace[m] == order[k] <==> a <= m < a + ps[order[k]]
      ensures forall j :: 0 <= j < k && trace[m] == order[j] ==> m < a
    {
      forall j | 0 <= j < |order|
        ensures j != k ==> order[j] != order[k]
        ensures forall i :: 0 <= i < |order| && i != j ==> order[i] != order[j]
      {
        forall i | 0 <= i < |order| && i != j
          ensures order[i] != order[j]
        {
          Distinct(ps, order, i, j);
        }
      }
      if m < a {
        ExpandOnly(ps, order[..k], m);
      } else if m >= a + ps[order[k]] {
        ExpandOnly(ps, order[k + 1..], m - a - ps[order[k]]);
      }
    }
  }

  /** In the first epoch after a fork, and with it in all later ones, the child
      runs for exactly the parent's priority, in consecutive ticks, and not
      before the parent has had its own. */
  lemma CloneEpoch(s: Sched) returns (a: nat)
    requires Running(s)
    ensures var s', child, p := Cloned(s), |s.jobs|, s.jobs[s.cur].priority;
            var trace := Trace(After(s', TimeLeft(s')), Total(Priorities(s.jobs), |s.jobs|) + p);
            && a + p <= |trace|
            && (forall m :: 0 <= m < |trace| ==> (trace[m] == child <==> a <= m < a + p))
            && (forall m :: 0 <= m < |trace| && trace[m] == s.cur ==> m < a)
  {
    var s', child := Cloned(s), |s.jobs|;
    CloneTime(s);
    var order;
    order, a := TurnBehind(Priorities(s'.jobs), s.cur, child);
    DrainsToRefill(s');
    EpochTrace(s'.jobs, order);
  }

  /** The turn of a task of the same priority as one of lower index. */
  lemma TurnBehind(ps: seq<nat>, parent: nat, child: nat) returns (order: seq<nat>, a: nat)
    requires 1 <= parent < child < |ps| && ps[child] == ps[parent]
    ensures IsOrder(ps, order)
    ensures var trace := Expand(ps, order);
            && a + ps[child] <= |trace|
            && (forall m :: 0 <= m < |trace| ==> (trace[m] == child <==> a <= m < a + ps[child]))
            && (forall m :: 0 <= m < |trace| && trace[m] == parent ==> m < a)
  {
    order := OrderExists(ps, |ps|);
    forall k | 0 <= k < |order|
      ensures 1 <= order[k] < |ps|
    {
      assert order[k] in order;
    }
    assert child in order && parent in order;
    var k :| 0 <= k < |order| && order[k] == child;
    var j :| 0 <= j < |order| && order[j] == parent;
    assert j > k ==> Before(ps, child, parent);
    a := Turn(ps, order, k);
  }

  // ----------------------------------------------------------- there is such an order

  /** Insertion by priority, behind tasks of equal priority. */
  function Insert(ps: seq<nat>, order: seq<nat>, i: nat): seq<nat>
    requires i < |ps| && forall k :: 0 <= k < |order| ==> order[k] < |ps|
  {
    if order != [] && ps[order[0]] >= ps[i] then [order[0]] + Insert(ps, order[1..], i) else [i] + order
  }

  ghost predicate Sorted(ps: seq<nat>, order: seq<nat>) {
    && (forall k :: 0 <= k < |order| ==> order[k] < |ps|)
    && (forall j, k :: 0 <= j < k < |order| ==> Before(ps, order[j], order[k]))
  }

  lemma SortedCons(ps: seq<nat>, a: nat, rest: seq<nat>)
    requires a < |ps| && Sorted(ps, rest) && forall j :: j in rest ==> Before(ps, a, j)
    ensures Sorted(ps, [a] + rest)
  {
    assert forall k :: 0 <= k < |rest| ==> rest[k] in rest;
  }

  lemma SortedUncons(ps: seq<nat>, order: seq<nat>)
    requires Sorted(ps, order) && order != []
    ensures Sorted(ps, order[1..]) && order == [order[0]] + order[1..]
    ensures forall j :: j in order[1..] ==> j in order && Before(ps, order[0], j)
  {
    assert forall k :: 0 < k < |order| ==> Before(ps, order[0], order[k]);
  }

  lemma {:induction false} InsertSorted(ps: seq<nat>, order: seq<nat>, i: nat)
    requires i < |ps| && Sorted(ps, order) && forall j :: j in order ==> j < i
    ensures Sorted(ps, Insert(ps, order, i))
    ensures forall j :: j in Insert(ps, order, i) <==> j == i || j in order
    decreases order
  {
    if order != [] {
      assert order[0] in order;
      SortedUncons(ps, order);
    }
    if order != [] && ps[order[0]] >= ps[i] {
      InsertSorted(ps, order[1..], i);
      SortedCons(ps, order[0], Insert(ps, order[1..], i));
    } else {
      SortedCons(ps, i, order);
    }
  }

  lemma {:induction false} OrderExists(ps: seq<nat>, n: nat) returns (order: seq<nat>)
    requires 1 <= n <= |ps|
    ensures Sorted(ps, order) && forall j :: j in order <==> 1 <= j < n
    decreases n
  {
    order := [];
    if n > 1 {
      var rest := OrderExists(ps, n - 1);
      InsertSorted(ps, rest, n - 1);
      order := Insert(ps, rest, n - 1);
    }
  }

  // ----------------------------------------------------------- liveness

  lemma {:induction false} ExpandHas(ps: seq<nat>, order: seq<nat>, i: nat)
    requires (forall k :: 0 <= k < |order| ==> order[k] < |ps|) && i in order && ps[i] > 0
    ensures i in Expand(ps, order)
    decreases order
  {
    if order[0] == i {
      assert Repeat(i, ps[i])[0] == i;
    } else {
      ExpandHas(ps, order[1..], i);
    }
  }

  /** Without further forks every task gets the processor before the time left
      in this epoch and one whole epoch are over. */
  lemma EveryTaskRuns(s: Sched, i: nat)
    requires Running(s) && 1 <= i < |s.jobs|
    ensures exists n: nat :: n < TimeLeft(s) + Total(Priorities(s.jobs), |s.jobs|) && After(s, n).cur == i
  {
    EpochLength(s.jobs);
    var ps, f := Priorities(s.jobs), Fresh(s.jobs);
    var order := OrderExists(ps, |ps|);
    assert forall k :: 0 <= k < |order| ==> order[k] in order;
    EpochTrace(s.jobs, order);
    ExpandHas(ps, order, i);
    var m: nat :| m < TimeLeft(f) && Trace(f, TimeLeft(f))[m] == i;
    TraceAt(f, TimeLeft(f), m);
    DrainsToRefill(s);
    TraceAdd(s, TimeLeft(s), m);
    assert After(s, TimeLeft(s) + m).cur == i;
  }
}
