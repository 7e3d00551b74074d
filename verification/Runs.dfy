/** Whole runs of the kernel over its real data structures. */
module KernelRuns {
  import opened Bits
  import opened BuddyAllocator
  import opened Options
  import opened PageTable
  import opened MemoryMapping
  import opened KernelMapping
  import opened Areas
  import opened VmaList
  import opened Cow
  import opened CowInvariant
  import opened DeepCopy
  import opened KernelMemory
  import opened KernelBoot
  import Scheduling

  /** What can happen next: the current task loads, fetches or stores, traps on an
      address or forks, or the scheduler makes another task current. */
  datatype Call =
    | LoadFrom(addr: nat, fetch: bool)
    | StoreTo(addr: nat, value: Byte)
    | FaultAt(addr: nat)
    | ForkSelf
    | Resume(task: nat)

  /** User addresses, a slot of the task array for a fork (the idle task has one
      too), a task to resume. */
  predicate CanPerform(c: Call, tasks: nat) {
    match c
    case LoadFrom(addr, _) => addr < USER_END
    case StoreTo(addr, _) => addr < USER_END
    case ForkSelf => tasks + 1 < Scheduling.NR_TASKS
    case Resume(i) => i < tasks
    case FaultAt(_) => true
  }

  lemma {:induction false} RunAppend(disk: Ramdisk, s: State, es: seq<Event>, e: Event)
    requires CanRun(disk, s, es) && Enabled(Final(disk, s, es), e)
    ensures CanRun(disk, s, es + [e]) && Final(disk, s, es + [e]) == Apply(disk, Final(disk, s, es), e)
    decreases |es|
  {
    var all := es + [e];
    if es == [] {
      assert all[1..] == [];
      assert Final(disk, Apply(disk, s, e), []) == Apply(disk, s, e);
    } else {
      assert all[1..] == es[1..] + [e];
      RunAppend(disk, Apply(disk, s, es[0]), es[1..], e);
    }
  }

  /** The byte that an event reads, */
  function ByteRead(e: Option<Event>): Option<Byte> {
    if e.Some? && e.value.Read? then Some(e.value.value) else None
  }

  /** and those that a run reads, in order. */
  function Loads(es: seq<Event>): seq<Byte> {
    if es == [] then []
    else Loads(es[..|es| - 1]) + var e := es[|es| - 1]; if e.Read? then [e.value] else []
  }

  /** The event, if any, that call c of task t is in state s. A load or store
      that its page table does not allow is none: it is for the trap that
      follows to make it possible. */
  ghost predicate IsEventOf(s: State, t: nat, c: Call, e: Option<Event>)
    requires IsTask(s, t)
  {
    match c
    case LoadFrom(addr, fetch) =>
      var p := addr / PGSIZE;
      e == if p in s.tables[t] && Accessible(s.tables[t][p].perm, fetch)
           then Some(Read(t, addr, DataAt(s.data, s.tables[t][p].frame)[addr % PGSIZE])) else None
    case StoreTo(addr, b) =>
      var p := addr / PGSIZE;
      e == if p in s.tables[t] && Storable(s.tables[t][p].perm) then Some(Write(t, addr, b)) else None
    case FaultAt(addr) => e.Some? && e.value.Trap? && e.value.task == t && e.value.addr == addr
    case ForkSelf => e == Some(Clone(t))
    case Resume(_) => e.None?
  }

  // ----------------------------------------------------------- pages that calls take

  /** The most pages that a call of task t takes in state s. */
  ghost function StepPages(s: State, t: nat, c: Call): nat
    requires IsTask(s, t)
  {
    match c
    case FaultAt(_) => 3
    case ForkSelf => ForkPages(s, t)
    case _ => 0
  }

  /** No task has more areas or more mapped pages. */
  ghost predicate Sized(s: State, areas: nat, mapped: nat) {
    var ok :=
      && (forall t :: 0 <= t < |s.areas| ==> |s.areas[t]| <= areas)
      && (forall t :: 0 <= t < |s.tables| ==> |s.tables[t]| <= mapped);
    ok
  }

  function CallPages(c: Call, areas: nat, mapped: nat): nat {
    match c
    case FaultAt(_) => 3
    case ForkSelf => 2 + areas + 2 * mapped
    case _ => 0
  }

  /** A fault maps at most one page more. */
  function MappedAfter(c: Call, mapped: nat): nat { if c.FaultAt? then mapped + 1 else mapped }

  /** The most pages that the calls from call i on take, whatever they are for. */
  function Budget(calls: seq<Call>, i: nat, areas: nat, mapped: nat): nat
    requires i <= |calls|
    decreases |calls| - i
  {
    if i == |calls| then 0
    else CallPages(calls[i], areas, mapped) + Budget(calls, i + 1, areas, MappedAfter(calls[i], mapped))
  }

  function Most(ns: seq<nat>): nat {
    if ns == [] then 0 else if ns[0] > Most(ns[1..]) then ns[0] else Most(ns[1..])
  }

  lemma {:induction false} MostIsMost(ns: seq<nat>, i: nat)
    requires i < |ns|
    ensures ns[i] <= Most(ns)
  {
    if i > 0 { MostIsMost(ns[1..], i - 1); }
  }

  ghost function MostAreas(s: State): nat { Most(seq(|s.areas|, (t: nat) requires t < |s.areas| => |s.areas[t]|)) }

  ghost function MostMapped(s: State): nat { Most(seq(|s.tables|, (t: nat) requires t < |s.tables| => |s.tables[t]|)) }

  /** The most pages that calls made from state s on take. */
  ghost function RunPages(s: State, calls: seq<Call>): nat { Budget(calls, 0, MostAreas(s), MostMapped(s)) }

  lemma MostSized(s: State)
    ensures Sized(s, MostAreas(s), MostMapped(s))
  {
    forall t | 0 <= t < |s.areas|
      ensures |s.areas[t]| <= MostAreas(s)
    {
      MostIsMost(seq(|s.areas|, (t: nat) requires t < |s.areas| => |s.areas[t]|), t);
    }
    forall t | 0 <= t < |s.tables|
      ensures |s.tables[t]| <= MostMapped(s)
    {
      MostIsMost(seq(|s.tables|, (t: nat) requires t < |s.tables| => |s.tables[t]|), t);
    }
  }

  lemma BootPagesMapped(areas: seq<Area>)
    ensures MostAreas(Boot([areas])) == |areas| && MostMapped(Boot([areas])) == 0
  {
    var s := Boot([areas]);
    assert seq(|s.areas|, (t: nat) requires t < |s.areas| => |s.areas[t]|) == [|areas|];
    assert seq(|s.tables|, (t: nat) requires t < |s.tables| => |s.tables[t]|) == [0];
    MostOne(|areas|);
    MostOne(0);
  }

  lemma MostOne(n: nat)
    ensures Most([n]) == n
  {
    assert [n][1..] == [];
  }

  lemma StepSized(s: State, t: nat, c: Call, areas: nat, mapped: nat)
    requires IsTask(s, t) && Sized(s, areas, mapped)
    ensures StepPages(s, t, c) <= CallPages(c, areas, mapped)
  {
  }

  /** What an event does to the number of areas and mapped pages. */
  lemma SizedAfter(disk: Ramdisk, s: State, e: Event, areas: nat, mapped: nat)
    requires Inv(s) && Enabled(s, e) && Sized(s, areas, mapped)
    ensures Sized(Apply(disk, s, e), areas, if e.Trap? then mapped + 1 else mapped)
  {
    match e
    case Trap(t, addr, f) => FaultSized(disk, s, t, addr, f, Fault(disk, s, t, addr, f), areas, mapped);
    case Clone(t) =>
      ForkExact(s, t);
      ForkSized(s, t, Fork(s, t), areas, mapped);
    case _ =>
  }

  lemma FaultSized(disk: Ramdisk, s: State, t: nat, addr: nat, f: nat, s': State, areas: nat, mapped: nat)
    requires IsTask(s, t) && s' == Fault(disk, s, t, addr, f) && Sized(s, areas, mapped)
    ensures Sized(s', areas, mapped + 1)
  {
    FaultFrame(disk, s, t, addr, f);
    OneMore(s.tables[t], s'.tables[t], addr / PGSIZE);
  }

  lemma ForkSized(s: State, t: nat, s': State, areas: nat, mapped: nat)
    requires Forked(s, t, s') && Sized(s, areas, mapped)
    ensures Sized(s', areas, mapped)
  {
    ForkedSizes(s, t, s');
  }

  lemma OneMore(m: Table, m': Table, v: nat)
    requires forall w :: w in m' && w != v ==> w in m
    ensures |m'| <= |m| + 1
  {
    assert m'.Keys <= m.Keys + {v};
    CardMonotone(m'.Keys, m.Keys + {v});
    assert |m'.Keys| == |m'| && |m.Keys| == |m|;
  }

  lemma ForkedSizes(s: State, t: nat, s': State)
    requires Forked(s, t, s')
    ensures |s'.tables[t]| == |s.tables[t]| == |s'.tables[|s.tables|]| && |s'.areas[|s.tables|]| == |s.areas[t]|
    ensures forall x :: 0 <= x < |s.tables| ==> |s'.areas[x]| == |s.areas[x]|
  {
    var m := map v | v in s.tables[t] :: Cleared(s.tables[t][v]);
    assert m.Keys == s.tables[t].Keys;
    KeysCount(m, s.tables[t]);
    ReverseAt(s.areas[t]);
  }

  // ----------------------------------------------------------- areas

  /** All areas are among these. */
  ghost predicate AreasFrom(s: State, pool: seq<Area>) {
    forall t, a :: 0 <= t < |s.areas| && a in s.areas[t] ==> a in pool
  }

  /** No event makes up an area. */
  lemma {:induction false} AreasStay(disk: Ramdisk, s: State, es: seq<Event>, pool: seq<Area>)
    requires Inv(s) && CanRun(disk, s, es) && AreasFrom(s, pool)
    ensures Inv(Final(disk, s, es)) && AreasFrom(Final(disk, s, es), pool)
    decreases |es|
  {
    if es != [] {
      StepRefines(disk, s, es[0]);
      AreasAfter(disk, s, es[0], pool);
      AreasStay(disk, Apply(disk, s, es[0]), es[1..], pool);
    }
  }

  lemma AreasAfter(disk: Ramdisk, s: State, e: Event, pool: seq<Area>)
    requires Inv(s) && Enabled(s, e) && AreasFrom(s, pool)
    ensures AreasFrom(Apply(disk, s, e), pool)
  {
    match e
    case Trap(t, addr, f) => FaultFrame(disk, s, t, addr, f);
    case Clone(t) => AreasForked(s, t, pool);
    case _ =>
  }

  lemma AreasForked(s: State, t: nat, pool: seq<Area>)
    requires Inv(s) && t < |s.tables| && AreasFrom(s, pool)
    ensures AreasFrom(Fork(s, t), pool)
  {
    ForkExact(s, t);
    ForkedAreas(s, Fork(s, t), t);
    ReverseFrom(s.areas[t], pool);
    AppendedFrom(s, Fork(s, t), Reverse(s.areas[t]), pool);
  }

  lemma AppendedFrom(s: State, s': State, more: seq<Area>, pool: seq<Area>)
    requires AreasFrom(s, pool) && s'.areas == s.areas + [more] && forall a :: a in more ==> a in pool
    ensures AreasFrom(s', pool)
  {
  }

  // ----------------------------------------------------------- one call

  /** The current task has no area at the address. */
  ghost predicate CurrentFaults(k: Kernel, addr: nat)
    requires k.Valid()
    reads k, k.mms, k.nodes, k.mmu, k.mmu.buddy, k.mmu.buddy.bitmap, k.mmu.buddy.refCnt
  {
    FindVma(k.view.areas[k.current], addr).None?
  }

  /** A fault there has the handler copy a page that it cannot read. */
  ghost predicate CurrentStuck(k: Kernel, addr: nat)
    requires k.Valid()
    reads k, k.mms, k.nodes, k.mmu, k.mmu.buddy, k.mmu.buddy.bitmap, k.mmu.buddy.refCnt
  {
    IsTask(k.view, k.current) && CannotCopy(k.view, k.current, addr)
  }

  /** One call and the event it is. */
  method Perform(k: Kernel, c: Call) returns (outcome: Outcome, value: Option<Byte>, ghost event: Option<Event>)
    requires k.Valid() && CanPerform(c, |k.task|)
    modifies k, k.mmu, k.mmu.buddy, k.mmu.buddy.bitmap, k.mmu.buddy.refCnt
    ensures IsTask(old(k.view), old(k.current))
            && k.mmu.Took(outcome != OutOfMemory, old(k.mmu.taken), StepPages(old(k.view), old(k.current), c))
    ensures outcome == Stuck ==> k.Valid() && k.view == old(k.view) && c.FaultAt? && CurrentStuck(k, c.addr)
    ensures outcome == Hung ==> k.Valid() && k.view == old(k.view) && k.current == old(k.current)
                                && c.FaultAt? && CurrentFaults(k, c.addr)
    ensures outcome == Served
            ==> k.Valid() && IsTask(old(k.view), old(k.current)) && IsEventOf(old(k.view), old(k.current), c, event)
                                  && k.current == (if c.Resume? then c.task else old(k.current))
    ensures outcome == Served && event.None? ==> k.view == old(k.view)
    ensures outcome == Served && event.Some? ==> Enabled(old(k.view), event.value) && k.view == Apply(k.disk, old(k.view), event.value)
    ensures value == ByteRead(event)
  {
    CurrentIsTask(k);
    outcome, value, event := Served, None, None;
    match c
    case LoadFrom(_, _) => value, event := Access(k, c);
    case StoreTo(_, _) => value, event := Access(k, c);
    case FaultAt(addr) =>
      event := Some(Trap(k.current, addr, k.NextFrame()));
      outcome := k.DoPageFault(addr);
    case ForkSelf =>
      event := Some(Clone(k.current));
      var pid;
      outcome, pid := k.DoForkCow();
    case Resume(i) =>
      k.SwitchTask(i);
  }

  /** A load or store, no event if the page does not allow it. */
  method Access(k: Kernel, c: Call) returns (value: Option<Byte>, ghost event: Option<Event>)
    requires k.Valid() && (c.LoadFrom? || c.StoreTo?) && CanPerform(c, |k.task|)
    modifies k
    ensures k.Valid() && k.current == old(k.current) && IsEventOf(old(k.view), old(k.current), c, event)
    ensures event.None? ==> k.view == old(k.view)
    ensures event.Some? ==> Enabled(old(k.view), event.value) && k.view == Apply(k.disk, old(k.view), event.value)
    ensures value == ByteRead(event)
  {
    value, event := None, None;
    match c
    case LoadFrom(addr, fetch) =>
      value := k.UserLoad(addr, fetch);
      if value.Some? {
        event := Some(Read(k.current, addr, value.value));
      }
    case StoreTo(addr, b) =>
      var done := k.UserStore(addr, b);
      if done {
        event := Some(Write(k.current, addr, b));
      }
  }

  lemma CurrentIsTask(k: Kernel)
    requires k.Valid()
    ensures IsTask(k.view, k.current) && k.mmu.Took(true, k.mmu.taken, 0)
  {
  }

  // ----------------------------------------------------------- runs

  lemma LoadsAppend(es: seq<Event>, e: Event)
    ensures Loads(es + [e]) == Loads(es) + if e.Read? then [e.value] else []
  {
    assert (es + [e])[..|es|] == es;
  }

  /** Which task is current after the calls. */
  function CurrentAfter(t: nat, calls: seq<Call>): nat {
    if calls == [] then t
    else
      var c := calls[|calls| - 1];
      if c.Resume? then c.task else CurrentAfter(t, calls[..|calls| - 1])
  }

  /** es are the events of the calls, made from state s on with task t current. */
  ghost predicate AreEventsOf(disk: Ramdisk, s: State, t: nat, calls: seq<Call>, es: seq<Event>)
    decreases |calls|
  {
    if calls == [] then es == []
    else
      var before, c := calls[..|calls| - 1], calls[|calls| - 1];
      || (AreEventsOf(disk, s, t, before, es) && IsNext(disk, s, CurrentAfter(t, before), es, c, None))
      || (es != [] && AreEventsOf(disk, s, t, before, es[..|es| - 1])
          && IsNext(disk, s, CurrentAfter(t, before), es[..|es| - 1], c, Some(es[|es| - 1])))
  }

  ghost predicate IsNext(disk: Ramdisk, s: State, t: nat, es: seq<Event>, c: Call, e: Option<Event>) {
    CanRun(disk, s, es) && IsTask(Final(disk, s, es), t) && IsEventOf(Final(disk, s, es), t, c, e)
  }

  lemma EventsAppend(disk: Ramdisk, s: State, t: nat, calls: seq<Call>, es: seq<Event>, c: Call, e: Option<Event>)
    requires AreEventsOf(disk, s, t, calls, es) && IsNext(disk, s, CurrentAfter(t, calls), es, c, e)
    ensures AreEventsOf(disk, s, t, calls + [c], if e.Some? then es + [e.value] else es)
    ensures CurrentAfter(t, calls + [c]) == if c.Resume? then c.task else CurrentAfter(t, calls)
  {
    var all := calls + [c];
    assert all[..|all| - 1] == calls;
    if e.Some? { assert (es + [e.value])[..|es|] == es; }
  }

  function Extend(es: seq<Event>, e: Option<Event>): seq<Event> {
    if e.Some? then es + [e.value] else es
  }

  function ExtendLoads(loads: seq<Byte>, value: Option<Byte>): seq<Byte> {
    if value.Some? then loads + [value.value] else loads
  }

  /** The calls from state s and task t on have come to state v and task cur. */
  ghost predicate Ran(disk: Ramdisk, s: State, t: nat, calls: seq<Call>, es: seq<Event>, loads: seq<Byte>, v: State,
          cur: nat) {
    var ok :=
      && AreEventsOf(disk, s, t, calls, es) && CanRun(disk, s, es) && v == Final(disk, s, es)
      && cur == CurrentAfter(t, calls) && loads == Loads(es);
    ok
  }

  lemma RunOn(disk: Ramdisk, s: State, t: nat, calls: seq<Call>, es: seq<Event>, loads: seq<Byte>, v: State,
          cur: nat, c: Call, e: Option<Event>, all: seq<Call>, es': seq<Event>, loads': seq<Byte>, v': State, cur': nat)
    requires Ran(disk, s, t, calls, es, loads, v, cur) && IsTask(v, cur) && IsEventOf(v, cur, c, e)
    requires e.None? ==> v' == v
    requires e.Some? ==> Enabled(v, e.value) && v' == Apply(disk, v, e.value)
    requires cur' == if c.Resume? then c.task else cur
    requires all == calls + [c] && es' == Extend(es, e) && loads' == ExtendLoads(loads, ByteRead(e))
    ensures Ran(disk, s, t, all, es', loads', v', cur')
  {
    EventsAppend(disk, s, t, calls, es, c, e);
    if e.Some? {
      RunAppend(disk, s, es, e.value);
      LoadsAppend(es, e.value);
    }
  }

  /** The reasons for which a run stops after `count` calls: it is over or the
      next call cannot be made; the next call is a page fault outside every
      area, or a write fault that copies an unreadable page; memory has run out. */
  ghost predicate Stopped(k: Kernel, calls: seq<Call>, outcome: Outcome, count: nat)
    reads k, k.mms, k.nodes, k.mmu, k.mmu.buddy, k.mmu.buddy.bitmap, k.mmu.buddy.refCnt
  {
    && count <= |calls|
    && match outcome
       case Served => k.Valid() && (count < |calls| ==> !CanPerform(calls[count], |k.task|))
       case Hung => k.Valid() && count < |calls| && calls[count].FaultAt? && CurrentFaults(k, calls[count].addr)
       case Stuck => k.Valid() && count < |calls| && calls[count].FaultAt? && CurrentStuck(k, calls[count].addr)
       case OutOfMemory => k.mmu.taken == k.mmu.buddy.size
  }

  lemma OneCallMore(calls: seq<Call>, i: nat)
    requires i < |calls|
    ensures calls[..i + 1] == calls[..i] + [calls[i]]
  {
  }

  lemma ViewIsInv(k: Kernel)
    requires k.Valid()
    ensures Inv(k.view) && IsTask(k.view, k.current)
  {
  }

  lemma SizedCall(disk: Ramdisk, s: State, t: nat, c: Call, e: Option<Event>, s': State, areas: nat, mapped: nat)
    requires Inv(s) && IsTask(s, t) && IsEventOf(s, t, c, e) && Sized(s, areas, mapped)
    requires if e.None? then s' == s else Enabled(s, e.value) && s' == Apply(disk, s, e.value)
    ensures Sized(s', areas, MappedAfter(c, mapped))
  {
    if e.Some? { SizedAfter(disk, s, e.value, areas, mapped); }
  }

  /** Call i of a run. */
  method PerformNext(k: Kernel, ghost s: State, ghost t: nat, calls: seq<Call>, i: nat, loads0: seq<Byte>,
          ghost es0: seq<Event>, ghost areas: nat, ghost mapped: nat)
    returns (outcome: Outcome, count: nat, loads: seq<Byte>, ghost es: seq<Event>, ghost last: State, ghost cur: nat)
    requires k.Valid() && i < |calls| && CanPerform(calls[i], |k.task|) && Sized(k.view, areas, mapped)
    requires Ran(k.disk, s, t, calls[..i], es0, loads0, k.view, k.current)
    modifies k, k.mmu, k.mmu.buddy, k.mmu.buddy.bitmap, k.mmu.buddy.refCnt
    ensures k.mmu.Took(outcome != OutOfMemory, old(k.mmu.taken), CallPages(calls[i], areas, mapped))
    ensures count == if outcome == Served then i + 1 else i
    ensures outcome == Served ==> k.Valid() && cur == k.current && Sized(k.view, areas, MappedAfter(calls[i], mapped))
    ensures outcome != Served ==> Stopped(k, calls, outcome, count)
    ensures outcome != OutOfMemory ==> last == k.view
    ensures Ran(k.disk, s, t, calls[..count], es, loads, last, cur)
  {
    ghost var event, v, now := None, k.view, k.current;
    last, cur := v, now;
    var value;
    count, loads, es := i, loads0, es0;
    ViewIsInv(k);
    StepSized(v, now, calls[i], areas, mapped);
    outcome, value, event := Perform(k, calls[i]);
    if outcome == Served {
      SizedCall(k.disk, v, now, calls[i], event, k.view, areas, mapped);
      OneCallMore(calls, i);
      count, loads, es, last, cur := i + 1, ExtendLoads(loads, value), Extend(es, event), k.view, k.current;
      RunOn(k.disk, s, t, calls[..i], es0, loads0, v, now, calls[i], event, calls[..i + 1], es, loads, last, cur);
    }
  }

  /** Any sequence of calls, the first `count` of them made: it stops early only
      at a call that cannot be made, at a fault that the handler does not return
      from or when memory runs out, which it does not while there are pages for
      what the calls can take. What happens in memory is a run of the value machine,
      made of the events of these calls, and the loads return what it reads. No
      page ever returns to the allocator: the log of pages handed out only grows,
      every page in it numbered higher than those before it. */
  method Execute(k: Kernel, calls: seq<Call>) returns (outcome: Outcome, count: nat, loads: seq<Byte>,
          ghost es: seq<Event>)
    requires k.Valid()
    modifies k, k.mmu, k.mmu.buddy, k.mmu.buddy.bitmap, k.mmu.buddy.refCnt
    ensures Stopped(k, calls, outcome, count)
    ensures k.mmu.Took(outcome != OutOfMemory, old(k.mmu.taken), RunPages(old(k.view), calls))
    ensures old(k.mmu.log) <= k.mmu.log && Increasing(k.mmu.log)
    ensures outcome != OutOfMemory ==> old(k.mmu.buddy.live) <= k.mmu.buddy.live
    ensures AreEventsOf(k.disk, old(k.view), old(k.current), calls[..count], es)
    ensures CanRun(k.disk, old(k.view), es) && loads == Loads(es)
    ensures outcome != OutOfMemory ==> k.view == Final(k.disk, old(k.view), es)
  {
    ghost var taken, log := k.mmu.taken, k.mmu.log;
    LiveGrows(k, taken);
    MostSized(k.view);
    ghost var last, cur;
    outcome, count, loads, es, last, cur := PerformAll(k, calls, MostAreas(k.view), MostMapped(k.view));
    PagesNeverReturn(log, taken, k.mmu.log, k.mmu.taken);
    if outcome != OutOfMemory { LiveGrows(k, taken); }
  }

  lemma RanNothing(disk: Ramdisk, s: State, t: nat)
    ensures Ran(disk, s, t, [], [], [], s, t)
  {
  }

  /** The loop that makes the calls, up to state `last` of the value machine. */
  method PerformAll(k: Kernel, calls: seq<Call>, ghost areas: nat, ghost mapped0: nat)
    returns (outcome: Outcome, count: nat, loads: seq<Byte>, ghost es: seq<Event>, ghost last: State, ghost cur: nat)
    requires k.Valid() && Sized(k.view, areas, mapped0)
    modifies k, k.mmu, k.mmu.buddy, k.mmu.buddy.bitmap, k.mmu.buddy.refCnt
    ensures Stopped(k, calls, outcome, count)
    ensures k.mmu.Took(outcome != OutOfMemory, old(k.mmu.taken), Budget(calls, 0, areas, mapped0))
    ensures Ran(k.disk, old(k.view), old(k.current), calls[..count], es, loads, last, cur)
    ensures outcome != OutOfMemory ==> k.view == last
  {
    ghost var s, t := k.view, k.current;
    outcome, count, loads, es, last, cur := Served, 0, [], [], s, t;
    ghost var mapped, total := mapped0, Budget(calls, 0, areas, mapped0);
    RanNothing(k.disk, s, t);
    CurrentIsTask(k);
    assert calls[..0] == [];
    while outcome == Served && count < |calls| && CanPerform(calls[count], |k.task|)
      invariant count <= |calls| && k.mmu.Took(outcome != OutOfMemory, old(k.mmu.taken), total)
      invariant outcome == Served ==> k.Valid() && cur == k.current && Sized(k.view, areas, mapped)
      invariant outcome == Served ==> k.mmu.Took(true, old(k.mmu.taken), total - Budget(calls, count, areas, mapped))
      invariant outcome != Served ==> Stopped(k, calls, outcome, count)
      invariant outcome != OutOfMemory ==> k.view == last
      invariant Ran(k.disk, s, t, calls[..count], es, loads, last, cur)
      decreases |calls| - count, outcome == Served
    {
      ghost var c := calls[count];
      outcome, count, loads, es, last, cur := PerformNext(k, s, t, calls, count, loads, es, areas, mapped);
      mapped := MappedAfter(c, mapped);
    }
  }

  /** The live blocks are the pages handed out, so they only grow with the log. */
  lemma LiveGrows(k: Kernel, taken: nat)
    requires k.Valid() && taken <= k.mmu.taken
    ensures k.mmu.Logged() && k.mmu.buddy.size > 0 && Prefix(k.mmu.buddy.size, taken) <= k.mmu.buddy.live
  {
    PrefixGrows(k.mmu.buddy.size, taken, k.mmu.taken);
  }

  /** From power-on, whatever the tasks do: every load returns what it would
      return if each task had private memory, filled as the handler fills pages,
      and fork copied all of it. The run stops early for Execute's reasons only;
      it starts if there are as many pages as booting can take, memory suffices
      if there are as many as that and the calls can take together, and the
      handler always gets through if writable areas are readable. */
  method BootAndExecute(c: Config, disk: Ramdisk, calls: seq<Call>)
    returns (mmu: Mmu, k: Kernel?, outcome: Outcome, count: nat, loads: seq<Byte>, ghost es: seq<Event>)
    requires MemoryOk(c) && ProgramOk(c)
    ensures count <= |calls| && mmu.buddy.size == RAM_PAGES
    ensures k == null ==> outcome == OutOfMemory && RAM_PAGES < BootPages(c)
    ensures k != null ==> k.mmu == mmu && k.disk == disk && k.half == HalfOf(c) && Stopped(k, calls, outcome, count)
    ensures outcome == OutOfMemory ==>
              mmu.taken == RAM_PAGES < BootPages(c) + Budget(calls, 0, |InitialAreas(c.phdrs)|, 0)
    ensures outcome == Stuck ==> exists a :: a in InitialAreas(c.phdrs) && CanWrite(a) && !CanRead(a)
    ensures AreEventsOf(disk, Boot([InitialAreas(c.phdrs)]), 0, calls[..count], es)
    ensures CanRun(disk, Boot([InitialAreas(c.phdrs)]), es) && loads == Loads(es)
    ensures outcome != OutOfMemory ==> k.view == Final(disk, Boot([InitialAreas(c.phdrs)]), es)
    ensures SpecCanRun(Abs(disk, Boot([InitialAreas(c.phdrs)])), es)
  {
    outcome, count, loads, es := OutOfMemory, 0, [], [];
    ghost var areas := InitialAreas(c.phdrs);
    mmu, k := BootKernel(c, disk);
    if k != null {
      BootPagesMapped(areas);
      outcome, count, loads, es := Execute(k, calls);
    }
    BootInv(disk, [areas]);
    CowRefinesDeepCopy(disk, Boot([areas]), es);
    if outcome == Stuck {
      AreasStay(disk, Boot([areas]), es, areas);
      StuckArea(k.view, k.current, calls[count].addr, areas);
    }
  }

  lemma StuckArea(s: State, t: nat, addr: nat, pool: seq<Area>)
    requires Inv(s) && IsTask(s, t) && AreasFrom(s, pool) && CannotCopy(s, t, addr)
    ensures exists a :: a in pool && CanWrite(a) && !CanRead(a)
  {
    if forall a :: a in s.areas[t] && CanWrite(a) ==> CanRead(a) { ReadableCopies(s, t, addr); }
  }
}
