/** What holds in every state that the copy-on-write machine can reach from
    boot, whatever its tasks do. */
module Reachable {
  import opened Bits
  import opened Options
  import opened PageTable
  import opened Areas
  import opened Cow
  import opened CowInvariant
  import opened DeepCopy

  /** The state after a run from boot. */
  ghost function After(disk: Ramdisk, areas: seq<seq<Area>>, es: seq<Event>): State
    requires CanRun(disk, Boot(areas), es)
  {
    Final(disk, Boot(areas), es)
  }

  // ----------------------------------------------------------- private memory

  lemma {:induction false} SpecPrefix(m: seq<Memory>, es: seq<Event>, k: nat)
    requires SpecCanRun(m, es) && k < |es|
    ensures SpecCanRun(m, es[..k]) && SpecEnabled(SpecFinal(m, es[..k]), es[k])
    decreases k
  {
    if k > 0 {
      SpecPrefix(SpecApply(m, es[0]), es[1..], k - 1);
      assert es[..k][1..] == es[1..][..k - 1];
    }
  }

  /** The byte that private memories, holding at first what the handler fills in
      and copied whole by every fork, hold at an address of a task after some events. */
  ghost predicate Holds(disk: Ramdisk, areas: seq<seq<Area>>, es: seq<Event>, t: nat, addr: nat, b: Byte) {
    var image := Abs(disk, Boot(areas));
    SpecCanRun(image, es) && SpecEnabled(SpecFinal(image, es), Read(t, addr, b))
  }

  /** Whatever the tasks do, each load returns that byte. */
  lemma EveryLoadIsPrivate(disk: Ramdisk, areas: seq<seq<Area>>, es: seq<Event>, k: nat)
    requires forall t :: 0 <= t < |areas| ==> WfAreas(areas[t])
    requires CanRun(disk, Boot(areas), es) && k < |es| && es[k].Read?
    ensures Holds(disk, areas, es[..k], es[k].task, es[k].addr, es[k].value)
  {
    BootInv(disk, areas);
    CowRefinesDeepCopy(disk, Boot(areas), es);
    SpecPrefix(Abs(disk, Boot(areas)), es, k);
  }

  // ----------------------------------------------------------- safety

  /** Two pages of any tasks on one frame: neither can be written. */
  ghost predicate WritesArePrivate(s: State) {
    forall t: nat, v: nat, x: nat, y: nat, f: nat {:trigger MapsTo(s.tables, t, v, f), MapsTo(s.tables, x, y, f)} ::
      MapsTo(s.tables, t, v, f) && MapsTo(s.tables, x, y, f) && (t != x || v != y) ==> !Writable(s.tables[t][v].perm)
  }

  /** A mapped frame is counted at least once for every page mapping it. */
  ghost predicate MappingsAreCounted(s: State) {
    && (forall f :: f in s.refs ==> 1 <= s.refs[f] && |Mappers(s.tables, f)| <= s.refs[f])
    && (forall t: nat, v: nat, f: nat :: MapsTo(s.tables, t, v, f) ==> f in s.refs)
  }

  /** No page is mapped outside its task's areas, nor with a permission that
      its area does not have. */
  ghost predicate MappingsAreGranted(s: State) {
    forall t: nat, v: nat, f: nat {:trigger MapsTo(s.tables, t, v, f)} ::
      MapsTo(s.tables, t, v, f) ==> IsTask(s, t) && PteFits(s.areas[t], v, s.tables[t][v].perm)
  }

  lemma EveryRunIsSafe(disk: Ramdisk, areas: seq<seq<Area>>, es: seq<Event>)
    requires forall t :: 0 <= t < |areas| ==> WfAreas(areas[t])
    requires CanRun(disk, Boot(areas), es)
    ensures var s := After(disk, areas, es);
            WritesArePrivate(s) && MappingsAreCounted(s) && MappingsAreGranted(s)
  {
    BootInv(disk, areas);
    CowRefinesDeepCopy(disk, Boot(areas), es);
    InvIsSafe(After(disk, areas, es));
  }

  lemma InvIsSafe(s: State)
    requires Inv(s)
    ensures WritesArePrivate(s) && MappingsAreCounted(s) && MappingsAreGranted(s)
  {
    forall t: nat, v: nat, f: nat | MapsTo(s.tables, t, v, f)
      ensures f in s.refs && PteFits(s.areas[t], v, s.tables[t][v].perm)
      ensures Writable(s.tables[t][v].perm) ==> forall x: nat, y: nat :: MapsTo(s.tables, x, y, f) ==> x == t && y == v
    {
      MappedCounted(s, t, v);
      MappedSpanned(s, t, v);
      forall x: nat, y: nat | MapsTo(s.tables, x, y, f) && Writable(s.tables[t][v].perm)
        ensures x == t && y == v
      {
        WritableAlone(s, t, v, x, y);
      }
    }
  }

  // ----------------------------------------------------------- exact counts

  /** Fork's sweep of an area, which goes up to the page of vm_end, visits no
      page of another area. */
  ghost predicate SweepsApart(areas: seq<Area>) {
    forall j, k, v: nat {:trigger InSweep(areas[j], v), InPages(areas[k], v)} ::
      0 <= j < |areas| && 0 <= k < |areas| && InSweep(areas[j], v) && InPages(areas[k], v) ==> j == k
  }

  ghost predicate AllApart(s: State) {
    forall t :: 0 <= t < |s.areas| ==> SweepsApart(s.areas[t])
  }

  lemma ApartSweptOnce(areas: seq<Area>, pt: Table)
    requires SweepsApart(areas) && TaskOk(areas, pt)
    ensures SweptOnce(areas, pt, |areas|)
  {
    forall i, j, v: nat | 0 <= i < |areas| && 0 <= j < |areas| && v in pt && InSweep(areas[i], v) && InSweep(areas[j], v)
      ensures i == j
    {
      assert PteFits(areas, v, pt[v].perm);
      var k :| 0 <= k < |areas| && InPages(areas[k], v);
    }
  }

  lemma ReverseApart(areas: seq<Area>)
    requires SweepsApart(areas)
    ensures SweepsApart(Reverse(areas))
  {
    var rev, n := Reverse(areas), |areas|;
    ReverseAt(areas);
    forall j, k, v: nat | 0 <= j < n && 0 <= k < n && InSweep(rev[j], v) && InPages(rev[k], v)
      ensures j == k
    {
      assert InSweep(areas[n - 1 - j], v) && InPages(areas[n - 1 - k], v);
    }
  }

  lemma StepKeepsExact(disk: Ramdisk, s: State, e: Event)
    requires Inv(s) && Exact(s) && AllApart(s) && Enabled(s, e)
    ensures Exact(Apply(disk, s, e)) && AllApart(Apply(disk, s, e))
  {
    match e
    case Read(_, _, _) =>
    case Write(t, addr, b) =>
      StoreKeepsInv(s, t, addr, b);
    case Trap(t, addr, f) =>
      FaultKeepsInv(disk, s, t, addr, f);
      FaultFrame(disk, s, t, addr, f);
    case Clone(t) =>
      ForkExact(s, t);
      assert TaskOk(s.areas[t], s.tables[t]);
      ApartSweptOnce(s.areas[t], s.tables[t]);
      ReverseApart(s.areas[t]);
  }

  lemma {:induction false} RunKeepsExact(disk: Ramdisk, s: State, es: seq<Event>)
    requires Inv(s) && Exact(s) && AllApart(s) && CanRun(disk, s, es)
    ensures Exact(Final(disk, s, es))
    decreases |es|
  {
    if es != [] {
      StepRefines(disk, s, es[0]);
      StepKeepsExact(disk, s, es[0]);
      RunKeepsExact(disk, Apply(disk, s, es[0]), es[1..]);
    }
  }

  lemma AddressOnPage(a: Area, v: nat) returns (addr: nat)
    requires InPages(a, v)
    ensures addr / PGSIZE == v && Contains(a, addr)
  {
    addr := if a.start >= v * PGSIZE then a.start else v * PGSIZE;
  }

  /** A page swept twice, once mapped, is counted twice by a fork. */
  lemma TouchedTwice(disk: Ramdisk, areas: seq<seq<Area>>, t: nat, j: nat, k: nat, v: nat, addr: nat)
    requires forall t :: 0 <= t < |areas| ==> WfAreas(areas[t])
    requires t < |areas| && j < |areas[t]| && k < |areas[t]| && j != k
    requires InSweep(areas[t][j], v) && InPages(areas[t][k], v) && addr / PGSIZE == v && Contains(areas[t][k], addr)
    ensures var s := Boot(areas);
            && Enabled(s, Trap(t, addr, 0))
            && var s1 := Fault(disk, s, t, addr, 0); IsTask(s1, t) && !Exact(Fork(s1, t))
  {
    var s := Boot(areas);
    var s1 := Fault(disk, s, t, addr, 0);
    FindVmaSome(areas[t], addr);
    BootInv(disk, areas);
    FaultKeepsInv(disk, s, t, addr, 0);
    FaultMakesProgress(disk, s, t, addr, 0);
    FaultFrame(disk, s, t, addr, 0);
    assert InSweep(areas[t][k], v);
    SweptTwice(areas[t], s1.tables[t], j, k, v);
    ForkExact(s1, t);
  }

  lemma SweptTwice(areas: seq<Area>, pt: Table, j: nat, k: nat, v: nat)
    requires j < |areas| && k < |areas| && j != k && v in pt && InSweep(areas[j], v) && InSweep(areas[k], v)
    ensures !SweptOnce(areas, pt, |areas|)
  {
  }

  /** Where two sweeps meet on a page, touching it and forking overcounts its
      frame. */
  lemma Overcount(disk: Ramdisk, areas: seq<seq<Area>>, t: nat) returns (es: seq<Event>)
    requires forall t :: 0 <= t < |areas| ==> WfAreas(areas[t])
    requires t < |areas| && !SweepsApart(areas[t])
    ensures CanRun(disk, Boot(areas), es) && !Exact(After(disk, areas, es))
  {
    var j, k, v: nat :| 0 <= j < |areas[t]| && 0 <= k < |areas[t]| && InSweep(areas[t][j], v) && InPages(areas[t][k], v) && j != k;
    var addr := AddressOnPage(areas[t][k], v);
    TouchedTwice(disk, areas, t, j, k, v, addr);
    es := [Trap(t, addr, 0), Clone(t)];
    TwoEvents(disk, Boot(areas), es[0], es[1]);
  }

  lemma TwoEvents(disk: Ramdisk, s: State, e: Event, e': Event)
    requires Enabled(s, e) && Enabled(Apply(disk, s, e), e')
    ensures CanRun(disk, s, [e, e']) && Final(disk, s, [e, e']) == Apply(disk, Apply(disk, s, e), e')
  {
    var s1, rest := Apply(disk, s, e), [e'];
    assert [e, e'][1..] == rest && rest[1..] == [];
    assert CanRun(disk, s1, rest);
    assert Final(disk, Apply(disk, s1, e'), []) == Apply(disk, s1, e');
    assert Final(disk, s1, rest) == Apply(disk, s1, e');
  }

  /** Reference counts equal the number of mappings in every reachable state if
      and only if no sweep reaches into another area's pages. */
  lemma ExactCountsIff(disk: Ramdisk, areas: seq<seq<Area>>)
    requires forall t :: 0 <= t < |areas| ==> WfAreas(areas[t])
    ensures (forall es :: CanRun(disk, Boot(areas), es) ==> Exact(After(disk, areas, es)))
            <==> (forall t :: 0 <= t < |areas| ==> SweepsApart(areas[t]))
  {
    if forall t :: 0 <= t < |areas| ==> SweepsApart(areas[t]) {
      BootInv(disk, areas);
      forall es | CanRun(disk, Boot(areas), es)
        ensures Exact(After(disk, areas, es))
      {
        RunKeepsExact(disk, Boot(areas), es);
      }
    } else {
      var t :| 0 <= t < |areas| && !SweepsApart(areas[t]);
      var es := Overcount(disk, areas, t);
      assert CanRun(disk, Boot(areas), es);
    }
  }
}
