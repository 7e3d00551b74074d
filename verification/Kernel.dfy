/** The fault handler and fork of the kernel over real page tables, reference
    counts and area lists, each proved equal to its step of the value machine. */
module KernelMemory {
  import opened Bits
  import opened BuddyTree
  import opened BuddyAllocator
  import opened Options
  import opened PageTable
  import opened Sv39
  import opened MemoryMapping
  import opened Areas
  import opened VmaList
  import opened Cow
  import opened CowInvariant
  import opened DeepCopy
  import Scheduling

  // ----------------------------------------------------------- the user page table as a map

  function PteOf(e: nat): Pte { Pte(Ppn(e), Perm(e)) }

  /** An entry made of a page number and a permission byte alone. */
  predicate Clean(e: nat) {
    e == MakePte(Ppn(e), Perm(e)) && Ppn(e) < PPN_LIMIT
  }

  lemma CleanBits(e: nat)
    requires Clean(e) && IsValid(e)
    ensures Clean(ClearW(e)) && IsValid(ClearW(e)) && PteOf(ClearW(e)) == Pte(Ppn(e), ClearW(Perm(e)))
    ensures Clean(SetW(e)) && IsValid(SetW(e)) && PteOf(SetW(e)) == Pte(Ppn(e), SetW(Perm(e)))
    ensures Writable(Perm(e)) == Writable(e) && IsValid(Perm(e)) && Perm(e) > 0
  {
    PteRoundTrip(Ppn(e), Perm(e));
    StillValid(Perm(e));
    MadeClean(Ppn(e), ClearW(Perm(e)));
    MadeClean(Ppn(e), SetW(Perm(e)));
  }

  lemma StillValid(perm: nat)
    requires perm % 2 == 1
    ensures ClearW(perm) % 2 == 1 && SetW(perm) % 2 == 1
  {
  }

  lemma MadeClean(ppn: nat, perm: nat)
    requires ppn < PPN_LIMIT && perm < 256 && perm % 2 == 1
    ensures Clean(MakePte(ppn, perm)) && IsValid(MakePte(ppn, perm)) && PteOf(MakePte(ppn, perm)) == Pte(ppn, perm)
  {
    PteRoundTrip(ppn, perm);
  }

  /** Mapping a single page is one entry written. */
  lemma MappedOne(t': Tables, t: Tables, owner: map<nat, Label>, r: nat, v: nat, ppn: nat, perm: nat)
    requires v < VPNS && IsMapped(t', t, owner, r, v, ppn, Pages(PGSIZE), perm)
    ensures IsUpdated(t', t, owner, r, v, MakePte(ppn, perm))
  {
    forall q: nat, w: nat | IsRoot(owner, q) && w < VPNS
      ensures Entry(t', q, w) == if w == v && SamePage(q, r, w) then MakePte(ppn, perm) else Entry(t, q, w)
    {
      assert Entry(t', q, w) == Mapped(t, r, v, ppn, 1, perm, q, w);
    }
  }

  /** The user table of root r maps page v as the value machine's table does,
      through an entry without stray bits; nothing is mapped above user space. */
  ghost predicate EntryMatches(table: Table, t: Tables, r: nat, v: nat) {
    if v >= USER_VPNS then v !in table
    else
      && (v in table <==> IsValid(Entry(t, r, v)))
      && (v in table ==> table[v] == PteOf(Entry(t, r, v)) && Clean(Entry(t, r, v)))
  }

  ghost predicate TableMatches(table: Table, t: Tables, r: nat) {
    var ok := forall v: nat {:trigger EntryMatches(table, t, r, v)} :: EntryMatches(table, t, r, v);
    ok
  }

  /** The roots' user tables agree with the value machine's, and the page after
      user space is not mapped. */
  ghost predicate TablesMatch(tables: seq<Table>, t: Tables, roots: seq<nat>, kernel: nat) {
    var ok :=
      && |tables| == |roots| && !IsValid(Entry(t, kernel, USER_VPNS))
      && (forall i {:trigger roots[i]} :: 0 <= i < |roots| ==>
            TableMatches(tables[i], t, roots[i]) && !IsValid(Entry(t, roots[i], USER_VPNS)));
    ok
  }

  ghost predicate RootsOk(owner: map<nat, Label>, roots: seq<nat>, kernel: nat) {
    var ok :=
      && (forall i :: 0 <= i < |roots| ==> IsRoot(owner, roots[i]) && roots[i] != kernel)
      && (forall i, j :: 0 <= i < j < |roots| ==> roots[i] != roots[j])
      && IsRoot(owner, kernel);
    ok
  }

  lemma TableUpdated(table: Table, t: Tables, t': Tables, owner: map<nat, Label>, r: nat, v: nat, e: nat)
    requires TableMatches(table, t, r) && IsRoot(owner, r) && v < USER_VPNS && Clean(e) && IsValid(e)
    requires IsUpdated(t', t, owner, r, v, e)
    ensures var table': Table := table[v := PteOf(e)]; TableMatches(table', t', r)
  {
    var table': Table := table[v := PteOf(e)];
    forall w: nat
      ensures EntryMatches(table', t', r, w)
    {
      assert EntryMatches(table, t, r, w);
      if w < USER_VPNS { assert Entry(t', r, w) == if w == v then e else Entry(t, r, w); }
    }
  }

  lemma TableKept(table: Table, t: Tables, t': Tables, r: nat)
    requires TableMatches(table, t, r)
    requires forall w: nat :: w < USER_VPNS ==> Entry(t', r, w) == Entry(t, r, w)
    ensures TableMatches(table, t', r)
  {
    forall w: nat
      ensures EntryMatches(table, t', r, w)
    {
      assert EntryMatches(table, t, r, w);
    }
  }

  /** One entry written for a user page of task x. */
  lemma UpdateMatches(tables: seq<Table>, t: Tables, t': Tables, owner: map<nat, Label>, roots: seq<nat>,
          kernel: nat, x: nat, v: nat, e: nat)
    requires TablesMatch(tables, t, roots, kernel) && RootsOk(owner, roots, kernel)
    requires x < |roots| && v < USER_VPNS && Clean(e) && IsValid(e)
    requires IsUpdated(t', t, owner, roots[x], v, e)
    ensures x < |tables| && TablesMatch(WithPte(tables, x, v, PteOf(e)), t', roots, kernel)
  {
    forall i | 0 <= i < |roots|
      ensures TableMatches(WithPte(tables, x, v, PteOf(e))[i], t', roots[i]) && !IsValid(Entry(t', roots[i], USER_VPNS))
    {
      assert IsRoot(owner, roots[i]);
      assert Entry(t', roots[i], USER_VPNS) == Entry(t, roots[i], USER_VPNS);
      if i == x {
        TableUpdated(tables[x], t, t', owner, roots[x], v, e);
      } else {
        forall w: nat | w < USER_VPNS
          ensures Entry(t', roots[i], w) == Entry(t, roots[i], w)
        {
          assert !SamePage(roots[i], roots[x], w);
        }
        TableKept(tables[i], t, t', roots[i]);
      }
    }
    assert IsRoot(owner, kernel);
    assert Entry(t', kernel, USER_VPNS) == Entry(t, kernel, USER_VPNS);
  }

  lemma SameMatches(tables: seq<Table>, t: Tables, t': Tables, owner: map<nat, Label>, roots: seq<nat>, kernel: nat)
    requires TablesMatch(tables, t, roots, kernel) && RootsOk(owner, roots, kernel)
    requires SameEntries(t, t', owner)
    ensures TablesMatch(tables, t', roots, kernel)
  {
    forall i | 0 <= i < |roots|
      ensures TableMatches(tables[i], t', roots[i]) && !IsValid(Entry(t', roots[i], USER_VPNS))
    {
      assert IsRoot(owner, roots[i]);
      TableKept(tables[i], t, t', roots[i]);
    }
    assert IsRoot(owner, kernel);
  }

  /** The kernel half of a root's translations. */
  ghost predicate HalfIs(t: Tables, r: nat, half: nat -> nat) {
    var ok := forall w: nat {:trigger half(w)} :: USER_VPNS <= w < VPNS ==> Entry(t, r, w) == half(w);
    ok
  }

  ghost predicate HalvesMatch(t: Tables, roots: seq<nat>, kernel: nat, half: nat -> nat) {
    var ok := HalfIs(t, kernel, half) && forall i {:trigger roots[i]} :: 0 <= i < |roots| ==> HalfIs(t, roots[i], half);
    ok
  }

  lemma HalfKept(t: Tables, t': Tables, r: nat, half: nat -> nat)
    requires HalfIs(t, r, half) && forall w: nat :: USER_VPNS <= w < VPNS ==> Entry(t', r, w) == Entry(t, r, w)
    ensures HalfIs(t', r, half)
  {
    forall w: nat | USER_VPNS <= w < VPNS
      ensures Entry(t', r, w) == half(w)
    {
      assert half(w) == Entry(t, r, w);
    }
  }

  lemma HalvesSame(t: Tables, t': Tables, owner: map<nat, Label>, roots: seq<nat>, kernel: nat, half: nat -> nat)
    requires HalvesMatch(t, roots, kernel, half) && RootsOk(owner, roots, kernel) && SameEntries(t, t', owner)
    ensures HalvesMatch(t', roots, kernel, half)
  {
    HalfKept(t, t', kernel, half);
    forall i | 0 <= i < |roots|
      ensures HalfIs(t', roots[i], half)
    {
      HalfKept(t, t', roots[i], half);
    }
  }

  lemma HalvesUpdated(t: Tables, t': Tables, owner: map<nat, Label>, roots: seq<nat>, kernel: nat, half: nat -> nat,
          x: nat, v: nat, e: nat)
    requires HalvesMatch(t, roots, kernel, half) && RootsOk(owner, roots, kernel) && x < |roots| && v < USER_VPNS
    requires IsUpdated(t', t, owner, roots[x], v, e)
    ensures HalvesMatch(t', roots, kernel, half)
  {
    HalfKept(t, t', kernel, half);
    forall i | 0 <= i < |roots|
      ensures HalfIs(t', roots[i], half)
    {
      HalfKept(t, t', roots[i], half);
    }
  }

  lemma HalfAdded(t: Tables, t': Tables, roots: seq<nat>, kernel: nat, half: nat -> nat, r: nat)
    requires HalvesMatch(t', roots, kernel, half) && HalfIs(t, kernel, half)
    requires forall w: nat :: USER_VPNS <= w < VPNS ==> Entry(t', r, w) == Entry(t, kernel, w)
    ensures HalvesMatch(t', roots + [r], kernel, half)
  {
    forall w: nat | USER_VPNS <= w < VPNS
      ensures Entry(t', r, w) == half(w)
    {
      assert half(w) == Entry(t, kernel, w);
    }
    var more := roots + [r];
    forall i | 0 <= i < |more|
      ensures HalfIs(t', more[i], half)
    {
      if i < |roots| { assert more[i] == roots[i]; }
    }
  }

  lemma EmptyTable(t: Tables, r: nat)
    requires forall w: nat :: w < USER_VPNS ==> Entry(t, r, w) == 0
    ensures TableMatches(map[], t, r)
  {
  }

  /** A root that translates no user page, for a newborn task. */
  lemma RootAdded(tables: seq<Table>, t: Tables, t': Tables, owner: map<nat, Label>, roots: seq<nat>, kernel: nat,
          r: nat)
    requires TablesMatch(tables, t', roots, kernel) && RootsOk(owner, roots, kernel) && r !in owner
    requires forall w: nat :: w < USER_VPNS ==> Entry(t', r, w) == 0
    requires Entry(t', r, USER_VPNS) == Entry(t, kernel, USER_VPNS) && !IsValid(Entry(t, kernel, USER_VPNS))
    ensures TablesMatch(tables + [map[]], t', roots + [r], kernel)
    ensures RootsOk(owner[r := Root], roots + [r], kernel)
  {
    EmptyTable(t', r);
    var more, mtables: seq<Table> := roots + [r], tables + [map[]];
    forall i | 0 <= i < |more|
      ensures TableMatches(mtables[i], t', more[i]) && !IsValid(Entry(t', more[i], USER_VPNS))
    {
      if i < |roots| { assert more[i] == roots[i]; }
    }
  }

  lemma MatchedEntry(tables: seq<Table>, t: Tables, roots: seq<nat>, kernel: nat, x: nat, v: nat)
    requires TablesMatch(tables, t, roots, kernel) && x < |roots| && v < USER_VPNS
    ensures v in tables[x] <==> IsValid(Entry(t, roots[x], v))
    ensures v in tables[x] ==> tables[x][v] == PteOf(Entry(t, roots[x], v)) && Clean(Entry(t, roots[x], v))
  {
    assert roots[x] == roots[x];
    assert EntryMatches(tables[x], t, roots[x], v);
  }

  // ----------------------------------------------------------- counts

  /** The value machine's counts are the allocator's, shifted to page numbers. */
  ghost predicate RefsMatch(refs: map<nat, nat>, counts: seq<nat>, taken: nat, owner: map<nat, Label>) {
    var ok := forall f {:trigger f in refs} :: f in refs ==>
                BASE <= f < BASE + taken && f - BASE < |counts| && counts[f - BASE] == refs[f] && f !in owner;
    ok
  }

  lemma RefsAfterHandOut(refs: map<nat, nat>, counts: seq<nat>, counts': seq<nat>, taken: nat, taken': nat,
          owner: map<nat, Label>, owner': map<nat, Label>)
    requires RefsMatch(refs, counts, taken, owner) && taken <= taken' && |counts'| == |counts|
    requires forall p :: 0 <= p < |counts| ==> counts'[p] == if taken <= p < taken' then 1 else counts[p]
    requires forall f :: f in owner' && f !in owner ==> f >= BASE + taken
    ensures RefsMatch(refs, counts', taken', owner')
  {
  }

  lemma RefsWithFresh(refs: map<nat, nat>, counts: seq<nat>, taken: nat, owner: map<nat, Label>, f: nat)
    requires RefsMatch(refs, counts, taken, owner) && BASE <= f < BASE + taken && f - BASE < |counts|
    requires counts[f - BASE] == 1 && f !in owner
    ensures RefsMatch(refs[f := 1], counts, taken, owner)
  {
  }

  lemma RefsChanged(refs: map<nat, nat>, counts: seq<nat>, counts': seq<nat>, taken: nat, owner: map<nat, Label>,
          f: nat, n: nat)
    requires RefsMatch(refs, counts, taken, owner) && f in refs
    requires BASE <= f < BASE + |counts| && counts' == counts[f - BASE := n]
    ensures RefsMatch(refs[f := n], counts', taken, owner)
  {
  }

  lemma RootsGrown(owner: map<nat, Label>, owner': map<nat, Label>, lo: nat, roots: seq<nat>, kernel: nat)
    requires RootsOk(owner, roots, kernel) && Grown(owner, owner', lo)
    ensures RootsOk(owner', roots, kernel)
  {
    GrownRoots(owner, owner', lo);
  }

  lemma VpnOf(v: nat)
    requires v <= USER_VPNS
    ensures Vpn(v * PGSIZE) == v && v * PGSIZE % PGSIZE == 0 && v * PGSIZE + PGSIZE + PGSIZE <= TWO64
  {
    assert v * PGSIZE / PGSIZE == v;
  }

  lemma FrameAddress(ppn: nat)
    ensures ppn * PGSIZE / PGSIZE == ppn && ppn * PGSIZE % PGSIZE == 0 && Pages(PGSIZE) == 1 && TablesFor(1) == 2
  {
  }

  /** A mapped page has its tables. */
  lemma MappedLeaf(tables: seq<Table>, t: Tables, roots: seq<nat>, kernel: nat, x: nat, v: nat)
    requires TablesMatch(tables, t, roots, kernel) && x < |roots| && v < USER_VPNS
    ensures x < |tables| && (v in tables[x] ==> HasLeaf(t, roots[x], v))
  {
    MatchedEntry(tables, t, roots, kernel, x, v);
    if v in tables[x] { EntryLeaf(t, roots[x], v); }
  }

  /** Writing the entry that is there already changes nothing. */
  lemma SamePte(tables: seq<Table>, t: nat, v: nat)
    requires t < |tables| && v in tables[t] && !Writable(tables[t][v].perm)
    ensures Cleared(tables[t][v]) == tables[t][v]
    ensures WithPte(tables, t, v, tables[t][v]) == tables
  {
    var table: Table := tables[t][v := tables[t][v]];
    assert table == tables[t];
  }

  /** What the hardware finds for page v, from its entry e. */
  lemma UserTranslation(table: Table, v: nat, e: nat, p: Translation)
    requires (v in table <==> IsValid(e)) && (v in table ==> table[v] == PteOf(e))
    requires p == if IsValid(e) && IsPage(e) then Found(Ppn(e), Perm(e)) else PageFault
    ensures p.Found? ==> v in table && table[v] == Pte(p.ppn, p.perm)
    ensures v in table && IsPage(table[v].perm) ==> p.Found?
  {
    IsPagePerm(e);
  }

  lemma CleanPerm(e: nat)
    requires Clean(e) && IsValid(e)
    ensures SetW(Perm(e)) < 256 && SetW(Perm(e)) % 2 == 1
  {
    ClearSet(Perm(e));
    DivModUnique(e, 2, e / 256 * 128 + Perm(e) / 2, Perm(e) % 2);
  }

  /** The sweep over page v takes state now to next. */
  ghost predicate SweepsTo(now: State, next: State, t: nat, c: nat, v: nat) {
    var ok := IsTask(now, t) && IsTask(now, c) && FramesOk(now) && next == SweepPage(now, t, c, v);
    ok
  }

  /** The states that the sweep of pages lo up to last goes through. */
  ghost predicate SweepStates(states: seq<State>, t: nat, c: nat, lo: nat, last: nat) {
    var ok := lo <= last && |states| == last - lo + 2
              && forall i: nat {:trigger SweepAt(states, i, t, c, lo)} :: i <= last - lo ==> SweepAt(states, i, t, c, lo);
    ok
  }

  ghost predicate SweepAt(states: seq<State>, i: nat, t: nat, c: nat, lo: nat)
    requires i + 1 < |states|
  {
    SweepsTo(states[i], states[i + 1], t, c, lo + i)
  }

  /** A fork of task t after k rounds of the list loop. */
  ghost function ForkAt(s: State, t: nat, k: nat): (r: State)
    requires IsTask(s, t) && k <= |s.areas[t]|
    ensures IsTask(r, t) && IsTask(r, |s.tables|)
  {
    SweepAreas(Newborn(s), t, |s.tables|, s.areas[t], k)
  }

  lemma ForkAtEnds(s: State, t: nat)
    requires IsTask(s, t)
    ensures ForkAt(s, t, 0) == Newborn(s) && ForkAt(s, t, 0).areas[|s.tables|] == []
    ensures ForkAt(s, t, |s.areas[t]|) == Fork(s, t)
  {
  }

  /** fork's list loop makes one more round: the frame invariant holds at every
      point of the sweep it does. */
  lemma ForkPrefix(s: State, t: nat, k: nat) returns (states: seq<State>, held: seq<int>)
    requires Inv(s) && t < |s.tables| && k < |s.areas[t]|
    ensures var c, a, now := |s.tables|, s.areas[t][k], ForkAt(s, t, k);
            && FramesOk(now) && a.start <= a.end <= USER_END
            && SweepStates(states, t, c, a.start / PGSIZE, a.end / PGSIZE)
            && states[0] == AddArea(now, c, a) && states[a.end / PGSIZE - a.start / PGSIZE + 1] == ForkAt(s, t, k + 1)
            && ForkAt(s, t, k + 1).areas[c] == [a] + now.areas[c]
            && HeldIs(held, states, c) && held[0] <= held[a.end / PGSIZE - a.start / PGSIZE + 1]
            && held[0] == Held(now, c) && held[a.end / PGSIZE - a.start / PGSIZE + 1] == Held(ForkAt(s, t, k + 1), c)
  {
    var c, a, now := |s.tables|, s.areas[t][k], ForkAt(s, t, k);
    ForkGoesOn(s, t, k, a, now);
    var done, copied := SweptPages(s.areas[t], s.tables[t], k), [a] + Reverse(s.areas[t][..k]);
    states := ForkStates(s, AddArea(now, c, a), t, done, copied, a.start / PGSIZE, a.end / PGSIZE);
    held := HeldOf(states, t, c, a.start / PGSIZE, a.end / PGSIZE);
  }

  lemma ForkGoesOn(s: State, t: nat, k: nat, a: Area, now: State)
    requires Inv(s) && t < |s.tables| && k < |s.areas[t]| && a == s.areas[t][k] && now == ForkAt(s, t, k)
    ensures var c, copied := |s.tables|, [a] + Reverse(s.areas[t][..k]);
            && FramesOk(now) && a.start <= a.end <= USER_END
            && Forking(s, AddArea(now, c, a), t, SweptPages(s.areas[t], s.tables[t], k), copied)
            && FramesOk(AddArea(now, c, a))
            && ForkAt(s, t, k + 1) == Sweep(AddArea(now, c, a), t, c, a.start / PGSIZE, a.end / PGSIZE + 1)
            && ForkAt(s, t, k + 1).areas[c] == [a] + now.areas[c]
  {
    var areas, pt := s.areas[t], s.tables[t];
    assert TaskOk(areas, pt);
    SweepAreasKeeps(s, t, k);
    SweepAreasKeeps(s, t, k + 1);
    ReverseSnoc(areas, k + 1);
    AddAreaForking(s, now, t, SweptPages(areas, pt, k), Reverse(areas[..k]), a);
  }

  lemma ForkStates(s0: State, s: State, t: nat, ks: set<nat>, areas: seq<Area>, lo: nat, last: nat)
    returns (states: seq<State>)
    requires Forking(s0, s, t, ks, areas) && FramesOk(s) && lo <= last
    ensures IsTask(s, t) && IsTask(s, |s0.tables|) && SweepStates(states, t, |s0.tables|, lo, last)
    ensures states[0] == s && states[last - lo + 1] == Sweep(s, t, |s0.tables|, lo, last + 1)
  {
    var c := |s0.tables|;
    states := seq(last - lo + 2, (i: nat) => Sweep(s, t, c, lo, lo + i));
    assert states[0] == Sweep(s, t, c, lo, lo) == s;
    forall i: nat | i <= last - lo
      ensures SweepAt(states, i, t, c, lo)
    {
      SweepReaches(s0, s, states[i], states[i + 1], t, ks, areas, lo, lo + i);
    }
  }

  lemma SweepReaches(s0: State, s: State, now: State, next: State, t: nat, ks: set<nat>, areas: seq<Area>, lo: nat, v: nat)
    requires Forking(s0, s, t, ks, areas) && FramesOk(s) && lo <= v
    requires now == Sweep(s, t, |s0.tables|, lo, v) && next == Sweep(s, t, |s0.tables|, lo, v + 1)
    ensures SweepsTo(now, next, t, |s0.tables|, v)
  {
    SweepKeeps(s0, s, t, ks, areas, lo, v);
    SweepNext(s, t, |s0.tables|, lo, v);
  }

  lemma SweepNext(s: State, t: nat, c: nat, lo: nat, v: nat)
    requires IsTask(s, t) && IsTask(s, c) && lo <= v
    ensures IsTask(Sweep(s, t, c, lo, v), t) && IsTask(Sweep(s, t, c, lo, v), c)
    ensures IsTask(Sweep(s, t, c, lo, v + 1), t) && IsTask(Sweep(s, t, c, lo, v + 1), c)
    ensures Sweep(s, t, c, lo, v + 1) == SweepPage(Sweep(s, t, c, lo, v), t, c, v)
  {
  }

  /** The lists after a fork. */
  lemma ForkedLists(s: State, t: nat)
    requires Inv(s) && t < |s.tables| && AllFillOwnPage(s.areas)
    ensures Fork(s, t).areas == s.areas + [Reverse(s.areas[t])]
    ensures AllFillOwnPage(Fork(s, t).areas)
  {
    ForkExact(s, t);
    ForkedAreas(s, Fork(s, t), t);
    ReverseFrom(s.areas[t], s.areas[t]);
  }

  lemma ForkedAreas(s: State, s': State, t: nat)
    requires t < |s.tables| && Forked(s, t, s')
    ensures s'.areas == s.areas + [Reverse(s.areas[t])]
  {
  }

  // Single updates of the value machine's state.

  ghost function WithEntry(s: State, t: nat, v: nat, p: Pte): State
    requires t < |s.tables|
  {
    s.(tables := WithPte(s.tables, t, v, p))
  }

  ghost function Counted(s: State, f: nat): State
    requires f in s.refs
  {
    s.(refs := s.refs[f := s.refs[f] + 1])
  }

  ghost function Released(s: State, g: nat): State
    requires g in s.refs && s.refs[g] > 0
  {
    s.(refs := s.refs[g := s.refs[g] - 1])
  }

  ghost function CopiedData(s: State, g: nat, f: nat): State
    requires g in s.refs && s.refs[g] > 0
  {
    s.(data := s.data[f := DataAt(s.data, g)], refs := s.refs[g := s.refs[g] - 1][f := 1])
  }

  /** The copying branch of a fault, as a state. */
  ghost function CopiedPage(s: State, t: nat, v: nat, f: nat): State
    requires t < |s.tables| && v in s.tables[t] && s.tables[t][v].frame in s.refs
    requires s.refs[s.tables[t][v].frame] > 0
  {
    var s2 := CopiedData(s, s.tables[t][v].frame, f);
    WithEntry(s2, t, v, Pte(f, SetW(s.tables[t][v].perm)))
  }

  /** The only mapper gets its write bit back, as a state. */
  ghost function Unshared(s: State, t: nat, v: nat): State
    requires t < |s.tables| && v in s.tables[t]
  {
    WithEntry(s, t, v, Pte(s.tables[t][v].frame, SetW(s.tables[t][v].perm)))
  }

  // The three branches of Fault.

  lemma FaultDemand(disk: Ramdisk, s: State, t: nat, addr: nat, f: nat)
    requires IsTask(s, t) && FindVma(s.areas[t], addr).Some? && addr / PGSIZE !in s.tables[t]
    ensures Fault(disk, s, t, addr, f) == DemandState(disk, s, t, addr / PGSIZE, FindVma(s.areas[t], addr).value, f)
  {
  }

  lemma FaultWrite(disk: Ramdisk, s: State, t: nat, addr: nat, f: nat)
    requires FramesOk(s) && IsTask(s, t) && FindVma(s.areas[t], addr).Some? && addr / PGSIZE in s.tables[t]
    requires CanWrite(FindVma(s.areas[t], addr).value) && !Writable(s.tables[t][addr / PGSIZE].perm)
    ensures var p := s.tables[t][addr / PGSIZE];
            && p.frame in s.refs && s.refs[p.frame] > 0
            && Fault(disk, s, t, addr, f)
               == if s.refs[p.frame] == 1 then Unshared(s, t, addr / PGSIZE) else CopiedPage(s, t, addr / PGSIZE, f)
  {
    MappedCounted(s, t, addr / PGSIZE);
  }

  lemma FaultNothing(disk: Ramdisk, s: State, t: nat, addr: nat, f: nat)
    requires IsTask(s, t) && FindVma(s.areas[t], addr).Some? && addr / PGSIZE in s.tables[t]
    requires !CanWrite(FindVma(s.areas[t], addr).value) || Writable(s.tables[t][addr / PGSIZE].perm)
    ensures Fault(disk, s, t, addr, f) == s
  {
  }

  lemma SweepPageSteps(s: State, t: nat, c: nat, v: nat, p: Pte)
    requires IsTask(s, t) && IsTask(s, c) && v in s.tables[t] && p == Cleared(s.tables[t][v])
    requires p.frame in s.refs && s.refs[p.frame] >= 1
    ensures SweepPage(s, t, c, v) == WithEntry(Counted(WithEntry(s, t, v, p), p.frame), c, v, p)
  {
  }

  lemma UnmappedAbove(tables: seq<Table>, t: Tables, roots: seq<nat>, kernel: nat, x: nat, v: nat)
    requires TablesMatch(tables, t, roots, kernel) && x < |roots| && v <= USER_VPNS
    ensures Loaded(t, roots[x], v * PGSIZE) == 0 <==> v !in tables[x]
    ensures v in tables[x] ==> v < USER_VPNS
  {
    VpnOf(v);
    assert roots[x] == roots[x];
    assert TableMatches(tables[x], t, roots[x]) && EntryMatches(tables[x], t, roots[x], v);
    if v < USER_VPNS { LoadedPerm(tables, t, roots, kernel, x, v); }
  }

  lemma StartsBelow(areas: seq<Area>, addr: nat)
    requires FindVma(areas, addr).Some?
    ensures FindVma(areas, addr).value.start / PGSIZE <= addr / PGSIZE
  {
    FindVmaSome(areas, addr);
  }

  lemma WriteBits(flags: nat, check: nat)
    ensures And(flags, VM_WRITE) != 0 <==> Writable(flags)
    ensures And(check, PTE_W) == 0 <==> !Writable(check)
  {
    BitTwo(flags);
    BitTwo(check);
  }

  /** What check_load says of a user page. */
  lemma LoadedPerm(tables: seq<Table>, t: Tables, roots: seq<nat>, kernel: nat, x: nat, v: nat)
    requires TablesMatch(tables, t, roots, kernel) && x < |roots| && v < USER_VPNS
    ensures Loaded(t, roots[x], v * PGSIZE) == 0 <==> v !in tables[x]
    ensures v in tables[x] ==> Loaded(t, roots[x], v * PGSIZE) == tables[x][v].perm
  {
    VpnOf(v);
    MatchedEntry(tables, t, roots, kernel, x, v);
    if v in tables[x] { CleanBits(Entry(t, roots[x], v)); }
  }

  /** No fill of any area leaves its page. */
  ghost predicate AllFillOwnPage(areas: seq<seq<Area>>) {
    var ok := forall i, a :: 0 <= i < |areas| && a in areas[i] ==> FillsOwnPage(a);
    ok
  }

  ghost function DemandData(disk: Ramdisk, s: State, v: nat, a: Area, f: nat): State {
    s.(data := if IsAnon(a) then s.data else s.data[f := InitialPage(disk, a, v)], refs := s.refs[f := 1])
  }

  /** The demand branch of a fault, as a state. */
  ghost function DemandState(disk: Ramdisk, s: State, t: nat, v: nat, a: Area, f: nat): State
    requires t < |s.tables|
  {
    var s2 := DemandData(disk, s, v, a, f);
    WithEntry(s2, t, v, Pte(f, AreaPerm(a)))
  }

  /** The flag arithmetic of the fault handler: VM_* bits are PTE bits. */
  lemma FlagsPerm(flags: nat)
    ensures var a := Area(0, 0, flags, 0, 0);
            Or(Or(Or(Or(And(flags, 0x2), And(flags, 0x8)), And(flags, 0x4)), 0x10), 0x1) == AreaPerm(a)
    ensures And(flags, 0x1) != 0 <==> flags % 2 == 1
  {
    FlagBit(flags);
    AndMask(flags, 1);
    BitTwo(flags);
    var r, x, w := And(flags, VM_READ), And(flags, VM_EXEC), And(flags, VM_WRITE);
    DisjointFlags(r, x, w);
    OrSum(r, x);
    OrSum(r + x, w);
    OrSum(r + x + w, PTE_U);
    OrSum(r + x + w + PTE_U, PTE_V);
  }

  lemma DisjointFlags(r: nat, x: nat, w: nat)
    requires (r == 0 || r == 2) && (x == 0 || x == 8) && (w == 0 || w == 4)
    ensures And(r, x) == 0 && And(r + x, w) == 0
    ensures And(r + x + w, 16) == 0 && And(r + x + w + 16, 1) == 0
  {
    BitTwo(r + x);
    AndMask(r + x + w + 16, 1);
    var y := r + x + w;
    BitParts(r, x, w);
    assert And(y / 2 / 2 / 2 / 2, 1) == 0;
    assert And(y / 2 / 2 / 2, 2) == 0;
    assert And(y / 2 / 2, 4) == 0;
    assert And(y / 2, 8) == 0;
  }

  lemma BitParts(r: nat, x: nat, w: nat)
    requires (r == 0 || r == 2) && (x == 0 || x == 8) && (w == 0 || w == 4)
    ensures And(r, x) == 0 && (r + x) / 4 % 2 == 0
    ensures (r + x + w) / 16 == 0 && (r + x + w) % 2 == 0 && (r + x + w + 16) % 2 == 0
  {
    assert And(2, 8) == 0;
  }

  /** How a fault or a fork ends: served; with a trap outside every area, at
      which the handler loops; with a fault of the handler itself, in its own
      copying loop; or with no page left. */
  datatype Outcome = Served | Hung | Stuck | OutOfMemory

  /** A write fault that would copy a page which the kernel cannot read. */
  ghost predicate CannotCopy(s: State, t: nat, addr: nat)
    requires IsTask(s, t)
  {
    var a, v := FindVma(s.areas[t], addr), addr / PGSIZE;
    && a.Some? && CanWrite(a.value) && v in s.tables[t] && s.tables[t][v].frame in s.refs
    && !Writable(s.tables[t][v].perm) && !Readable(s.tables[t][v].perm) && s.refs[s.tables[t][v].frame] != 1
  }

  /** This does not happen where writable areas are readable. */
  lemma ReadableCopies(s: State, t: nat, addr: nat)
    requires Inv(s) && t < |s.tables| && forall a :: a in s.areas[t] && CanWrite(a) ==> CanRead(a)
    ensures !CannotCopy(s, t, addr)
  {
    var v := addr / PGSIZE;
    if CannotCopy(s, t, addr) {
      assert TaskOk(s.areas[t], s.tables[t]);
      MappedSpanned(s, t, v);
      FoundIsAreaOf(s.areas[t], addr);
      AreaPermBits(AreaOf(s.areas[t], v));
    }
  }

  // Pages that a fork takes.

  ghost function Held(s: State, c: nat): nat { if c < |s.tables| then |s.tables[c]| else 0 }

  /** The most pages that a fork takes: a task structure and a root, a node for
      each area, and two tables for each page mapped. */
  ghost function ForkPages(s: State, t: nat): nat
    requires IsTask(s, t)
  {
    2 + |s.areas[t]| + 2 * |s.tables[t]|
  }

  /** Likewise for the first k rounds of the list loop. */
  ghost function ForkedPages(s: State, t: nat, k: nat): nat
    requires IsTask(s, t) && k <= |s.areas[t]|
  {
    k + 2 * Held(ForkAt(s, t, k), |s.tables|)
  }

  lemma SweepPageHeld(s: State, t: nat, c: nat, v: nat)
    requires IsTask(s, t) && IsTask(s, c)
    ensures Held(SweepPage(s, t, c, v), c)
            == Held(s, c) + if v in s.tables[t] && v !in s.tables[c] then 1 else 0
  {
    if v in s.tables[t] {
      var p := Cleared(s.tables[t][v]);
      var once := WithPte(s.tables, t, v, p);
      var table: Table := once[c][v := p];
      assert once[c].Keys == s.tables[c].Keys;
      KeysCount(once[c], s.tables[c]);
      KeyAdded(once[c], table, v);
    }
  }

  lemma KeysCount(m: Table, n: Table)
    requires m.Keys == n.Keys
    ensures |m| == |n|
  {
    assert |m.Keys| == |m| && |n.Keys| == |n|;
  }

  lemma KeyAdded(m: Table, n: Table, v: nat)
    requires n.Keys == m.Keys + {v}
    ensures |n| == |m| + if v in m then 0 else 1
  {
    assert |m.Keys| == |m| && |n.Keys| == |n|;
    if v in m { assert m.Keys + {v} == m.Keys; }
  }

  /** held lists how many pages task c holds in each of the states, never fewer
      than before. */
  ghost predicate HeldIs(held: seq<int>, states: seq<State>, c: nat) {
    var ok := |held| == |states| && forall i: nat {:trigger HeldAt(held, states, c, i)} :: i < |held| ==> HeldAt(held, states, c, i);
    ok
  }

  ghost predicate HeldAt(held: seq<int>, states: seq<State>, c: nat, i: nat)
    requires i < |held| == |states|
  {
    held[i] == Held(states[i], c) && (i + 1 < |held| ==> held[i] <= held[i + 1])
  }

  lemma HeldOf(states: seq<State>, t: nat, c: nat, lo: nat, last: nat) returns (held: seq<int>)
    requires SweepStates(states, t, c, lo, last)
    ensures HeldIs(held, states, c) && held[0] == Held(states[0], c) <= held[last - lo + 1] == Held(states[last - lo + 1], c)
  {
    held := seq(|states|, (i: nat) requires i < |states| => Held(states[i], c));
    forall i: nat | i < |held|
      ensures HeldAt(held, states, c, i)
    {
      if i <= last - lo {
        assert SweepAt(states, i, t, c, lo);
        SweepPageHeld(states[i], t, c, lo + i);
      }
    }
    HeldGrows(held, states, c, 0);
    assert HeldAt(held, states, c, 0) && HeldAt(held, states, c, last - lo + 1);
  }

  lemma SweepFacts(states: seq<State>, held: seq<int>, t: nat, c: nat, lo: nat, last: nat, i: nat)
    requires SweepStates(states, t, c, lo, last) && HeldIs(held, states, c) && lo + i <= last
    ensures SweepsTo(states[i], states[i + 1], t, c, lo + i)
    ensures held[i] == Held(states[i], c) && held[i + 1] == Held(states[i + 1], c)
  {
    assert SweepAt(states, i, t, c, lo) && HeldAt(held, states, c, i) && HeldAt(held, states, c, i + 1);
  }

  lemma {:induction false} HeldGrows(held: seq<int>, states: seq<State>, c: nat, i: nat)
    requires HeldIs(held, states, c) && i < |held|
    ensures held[i] <= held[|held| - 1]
    decreases |held| - i
  {
    if i + 1 < |held| {
      assert HeldAt(held, states, c, i);
      HeldGrows(held, states, c, i + 1);
    }
  }

  /** The child never holds more pages than the parent has. */
  lemma ForkedBounds(s: State, t: nat, k: nat)
    requires Inv(s) && t < |s.tables| && k <= |s.areas[t]|
    ensures ForkedPages(s, t, k) <= k + 2 * |s.tables[t]|
    ensures k == 0 ==> ForkedPages(s, t, k) == 0
  {
    var c, now := |s.tables|, ForkAt(s, t, k);
    assert TaskOk(s.areas[t], s.tables[t]);
    SweepAreasKeeps(s, t, k);
    assert now.tables[c].Keys <= s.tables[t].Keys;
    CardMonotone(now.tables[c].Keys, s.tables[t].Keys);
    assert |now.tables[c].Keys| == |now.tables[c]| && |s.tables[t].Keys| == |s.tables[t]|;
    if k == 0 { assert now.tables[c] == map[]; }
  }

  lemma ForkedMore(s: State, t: nat, k: nat)
    requires Inv(s) && t < |s.tables| && k < |s.areas[t]|
    ensures ForkedPages(s, t, k) + 1 <= ForkedPages(s, t, k + 1) <= |s.areas[t]| + 2 * |s.tables[t]|
  {
    var _, _ := ForkPrefix(s, t, k);
    ForkedBounds(s, t, k + 1);
  }

  class TaskStruct {
    const pgd: nat
    const mm: Mm

    constructor (pgd: nat, mm: Mm)
      ensures this.pgd == pgd && this.mm == mm
    {
      this.pgd := pgd;
      this.mm := mm;
    }
  }

  class Kernel {
    const mmu: Mmu
    const disk: Ramdisk
    ghost const half: nat -> nat  // the kernel half that all page tables share
    var task: seq<TaskStruct>  // from slot 1 on; slot 0 is the idle task's
    var current: nat
    var data: map<nat, Page>  // user frames written so far, by page number
    ghost var view: State     // the state of the value machine
    ghost var mms: set<Mm>        // the area lists and their nodes
    ghost var nodes: set<VmArea>

    ghost function Roots(task: seq<TaskStruct>): seq<nat> {
      seq(|task|, (i: nat) requires i < |task| => task[i].pgd)
    }

    /** Tables, counts and contents in memory are those of state s, task by task. */
    ghost predicate Matches(s: State, roots: seq<nat>)
      reads this`data, mmu, mmu.buddy, mmu.buddy.bitmap, mmu.buddy.refCnt
    {
      var ok :=
        && mmu.Valid()
        && s.data == data
        && RootsOk(mmu.owner, roots, mmu.kernel)
        && TablesMatch(s.tables, mmu.tables, roots, mmu.kernel)
        && HalvesMatch(mmu.tables, roots, mmu.kernel, half)
        && RefsMatch(s.refs, mmu.buddy.refCnt[..], mmu.taken, mmu.owner);
      ok
    }

    /** The lists in memory are the value machine's lists. */
    ghost predicate ListsMatch(areas: seq<seq<Area>>)
      reads this`task, this`mms, this`nodes, mms, nodes
    {
      var ok :=
        && |areas| == |task|
        && forall i :: 0 <= i < |task| ==> ListMatches(i, areas[i]);
      ok
    }

    ghost predicate ListMatches(i: nat, areas: seq<Area>)
      requires i < |task|
      reads this`task, this`mms, this`nodes, mms, nodes
    {
      && task[i].mm in mms
      && (forall n :: n in task[i].mm.nodes ==> n in nodes)
      && task[i].mm.Valid() && task[i].mm.areas == areas
    }

    ghost predicate Valid()
      reads this, mms, nodes, mmu, mmu.buddy, mmu.buddy.bitmap, mmu.buddy.refCnt
    {
      var ok :=
        && Matches(view, Roots(task))
        && Inv(view)
        && ListsMatch(view.areas)
        && AllFillOwnPage(view.areas)
        && current < |task| < Scheduling.NR_TASKS;
      ok
    }

    /** The first user task, with its areas but nothing mapped yet. */
    constructor (mmu: Mmu, disk: Ramdisk, first: TaskStruct, ghost half: nat -> nat)
      requires mmu.Valid() && first.mm.Valid() && WfAreas(first.mm.areas)
      requires forall a :: a in first.mm.areas ==> FillsOwnPage(a)
      requires IsRoot(mmu.owner, first.pgd) && first.pgd != mmu.kernel && IsRoot(mmu.owner, mmu.kernel)
      requires forall v: nat :: v < USER_VPNS ==> Entry(mmu.tables, first.pgd, v) == 0
      requires HalfIs(mmu.tables, mmu.kernel, half) && HalfIs(mmu.tables, first.pgd, half) && !IsValid(half(USER_VPNS))
      ensures this.mmu == mmu && this.disk == disk && this.half == half && task == [first] && current == 0
      ensures Valid() && view == Boot([first.mm.areas])
    {
      this.mmu := mmu;
      this.disk := disk;
      this.half := half;
      task := [first];
      current := 0;
      data := map[];
      view := Boot([first.mm.areas]);
      mms := {first.mm};
      nodes := set n | n in first.mm.nodes;
      new;
      BootInv(disk, [first.mm.areas]);
      EmptyTable(mmu.tables, first.pgd);
      assert Roots(task) == [first.pgd];
    }

    // --------------------------------------------------------- page contents

    /** The file case: one of four copying loops, into a page that is still zero.
        Every write stays inside the page. */
    method FillPage(a: Area, va: nat) returns (page: Page)
      requires !IsAnon(a) && FillsOwnPage(a) && va % PGSIZE == 0 && a.start / PGSIZE <= va / PGSIZE
      ensures page == InitialPage(disk, a, va / PGSIZE)
    {
      var uapp := new Byte[4096](_ => 0);
      var off := a.start % PGSIZE;
      if a.filesz / PGSIZE * PGSIZE < PGSIZE {
        CopyIn(uapp, off, off, a.filesz);
      } else if va / PGSIZE == a.start / PGSIZE {
        CopyIn(uapp, off, off, (PGSIZE - off) % PGSIZE);
      } else {
        var celf := va / PGSIZE * PGSIZE - a.start / PGSIZE * PGSIZE;
        if va / PGSIZE == (a.start + a.filesz - 1) / PGSIZE {
          CopyIn(uapp, 0, celf, (a.start + a.filesz) % PGSIZE + 1);
        } else {
          CopyIn(uapp, 0, celf, PGSIZE);
        }
      }
      page := uapp[..];
      assert forall j :: 0 <= j < PGSIZE ==> page[j] == InitialByte(disk, a, va / PGSIZE, j);
    }

    /** A copying loop: n bytes of the ramdisk into a page of zeros. */
    method CopyIn(uapp: array<Byte>, at: nat, from: nat, n: nat)
      requires at + n <= uapp.Length && forall j :: 0 <= j < uapp.Length ==> uapp[j] == 0
      modifies uapp
      ensures forall j :: 0 <= j < uapp.Length ==> uapp[j] == if at <= j < at + n then disk(from + j - at) else 0
    {
      for i := 0 to n
        invariant forall j :: 0 <= j < uapp.Length ==> uapp[j] == if at <= j < at + i then disk(from + j - at) else 0
      {
        uapp[at + i] := disk(from + i);
      }
    }

    /** The copying loop of page_cow. It reads the page at its virtual address,
        which the kernel can do only where the user's entry allows reading. */
    method CopyUserPage(entry: nat) returns (page: Option<Page>)
      ensures page == if Readable(Perm(entry)) then Some(DataAt(data, Ppn(entry))) else None
    {
      if !Readable(Perm(entry)) {
        return None;
      }
      var newPage := new Byte[4096](_ => 0);
      var cpage := DataAt(data, Ppn(entry));
      for i := 0 to PGSIZE
        invariant forall j :: 0 <= j < i ==> newPage[j] == cpage[j]
      {
        newPage[i] := cpage[i];
      }
      var copy: Page := newPage[..];
      assert copy == cpage;
      page := Some(copy);
    }

    // --------------------------------------------------------- single updates

    /** create_mapping of one user page v of task x. */
    method MapFrame(ghost s: State, ghost roots: seq<nat>, ghost x: nat, ghost v: nat, root: nat, va: nat, ppn: nat,
            perm: nat)
      returns (ok: bool)
      requires Matches(s, roots) && x < |roots| && root == roots[x]
      requires va == v * PGSIZE && v < USER_VPNS && ppn < PPN_LIMIT && perm < 256 && perm % 2 == 1
      modifies mmu, mmu.buddy, mmu.buddy.bitmap, mmu.buddy.refCnt
      ensures mmu.Took(ok, old(mmu.taken), 2)
      ensures x < |s.tables| && v in s.tables[x] ==> ok && mmu.taken == old(mmu.taken)
      ensures ok ==> x < |s.tables| && Matches(WithEntry(s, x, v, Pte(ppn, perm)), roots)
    {
      ghost var t0, owner0, taken0, counts0 := mmu.tables, mmu.owner, mmu.taken, mmu.buddy.refCnt[..];
      VpnOf(v);
      FrameAddress(ppn);
      MappedLeaf(s.tables, t0, roots, mmu.kernel, x, v);
      ok := mmu.CreateMapping(root, va, ppn * PGSIZE, PGSIZE, perm);
      RootsGrown(owner0, mmu.owner, BASE + taken0, roots, mmu.kernel);
      if ok {
        MappedOne(mmu.tables, t0, owner0, root, v, ppn, perm);
        MadeClean(ppn, perm);
        HalvesUpdated(t0, mmu.tables, owner0, roots, mmu.kernel, half, x, v, MakePte(ppn, perm));
        UpdateMatches(s.tables, t0, mmu.tables, owner0, roots, mmu.kernel, x, v, MakePte(ppn, perm));
        RefsAfterHandOut(s.refs, counts0, mmu.buddy.refCnt[..], taken0, mmu.taken, owner0, mmu.owner);
      }
    }

    /** The page number that the next allocation returns. */
    ghost function NextFrame(): nat
      reads mmu
    {
      BASE + mmu.taken
    }

    /** A page frame fresh from the allocator: never used, hence still zero. */
    method FreshFrame(ghost s: State, ghost roots: seq<nat>) returns (f: nat)
      requires Matches(s, roots) && s.data.Keys <= s.refs.Keys
      modifies mmu`taken, mmu`log, mmu.buddy, mmu.buddy.bitmap, mmu.buddy.refCnt
      ensures mmu.Took(f != 0, old(mmu.taken), 1)
      ensures f != 0
              ==> Matches(s, roots) && f == old(NextFrame()) && BASE <= f < BASE + mmu.taken && mmu.taken == old(mmu.taken) + 1
                         && IsFree(s, f) && f !in data && f !in mmu.owner && f < PPN_LIMIT
                         && mmu.buddy.refCnt[f - BASE] == 1
    {
      ghost var taken0, counts0 := mmu.taken, mmu.buddy.refCnt[..];
      f := mmu.Kalloc();
      if f != 0 {
        RefsAfterHandOut(s.refs, counts0, mmu.buddy.refCnt[..], taken0, mmu.taken, mmu.owner, mmu.owner);
        assert IsFree(s, f);
      }
    }

    /** pte_entry_ret on a user page of task x. */
    method DropWrite(ghost s: State, ghost roots: seq<nat>, ghost x: nat, ghost v: nat, root: nat,
            va: nat) returns (entry: nat)
      requires Matches(s, roots) && x < |roots| && root == roots[x] && x < |s.tables|
      requires va == v * PGSIZE && v < USER_VPNS && v in s.tables[x]
      modifies mmu`tables
      ensures PteOf(entry) == Cleared(s.tables[x][v])
      ensures PteOf(entry).frame < PPN_LIMIT && PteOf(entry).perm < 256 && PteOf(entry).perm % 2 == 1
      ensures Matches(WithEntry(s, x, v, PteOf(entry)), roots)
    {
      ghost var t0 := mmu.tables;
      VpnOf(v);
      MatchedEntry(s.tables, t0, roots, mmu.kernel, x, v);
      CleanBits(Entry(t0, root, v));
      entry := mmu.PteEntryRet(root, va);
      CleanBits(entry);
      HalvesUpdated(t0, mmu.tables, mmu.owner, roots, mmu.kernel, half, x, v, entry);
      UpdateMatches(s.tables, t0, mmu.tables, mmu.owner, roots, mmu.kernel, x, v, entry);
    }

    lemma CountOf(s: State, roots: seq<nat>, f: nat)
      requires Matches(s, roots) && f in s.refs
      ensures BASE <= f < BASE + mmu.taken && mmu.taken <= mmu.buddy.size && mmu.buddy.refCnt[f - BASE] == s.refs[f]
    {
      assert mmu.buddy.refCnt[..][f - BASE] == s.refs[f];
    }

    lemma Recounted(s: State, s': State, roots: seq<nat>)
      requires mmu.Valid() && s'.data == s.data == data && s'.tables == s.tables
      requires RootsOk(mmu.owner, roots, mmu.kernel) && TablesMatch(s.tables, mmu.tables, roots, mmu.kernel)
      requires HalvesMatch(mmu.tables, roots, mmu.kernel, half)
      requires RefsMatch(s'.refs, mmu.buddy.refCnt[..], mmu.taken, mmu.owner)
      ensures Matches(s', roots)
    {
    }

    /** put_page on a frame with at least two references: it stays allocated. */
    method PutShared(ghost s: State, ghost roots: seq<nat>, f: nat)
      requires Matches(s, roots) && f in s.refs && s.refs[f] >= 2
      modifies mmu.buddy, mmu.buddy.bitmap, mmu.buddy.refCnt
      ensures Matches(Released(s, f), roots)
      ensures forall p :: 0 <= p < mmu.buddy.size && p != f - BASE ==> mmu.buddy.refCnt[p] == old(mmu.buddy.refCnt[p])
    {
      ghost var counts0 := mmu.buddy.refCnt[..];
      CountOf(s, roots, f);
      mmu.PutPage(f - BASE, s.refs[f]);
      RefsChanged(s.refs, counts0, mmu.buddy.refCnt[..], mmu.taken, mmu.owner, f, s.refs[f] - 1);
      Recounted(s, Released(s, f), roots);
    }

    /** get_page on a user frame: one reference more. */
    method TakeShared(ghost s: State, ghost roots: seq<nat>, f: nat)
      requires Matches(s, roots) && f in s.refs
      modifies mmu.buddy.refCnt
      ensures Matches(Counted(s, f), roots)
    {
      ghost var counts0 := mmu.buddy.refCnt[..];
      CountOf(s, roots, f);
      mmu.SharePage(f - BASE, s.refs[f]);
      RefsChanged(s.refs, counts0, mmu.buddy.refCnt[..], mmu.taken, mmu.owner, f, s.refs[f] + 1);
      Recounted(s, Counted(s, f), roots);
    }

    // --------------------------------------------------------- page faults

    /** The second half of page_cow: the old entry is read once more and its
        frame loses a reference. */
    method ReleaseOld(ghost s: State, ghost roots: seq<nat>, ghost x: nat, ghost v: nat, pgtbl: nat, addr: nat)
      requires Matches(s, roots) && x < |roots| && pgtbl == roots[x] && x < |s.tables|
      requires addr == v * PGSIZE && v < USER_VPNS && v in s.tables[x]
      requires var p := s.tables[x][v]; !Writable(p.perm) && p.frame in s.refs && s.refs[p.frame] > 1
      modifies mmu`tables, mmu.buddy, mmu.buddy.bitmap, mmu.buddy.refCnt
      ensures Matches(Released(s, s.tables[x][v].frame), roots)
      ensures forall p :: 0 <= p < mmu.buddy.size && p != s.tables[x][v].frame - BASE ==>
                mmu.buddy.refCnt[p] == old(mmu.buddy.refCnt[p])
    {
      var entry := DropWrite(s, roots, x, v, pgtbl, addr);
      SamePte(s.tables, x, v);
      PutShared(s, roots, PteOf(entry).frame);
    }

    /** page_cow up to put_page: a fresh frame with the bytes of page v, one
        reference of the old frame given up. */
    method CopyOut(ghost s: State, ghost roots: seq<nat>, ghost x: nat, ghost v: nat, ghost frame: nat, pgtbl: nat,
            addr: nat)
      returns (outcome: Outcome, f: nat)
      requires Matches(s, roots) && FramesOk(s) && x < |roots| && pgtbl == roots[x] && x < |s.tables|
      requires addr == v * PGSIZE && v < USER_VPNS && v in s.tables[x] && frame == NextFrame()
      requires var p := s.tables[x][v]; !Writable(p.perm) && p.frame in s.refs && s.refs[p.frame] > 1
      modifies this`data, mmu, mmu.buddy, mmu.buddy.bitmap, mmu.buddy.refCnt
      ensures mmu.Took(outcome != OutOfMemory, old(mmu.taken), 1)
      ensures outcome != Hung && (!Readable(s.tables[x][v].perm) ==> outcome != Served)
      ensures outcome == Stuck ==> !Readable(s.tables[x][v].perm) && Matches(s, roots)
      ensures outcome == Served ==>
                && f == frame < PPN_LIMIT && SetW(s.tables[x][v].perm) < 256 && SetW(s.tables[x][v].perm) % 2 == 1
                && Matches(CopiedData(s, s.tables[x][v].frame, frame), roots)
    {
      var page;
      outcome, f, page := ReadOut(s, roots, x, v, pgtbl, addr);
      if outcome == Served {
        ReleaseOld(s, roots, x, v, pgtbl, addr);
        assert mmu.buddy.refCnt[..][f - BASE] == 1;
        WriteFresh(Released(s, s.tables[x][v].frame), roots, f, page);
      }
    }

    /** Its first half: the fresh frame, and the bytes of the page. */
    method ReadOut(ghost s: State, ghost roots: seq<nat>, ghost x: nat, ghost v: nat, pgtbl: nat, addr: nat)
      returns (outcome: Outcome, f: nat, page: Page)
      requires Matches(s, roots) && FramesOk(s) && x < |roots| && pgtbl == roots[x] && x < |s.tables|
      requires addr == v * PGSIZE && v < USER_VPNS && v in s.tables[x]
      modifies mmu`taken, mmu`log, mmu.buddy, mmu.buddy.bitmap, mmu.buddy.refCnt
      ensures mmu.Took(outcome != OutOfMemory, old(mmu.taken), 1)
      ensures outcome != Hung && (outcome == Served ==> Readable(s.tables[x][v].perm))
      ensures outcome == Stuck ==> !Readable(s.tables[x][v].perm)
      ensures outcome != OutOfMemory ==> Matches(s, roots)
      ensures outcome == Served ==>
                && f == old(NextFrame()) && BASE <= f < BASE + mmu.taken && f !in mmu.owner && f < PPN_LIMIT
                && f !in s.refs && mmu.buddy.refCnt[f - BASE] == 1
                && SetW(s.tables[x][v].perm) < 256 && SetW(s.tables[x][v].perm) % 2 == 1
                && page == DataAt(data, s.tables[x][v].frame)
    {
      VpnOf(v);
      page := ZeroPage();
      f := FreshFrame(s, roots);
      if f == 0 {
        return OutOfMemory, f, page;
      }
      MatchedEntry(s.tables, mmu.tables, roots, mmu.kernel, x, v);
      CleanPerm(Entry(mmu.tables, pgtbl, v));
      var copy := CopyUserPage(Entry(mmu.tables, pgtbl, Vpn(addr)));
      if copy.None? {
        return Stuck, f, page;
      }
      outcome, page := Served, copy.value;
    }

    /** page_cow: a private copy of a shared page. */
    method PageCow(ghost s: State, ghost roots: seq<nat>, ghost x: nat, ghost v: nat, ghost frame: nat, pgtbl: nat,
            addr: nat, perm: nat)
      returns (outcome: Outcome)
      requires Matches(s, roots) && FramesOk(s) && x < |roots| && pgtbl == roots[x] && x < |s.tables|
      requires addr == v * PGSIZE && v < USER_VPNS && v in s.tables[x] && frame == NextFrame()
      requires var p := s.tables[x][v];
               !Writable(p.perm) && perm == SetW(p.perm) && p.frame in s.refs && s.refs[p.frame] > 1
      modifies this`data, mmu, mmu.buddy, mmu.buddy.bitmap, mmu.buddy.refCnt
      ensures mmu.Took(outcome != OutOfMemory, old(mmu.taken), 1)
      ensures outcome != Hung && (!Readable(s.tables[x][v].perm) ==> outcome != Served)
      ensures outcome == Stuck ==> !Readable(s.tables[x][v].perm) && Matches(s, roots)
      ensures outcome == Served ==> Matches(CopiedPage(s, x, v, frame), roots)
    {
      var newPage;
      outcome, newPage := CopyOut(s, roots, x, v, frame, pgtbl, addr);
      if outcome == Served {
        ghost var s2 := CopiedData(s, s.tables[x][v].frame, frame);
        var ok := MapFrame(s2, roots, x, v, pgtbl, addr, newPage, perm);
        assert ok;
      }
    }

    /** Contents for a fresh frame, which enters the value machine. */
    method WriteFresh(ghost s: State, ghost roots: seq<nat>, f: nat, page: Page)
      requires Matches(s, roots)
      requires BASE <= f < BASE + mmu.taken && f !in mmu.owner && mmu.buddy.refCnt[..][f - BASE] == 1
      modifies this`data
      ensures Matches(s.(data := s.data[f := page], refs := s.refs[f := 1]), roots)
    {
      data := data[f := page];
      RefsWithFresh(s.refs, mmu.buddy.refCnt[..], mmu.taken, mmu.owner, f);
    }

    /** The demand branch of the fault handler: a zero page or one filled from
        the file, mapped with the area's permissions. */
    method DemandPage(ghost s: State, ghost roots: seq<nat>, ghost x: nat, ghost v: nat, ghost frame: nat,
            ghost s': State, pgtbl: nat, va: nat, vma: VmArea)
      returns (ok: bool)
      requires Matches(s, roots) && FramesOk(s) && x < |roots| && pgtbl == roots[x] && x < |s.tables|
      requires va == v * PGSIZE && v < USER_VPNS && frame == NextFrame()
      requires FillsOwnPage(vma.Value()) && vma.start / PGSIZE <= v && s' == DemandState(disk, s, x, v, vma.Value(), frame)
      modifies this`data, mmu, mmu.buddy, mmu.buddy.bitmap, mmu.buddy.refCnt
      ensures mmu.Took(ok, old(mmu.taken), 3)
      ensures ok ==> Matches(s', roots)
    {
      var a := vma.Value();
      VpnOf(v);
      FrameAddress(v);
      FlagsPerm(vma.flags);
      var perm := Or(Or(Or(Or(And(vma.flags, VM_READ), And(vma.flags, VM_EXEC)), And(vma.flags, VM_WRITE)), PTE_U), PTE_V);
      assert perm == AreaPerm(a);
      var f := FreshFrame(s, roots);
      if f == 0 {
        return false;
      }
      assert mmu.buddy.refCnt[..][f - BASE] == 1;
      if And(vma.flags, VM_ANON) != 0 {
        CountFresh(s, roots, f);
      } else {
        var page := FillPage(a, va);
        WriteFresh(s, roots, f, page);
      }
      ok := MapFrame(DemandData(disk, s, v, a, frame), roots, x, v, pgtbl, va, f, perm);
    }

    ghost method CountFresh(s: State, roots: seq<nat>, f: nat)
      requires Matches(s, roots)
      requires BASE <= f < BASE + mmu.taken && f !in mmu.owner && mmu.buddy.refCnt[..][f - BASE] == 1
      ensures Matches(s.(refs := s.refs[f := 1]), roots)
    {
      RefsWithFresh(s.refs, mmu.buddy.refCnt[..], mmu.taken, mmu.owner, f);
    }

    /** get_page_refcnt of a user frame. */
    method References(ghost s: State, ghost roots: seq<nat>, f: nat) returns (num: nat)
      requires Matches(s, roots) && f in s.refs
      ensures num == s.refs[f]
    {
      CountOf(s, roots, f);
      num := mmu.buddy.GetPageRefcnt(f - BASE);
    }

    /** The copy-on-write branch: the page is mapped without its write bit. */
    method WriteFault(ghost s: State, ghost roots: seq<nat>, ghost x: nat, ghost v: nat, ghost frame: nat,
            pgtbl: nat, va: nat, check: nat)
      returns (outcome: Outcome)
      requires Matches(s, roots) && FramesOk(s) && x < |roots| && pgtbl == roots[x] && x < |s.tables|
      requires va == v * PGSIZE && v < USER_VPNS && v in s.tables[x] && frame == NextFrame()
      requires check == s.tables[x][v].perm && !Writable(check) && s.tables[x][v].frame in s.refs
      requires s.refs[s.tables[x][v].frame] >= 1
      modifies this`data, mmu, mmu.buddy, mmu.buddy.bitmap, mmu.buddy.refCnt
      ensures mmu.Took(outcome != OutOfMemory, old(mmu.taken), 1)
      ensures outcome != Hung && (!Readable(check) && s.refs[s.tables[x][v].frame] != 1 ==> outcome != Served)
      ensures outcome == Stuck ==> !Readable(check) && s.refs[s.tables[x][v].frame] != 1 && Matches(s, roots)
      ensures outcome == Served
              ==> Matches(if s.refs[s.tables[x][v].frame] == 1 then Unshared(s, x, v) else CopiedPage(s, x, v, frame), roots)
    {
      var entry := DropWrite(s, roots, x, v, pgtbl, va);
      SamePte(s.tables, x, v);
      var num := References(s, roots, PteOf(entry).frame);
      if num == 1 {
        RestoreWrite(s, roots, x, v, pgtbl, va);
        outcome := Served;
      } else {
        outcome := PageCow(s, roots, x, v, frame, pgtbl, va, SetW(check));
      }
    }

    /** change_perm on a user page of task x. */
    method RestoreWrite(ghost s: State, ghost roots: seq<nat>, ghost x: nat, ghost v: nat, root: nat, va: nat)
      requires Matches(s, roots) && x < |roots| && root == roots[x] && x < |s.tables|
      requires va == v * PGSIZE && v < USER_VPNS && v in s.tables[x]
      modifies mmu`tables
      ensures Matches(Unshared(s, x, v), roots)
    {
      ghost var t0 := mmu.tables;
      VpnOf(v);
      MatchedEntry(s.tables, t0, roots, mmu.kernel, x, v);
      CleanBits(Entry(t0, root, v));
      mmu.ChangePerm(root, va);
      HalvesUpdated(t0, mmu.tables, mmu.owner, roots, mmu.kernel, half, x, v, SetW(Entry(t0, root, v)));
      UpdateMatches(s.tables, t0, mmu.tables, mmu.owner, roots, mmu.kernel, x, v, SetW(Entry(t0, root, v)));
    }

    /** s' is what the branch for page v, in area a, makes of s. */
    ghost predicate BranchOf(s: State, s': State, x: nat, v: nat, a: Area, frame: nat)
      requires IsTask(s, x)
      reads this
    {
      if v !in s.tables[x] then s' == DemandState(disk, s, x, v, a, frame)
      else if CanWrite(a) && !Writable(s.tables[x][v].perm) then
        && s.tables[x][v].frame in s.refs && s.refs[s.tables[x][v].frame] > 0
        && s' == if s.refs[s.tables[x][v].frame] == 1 then Unshared(s, x, v) else CopiedPage(s, x, v, frame)
      else s' == s
    }

    lemma FaultBranch(s: State, x: nat, stval: nat, frame: nat)
      requires FramesOk(s) && IsTask(s, x) && FindVma(s.areas[x], stval).Some?
      ensures BranchOf(s, Fault(disk, s, x, stval, frame), x, stval / PGSIZE, FindVma(s.areas[x], stval).value, frame)
    {
      var a, v := FindVma(s.areas[x], stval).value, stval / PGSIZE;
      if v !in s.tables[x] {
        FaultDemand(disk, s, x, stval, frame);
      } else if CanWrite(a) && !Writable(s.tables[x][v].perm) {
        FaultWrite(disk, s, x, stval, frame);
      } else {
        FaultNothing(disk, s, x, stval, frame);
      }
    }

    /** do_page_fault once the area is found. */
    method ServeFault(ghost s: State, ghost roots: seq<nat>, ghost x: nat, ghost frame: nat, ghost s': State,
            pgd: nat, stval: nat, vma: VmArea)
      returns (outcome: Outcome)
      requires Matches(s, roots) && FramesOk(s) && IsTask(s, x) && x < |roots| && pgd == roots[x] && frame == NextFrame()
      requires BranchOf(s, s', x, stval / PGSIZE, vma.Value(), frame)
      requires TaskOk(s.areas[x], s.tables[x]) && FindVma(s.areas[x], stval) == Some(vma.Value()) && FillsOwnPage(vma.Value())
      modifies this`data, mmu, mmu.buddy, mmu.buddy.bitmap, mmu.buddy.refCnt
      ensures mmu.Took(outcome != OutOfMemory, old(mmu.taken), 3)
      ensures outcome != Hung && (CannotCopy(s, x, stval) ==> outcome != Served)
      ensures outcome == Stuck ==> CannotCopy(s, x, stval) && Matches(s, roots)
      ensures outcome == Served ==> Matches(s', roots)
    {
      ghost var v := stval / PGSIZE;
      var va := stval / PGSIZE * PGSIZE;
      FoundIsAreaOf(s.areas[x], stval);
      if v in s.tables[x] { MappedCounted(s, x, v); }
      StartsBelow(s.areas[x], stval);
      var check := mmu.CheckLoad(pgd, va);
      LoadedPerm(s.tables, mmu.tables, roots, mmu.kernel, x, v);
      WriteBits(vma.flags, check);
      if check == 0 {
        var ok := DemandPage(s, roots, x, v, frame, s', pgd, va, vma);
        outcome := if ok then Served else OutOfMemory;
      } else if And(vma.flags, VM_WRITE) != 0 && And(check, PTE_W) == 0 {
        outcome := WriteFault(s, roots, x, v, frame, pgd, va, check);
      } else {
        outcome := Served;
      }
    }

    /** find_vma in the current task's list. */
    method CurrentVma(addr: nat) returns (vma: VmArea?)
      requires Valid()
      ensures IsTask(view, current)
      ensures vma == null <==> FindVma(view.areas[current], addr).None?
      ensures vma != null ==> FindVma(view.areas[current], addr) == Some(vma.Value()) && FillsOwnPage(vma.Value())
    {
      assert ListMatches(current, view.areas[current]);
      vma := task[current].mm.Find(addr);
      FindVmaSome(view.areas[current], addr);
    }

    /** do_page_fault is the Fault step of the value machine, the frame it may
        take being the next one of the allocator. */
    method DoPageFault(stval: nat) returns (outcome: Outcome)
      requires Valid()
      modifies this, mmu, mmu.buddy, mmu.buddy.bitmap, mmu.buddy.refCnt
      ensures mmu.Took(outcome != OutOfMemory, old(mmu.taken), 3)
      ensures task == old(task) && current == old(current)
      ensures outcome == Served ==> Valid() && IsTask(old(view), current)
                                    && Enabled(old(view), Trap(current, stval, old(NextFrame())))
                                    && view == Fault(disk, old(view), current, stval, old(NextFrame()))
      ensures outcome == Hung ==> Valid() && view == old(view) && FindVma(view.areas[current], stval).None?
      ensures outcome == Stuck ==> Valid() && view == old(view) && IsTask(view, current) && CannotCopy(view, current, stval)
      ensures IsTask(old(view), current) && CannotCopy(old(view), current, stval) ==> outcome == Stuck || outcome == OutOfMemory
    {
      ghost var s, x, frame := view, current, NextFrame();
      var vma := CurrentVma(stval);
      if vma == null {
        return Hung;
      }
      NextIsFree();
      outcome := Resolve(stval, vma);
      if outcome == Served {
        FaultKeepsInv(disk, s, x, stval, frame);
        FaultFrame(disk, s, x, stval, frame);
        Commit(Fault(disk, s, x, stval, frame));
      }
    }

    /** do_page_fault for the current task, before the value machine follows. */
    method Resolve(stval: nat, vma: VmArea) returns (outcome: Outcome)
      requires Valid() && IsTask(view, current) && FillsOwnPage(vma.Value())
      requires FindVma(view.areas[current], stval) == Some(vma.Value())
      modifies this`data, mmu, mmu.buddy, mmu.buddy.bitmap, mmu.buddy.refCnt
      ensures mmu.Took(outcome != OutOfMemory, old(mmu.taken), 3)
      ensures outcome != Hung && (CannotCopy(view, current, stval) ==> outcome != Served)
      ensures outcome == Stuck ==> CannotCopy(view, current, stval) && Matches(view, Roots(task))
      ensures outcome == Served ==> Matches(Fault(disk, view, current, stval, old(NextFrame())), Roots(task))
      ensures ListsMatch(view.areas)
    {
      ghost var frame := NextFrame();
      FaultBranch(view, current, stval, frame);
      outcome := ServeFault(view, Roots(task), current, frame, Fault(disk, view, current, stval, frame),
                            task[current].pgd, stval, vma);
    }

    /** The value machine takes its step. */
    ghost method Commit(s': State)
      requires Matches(s', Roots(task)) && Inv(s')
      requires ListsMatch(s'.areas) && AllFillOwnPage(s'.areas) && current < |task| < Scheduling.NR_TASKS
      modifies this`view
      ensures Valid() && view == s'
    {
      view := s';
    }

    lemma NextIsFree()
      requires Valid()
      ensures IsFree(view, NextFrame())
    {
    }

    // --------------------------------------------------------- fork

    /** The parent's half of it: the write bit goes, the frame is counted once more. */
    method ShareEntry(ghost s: State, ghost roots: seq<nat>, ghost t: nat, ghost v: nat, pgd: nat,
            addr: nat) returns (p: Pte)
      requires Matches(s, roots) && t < |roots| && t < |s.tables| && pgd == roots[t]
      requires addr == v * PGSIZE && v < USER_VPNS && v in s.tables[t] && s.tables[t][v].frame in s.refs
      modifies mmu`tables, mmu.buddy.refCnt
      ensures p == Cleared(s.tables[t][v]) && p.frame < PPN_LIMIT && p.perm < 256 && p.perm % 2 == 1
      ensures Matches(Counted(WithEntry(s, t, v, p), p.frame), roots)
    {
      var entry := DropWrite(s, roots, t, v, pgd, addr);
      p := PteOf(entry);
      TakeShared(WithEntry(s, t, v, p), roots, p.frame);
    }

    /** The sweep's work on a mapped page. */
    method ShareOne(ghost s: State, ghost roots: seq<nat>, ghost t: nat, ghost c: nat, ghost v: nat, pgd: nat,
            childPgd: nat, addr: nat)
      returns (ok: bool)
      requires Matches(s, roots) && FramesOk(s) && IsTask(s, t) && IsTask(s, c) && t < |roots| && c < |roots|
      requires pgd == roots[t] && childPgd == roots[c] && addr == v * PGSIZE && v < USER_VPNS && v in s.tables[t]
      modifies mmu, mmu.buddy, mmu.buddy.bitmap, mmu.buddy.refCnt
      ensures mmu.Took(ok, old(mmu.taken), if v in s.tables[c] then 0 else 2)
      ensures ok ==> Matches(SweepPage(s, t, c, v), roots)
    {
      MappedCounted(s, t, v);
      var p := ShareEntry(s, roots, t, v, pgd, addr);
      SweepPageSteps(s, t, c, v, p);
      ok := MapFrame(Counted(WithEntry(s, t, v, p), p.frame), roots, c, v, childPgd, addr, p.frame, p.perm);
    }

    /** The sweep's work on one page: SweepPage of the value machine. */
    method SweepOne(ghost s: State, ghost roots: seq<nat>, ghost t: nat, ghost c: nat, ghost v: nat, pgd: nat,
            childPgd: nat, addr: nat)
      returns (ok: bool)
      requires Matches(s, roots) && FramesOk(s) && IsTask(s, t) && IsTask(s, c) && t < |roots| && c < |roots|
      requires pgd == roots[t] && childPgd == roots[c] && addr == v * PGSIZE && v <= USER_VPNS
      modifies mmu, mmu.buddy, mmu.buddy.bitmap, mmu.buddy.refCnt
      ensures mmu.Took(ok, old(mmu.taken), 2 * (Held(SweepPage(s, t, c, v), c) - Held(s, c)))
      ensures ok ==> Matches(SweepPage(s, t, c, v), roots)
    {
      var perm := mmu.CheckLoad(pgd, addr);
      UnmappedAbove(s.tables, mmu.tables, roots, mmu.kernel, t, v);
      SweepPageHeld(s, t, c, v);
      if perm == 0 {
        return true;
      }
      ok := ShareOne(s, roots, t, c, v, pgd, childPgd, addr);
    }

    /** One round of the page loop; the child goes from h to h' pages. */
    method SweepRound(ghost s: State, ghost s': State, ghost h: int, ghost h': int, ghost roots: seq<nat>, ghost t: nat,
            ghost c: nat, ghost v: nat, pgd: nat, childPgd: nat, addr: nat)
      returns (ok: bool)
      requires SweepsTo(s, s', t, c, v) && Matches(s, roots) && t < |roots| && c < |roots|
      requires h == Held(s, c) && h' == Held(s', c)
      requires pgd == roots[t] && childPgd == roots[c] && addr == v * PGSIZE && v <= USER_VPNS
      modifies mmu, mmu.buddy, mmu.buddy.bitmap, mmu.buddy.refCnt
      ensures mmu.Took(ok, old(mmu.taken), 2 * (h' - h))
      ensures ok ==> Matches(s', roots)
    {
      ok := SweepOne(s, roots, t, c, v, pgd, childPgd, addr);
    }

    /** Round i. */
    method SweepNextPage(ghost states: seq<State>, ghost held: seq<int>, ghost roots: seq<nat>, ghost t: nat, ghost c: nat,
            ghost lo: nat, ghost last: nat, ghost i: nat, pgd: nat, childPgd: nat, addr: nat)
      returns (ok: bool)
      requires SweepStates(states, t, c, lo, last) && HeldIs(held, states, c) && lo + i <= last <= USER_VPNS
      requires Matches(states[i], roots) && t < |roots| && c < |roots|
      requires pgd == roots[t] && childPgd == roots[c] && addr == (lo + i) * PGSIZE
      modifies mmu, mmu.buddy, mmu.buddy.bitmap, mmu.buddy.refCnt
      ensures mmu.Took(ok, old(mmu.taken), 2 * (held[i + 1] - held[i]))
      ensures ok ==> Matches(states[i + 1], roots)
    {
      SweepFacts(states, held, t, c, lo, last, i);
      ok := SweepRound(states[i], states[i + 1], held[i], held[i + 1], roots, t, c, lo + i, pgd, childPgd, addr);
    }

    /** The page loop of fork's sweep over one area, along the states of the
        value machine's sweep, in which the child holds more and more pages. */
    method SweepPages(ghost states: seq<State>, ghost held: seq<int>, ghost final: State, ghost roots: seq<nat>,
            ghost t: nat, ghost c: nat, ghost lo: nat, ghost last: nat, pgd: nat, childPgd: nat, from: nat, limit: nat)
      returns (ok: bool)
      requires SweepStates(states, t, c, lo, last) && Matches(states[0], roots) && t < |roots| && c < |roots|
      requires HeldIs(held, states, c) && final == states[last - lo + 1]
      requires pgd == roots[t] && childPgd == roots[c]
      requires from == lo * PGSIZE && limit == last * PGSIZE && last <= USER_VPNS
      modifies mmu, mmu.buddy, mmu.buddy.bitmap, mmu.buddy.refCnt
      ensures mmu.Took(ok, old(mmu.taken), 2 * (held[last - lo + 1] - held[0]))
      ensures ok ==> Matches(final, roots)
    {
      ok := true;
      var addr := from;
      ghost var i := 0;
      while ok && addr <= limit
        invariant addr == (lo + i) * PGSIZE && 0 <= i <= last - lo + 1
        invariant mmu.Took(ok, old(mmu.taken), 2 * (held[i] - held[0]))
        invariant ok ==> Matches(states[i], roots)
        decreases ok, last - lo + 1 - i
      {
        ok := SweepNextPage(states, held, roots, t, c, lo, last, i, pgd, childPgd, addr);
        addr := addr + PGSIZE;
        i := i + 1;
      }
      HeldGrows(held, states, c, i);
      if ok { SweptAll(states, final, roots, i, last - lo + 1); }
    }

    lemma SweptAll(states: seq<State>, final: State, roots: seq<nat>, i: nat, count: nat)
      requires i == count < |states| && Matches(states[i], roots) && final == states[count]
      ensures Matches(final, roots)
    {
    }

    /** One area of fork's list loop: a copy of the node for the child, then the
        sweep over its pages. */
    method ForkArea(ghost s: State, ghost a: Area, ghost states: seq<State>, ghost held: seq<int>, ghost final: State,
            ghost roots: seq<nat>, ghost t: nat, ghost c: nat, pgd: nat, childPgd: nat, vma: VmArea, mm: Mm)
      returns (ok: bool)
      requires Matches(s, roots) && FramesOk(s) && IsTask(s, t) && IsTask(s, c) && t < |roots| && c < |roots|
      requires pgd == roots[t] && childPgd == roots[c] && vma.Value() == a && a.start <= a.end <= USER_END
      requires SweepStates(states, t, c, a.start / PGSIZE, a.end / PGSIZE) && states[0] == AddArea(s, c, a)
      requires final == states[a.end / PGSIZE - a.start / PGSIZE + 1]
      requires HeldIs(held, states, c) && held[0] <= held[a.end / PGSIZE - a.start / PGSIZE + 1]
      requires mm.Valid() && vma !in mm.nodes
      modifies mmu, mmu.buddy, mmu.buddy.bitmap, mmu.buddy.refCnt, mm, mm.nodes
      ensures mmu.Took(ok, old(mmu.taken), 1 + 2 * (held[a.end / PGSIZE - a.start / PGSIZE + 1] - held[0]))
      ensures ok ==> Matches(final, roots)
      ensures ok ==> mm.Valid() && mm.nodes != [] && fresh(mm.nodes[0]) && mm.nodes == [mm.nodes[0]] + old(mm.nodes)
      ensures ok ==> mm.areas == [a] + old(mm.areas)
    {
      ok := CopyNode(s, roots, vma, mm);
      if ok {
        ok := SweepPages(states, held, final, roots, t, c, a.start / PGSIZE, a.end / PGSIZE, pgd, childPgd,
                         vma.start / PGSIZE * PGSIZE, vma.end / PGSIZE * PGSIZE);
      }
    }

    /** The copy of the parent's node, in a page of its own. */
    method CopyNode(ghost s: State, ghost roots: seq<nat>, vma: VmArea, mm: Mm) returns (ok: bool)
      requires Matches(s, roots) && s.data.Keys <= s.refs.Keys && mm.Valid() && vma !in mm.nodes
      modifies mmu`taken, mmu`log, mmu.buddy, mmu.buddy.bitmap, mmu.buddy.refCnt, mm, mm.nodes
      ensures mmu.Took(ok, old(mmu.taken), 1)
      ensures ok ==> Matches(s, roots)
      ensures ok ==> mm.Valid() && mm.nodes != [] && fresh(mm.nodes[0]) && mm.nodes == [mm.nodes[0]] + old(mm.nodes)
      ensures ok ==> mm.areas == [old(vma.Value())] + old(mm.areas)
    {
      var node := FreshFrame(s, roots);
      ok := node != 0;
      if ok {
        mm.AddCopy(vma);
      }
    }

    /** The nodes are linked in order and hold these areas. */
    static ghost predicate Chain(list: seq<VmArea>, areas: seq<Area>)
      reads list
    {
      var ok :=
        && |list| == |areas|
        && forall k {:trigger NodeIs(list, areas, k)} :: 0 <= k < |list| ==> NodeIs(list, areas, k);
      ok
    }

    static ghost predicate NodeIs(list: seq<VmArea>, areas: seq<Area>, k: nat)
      requires k < |list| == |areas|
      reads list
    {
      list[k].Value() == areas[k] && list[k].next == if k + 1 < |list| then list[k + 1] else null
    }

    static lemma ChainAt(list: seq<VmArea>, areas: seq<Area>, k: nat)
      requires Chain(list, areas) && k < |areas|
      ensures |list| == |areas| && list[k].Value() == areas[k]
      ensures list[k].next == if k + 1 < |areas| then list[k + 1] else null
    {
      assert NodeIs(list, areas, k);
    }

    /** Round k of fork's list loop. */
    method ForkRound(ghost s: State, ghost roots: seq<nat>, ghost t: nat, ghost k: nat, pgd: nat, childPgd: nat,
            vma: VmArea, mm: Mm)
      returns (ok: bool)
      requires Inv(s) && t < |s.tables| < |roots| && k < |s.areas[t]|
      requires Matches(ForkAt(s, t, k), roots)
      requires pgd == roots[t] && childPgd == roots[|s.tables|] && vma.Value() == s.areas[t][k]
      requires mm.Valid() && vma !in mm.nodes && mm.areas == ForkAt(s, t, k).areas[|s.tables|]
      modifies mmu, mmu.buddy, mmu.buddy.bitmap, mmu.buddy.refCnt, mm, mm.nodes
      ensures mmu.Took(ok, old(mmu.taken), 1 + 2 * (Held(ForkAt(s, t, k + 1), |s.tables|) - Held(ForkAt(s, t, k), |s.tables|)))
      ensures ok ==> Matches(ForkAt(s, t, k + 1), roots)
      ensures ok ==> mm.Valid() && mm.nodes != [] && fresh(mm.nodes[0]) && mm.nodes == [mm.nodes[0]] + old(mm.nodes)
      ensures ok ==> mm.areas == ForkAt(s, t, k + 1).areas[|s.tables|]
    {
      ghost var states, held := ForkPrefix(s, t, k);
      ok := ForkArea(ForkAt(s, t, k), s.areas[t][k], states, held, ForkAt(s, t, k + 1), roots, t, |s.tables|, pgd, childPgd, vma, mm);
    }

    /** do_fork_cow up to the list loop: pages for the child's task_struct and
        root, an empty list. */
    method ForkStart(ghost s: State, ghost roots: seq<nat>) returns (pgd: nat)
      requires Matches(s, roots) && s.data.Keys <= s.refs.Keys
      modifies mmu, mmu.buddy, mmu.buddy.bitmap, mmu.buddy.refCnt
      ensures mmu.Took(pgd != 0, old(mmu.taken), 2)
      ensures pgd != 0 ==> Matches(Newborn(s), roots + [pgd])
    {
      var ptask := FreshFrame(s, roots);
      if ptask == 0 {
        return 0;
      }
      pgd := NewTable(s, roots);
    }

    method NewTable(ghost s: State, ghost roots: seq<nat>) returns (pgd: nat)
      requires Matches(s, roots)
      modifies mmu, mmu.buddy, mmu.buddy.bitmap, mmu.buddy.refCnt
      ensures mmu.Took(pgd != 0, old(mmu.taken), 1)
      ensures pgd != 0 ==> Matches(Newborn(s), roots + [pgd])
    {
      ghost var t0, owner0, taken0, counts0 := mmu.tables, mmu.owner, mmu.taken, mmu.buddy.refCnt[..];
      pgd := mmu.NewRoot();
      if pgd != 0 {
        SameMatches(s.tables, t0, mmu.tables, owner0, roots, mmu.kernel);
        HalvesSame(t0, mmu.tables, owner0, roots, mmu.kernel, half);
        HalfAdded(t0, mmu.tables, roots, mmu.kernel, half, pgd);
        RootAdded(s.tables, t0, mmu.tables, owner0, roots, mmu.kernel, pgd);
        RefsAfterHandOut(s.refs, counts0, mmu.buddy.refCnt[..], taken0, mmu.taken, owner0, mmu.owner);
      }
    }

    /** vma is node k of the list; past its end, null. */
    static ghost predicate At(list: seq<VmArea>, areas: seq<Area>, k: nat, vma: VmArea?)
      reads list
    {
      var ok := k <= |areas| && Chain(list, areas) && vma == if k < |list| then list[k] else null;
      ok
    }

    static lemma AtEnd(list: seq<VmArea>, areas: seq<Area>, k: nat)
      requires At(list, areas, k, null)
      ensures k == |areas|
    {
    }

    /** The child's list after k rounds. */
    static ghost predicate Copied(s: State, t: nat, k: nat, mm: Mm)
      requires IsTask(s, t) && k <= |s.areas[t]|
      reads mm, mm.nodes
    {
      var ok := mm.Valid() && mm.areas == ForkAt(s, t, k).areas[|s.tables|];
      ok
    }

    /** k rounds are done and vma is the next node; the child's list is made of
        nodes of `made`, and n pages are the most they have taken. */
    ghost predicate RoundsDone(s: State, roots: seq<nat>, t: nat, list: seq<VmArea>, k: nat, vma: VmArea?, mm: Mm,
            made: set<VmArea>, n: nat)
      requires IsTask(s, t)
      reads this`data, list, mm, mm.nodes, mmu, mmu.buddy, mmu.buddy.bitmap, mmu.buddy.refCnt
    {
      var ok := At(list, s.areas[t], k, vma) && Copied(s, t, k, mm) && Matches(ForkAt(s, t, k), roots)
                && n == ForkedPages(s, t, k) && forall node :: node in mm.nodes ==> node in made;
      ok
    }

    /** Round k, from one node to the next. */
    method NextArea(ghost s: State, ghost roots: seq<nat>, ghost t: nat, ghost list: seq<VmArea>, ghost k: nat,
            ghost made0: set<VmArea>, ghost n0: nat, pgdParent: nat, pgd: nat, vma: VmArea, mm: Mm)
      returns (ok: bool, next: VmArea?, ghost made: set<VmArea>, ghost n: nat)
      requires Inv(s) && t < |s.tables| < |roots| && RoundsDone(s, roots, t, list, k, vma, mm, made0, n0)
      requires pgdParent == roots[t] && pgd == roots[|s.tables|]
      requires forall n :: n in list ==> n !in made0
      modifies mmu, mmu.buddy, mmu.buddy.bitmap, mmu.buddy.refCnt, mm, made0
      ensures k < |list| && n <= |s.areas[t]| + 2 * |s.tables[t]| && mmu.Took(ok, old(mmu.taken), n - n0)
      ensures ok ==> RoundsDone(s, roots, t, list, k + 1, next, mm, made, n)
      ensures fresh(made - made0)
    {
      ChainAt(list, s.areas[t], k);
      ForkedMore(s, t, k);
      n := ForkedPages(s, t, k + 1);
      ok := ForkRound(s, roots, t, k, pgdParent, pgd, vma, mm);
      next := vma.next;
      made := if ok then made0 + {mm.nodes[0]} else made0;
      forall j: nat | j < |list|
        ensures NodeIs(list, s.areas[t], j)
      {
        assert list[j] in list && old(NodeIs(list, s.areas[t], j));
      }
    }

    /** do_fork_cow's list loop, from the parent's first node. */
    method ForkLoop(ghost s: State, ghost roots: seq<nat>, ghost t: nat, ghost list: seq<VmArea>, pgdParent: nat,
            pgd: nat, first: VmArea?, mm: Mm)
      returns (ok: bool, ghost k: nat, ghost made: set<VmArea>, ghost n: nat)
      requires Inv(s) && t < |s.tables| && |roots| == |s.tables| + 1
      requires pgdParent == roots[t] && pgd == roots[|s.tables|]
      requires RoundsDone(s, roots, t, list, 0, first, mm, {}, 0)
      modifies mmu, mmu.buddy, mmu.buddy.bitmap, mmu.buddy.refCnt, mm
      ensures mmu.Took(ok, old(mmu.taken), n) && n <= |s.areas[t]| + 2 * |s.tables[t]|
      ensures ok ==> RoundsDone(s, roots, t, list, k, null, mm, made, n)
      ensures fresh(made)
    {
      var vma := first;
      ok := true;
      k, made, n := 0, {}, 0;
      while ok && vma != null
        invariant mmu.Took(ok, old(mmu.taken), n) && n <= |s.areas[t]| + 2 * |s.tables[t]|
        invariant ok ==> RoundsDone(s, roots, t, list, k, vma, mm, made, n)
        invariant fresh(made)
        decreases ok, |list| - k
      {
        ok, vma, made, n := NextArea(s, roots, t, list, k, made, n, pgdParent, pgd, vma, mm);
        k := k + 1;
      }
    }

    /** The child's list and page table. */
    method ForkLists(ghost s: State, ghost roots: seq<nat>, ghost t: nat, pgd: nat) returns (ok: bool, mm: Mm)
      requires Inv(s) && t == current < |task| == |s.tables| && |roots| == |task| + 1
      requires Matches(Newborn(s), roots) && roots[t] == task[t].pgd && roots[|task|] == pgd
      requires ListsMatch(s.areas)
      modifies mmu, mmu.buddy, mmu.buddy.bitmap, mmu.buddy.refCnt
      ensures mmu.Took(ok, old(mmu.taken), |s.areas[t]| + 2 * |s.tables[t]|)
      ensures fresh(mm) && ListsMatch(s.areas)
      ensures ok ==> Matches(Fork(s, t), roots) && mm.Valid() && fresh(mm.nodes) && mm.areas == Fork(s, t).areas[|task|]
    {
      mm := new Mm();
      ListChain(t, s.areas);
      FirstRound(s, roots, t, task[t].mm.nodes, task[t].mm.mmap, mm);
      ghost var k, made, n;
      ok, k, made, n := ForkLoop(s, roots, t, task[t].mm.nodes, task[current].pgd, pgd, task[current].mm.mmap, mm);
      if ok { LastRound(s, roots, t, task[t].mm.nodes, k, mm, made, n); }
    }

    lemma FirstRound(s: State, roots: seq<nat>, t: nat, list: seq<VmArea>, first: VmArea?, mm: Mm)
      requires Inv(s) && t < |s.tables| && Matches(Newborn(s), roots) && At(list, s.areas[t], 0, first)
      requires mm.Valid() && mm.nodes == []
      ensures RoundsDone(s, roots, t, list, 0, first, mm, {}, 0)
    {
      ForkedBounds(s, t, 0);
      ForkAtEnds(s, t);
    }

    lemma LastRound(s: State, roots: seq<nat>, t: nat, list: seq<VmArea>, k: nat, mm: Mm, made: set<VmArea>, n: nat)
      requires IsTask(s, t) && RoundsDone(s, roots, t, list, k, null, mm, made, n)
      ensures forall i :: 0 <= i < |mm.nodes| ==> mm.nodes[i] in made
      ensures Matches(Fork(s, t), roots) && mm.Valid() && mm.areas == Fork(s, t).areas[|s.tables|]
    {
      AtEnd(list, s.areas[t], k);
      ForkAtEnds(s, t);
    }

    lemma ListChain(t: nat, areas: seq<seq<Area>>)
      requires ListsMatch(areas) && t < |task| == |areas|
      ensures Chain(task[t].mm.nodes, areas[t])
      ensures task[t].mm.mmap == if |areas[t]| > 0 then task[t].mm.nodes[0] else null
    {
      assert ListMatches(t, areas[t]);
      assert forall k :: 0 <= k < |areas[t]| ==> areas[t][k] == task[t].mm.nodes[k].Value();
    }

    /** task[nr_tasks] = ptask */
    method AddTask(ptask: TaskStruct, ghost s: State, ghost areas: seq<seq<Area>>)
      requires ListsMatch(areas) && ptask.mm.Valid() && Matches(s, Roots(task) + [ptask.pgd])
      modifies this`task, this`mms, this`nodes
      ensures task == old(task) + [ptask]
      ensures ListsMatch(areas + [ptask.mm.areas]) && Matches(s, Roots(task))
    {
      ghost var n := |task|;
      assert forall i :: 0 <= i < n ==> ListMatches(i, areas[i]);
      assert Roots(task + [ptask]) == Roots(task) + [ptask.pgd];
      task := task + [ptask];
      mms := mms + {ptask.mm};
      nodes := nodes + (set n | n in ptask.mm.nodes);
    }

    /** The child's memory: page table and list. */
    method ForkMemory() returns (ok: bool, pgd: nat, mm: Mm)
      requires Valid() && IsTask(view, current)
      modifies mmu, mmu.buddy, mmu.buddy.bitmap, mmu.buddy.refCnt
      ensures mmu.Took(ok, old(mmu.taken), ForkPages(view, current))
      ensures fresh(mm)
      ensures ok ==> Matches(Fork(view, current), Roots(task) + [pgd]) && ListsMatch(view.areas)
                     && mm.Valid() && fresh(mm.nodes) && mm.areas == Fork(view, current).areas[|task|]
    {
      pgd := ForkStart(view, Roots(task));
      if pgd == 0 {
        mm := new Mm();
        return false, pgd, mm;
      }
      ok, mm := ForkLists(view, Roots(task) + [pgd], current, pgd);
    }

    /** do_fork_cow is the Fork step of the value machine. The new task gets the
        next slot of the task array, which must exist, the slot's index as its
        pid, and a list of fresh nodes only, the reversal of the parent's; list
        and page table of every other task stay its own, the parent's list node
        by node. Slot 0 belongs to the idle task, which is not in `task`. */
    method DoForkCow() returns (outcome: Outcome, pid: nat)
      requires Valid() && |task| + 1 < Scheduling.NR_TASKS
      modifies this, mmu, mmu.buddy, mmu.buddy.bitmap, mmu.buddy.refCnt
      ensures outcome == Served || outcome == OutOfMemory
      ensures IsTask(old(view), old(current))
              && mmu.Took(outcome == Served, old(mmu.taken), ForkPages(old(view), old(current)))
      ensures outcome == Served ==>
                && Valid() && view == Fork(old(view), old(current))
                && current == old(current) && |task| == |old(task)| + 1 && task == old(task) + [task[|old(task)|]]
                && pid == |old(task)| + 1
                && fresh(task[|old(task)|]) && fresh(task[|old(task)|].mm) && fresh(task[|old(task)|].mm.nodes)
                && task[|old(task)|].mm.Valid() && task[|old(task)|].mm.areas == Reverse(old(task[current].mm.areas))
    {
      pid := |task| + 1;
      ghost var s, t := view, current;
      assert ListMatches(t, s.areas[t]);
      var ok, pgd, mm := ForkMemory();
      if !ok {
        return OutOfMemory, pid;
      }
      Enlist(pgd, mm, s, Fork(s, t), t);
      outcome := Served;
    }

    /** The end of do_fork_cow: the finished child becomes the last task. */
    method Enlist(pgd: nat, mm: Mm, ghost s: State, ghost s': State, ghost t: nat)
      requires Inv(s) && t < |s.tables| && AllFillOwnPage(s.areas) && ListsMatch(s.areas)
      requires current < |task| && |task| + 1 < Scheduling.NR_TASKS
      requires s' == Fork(s, t) && mm.Valid() && mm.areas == s'.areas[|s.tables|] && Matches(s', Roots(task) + [pgd])
      modifies this`task, this`mms, this`nodes, this`view
      ensures Valid() && view == s' && |task| == |old(task)| + 1 && task == old(task) + [task[|old(task)|]]
      ensures fresh(task[|old(task)|]) && task[|old(task)|].mm == mm && mm.Valid() && mm.areas == Reverse(s.areas[t])
    {
      var ptask := new TaskStruct(pgd, mm);
      ForkedLists(s, t);
      ForkKeepsInv(s, t);
      AddTask(ptask, s', s.areas);
      Commit(s');
    }

    // --------------------------------------------------------- user code

    /** What the hardware translates an address of the current task to. */
    function UserPage(addr: nat): Translation
      requires current < |task|
      reads this, mmu
    {
      Translate(mmu.tables, task[current].pgd, addr)
    }

    lemma UserPageMatches(addr: nat)
      requires Valid() && addr < USER_END
      ensures IsTask(view, current)
      ensures var table, v, p := view.tables[current], addr / PGSIZE, UserPage(addr);
              && (p.Found? ==> v in table && table[v] == Pte(p.ppn, p.perm))
              && (v in table && IsPage(table[v].perm) ==> p.Found?)
    {
      var pgd := task[current].pgd;
      assert Roots(task)[current] == pgd;
      MatchedEntry(view.tables, mmu.tables, Roots(task), mmu.kernel, current, addr / PGSIZE);
      RootOf(addr);
      mmu.HardwareAgrees(pgd, addr);
      UserTranslation(view.tables[current], addr / PGSIZE, Entry(mmu.tables, pgd, addr / PGSIZE), UserPage(addr));
    }

    lemma RootOf(addr: nat)
      requires Valid() && addr < USER_END
      ensures IsRoot(mmu.owner, task[current].pgd) && mmu.Valid() && CanonicalAddress(addr) && Vpn(addr) == addr / PGSIZE
    {
      assert Roots(task)[current] == task[current].pgd;
    }

    /** A load, or an instruction fetch, by user code through its page table, as
        the hardware walks it; None is a page fault. */
    method UserLoad(addr: nat, fetch: bool) returns (value: Option<Byte>)
      requires Valid() && addr < USER_END
      ensures IsTask(view, current)
      ensures value.Some? <==> addr / PGSIZE in view.tables[current] && Accessible(view.tables[current][addr / PGSIZE].perm, fetch)
      ensures value.Some? ==> Enabled(view, Read(current, addr, value.value))
    {
      UserPageMatches(addr);
      var p := UserPage(addr);
      if p.PageFault? || !Accessible(p.perm, fetch) {
        return None;
      }
      value := Some(DataAt(data, p.ppn)[addr % PGSIZE]);
    }

    /** One byte of the frame that the current page leads to. */
    method PutByte(ghost s: State, ghost s': State, ghost roots: seq<nat>, ghost t: nat, addr: nat, b: Byte, f: nat)
      requires Matches(s, roots) && IsTask(s, t) && addr / PGSIZE in s.tables[t] && s.tables[t][addr / PGSIZE].frame == f
      requires s' == Store(s, t, addr, b) && ListsMatch(s.areas)
      modifies this`data
      ensures Matches(s', roots) && s'.areas == s.areas && ListsMatch(s'.areas)
    {
      data := WithByte(data, f, addr % PGSIZE, b);
    }

    ghost method FollowStore(s': State, addr: nat, b: Byte)
      requires Inv(view) && IsTask(view, current) && addr / PGSIZE in view.tables[current] && s' == Store(view, current, addr, b)
      requires AllFillOwnPage(view.areas) && current < |task| < Scheduling.NR_TASKS
      requires Matches(s', Roots(task)) && ListsMatch(s'.areas)
      modifies this`view
      ensures Valid() && view == s'
    {
      StoreKeepsInv(view, current, addr, b);
      Commit(s');
    }

    method StoreTo(addr: nat, b: Byte, f: nat, ghost s': State)
      requires Valid() && IsTask(view, current)
      requires addr / PGSIZE in view.tables[current] && view.tables[current][addr / PGSIZE].frame == f
      requires s' == Store(view, current, addr, b)
      modifies this`data, this`view
      ensures Valid() && view == s'
    {
      PutByte(view, s', Roots(task), current, addr, b, f);
      FollowStore(s', addr, b);
    }

    /** A store likewise: done, it is the Store step of the value machine. */
    method UserStore(addr: nat, b: Byte) returns (done: bool)
      requires Valid() && addr < USER_END
      modifies this`data, this`view
      ensures Valid() && IsTask(old(view), current)
      ensures done <==> Enabled(old(view), Write(current, addr, b))
      ensures view == if done then Store(old(view), current, addr, b) else old(view)
    {
      UserPageMatches(addr);
      var p := UserPage(addr);
      if p.PageFault? || !Storable(p.perm) {
        return false;
      }
      StoreTo(addr, b, p.ppn, Store(view, current, addr, b));
      done := true;
    }

    /** The scheduler makes another task current. */
    method SwitchTask(i: nat)
      requires Valid() && i < |task|
      modifies this`current
      ensures Valid() && current == i
    {
      current := i;
    }
  }
}
