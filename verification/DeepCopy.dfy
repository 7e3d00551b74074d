/** The copy-on-write machine refines the plain one: every task has private
    memory, from the start filled as the handler fills pages, and fork copies
    all of it. */
module DeepCopy {
  import opened Bits
  import opened Options
  import opened PageTable
  import opened Areas
  import opened Cow
  import opened CowInvariant

  /** A task's private memory: contents of every page its areas span. */
  type Memory = map<nat, Page>

  function Poke(memory: Memory, v: nat, i: nat, b: Byte): Memory
    requires v in memory && i < PGSIZE
  {
    var page: Page := memory[v][i := b];
    memory[v := page]
  }

  /** What page v of task t holds: its frame, or what a fault will put there. */
  ghost function View(disk: Ramdisk, s: State, t: nat, v: nat): Page
    requires IsTask(s, t) && Spanned(s.areas[t], v)
  {
    if v in s.tables[t] then DataAt(s.data, s.tables[t][v].frame)
    else InitialPage(disk, AreaOf(s.areas[t], v), v)
  }

  ghost function MemoryOf(disk: Ramdisk, s: State, t: nat): Memory
    requires IsTask(s, t)
  {
    map v: nat | v < USER_VPNS && Spanned(s.areas[t], v) :: View(disk, s, t, v)
  }

  /** The abstract state: one private memory for each task. */
  ghost function Abs(disk: Ramdisk, s: State): seq<Memory>
    requires |s.areas| == |s.tables|
  {
    seq(|s.tables|, (t: nat) requires t < |s.tables| => MemoryOf(disk, s, t))
  }

  datatype Event =
    | Read(task: nat, addr: nat, value: Byte)
    | Write(task: nat, addr: nat, value: Byte)
    | Trap(task: nat, addr: nat, frame: nat)
    | Clone(task: nat)

  // ----------------------------------------------------------- the two machines

  // What user code may do with a page, by the bits R, W, X and U of its entry
  // (section 4.3.1 of the RISC-V Privileged Architecture, version 20211203:
  // an entry with W and without R is reserved, every access through it faults).

  predicate Readable(perm: nat) { perm / 2 % 2 == 1 && perm / 16 % 2 == 1 }

  predicate Storable(perm: nat) { Writable(perm) && Readable(perm) }

  predicate Fetchable(perm: nat) {
    perm / 8 % 2 == 1 && perm / 16 % 2 == 1 && (Writable(perm) ==> Readable(perm))
  }

  /** For a load, or for an instruction fetch */
  predicate Accessible(perm: nat, fetch: bool) { if fetch then Fetchable(perm) else Readable(perm) }

  /** User code reads, fetches and writes through its page table; a trap may hit any
      address of an area, mapped or not, and is served with a free frame. A
      trap outside every area never returns. */
  ghost predicate Enabled(s: State, e: Event) {
    IsTask(s, e.task) &&
    match e
    case Read(t, addr, b) =>
      addr / PGSIZE in s.tables[t]
      && (Readable(s.tables[t][addr / PGSIZE].perm) || Fetchable(s.tables[t][addr / PGSIZE].perm))
      && DataAt(s.data, s.tables[t][addr / PGSIZE].frame)[addr % PGSIZE] == b
    case Write(t, addr, _) => addr / PGSIZE in s.tables[t] && Storable(s.tables[t][addr / PGSIZE].perm)
    case Trap(t, addr, f) => FindVma(s.areas[t], addr).Some? && IsFree(s, f)
    case Clone(_) => true
  }

  ghost function Apply(disk: Ramdisk, s: State, e: Event): State
    requires Enabled(s, e)
  {
    match e
    case Read(_, _, _) => s
    case Write(t, addr, b) => Store(s, t, addr, b)
    case Trap(t, addr, f) => Fault(disk, s, t, addr, f)
    case Clone(t) => Fork(s, t)
  }

  ghost predicate SpecEnabled(m: seq<Memory>, e: Event) {
    e.task < |m| &&
    match e
    case Read(t, addr, b) => addr / PGSIZE in m[t] && m[t][addr / PGSIZE][addr % PGSIZE] == b
    case Write(t, addr, _) => addr / PGSIZE in m[t]
    case Trap(_, _, _) => true
    case Clone(_) => true
  }

  /** Loads read and stores change the task's own memory, a trap is invisible,
      a fork adds a deep copy. */
  ghost function SpecApply(m: seq<Memory>, e: Event): seq<Memory>
    requires SpecEnabled(m, e)
  {
    match e
    case Read(_, _, _) => m
    case Write(t, addr, b) =>
      m[t := Poke(m[t], addr / PGSIZE, addr % PGSIZE, b)]
    case Trap(_, _, _) => m
    case Clone(t) => m + [m[t]]
  }

  ghost predicate CanRun(disk: Ramdisk, s: State, es: seq<Event>)
    decreases |es|
  {
    es != [] ==> Enabled(s, es[0]) && CanRun(disk, Apply(disk, s, es[0]), es[1..])
  }

  ghost function Final(disk: Ramdisk, s: State, es: seq<Event>): State
    requires CanRun(disk, s, es)
    decreases |es|
  {
    if es == [] then s else Final(disk, Apply(disk, s, es[0]), es[1..])
  }

  ghost predicate SpecCanRun(m: seq<Memory>, es: seq<Event>)
    decreases |es|
  {
    es != [] ==> SpecEnabled(m, es[0]) && SpecCanRun(SpecApply(m, es[0]), es[1..])
  }

  ghost function SpecFinal(m: seq<Memory>, es: seq<Event>): seq<Memory>
    requires SpecCanRun(m, es)
    decreases |es|
  {
    if es == [] then m else SpecFinal(SpecApply(m, es[0]), es[1..])
  }

  // ----------------------------------------------------------- one step

  lemma SameMemory(disk: Ramdisk, s: State, t: nat, s': State, t': nat)
    requires IsTask(s, t) && IsTask(s', t')
    requires forall v: nat :: Spanned(s.areas[t], v) <==> Spanned(s'.areas[t'], v)
    requires forall v: nat :: Spanned(s.areas[t], v) && Spanned(s'.areas[t'], v) ==> View(disk, s, t, v) == View(disk, s', t', v)
    ensures MemoryOf(disk, s, t) == MemoryOf(disk, s', t')
  {
  }

  lemma MappedSpanned(s: State, t: nat, v: nat)
    requires Inv(s) && t < |s.tables| && v in s.tables[t]
    ensures PteFits(s.areas[t], v, s.tables[t][v].perm) && Spanned(s.areas[t], v) && v < USER_VPNS
  {
    assert TaskOk(s.areas[t], s.tables[t]);
    assert PteFits(s.areas[t], v, s.tables[t][v].perm);
    SpannedLow(s.areas[t], v);
  }

  lemma SpannedLow(areas: seq<Area>, v: nat)
    requires WfAreas(areas) && Spanned(areas, v)
    ensures v < USER_VPNS
  {
    var k :| 0 <= k < |areas| && InPages(areas[k], v);
    assert areas[k].end <= USER_END;
  }

  /** The faulting page itself holds after the fault what it held before. */
  lemma FaultViewHere(disk: Ramdisk, s: State, t: nat, addr: nat, f: nat)
    requires Inv(s) && t < |s.tables| && IsFree(s, f) && Spanned(s.areas[t], addr / PGSIZE)
    ensures View(disk, Fault(disk, s, t, addr, f), t, addr / PGSIZE) == View(disk, s, t, addr / PGSIZE)
  {
    var v := addr / PGSIZE;
    if FindVma(s.areas[t], addr).Some? {
      assert TaskOk(s.areas[t], s.tables[t]);
      FoundIsAreaOf(s.areas[t], addr);
      if v in s.tables[t] {
        MappedCounted(s, t, v);
      } else {
        var a := AreaOf(s.areas[t], v);
        assert f !in s.data;
        if IsAnon(a) { assert InitialPage(disk, a, v) == ZeroPage(); }
      }
    }
  }

  /** A fault writes no frame but the fresh one and no entry but its own. */
  lemma FaultFrame(disk: Ramdisk, s: State, t: nat, addr: nat, f: nat)
    requires IsTask(s, t)
    ensures var s' := Fault(disk, s, t, addr, f);
            && s'.areas == s.areas && |s'.tables| == |s.tables|
            && (forall x :: 0 <= x < |s.tables| && x != t ==> s'.tables[x] == s.tables[x])
            && (forall v {:trigger s'.tables[t][v]} {:trigger v in s'.tables[t]} :: v != addr / PGSIZE ==>
                  (v in s'.tables[t] <==> v in s.tables[t]) && (v in s.tables[t] ==> s'.tables[t][v] == s.tables[t][v]))
            && (forall g: nat :: g != f ==> DataAt(s'.data, g) == DataAt(s.data, g))
  {
  }

  /** Every other page, of any task, keeps its entry and its contents. */
  lemma FaultViewElsewhere(disk: Ramdisk, s: State, t: nat, addr: nat, f: nat, x: nat, v: nat)
    requires Inv(s) && t < |s.tables| && IsFree(s, f) && x < |s.tables| && Spanned(s.areas[x], v)
    requires x != t || v != addr / PGSIZE
    ensures View(disk, Fault(disk, s, t, addr, f), x, v) == View(disk, s, x, v)
  {
    FaultFrame(disk, s, t, addr, f);
    var s' := Fault(disk, s, t, addr, f);
    assert v in s'.tables[x] <==> v in s.tables[x];
    if v in s.tables[x] {
      assert s'.tables[x][v] == s.tables[x][v];
      MappedCounted(s, x, v);
    }
  }

  /** A page fault, demand fill or copy, is a stuttering step. */
  lemma FaultStutters(disk: Ramdisk, s: State, t: nat, addr: nat, f: nat)
    requires Inv(s) && t < |s.tables| && IsFree(s, f)
    ensures |Fault(disk, s, t, addr, f).areas| == |Fault(disk, s, t, addr, f).tables|
    ensures Abs(disk, Fault(disk, s, t, addr, f)) == Abs(disk, s)
  {
    var s' := Fault(disk, s, t, addr, f);
    assert |s'.tables| == |s.tables| && s'.areas == s.areas;
    forall x: nat | x < |s.tables|
      ensures MemoryOf(disk, s', x) == MemoryOf(disk, s, x)
    {
      forall v: nat | Spanned(s.areas[x], v)
        ensures View(disk, s', x, v) == View(disk, s, x, v)
      {
        if x == t && v == addr / PGSIZE {
          FaultViewHere(disk, s, t, addr, f);
        } else {
          FaultViewElsewhere(disk, s, t, addr, f, x, v);
        }
      }
      SameMemory(disk, s, x, s', x);
    }
  }

  lemma StoreView(disk: Ramdisk, s: State, t: nat, addr: nat, b: Byte, x: nat, v: nat)
    requires Inv(s) && t < |s.tables| && addr / PGSIZE in s.tables[t] && Writable(s.tables[t][addr / PGSIZE].perm)
    requires x < |s.tables| && Spanned(s.areas[x], v) && Spanned(s.areas[t], addr / PGSIZE)
    ensures View(disk, Store(s, t, addr, b), x, v)
            == if x == t && v == addr / PGSIZE then View(disk, s, t, v)[addr % PGSIZE := b] else View(disk, s, x, v)
  {
    if v in s.tables[x] && s.tables[x][v].frame == s.tables[t][addr / PGSIZE].frame {
      WritableAlone(s, t, addr / PGSIZE, x, v);
    }
  }

  lemma PokedMemory(disk: Ramdisk, s: State, s': State, t: nat, w: nat, i: nat, b: Byte)
    requires IsTask(s, t) && IsTask(s', t) && s'.areas[t] == s.areas[t]
    requires Spanned(s.areas[t], w) && w < USER_VPNS && i < PGSIZE
    requires forall v: nat :: Spanned(s.areas[t], v) ==>
               View(disk, s', t, v) == if v == w then View(disk, s, t, w)[i := b] else View(disk, s, t, v)
    ensures MemoryOf(disk, s', t) == Poke(MemoryOf(disk, s, t), w, i, b)
  {
  }

  lemma StoreMemory(disk: Ramdisk, s: State, t: nat, addr: nat, b: Byte, x: nat)
    requires Inv(s) && t < |s.tables| && addr / PGSIZE in s.tables[t] && Writable(s.tables[t][addr / PGSIZE].perm)
    requires x < |s.tables| && Spanned(s.areas[t], addr / PGSIZE) && addr / PGSIZE < USER_VPNS
    ensures MemoryOf(disk, Store(s, t, addr, b), x)
            == if x == t then Poke(MemoryOf(disk, s, t), addr / PGSIZE, addr % PGSIZE, b) else MemoryOf(disk, s, x)
  {
    var s', w, i := Store(s, t, addr, b), addr / PGSIZE, addr % PGSIZE;
    forall v: nat | Spanned(s.areas[x], v)
      ensures View(disk, s', x, v) == if x == t && v == w then View(disk, s, t, w)[i := b] else View(disk, s, x, v)
    {
      StoreView(disk, s, t, addr, b, x, v);
    }
    if x == t { PokedMemory(disk, s, s', t, w, i, b); } else { SameMemory(disk, s, x, s', x); }
  }

  /** A store changes one byte of the storing task's memory and nothing else. */
  lemma StoreIsPrivate(disk: Ramdisk, s: State, t: nat, addr: nat, b: Byte)
    requires Inv(s) && t < |s.tables| && addr / PGSIZE in s.tables[t] && Writable(s.tables[t][addr / PGSIZE].perm)
    ensures SpecEnabled(Abs(disk, s), Write(t, addr, b))
    ensures Abs(disk, Store(s, t, addr, b)) == SpecApply(Abs(disk, s), Write(t, addr, b))
  {
    var w, i := addr / PGSIZE, addr % PGSIZE;
    MappedSpanned(s, t, w);
    assert w in MemoryOf(disk, s, t);
    forall x: nat | x < |s.tables|
      ensures MemoryOf(disk, Store(s, t, addr, b), x) == if x == t then Poke(MemoryOf(disk, s, t), w, i, b) else MemoryOf(disk, s, x)
    {
      StoreMemory(disk, s, t, addr, b, x);
    }
    assert Abs(disk, Store(s, t, addr, b)) == Abs(disk, s)[t := Poke(MemoryOf(disk, s, t), w, i, b)];
  }

  /** A load returns the byte of the task's own memory. */
  lemma ReadIsPrivate(disk: Ramdisk, s: State, t: nat, addr: nat)
    requires Inv(s) && t < |s.tables| && addr / PGSIZE in s.tables[t]
    ensures SpecEnabled(Abs(disk, s), Read(t, addr, DataAt(s.data, s.tables[t][addr / PGSIZE].frame)[addr % PGSIZE]))
  {
    MappedSpanned(s, t, addr / PGSIZE);
    assert Abs(disk, s)[t] == MemoryOf(disk, s, t);
  }

  /** After a fork task x, the child or an old one, sees what y saw before. */
  lemma ForkedMemory(disk: Ramdisk, s: State, s': State, t: nat, x: nat)
    requires Inv(s) && Forked(s, t, s') && x <= |s.tables|
    ensures MemoryOf(disk, s', x) == MemoryOf(disk, s, if x == |s.tables| then t else x)
  {
    var y := if x == |s.tables| then t else x;
    assert TaskOk(s.areas[y], s.tables[y]);
    forall v: nat
      ensures Spanned(s'.areas[x], v) <==> Spanned(s.areas[y], v)
      ensures Spanned(s.areas[y], v) ==> View(disk, s', x, v) == View(disk, s, y, v)
    {
      ReverseSpans(s.areas[y], v);
    }
    SameMemory(disk, s, y, s', x);
  }

  /** Sharing every frame amounts to a deep copy of the parent's memory. */
  lemma ForkCopies(disk: Ramdisk, s: State, t: nat)
    requires Inv(s) && t < |s.tables|
    ensures |Fork(s, t).areas| == |Fork(s, t).tables|
    ensures Abs(disk, Fork(s, t)) == Abs(disk, s) + [Abs(disk, s)[t]]
  {
    ForkExact(s, t);
    ForkedAbs(disk, s, Fork(s, t), t);
  }

  lemma ForkedAbs(disk: Ramdisk, s: State, s': State, t: nat)
    requires Inv(s) && Forked(s, t, s')
    ensures Abs(disk, s') == Abs(disk, s) + [Abs(disk, s)[t]]
  {
    forall x: nat | x <= |s.tables|
      ensures MemoryOf(disk, s', x) == MemoryOf(disk, s, if x == |s.tables| then t else x)
    {
      ForkedMemory(disk, s, s', t, x);
    }
  }

  /** One step of the machine is one step of the specification. */
  lemma StepRefines(disk: Ramdisk, s: State, e: Event)
    requires Inv(s) && Enabled(s, e)
    ensures Inv(Apply(disk, s, e))
    ensures SpecEnabled(Abs(disk, s), e)
    ensures Abs(disk, Apply(disk, s, e)) == SpecApply(Abs(disk, s), e)
  {
    match e
    case Read(t, addr, b) =>
      ReadIsPrivate(disk, s, t, addr);
    case Write(t, addr, b) =>
      StoreKeepsInv(s, t, addr, b);
      StoreIsPrivate(disk, s, t, addr, b);
    case Trap(t, addr, f) =>
      FaultKeepsInv(disk, s, t, addr, f);
      FaultStutters(disk, s, t, addr, f);
    case Clone(t) =>
      ForkKeepsInv(s, t);
      ForkCopies(disk, s, t);
  }

  // ----------------------------------------------------------- whole runs

  /** Over every interleaving of reads, writes, faults and forks by any number
      of tasks, the machine behaves as if every task had private memory and
      fork copied all of it: the same sequence of events, with the same values
      read, is a run of the specification. */
  lemma {:induction false} CowRefinesDeepCopy(disk: Ramdisk, s: State, es: seq<Event>)
    requires Inv(s) && CanRun(disk, s, es)
    ensures Inv(Final(disk, s, es))
    ensures SpecCanRun(Abs(disk, s), es)
    ensures SpecFinal(Abs(disk, s), es) == Abs(disk, Final(disk, s, es))
    decreases |es|
  {
    if es != [] {
      StepRefines(disk, s, es[0]);
      CowRefinesDeepCopy(disk, Apply(disk, s, es[0]), es[1..]);
    }
  }

  /** Tasks as load_program leaves them: areas only, nothing mapped. */
  ghost function Boot(areas: seq<seq<Area>>): State {
    State(areas, seq(|areas|, (t: nat) => map[]), map[], map[])
  }

  /** The invariant, with exact counts, holds initially, and the memory that
      the refinement starts from is what the handler fills in, page by page. */
  lemma BootInv(disk: Ramdisk, areas: seq<seq<Area>>)
    requires forall t :: 0 <= t < |areas| ==> WfAreas(areas[t])
    ensures Inv(Boot(areas)) && Exact(Boot(areas))
    ensures forall t: nat, v: nat :: t < |areas| && v < USER_VPNS && Spanned(areas[t], v)
              ==> v in Abs(disk, Boot(areas))[t]
                  && Abs(disk, Boot(areas))[t][v] == InitialPage(disk, AreaOf(areas[t], v), v)
  {
    var s := Boot(areas);
    assert SlotsOk(s) && CountsOk(s);
    forall t: nat | t < |areas|
      ensures TaskOk(s.areas[t], s.tables[t])
    {
    }
  }

  /** A fault at an address whose area permits the access makes that very
      access possible: one fault suffices, for a first touch as for a write to
      a shared page. */
  lemma FaultMakesProgress(disk: Ramdisk, s: State, t: nat, addr: nat, f: nat)
    requires Inv(s) && t < |s.tables| && IsFree(s, f) && FindVma(s.areas[t], addr).Some?
    ensures var a := FindVma(s.areas[t], addr).value;
            var s', v := Fault(disk, s, t, addr, f), addr / PGSIZE;
            && IsTask(s', t) && v in s'.tables[t]
            && (CanRead(a) ==> Readable(s'.tables[t][v].perm))
            && (CanWrite(a) && CanRead(a) ==> Storable(s'.tables[t][v].perm))
            && (CanExec(a) && (CanWrite(a) ==> CanRead(a)) ==> Fetchable(s'.tables[t][v].perm))
  {
    var a, v := FindVma(s.areas[t], addr).value, addr / PGSIZE;
    assert TaskOk(s.areas[t], s.tables[t]);
    FoundIsAreaOf(s.areas[t], addr);
    AreaPermBits(a);
    if v in s.tables[t] {
      MappedSpanned(s, t, v);
      if CanWrite(a) && !Writable(s.tables[t][v].perm) { SetWFits(s.areas[t], v, s.tables[t][v].perm); }
    }
  }

  lemma AreaPermBits(a: Area)
    ensures CanRead(a) ==> Readable(AreaPerm(a)) && Readable(ClearW(AreaPerm(a)))
    ensures CanExec(a) && (CanWrite(a) ==> CanRead(a)) ==> Fetchable(AreaPerm(a)) && Fetchable(ClearW(AreaPerm(a)))
  {
  }
}
