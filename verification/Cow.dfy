/** The protocol over user frames as a value machine: tasks map virtual pages
    to frames, frames carry reference counts, fork shares, a fault fills in or
    copies. One function per kernel entry point, any task at any time. */
module Cow {
  import opened Bits
  import opened Options
  import opened PageTable
  import opened Areas

  datatype Pte = Pte(frame: nat, perm: nat)

  type Table = map<nat, Pte>

  /** Task t has the areas areas[t], in list order, and the user page table
      tables[t]; refs holds exactly the user frames ever handed out. */
  datatype State = State(areas: seq<seq<Area>>, tables: seq<Table>, data: map<nat, Page>, refs: map<nat, nat>)

  predicate IsTask(s: State, t: nat) {
    t < |s.tables| == |s.areas|
  }

  /** A frame never written since boot holds zeros. */
  function DataAt(data: map<nat, Page>, f: nat): Page {
    if f in data then data[f] else ZeroPage()
  }

  function WithByte(data: map<nat, Page>, f: nat, i: nat, b: Byte): map<nat, Page>
    requires i < PGSIZE
  {
    var page: Page := DataAt(data, f)[i := b];
    data[f := page]
  }

  function WithPte(tables: seq<Table>, t: nat, v: nat, p: Pte): seq<Table>
    requires t < |tables|
  {
    var table: Table := tables[t][v := p];
    tables[t := table]
  }

  /** What pte_entry_ret leaves and returns: the same page without its write bit. */
  function Cleared(p: Pte): Pte { p.(perm := ClearW(p.perm)) }

  /** get_page: one more owner, unless the frame is free. */
  function CountedOnce(refs: map<nat, nat>, f: nat): map<nat, nat> {
    if f in refs && refs[f] > 0 then refs[f := refs[f] + 1] else refs
  }

  // ----------------------------------------------------------- steps

  /** do_page_fault at an address, the next free frame being f. */
  function Fault(disk: Ramdisk, s: State, t: nat, addr: nat, f: nat): State
    requires IsTask(s, t)
  {
    var v := addr / PGSIZE;
    match FindVma(s.areas[t], addr)
    case None => s
    case Some(a) =>
      if v !in s.tables[t] then
        s.(tables := WithPte(s.tables, t, v, Pte(f, AreaPerm(a))),
           data := if IsAnon(a) then s.data else s.data[f := InitialPage(disk, a, v)],
           refs := s.refs[f := 1])
      else
        var p := s.tables[t][v];
        if !CanWrite(a) || Writable(p.perm) then s
        else if p.frame in s.refs && s.refs[p.frame] == 1 then
          s.(tables := WithPte(s.tables, t, v, p.(perm := SetW(p.perm))))
        else
          s.(tables := WithPte(s.tables, t, v, Pte(f, SetW(p.perm))),
             data := s.data[f := DataAt(s.data, p.frame)],
             refs := if p.frame in s.refs && s.refs[p.frame] > 0
                     then s.refs[p.frame := s.refs[p.frame] - 1][f := 1]
                     else s.refs[f := 1])
  }

  /** One page of fork's sweep: drop the write bit, count the frame once more,
      give the child the same entry. */
  function SweepPage(s: State, t: nat, c: nat, v: nat): State
    requires IsTask(s, t) && IsTask(s, c)
  {
    if v !in s.tables[t] then s
    else
      var p := Cleared(s.tables[t][v]);
      s.(tables := WithPte(WithPte(s.tables, t, v, p), c, v, p),
         refs := CountedOnce(s.refs, p.frame))
  }

  /** The pages from lo up to, and not including, hi. */
  function Sweep(s: State, t: nat, c: nat, lo: nat, hi: nat): (s': State)
    requires IsTask(s, t) && IsTask(s, c) && lo <= hi
    ensures |s'.tables| == |s'.areas| == |s.tables|
    decreases hi - lo
  {
    if lo == hi then s else SweepPage(Sweep(s, t, c, lo, hi - 1), t, c, hi - 1)
  }

  function AddArea(s: State, c: nat, a: Area): State
    requires IsTask(s, c)
  {
    s.(areas := s.areas[c := [a] + s.areas[c]])
  }

  /** One area of the parent's list: the child gets it at the head of its own,
      then its pages are swept, the page of vm_end included. */
  function SweepArea(s: State, t: nat, c: nat, a: Area): (s': State)
    requires IsTask(s, t) && IsTask(s, c)
    ensures |s'.tables| == |s'.areas| == |s.tables|
  {
    if a.start / PGSIZE <= a.end / PGSIZE then Sweep(AddArea(s, c, a), t, c, a.start / PGSIZE, a.end / PGSIZE + 1)
    else AddArea(s, c, a)
  }

  /** fork's loop over the first k areas of the parent's list. */
  function SweepAreas(s: State, t: nat, c: nat, areas: seq<Area>, k: nat): (s': State)
    requires IsTask(s, t) && IsTask(s, c) && k <= |areas|
    ensures |s'.tables| == |s'.areas| == |s.tables|
    decreases k
  {
    if k == 0 then s else SweepArea(SweepAreas(s, t, c, areas, k - 1), t, c, areas[k - 1])
  }

  function Newborn(s: State): State {
    s.(areas := s.areas + [[]], tables := s.tables + [map[]])
  }

  /** do_fork_cow */
  function Fork(s: State, t: nat): State
    requires IsTask(s, t)
  {
    SweepAreas(Newborn(s), t, |s.tables|, s.areas[t], |s.areas[t]|)
  }

  /** A store by user code to a mapped page. */
  function Store(s: State, t: nat, addr: nat, b: Byte): State
    requires IsTask(s, t) && addr / PGSIZE in s.tables[t]
  {
    s.(data := WithByte(s.data, s.tables[t][addr / PGSIZE].frame, addr % PGSIZE, b))
  }

  // ----------------------------------------------------------- mappers

  ghost predicate MapsTo(tables: seq<Table>, t: nat, v: nat, f: nat) {
    t < |tables| && v in tables[t] && tables[t][v].frame == f
  }

  ghost predicate AreMappers(m: set<(nat, nat)>, tables: seq<Table>, f: nat) {
    forall o: (nat, nat) {:trigger o in m} :: o in m <==> MapsTo(tables, o.0, o.1, f)
  }

  lemma MappersExist(tables: seq<Table>, f: nat)
    ensures exists m :: AreMappers(m, tables, f)
  {
    var m := set t: nat, v: nat | t < |tables| && v in tables[t] && tables[t][v].frame == f :: (t, v);
    forall o: (nat, nat)
      ensures o in m <==> MapsTo(tables, o.0, o.1, f)
    {
      assert o == (o.0, o.1);
    }
    assert AreMappers(m, tables, f);
  }

  /** Every page-table slot, of any task, that leads to frame f. */
  ghost function Mappers(tables: seq<Table>, f: nat): set<(nat, nat)> {
    MappersExist(tables, f);
    var m :| AreMappers(m, tables, f);
    m
  }

  // ----------------------------------------------------------- the invariant

  /** A mapped page belongs to an area and has its permissions, at times
      without the write bit. */
  ghost predicate PteFits(areas: seq<Area>, v: nat, perm: nat) {
    && Spanned(areas, v)
    && (perm == AreaPerm(AreaOf(areas, v)) || perm == ClearW(AreaPerm(AreaOf(areas, v))))
  }

  ghost predicate TaskOk(areas: seq<Area>, table: Table) {
    var ok := WfAreas(areas) && forall v {:trigger table[v]} :: v in table ==> PteFits(areas, v, table[v].perm);
    ok
  }

  // The predicates below bind their body to a variable, so that callers carry
  // them as one fact instead of conjunct by conjunct.

  /** A mapped frame is in use; a frame mapped writable is mapped nowhere else. */
  ghost predicate SlotOk(s: State, t: nat, v: nat)
    requires t < |s.tables| && v in s.tables[t]
  {
    && s.tables[t][v].frame in s.refs
    && (Writable(s.tables[t][v].perm) ==> Mappers(s.tables, s.tables[t][v].frame) == {(t, v)})
  }

  ghost predicate SlotsOk(s: State) {
    var ok := forall t: nat, v {:trigger SlotOk(s, t, v)} :: t < |s.tables| && v in s.tables[t] ==> SlotOk(s, t, v);
    ok
  }

  /** Frames in use are counted, at least as often as they are mapped. */
  ghost predicate CountsOk(s: State) {
    var ok := forall f :: f in s.refs ==> s.refs[f] >= 1 && s.refs[f] >= |Mappers(s.tables, f)|;
    ok
  }

  ghost predicate FramesOk(s: State) {
    var ok := SlotsOk(s) && CountsOk(s) && s.data.Keys <= s.refs.Keys;
    ok
  }

  ghost predicate Inv(s: State) {
    && FramesOk(s)
    && |s.areas| == |s.tables|
    && forall t :: 0 <= t < |s.tables| ==> TaskOk(s.areas[t], s.tables[t])
  }

  /** The count is exact. */
  ghost predicate Exact(s: State) {
    var ok := forall f :: f in s.refs ==> s.refs[f] == |Mappers(s.tables, f)|;
    ok
  }

  ghost predicate IsFree(s: State, f: nat) { f !in s.refs }

  lemma MappersWithPte(tables: seq<Table>, t: nat, v: nat, p: Pte, f: nat)
    requires t < |tables|
    ensures Mappers(WithPte(tables, t, v, p), f)
            == Mappers(tables, f) - {(t, v)} + if p.frame == f then {(t, v)} else {}
  {
    var tables' := WithPte(tables, t, v, p);
    forall o: (nat, nat)
      ensures o in Mappers(tables', f)
              <==> o in Mappers(tables, f) - {(t, v)} + if p.frame == f then {(t, v)} else {}
    {
      assert o == (o.0, o.1);
      assert o in Mappers(tables', f) <==> MapsTo(tables', o.0, o.1, f);
    }
  }

  lemma MappersUnchanged(tables: seq<Table>, tables': seq<Table>, f: nat)
    requires forall t: nat, v: nat :: MapsTo(tables, t, v, f) <==> MapsTo(tables', t, v, f)
    ensures Mappers(tables, f) == Mappers(tables', f)
  {
    forall o: (nat, nat)
      ensures o in Mappers(tables, f) <==> o in Mappers(tables', f)
    {
      assert o in Mappers(tables, f) <==> MapsTo(tables, o.0, o.1, f);
    }
  }

  lemma UnmappedFree(s: State, f: nat)
    requires FramesOk(s) && IsFree(s, f)
    ensures Mappers(s.tables, f) == {}
  {
    forall o: (nat, nat) | o in Mappers(s.tables, f)
      ensures MapsTo(s.tables, o.0, o.1, f) && SlotOk(s, o.0, o.1)
    {
    }
  }

  /** A mapped frame is counted. */
  lemma MappedCounted(s: State, t: nat, v: nat)
    requires FramesOk(s) && t < |s.tables| && v in s.tables[t]
    ensures s.tables[t][v].frame in s.refs && s.refs[s.tables[t][v].frame] >= 1
  {
    assert SlotOk(s, t, v);
  }

  /** Two pages of which one is mapped writable lie on different frames. */
  lemma WritableAlone(s: State, t: nat, v: nat, x: nat, y: nat)
    requires FramesOk(s) && t < |s.tables| && v in s.tables[t] && Writable(s.tables[t][v].perm)
    requires x < |s.tables| && y in s.tables[x] && s.tables[x][y].frame == s.tables[t][v].frame
    ensures x == t && y == v
  {
    assert SlotOk(s, t, v);
    assert (x, y) in Mappers(s.tables, s.tables[t][v].frame);
  }

  lemma OnlyMapper(m: set<(nat, nat)>, x: (nat, nat))
    requires x in m && |m| <= 1
    ensures m == {x}
  {
    if m != {x} {
      var y :| y in m && y != x;
      assert {x, y} <= m;
      CardMonotone({x, y}, m);
    }
  }

  lemma CardMonotone<T>(a: set<T>, b: set<T>)
    requires a <= b
    ensures |a| <= |b|
  {
    if a != {} {
      var x :| x in a;
      CardMonotone(a - {x}, b - {x});
    }
  }
}
