/** Every step of the copy-on-write machine keeps its invariant. */
module CowInvariant {
  import opened Bits
  import opened Options
  import opened PageTable
  import opened Areas
  import opened Cow

  // ----------------------------------------------------------- counting

  /** By how much a frame's count exceeds its mappings. */
  ghost function Slack(s: State, f: nat): int
    requires f in s.refs
  {
    s.refs[f] - |Mappers(s.tables, f)|
  }

  lemma SlackDecides(s: State)
    ensures CountsOk(s) <==> forall f :: f in s.refs ==> s.refs[f] >= 1 && Slack(s, f) >= 0
    ensures Exact(s) <==> forall f :: f in s.refs ==> Slack(s, f) == 0
  {
  }

  // ----------------------------------------------------------- page faults

  /** A fresh frame mapped at an unmapped page. */
  lemma MapFresh(s: State, s': State, t: nat, v: nat, p: Pte)
    requires FramesOk(s) && t < |s.tables| && v !in s.tables[t] && IsFree(s, p.frame)
    requires s'.tables == WithPte(s.tables, t, v, p) && s'.refs == s.refs[p.frame := 1]
    requires s'.data.Keys <= s.data.Keys + {p.frame}
    ensures FramesOk(s')
    ensures Exact(s) ==> Exact(s')
  {
    UnmappedFree(s, p.frame);
    forall f: nat
      ensures Mappers(s'.tables, f) == if f == p.frame then {(t, v)} else Mappers(s.tables, f)
    {
      MappersWithPte(s.tables, t, v, p, f);
      assert (t, v) !in Mappers(s.tables, f);
    }
    forall x: nat, y | x < |s'.tables| && y in s'.tables[x]
      ensures SlotOk(s', x, y)
    {
      if x != t || y != v { assert SlotOk(s, x, y); }
    }
    assert SlotsOk(s');
    CountsAfter(s, s', p.frame);
  }

  /** One frame more, mapped and counted once. */
  lemma CountsAfter(s: State, s': State, g: nat)
    requires CountsOk(s) && s'.refs == s.refs[g := 1] && |Mappers(s'.tables, g)| == 1
    requires forall f: nat :: f != g ==> Mappers(s'.tables, f) == Mappers(s.tables, f)
    ensures CountsOk(s') && (Exact(s) ==> Exact(s'))
  {
    SlackDecides(s);
    SlackDecides(s');
  }

  /** The only mapper of a frame gets its write bit back. */
  lemma SetWrite(s: State, s': State, t: nat, v: nat, p: Pte)
    requires FramesOk(s) && t < |s.tables| && v in s.tables[t] && p.frame in s.refs && s.refs[p.frame] == 1
    requires p == s.tables[t][v].(perm := SetW(s.tables[t][v].perm))
    requires s'.tables == WithPte(s.tables, t, v, p) && s'.refs == s.refs && s'.data == s.data
    ensures FramesOk(s') && (Exact(s) ==> Exact(s'))
  {
    forall f: nat
      ensures Mappers(s'.tables, f) == Mappers(s.tables, f)
    {
      MappersWithPte(s.tables, t, v, p, f);
    }
    OnlyMapper(Mappers(s.tables, p.frame), (t, v));
    forall x: nat, y | x < |s'.tables| && y in s'.tables[x]
      ensures SlotOk(s', x, y)
    {
      assert SlotOk(s, x, y);
    }
    assert SlotsOk(s');
  }

  /** A shared frame is copied: one mapper and one count less there, a private
      frame here. The old frame keeps at least one reference. */
  lemma CopyPage(s: State, s': State, t: nat, v: nat, p: Pte)
    requires FramesOk(s) && t < |s.tables| && v in s.tables[t] && IsFree(s, p.frame)
    requires !Writable(s.tables[t][v].perm)
    requires s.tables[t][v].frame in s.refs && s.refs[s.tables[t][v].frame] != 1
    requires s'.tables == WithPte(s.tables, t, v, p)
    requires s'.refs == s.refs[s.tables[t][v].frame := s.refs[s.tables[t][v].frame] - 1][p.frame := 1]
    requires s'.data.Keys <= s.data.Keys + {p.frame}
    ensures s.refs[s.tables[t][v].frame] >= 2
    ensures FramesOk(s')
    ensures Exact(s) ==> Exact(s')
  {
    var g := s.tables[t][v].frame;
    UnmappedFree(s, p.frame);
    assert (t, v) in Mappers(s.tables, g);
    forall f: nat
      ensures Mappers(s'.tables, f) == if f == g then Mappers(s.tables, f) - {(t, v)}
                                       else if f == p.frame then {(t, v)} else Mappers(s.tables, f)
    {
      MappersWithPte(s.tables, t, v, p, f);
    }
    CopySlots(s, s', t, v, p);
    CopyCounts(s, s', t, v, p);
  }

  lemma CopySlots(s: State, s': State, t: nat, v: nat, p: Pte)
    requires SlotsOk(s) && t < |s.tables| && v in s.tables[t] && IsFree(s, p.frame)
    requires s'.tables == WithPte(s.tables, t, v, p) && s'.refs.Keys == s.refs.Keys + {p.frame}
    requires Mappers(s.tables, p.frame) == {}
    requires forall f: nat :: Mappers(s'.tables, f) ==
               if f == s.tables[t][v].frame then Mappers(s.tables, f) - {(t, v)}
               else if f == p.frame then {(t, v)} else Mappers(s.tables, f)
    ensures SlotsOk(s')
  {
    assert (t, v) in Mappers(s.tables, s.tables[t][v].frame);
    assert SlotOk(s, t, v);
    forall x: nat, y | x < |s'.tables| && y in s'.tables[x]
      ensures SlotOk(s', x, y)
    {
      if x != t || y != v {
        assert SlotOk(s, x, y);
        assert s.tables[x][y].frame != p.frame;
      }
    }
  }

  lemma CopyCounts(s: State, s': State, t: nat, v: nat, p: Pte)
    requires CountsOk(s) && t < |s.tables| && v in s.tables[t] && IsFree(s, p.frame)
    requires s.tables[t][v].frame in s.refs && s.refs[s.tables[t][v].frame] != 1
    requires (t, v) in Mappers(s.tables, s.tables[t][v].frame) && Mappers(s.tables, p.frame) == {}
    requires s'.refs == s.refs[s.tables[t][v].frame := s.refs[s.tables[t][v].frame] - 1][p.frame := 1]
    requires forall f: nat :: Mappers(s'.tables, f) ==
               if f == s.tables[t][v].frame then Mappers(s.tables, f) - {(t, v)}
               else if f == p.frame then {(t, v)} else Mappers(s.tables, f)
    ensures CountsOk(s') && (Exact(s) ==> Exact(s'))
  {
    var g := s.tables[t][v].frame;
    assert |Mappers(s'.tables, g)| == |Mappers(s.tables, g)| - 1;
    assert |Mappers(s'.tables, p.frame)| == 1;
    forall f | f in s'.refs
      ensures Slack(s', f) == if f == p.frame then 0 else Slack(s, f)
      ensures s'.refs[f] >= 1
    {
    }
    SlackDecides(s);
    SlackDecides(s');
  }

  lemma FaultKeepsFrames(disk: Ramdisk, s: State, t: nat, addr: nat, f: nat)
    requires FramesOk(s) && IsTask(s, t) && IsFree(s, f)
    ensures FramesOk(Fault(disk, s, t, addr, f))
    ensures Exact(s) ==> Exact(Fault(disk, s, t, addr, f))
  {
    var v, s' := addr / PGSIZE, Fault(disk, s, t, addr, f);
    match FindVma(s.areas[t], addr)
    case None =>
    case Some(a) =>
      if v !in s.tables[t] {
        MapFresh(s, s', t, v, Pte(f, AreaPerm(a)));
      } else {
        MappedCounted(s, t, v);
        var p := s.tables[t][v];
        if CanWrite(a) && !Writable(p.perm) {
          if s.refs[p.frame] == 1 {
            SetWrite(s, s', t, v, p.(perm := SetW(p.perm)));
          } else {
            CopyPage(s, s', t, v, Pte(f, SetW(p.perm)));
          }
        }
      }
  }

  lemma TaskWithPte(areas: seq<Area>, table: Table, v: nat, p: Pte)
    requires TaskOk(areas, table) && PteFits(areas, v, p.perm)
    ensures TaskOk(areas, table[v := p])
  {
  }

  /** Setting a write bit that the area allows restores its full permissions. */
  lemma SetWFits(areas: seq<Area>, v: nat, perm: nat)
    requires PteFits(areas, v, perm) && CanWrite(AreaOf(areas, v)) && !Writable(perm)
    ensures SetW(perm) == AreaPerm(AreaOf(areas, v)) && PteFits(areas, v, SetW(perm))
  {
  }

  lemma FaultKeepsTask(disk: Ramdisk, s: State, t: nat, addr: nat, f: nat)
    requires IsTask(s, t) && TaskOk(s.areas[t], s.tables[t])
    ensures TaskOk(s.areas[t], Fault(disk, s, t, addr, f).tables[t])
  {
    var v := addr / PGSIZE;
    match FindVma(s.areas[t], addr)
    case None =>
    case Some(a) =>
      FoundIsAreaOf(s.areas[t], addr);
      if v !in s.tables[t] {
        TaskWithPte(s.areas[t], s.tables[t], v, Pte(f, AreaPerm(a)));
      } else {
        var p := s.tables[t][v];
        if CanWrite(a) && !Writable(p.perm) {
          SetWFits(s.areas[t], v, p.perm);
          TaskWithPte(s.areas[t], s.tables[t], v, Pte(p.frame, SetW(p.perm)));
          TaskWithPte(s.areas[t], s.tables[t], v, Pte(f, SetW(p.perm)));
        }
      }
  }

  /** A fault keeps the invariant, whatever the address. */
  lemma FaultKeepsInv(disk: Ramdisk, s: State, t: nat, addr: nat, f: nat)
    requires Inv(s) && t < |s.tables| && IsFree(s, f)
    ensures Inv(Fault(disk, s, t, addr, f))
    ensures Exact(s) ==> Exact(Fault(disk, s, t, addr, f))
  {
    FaultKeepsFrames(disk, s, t, addr, f);
    FaultKeepsTask(disk, s, t, addr, f);
    var s' := Fault(disk, s, t, addr, f);
    forall x | 0 <= x < |s'.tables|
      ensures TaskOk(s'.areas[x], s'.tables[x])
    {
      assert TaskOk(s.areas[x], s.tables[x]);
    }
  }

  lemma SameMappersSlots(s: State, s': State)
    requires FramesOk(s) && s'.refs == s.refs && s'.data.Keys == s.data.Keys
    requires forall f: nat :: Mappers(s'.tables, f) == Mappers(s.tables, f)
    requires forall t: nat, v :: t < |s'.tables| && v in s'.tables[t] ==>
               t < |s.tables| && v in s.tables[t] && s'.tables[t][v] == s.tables[t][v]
    ensures FramesOk(s') && (Exact(s') <==> Exact(s))
  {
    forall x: nat, y | x < |s'.tables| && y in s'.tables[x]
      ensures SlotOk(s', x, y)
    {
      assert SlotOk(s, x, y);
    }
  }

  /** A store changes no mapping. */
  lemma StoreKeepsInv(s: State, t: nat, addr: nat, b: Byte)
    requires Inv(s) && t < |s.tables| && addr / PGSIZE in s.tables[t]
    ensures Inv(Store(s, t, addr, b))
    ensures Exact(s) ==> Exact(Store(s, t, addr, b))
  {
    var s' := Store(s, t, addr, b);
    MappedCounted(s, t, addr / PGSIZE);
    forall x: nat, y | x < |s'.tables| && y in s'.tables[x]
      ensures SlotOk(s', x, y)
    {
      assert SlotOk(s, x, y);
    }
    assert SlotsOk(s');
  }

  // ----------------------------------------------------------- fork

  /** m is the table pt after the pages ks have lost their write bit. */
  ghost predicate Lost(m: Table, pt: Table, ks: set<nat>) {
    var ok := m.Keys == pt.Keys && forall v {:trigger m[v]} :: v in pt ==> m[v] == if v in ks then Cleared(pt[v]) else pt[v];
    ok
  }

  /** m is the child's table when it has got the pages ks of pt. */
  ghost predicate Given(m: Table, pt: Table, ks: set<nat>) {
    var ok := m.Keys == ks && ks <= pt.Keys && forall v {:trigger m[v]} :: v in ks ==> m[v] == Cleared(pt[v]);
    ok
  }

  /** The state during a fork of task t of s0 into a new last task, whose areas
      are `areas` so far: the pages ks given to the child are exactly those
      whose write bit the parent has lost. */
  ghost predicate Forking(s0: State, s: State, t: nat, ks: set<nat>, areas: seq<Area>) {
    var c := |s0.tables|;
    var ok :=
      && IsTask(s0, t) && |s.tables| == |s.areas| == c + 1
      && (forall x :: 0 <= x < c && x != t ==> s.tables[x] == s0.tables[x])
      && (forall x :: 0 <= x < c ==> s.areas[x] == s0.areas[x])
      && Lost(s.tables[t], s0.tables[t], ks)
      && s.areas[c] == areas && Given(s.tables[c], s0.tables[t], ks)
      && s.data == s0.data && s.refs.Keys == s0.refs.Keys;
    ok
  }

  lemma NewbornForking(s: State, t: nat)
    requires FramesOk(s) && IsTask(s, t)
    ensures Forking(s, Newborn(s), t, {}, []) && FramesOk(Newborn(s))
    ensures Exact(Newborn(s)) <==> Exact(s)
  {
    var s' := Newborn(s);
    forall f: nat
      ensures Mappers(s'.tables, f) == Mappers(s.tables, f)
    {
      MappersUnchanged(s.tables, s'.tables, f);
    }
    SameMappersSlots(s, s');
  }

  lemma ClearTwice(perm: nat)
    ensures ClearW(ClearW(perm)) == ClearW(perm) && !Writable(ClearW(perm))
  {
  }

  lemma SweepMappers(tables: seq<Table>, t: nat, c: nat, v: nat, p: Pte, f: nat)
    requires t < |tables| && c < |tables| && c != t && v in tables[t] && p.frame == tables[t][v].frame
    requires v in tables[c] ==> tables[c][v].frame == p.frame
    ensures Mappers(WithPte(WithPte(tables, t, v, p), c, v, p), f)
            == if f == p.frame then Mappers(tables, f) + {(c, v)} else Mappers(tables, f)
  {
    MappersWithPte(tables, t, v, p, f);
    MappersWithPte(WithPte(tables, t, v, p), c, v, p, f);
    if f == p.frame {
      assert (t, v) in Mappers(tables, f);
    } else {
      assert (t, v) !in Mappers(tables, f) && (c, v) !in Mappers(tables, f);
    }
  }

  /** The frame invariant over one page of the sweep. */
  lemma SweepPageFrames(s: State, t: nat, c: nat, v: nat)
    requires FramesOk(s) && IsTask(s, t) && IsTask(s, c) && c != t && v in s.tables[t]
    requires v in s.tables[c] ==> s.tables[c][v].frame == s.tables[t][v].frame
    ensures FramesOk(SweepPage(s, t, c, v))
    ensures Exact(SweepPage(s, t, c, v)) <==> Exact(s) && v !in s.tables[c]
  {
    var s', p := SweepPage(s, t, c, v), Cleared(s.tables[t][v]);
    MappedCounted(s, t, v);
    SweepAllMappers(s.tables, t, c, v, p);
    SweepPageSlots(s, s', t, c, v);
    SweepPageCounts(s, s', c, v, p.frame);
  }

  /** The slot (c, v) is the only one the second state has more, and it maps g. */
  ghost predicate OneMoreMapper(tables': seq<Table>, tables: seq<Table>, c: nat, v: nat, g: nat) {
    forall f: nat :: Mappers(tables', f) == if f == g then Mappers(tables, f) + {(c, v)} else Mappers(tables, f)
  }

  lemma SweepAllMappers(tables: seq<Table>, t: nat, c: nat, v: nat, p: Pte)
    requires t < |tables| && c < |tables| && c != t && v in tables[t] && tables[t][v].frame == p.frame
    requires v in tables[c] ==> tables[c][v].frame == p.frame
    ensures OneMoreMapper(WithPte(WithPte(tables, t, v, p), c, v, p), tables, c, v, p.frame)
  {
    forall f: nat
      ensures var tables' := WithPte(WithPte(tables, t, v, p), c, v, p);
              Mappers(tables', f) == if f == p.frame then Mappers(tables, f) + {(c, v)} else Mappers(tables, f)
    {
      SweepMappers(tables, t, c, v, p, f);
    }
  }

  lemma SweepPageCounts(s: State, s': State, c: nat, v: nat, g: nat)
    requires FramesOk(s) && c < |s.tables| && g in s.refs && s'.refs == CountedOnce(s.refs, g)
    requires v in s.tables[c] ==> s.tables[c][v].frame == g
    requires OneMoreMapper(s'.tables, s.tables, c, v, g)
    ensures CountsOk(s') && (Exact(s') <==> Exact(s) && v !in s.tables[c])
  {
    assert (c, v) in Mappers(s.tables, g) <==> v in s.tables[c];
    if v in s.tables[c] {
      assert Mappers(s.tables, g) + {(c, v)} == Mappers(s.tables, g);
    }
    assert |Mappers(s'.tables, g)| == |Mappers(s.tables, g)| + if v in s.tables[c] then 0 else 1;
    forall f | f in s'.refs
      ensures Slack(s', f) == Slack(s, f) + if f == g && v in s.tables[c] then 1 else 0
      ensures s'.refs[f] >= 1
    {
    }
    SlackDecides(s);
    SlackDecides(s');
    if Exact(s') {
      assert Slack(s', g) == 0;
      forall f | f in s.refs
        ensures Slack(s, f) == 0
      {
        assert Slack(s', f) == 0;
      }
    }
  }

  lemma SweepPageSlots(s: State, s': State, t: nat, c: nat, v: nat)
    requires SlotsOk(s) && t < |s.tables| && c < |s.tables| && c != t && v in s.tables[t]
    requires s'.tables == WithPte(WithPte(s.tables, t, v, Cleared(s.tables[t][v])), c, v, Cleared(s.tables[t][v]))
    requires s'.refs.Keys == s.refs.Keys
    requires forall f: nat :: Mappers(s'.tables, f)
               == if f == s.tables[t][v].frame then Mappers(s.tables, f) + {(c, v)} else Mappers(s.tables, f)
    ensures SlotsOk(s')
  {
    assert SlotOk(s, t, v);
    ClearTwice(s.tables[t][v].perm);
    assert (t, v) in Mappers(s.tables, s.tables[t][v].frame);
    forall x: nat, y | x < |s'.tables| && y in s'.tables[x]
      ensures SlotOk(s', x, y)
    {
      if y != v || (x != t && x != c) {
        assert s'.tables[x][y] == s.tables[x][y];
        assert SlotOk(s, x, y);
      }
    }
  }

  lemma SweepPageShape(s0: State, s: State, s': State, t: nat, ks: set<nat>, areas: seq<Area>, v: nat)
    requires Forking(s0, s, t, ks, areas) && v in s0.tables[t] && v in s.tables[t]
    requires s'.tables == WithPte(WithPte(s.tables, t, v, Cleared(s.tables[t][v])), |s0.tables|, v, Cleared(s.tables[t][v]))
    requires s'.refs.Keys == s.refs.Keys && s'.data == s.data && s'.areas == s.areas
    ensures Forking(s0, s', t, ks + {v}, areas)
  {
    var c, pt := |s0.tables|, s0.tables[t];
    ClearTwice(pt[v].perm);
    assert Cleared(s.tables[t][v]) == Cleared(pt[v]);
    assert Lost(s'.tables[t], pt, ks + {v});
    assert Given(s'.tables[c], pt, ks + {v});
  }

  lemma SweepPageKeeps(s0: State, s: State, t: nat, ks: set<nat>, areas: seq<Area>, v: nat)
    requires Forking(s0, s, t, ks, areas) && FramesOk(s)
    ensures Forking(s0, SweepPage(s, t, |s0.tables|, v), t, ks + (if v in s0.tables[t] then {v} else {}), areas)
    ensures FramesOk(SweepPage(s, t, |s0.tables|, v))
    ensures Exact(SweepPage(s, t, |s0.tables|, v)) <==> Exact(s) && (v in s0.tables[t] ==> v !in ks)
  {
    if v in s0.tables[t] {
      MappedCounted(s, t, v);
      SweepPageFrames(s, t, |s0.tables|, v);
      ClearTwice(s0.tables[t][v].perm);
      SweepPageShape(s0, s, SweepPage(s, t, |s0.tables|, v), t, ks, areas, v);
    } else {
      assert ks + {} == ks;
    }
  }

  /** Pages of [lo, hi) that the parent maps. */
  ghost function Visited(pt: Table, lo: nat, hi: nat): set<nat> {
    set v | v in pt && lo <= v < hi
  }

  lemma VisitedOneMore(pt: Table, ks: set<nat>, lo: nat, hi: nat)
    requires lo < hi
    ensures ks + Visited(pt, lo, hi) == ks + Visited(pt, lo, hi - 1) + (if hi - 1 in pt then {hi - 1} else {})
    ensures hi - 1 !in Visited(pt, lo, hi - 1)
    ensures ks !! Visited(pt, lo, hi) <==> ks !! Visited(pt, lo, hi - 1) && (hi - 1 in pt ==> hi - 1 !in ks)
  {
  }

  /** Page hi - 1 of a sweep that began at lo in state s and has come to s1. */
  lemma SweepOn(s0: State, s: State, s1: State, t: nat, ks: set<nat>, areas: seq<Area>, lo: nat, hi: nat)
    requires lo < hi && IsTask(s0, t) && Forking(s0, s1, t, ks + Visited(s0.tables[t], lo, hi - 1), areas) && FramesOk(s1)
    requires Exact(s1) <==> Exact(s) && ks !! Visited(s0.tables[t], lo, hi - 1)
    ensures var s2 := SweepPage(s1, t, |s0.tables|, hi - 1);
            && Forking(s0, s2, t, ks + Visited(s0.tables[t], lo, hi), areas) && FramesOk(s2)
            && (Exact(s2) <==> Exact(s) && ks !! Visited(s0.tables[t], lo, hi))
  {
    var pt := s0.tables[t];
    VisitedOneMore(pt, ks, lo, hi);
    var s2 := SweepPage(s1, t, |s0.tables|, hi - 1);
    SweepPageKeeps(s0, s1, t, ks + Visited(pt, lo, hi - 1), areas, hi - 1);
    ExactOn(Exact(s), Exact(s1), Exact(s2), pt, ks, lo, hi);
  }

  /** Counts exact before, after the pages below hi - 1 and after page hi - 1. */
  lemma ExactOn(before: bool, below: bool, after: bool, pt: Table, ks: set<nat>, lo: nat, hi: nat)
    requires lo < hi && (below <==> before && ks !! Visited(pt, lo, hi - 1))
    requires after <==> below && (hi - 1 in pt ==> hi - 1 !in ks + Visited(pt, lo, hi - 1))
    ensures after <==> before && ks !! Visited(pt, lo, hi)
  {
    VisitedOneMore(pt, ks, lo, hi);
  }

  lemma {:induction false} SweepKeeps(s0: State, s: State, t: nat, ks: set<nat>, areas: seq<Area>, lo: nat, hi: nat)
    requires Forking(s0, s, t, ks, areas) && FramesOk(s) && lo <= hi
    ensures Forking(s0, Sweep(s, t, |s0.tables|, lo, hi), t, ks + Visited(s0.tables[t], lo, hi), areas)
    ensures FramesOk(Sweep(s, t, |s0.tables|, lo, hi))
    ensures Exact(Sweep(s, t, |s0.tables|, lo, hi)) <==> Exact(s) && ks !! Visited(s0.tables[t], lo, hi)
    decreases hi - lo
  {
    if lo < hi {
      SweepKeeps(s0, s, t, ks, areas, lo, hi - 1);
      SweepOn(s0, s, Sweep(s, t, |s0.tables|, lo, hi - 1), t, ks, areas, lo, hi);
    } else {
      assert Visited(s0.tables[t], lo, hi) == {};
      assert ks + {} == ks;
    }
  }

  /** Pages in the span of one of the first k areas, counted up to the page of
      vm_end as the sweep does. */
  ghost predicate Swept(areas: seq<Area>, k: nat, v: nat)
    requires k <= |areas|
  {
    exists j :: 0 <= j < k && InSweep(areas[j], v)
  }

  /** No page of the table is swept twice on account of the first k areas. */
  ghost predicate SweptOnce(areas: seq<Area>, pt: Table, k: nat)
    requires k <= |areas|
  {
    forall i, j, v: nat {:trigger InSweep(areas[i], v), InSweep(areas[j], v)} ::
      0 <= i < k && 0 <= j < k && v in pt && InSweep(areas[i], v) && InSweep(areas[j], v) ==> i == j
  }

  lemma AddAreaForking(s0: State, s: State, t: nat, ks: set<nat>, areas: seq<Area>, a: Area)
    requires Forking(s0, s, t, ks, areas) && FramesOk(s)
    ensures Forking(s0, AddArea(s, |s0.tables|, a), t, ks, [a] + areas) && FramesOk(AddArea(s, |s0.tables|, a))
    ensures Exact(AddArea(s, |s0.tables|, a)) <==> Exact(s)
  {
    SameMappersSlots(s, AddArea(s, |s0.tables|, a));
  }

  /** Mapped pages swept by the first k areas. */
  ghost function SweptPages(areas: seq<Area>, pt: Table, k: nat): set<nat>
    requires k <= |areas|
  {
    set v | v in pt && Swept(areas, k, v)
  }

  /** The sweep of area k - 1 meets no mapped page again. */
  ghost predicate NotYetSwept(areas: seq<Area>, pt: Table, k: nat)
    requires 0 < k <= |areas|
  {
    SweptPages(areas, pt, k - 1) !! Visited(pt, areas[k - 1].start / PGSIZE, areas[k - 1].end / PGSIZE + 1)
  }

  lemma SweptOneMore(areas: seq<Area>, pt: Table, k: nat)
    requires 0 < k <= |areas|
    ensures var a := areas[k - 1];
            && SweptPages(areas, pt, k) == SweptPages(areas, pt, k - 1) + Visited(pt, a.start / PGSIZE, a.end / PGSIZE + 1)
  {
    var a := areas[k - 1];
    forall v: nat
      ensures Swept(areas, k, v) <==> Swept(areas, k - 1, v) || InSweep(a, v)
    {
      if Swept(areas, k, v) {
        var j :| 0 <= j < k && InSweep(areas[j], v);
        assert j < k - 1 || j == k - 1;
      }
      if InSweep(a, v) { assert InSweep(areas[k - 1], v); }
    }
  }

  lemma SweptOnceMore(areas: seq<Area>, pt: Table, k: nat)
    requires 0 < k <= |areas|
    ensures SweptOnce(areas, pt, k) <==> SweptOnce(areas, pt, k - 1) && NotYetSwept(areas, pt, k)
  {
    var a := areas[k - 1];
    var visited := Visited(pt, a.start / PGSIZE, a.end / PGSIZE + 1);
    if SweptOnce(areas, pt, k) {
      forall v | v in pt && Swept(areas, k - 1, v)
        ensures !InSweep(areas[k - 1], v)
      {
        var j :| 0 <= j < k - 1 && InSweep(areas[j], v);
      }
    } else if SweptOnce(areas, pt, k - 1) {
      var i, j, v: nat :| 0 <= i < k && 0 <= j < k && v in pt && InSweep(areas[i], v) && InSweep(areas[j], v) && i != j;
      assert Swept(areas, k - 1, v);
      assert v in visited && v in SweptPages(areas, pt, k - 1);
    }
  }

  lemma SweepAreaKeeps(s0: State, s: State, t: nat, ks: set<nat>, areas: seq<Area>, a: Area, ks': set<nat>,
          areas': seq<Area>)
    requires Forking(s0, s, t, ks, areas) && FramesOk(s) && a.start <= a.end && areas' == [a] + areas
    requires ks' == ks + Visited(s0.tables[t], a.start / PGSIZE, a.end / PGSIZE + 1)
    ensures Forking(s0, SweepArea(s, t, |s0.tables|, a), t, ks', areas')
    ensures FramesOk(SweepArea(s, t, |s0.tables|, a))
    ensures Exact(SweepArea(s, t, |s0.tables|, a))
            <==> Exact(s) && ks !! Visited(s0.tables[t], a.start / PGSIZE, a.end / PGSIZE + 1)
  {
    AddAreaForking(s0, s, t, ks, areas, a);
    SweepKeeps(s0, AddArea(s, |s0.tables|, a), t, ks, [a] + areas, a.start / PGSIZE, a.end / PGSIZE + 1);
  }

  lemma SweepNextArea(s0: State, s: State, t: nat, areas: seq<Area>, pt: Table, k: nat)
    requires 0 < k <= |areas| && areas[k - 1].start <= areas[k - 1].end && IsTask(s0, t) && pt == s0.tables[t]
    requires Forking(s0, s, t, SweptPages(areas, pt, k - 1), Reverse(areas[..k - 1])) && FramesOk(s)
    ensures var s' := SweepArea(s, t, |s0.tables|, areas[k - 1]);
            && Forking(s0, s', t, SweptPages(areas, pt, k), Reverse(areas[..k])) && FramesOk(s')
            && (Exact(s') <==> Exact(s) && NotYetSwept(areas, pt, k))
  {
    SweptOneMore(areas, pt, k);
    ReverseSnoc(areas, k);
    SweepAreaKeeps(s0, s, t, SweptPages(areas, pt, k - 1), Reverse(areas[..k - 1]), areas[k - 1],
                   SweptPages(areas, pt, k), Reverse(areas[..k]));
  }

  lemma {:induction false} SweepAreasKeeps(s0: State, t: nat, k: nat)
    requires FramesOk(s0) && IsTask(s0, t) && k <= |s0.areas[t]|
    requires forall j :: 0 <= j < |s0.areas[t]| ==> s0.areas[t][j].start <= s0.areas[t][j].end
    ensures Forking(s0, SweepAreas(Newborn(s0), t, |s0.tables|, s0.areas[t], k), t,
                    SweptPages(s0.areas[t], s0.tables[t], k), Reverse(s0.areas[t][..k]))
    ensures FramesOk(SweepAreas(Newborn(s0), t, |s0.tables|, s0.areas[t], k))
    ensures Exact(SweepAreas(Newborn(s0), t, |s0.tables|, s0.areas[t], k))
            <==> Exact(s0) && SweptOnce(s0.areas[t], s0.tables[t], k)
    decreases k
  {
    if k == 0 {
      NewbornForking(s0, t);
      assert SweptPages(s0.areas[t], s0.tables[t], 0) == {};
    } else {
      SweepAreasKeeps(s0, t, k - 1);
      SweptOnceMore(s0.areas[t], s0.tables[t], k);
      SweepNextArea(s0, SweepAreas(Newborn(s0), t, |s0.tables|, s0.areas[t], k - 1), t, s0.areas[t], s0.tables[t], k);
    }
  }

  /** The outcome of a fork. */
  ghost predicate Forked(s: State, t: nat, s': State) {
    var c := |s.tables|;
    var ok :=
      && IsTask(s, t) && |s'.tables| == |s'.areas| == c + 1
      && (forall x :: 0 <= x < c && x != t ==> s'.tables[x] == s.tables[x])
      && (forall x :: 0 <= x < c ==> s'.areas[x] == s.areas[x])
      && s'.areas[c] == Reverse(s.areas[t])
      && s'.tables[t] == (map v | v in s.tables[t] :: Cleared(s.tables[t][v]))
      && s'.tables[c] == s'.tables[t]
      && s'.data == s.data && s'.refs.Keys == s.refs.Keys;
    ok
  }

  /** The sweep misses no mapped page: parent and child end up with the same
      pages on the same frames, with the parent's permissions minus PTE_W, and
      the frame invariant holds for the larger set of tasks. Counts that were
      exact stay exact if and only if no mapped page lies in two sweeps. */
  lemma ForkExact(s: State, t: nat)
    requires Inv(s) && t < |s.tables|
    ensures Forked(s, t, Fork(s, t)) && FramesOk(Fork(s, t))
    ensures Exact(Fork(s, t)) <==> Exact(s) && SweptOnce(s.areas[t], s.tables[t], |s.areas[t]|)
  {
    var areas := s.areas[t];
    assert TaskOk(areas, s.tables[t]);
    SweepAreasKeeps(s, t, |areas|);
    assert areas[..|areas|] == areas;
    AllSwept(areas, s.tables[t]);
    ForkingAll(s, Fork(s, t), t);
  }

  lemma AllSwept(areas: seq<Area>, pt: Table)
    requires TaskOk(areas, pt)
    ensures SweptPages(areas, pt, |areas|) == pt.Keys
  {
    forall v | v in pt
      ensures Swept(areas, |areas|, v)
    {
      assert PteFits(areas, v, pt[v].perm);
      var k :| 0 <= k < |areas| && InPages(areas[k], v);
      assert InSweep(areas[k], v);
    }
  }

  lemma ForkingAll(s: State, s': State, t: nat)
    requires IsTask(s, t) && Forking(s, s', t, s.tables[t].Keys, Reverse(s.areas[t]))
    ensures Forked(s, t, s')
  {
    var c, pt := |s.tables|, s.tables[t];
    var all := map v | v in pt :: Cleared(pt[v]);
    assert s'.tables[t] == all;
    assert s'.tables[c] == all;
  }

  /** A fork keeps the invariant. */
  lemma ForkKeepsInv(s: State, t: nat)
    requires Inv(s) && t < |s.tables|
    ensures Inv(Fork(s, t))
  {
    var s', c := Fork(s, t), |s.tables|;
    ForkExact(s, t);
    ClearedFits(s.areas[t], s.tables[t], s'.tables[t]);
    forall x | 0 <= x < c + 1
      ensures TaskOk(s'.areas[x], s'.tables[x])
    {
      if x != t && x != c {
        assert TaskOk(s.areas[x], s.tables[x]);
      }
    }
  }

  lemma ClearedFits(areas: seq<Area>, pt: Table, pt': Table)
    requires TaskOk(areas, pt)
    requires pt' == map v | v in pt :: Cleared(pt[v])
    ensures TaskOk(areas, pt') && TaskOk(Reverse(areas), pt')
  {
    ReverseWf(areas);
    forall v | v in pt'
      ensures PteFits(areas, v, pt'[v].perm) && PteFits(Reverse(areas), v, pt'[v].perm)
    {
      assert PteFits(areas, v, pt[v].perm);
      ReverseSpans(areas, v);
      ClearTwice(AreaPerm(AreaOf(areas, v)));
    }
  }
}
