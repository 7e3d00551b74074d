/** What running tasks read of the program file. */
module FileLoads {
  import opened Bits
  import opened Options
  import opened PageTable
  import opened Areas
  import opened Cow
  import opened DeepCopy
  import opened Reachable

  /** Of a task: the boot task that it descends from, and whether it, or an
      ancestor before the fork, has stored to the address in question. */
  datatype Track = Track(origin: nat, stored: bool)

  function Follow(ts: seq<Track>, e: Event, addr: nat): seq<Track> {
    match e
    case Write(t, a, _) => if t < |ts| && a == addr then ts[t := ts[t].(stored := true)] else ts
    case Clone(t) => if t < |ts| then ts + [ts[t]] else ts
    case _ => ts
  }

  function Tracks(ts: seq<Track>, es: seq<Event>, addr: nat): seq<Track>
    decreases |es|
  {
    if es == [] then ts else Tracks(Follow(ts, es[0], addr), es[1..], addr)
  }

  function Origins(n: nat): seq<Track> { seq(n, (t: nat) => Track(t, false)) }

  predicate HasByte(m: Memory, addr: nat, b: Byte) {
    addr / PGSIZE in m && m[addr / PGSIZE][addr % PGSIZE] == b
  }

  /** Where nothing was stored, a task holds the byte of the boot task it
      descends from. */
  ghost predicate Tracked(m: seq<Memory>, image: seq<Memory>, ts: seq<Track>, addr: nat) {
    && |m| == |ts|
    && (forall t: nat :: t < |ts| ==> ts[t].origin < |image|)
    && (forall t: nat, b: Byte :: t < |ts| && !ts[t].stored && HasByte(image[ts[t].origin], addr, b) ==> HasByte(m[t], addr, b))
  }

  lemma TrackedStep(m: seq<Memory>, image: seq<Memory>, ts: seq<Track>, addr: nat, e: Event)
    requires Tracked(m, image, ts, addr) && SpecEnabled(m, e)
    ensures Tracked(SpecApply(m, e), image, Follow(ts, e, addr), addr)
  {
    var m', ts' := SpecApply(m, e), Follow(ts, e, addr);
    forall t: nat, b: Byte | t < |ts'| && !ts'[t].stored && HasByte(image[ts'[t].origin], addr, b)
      ensures HasByte(m'[t], addr, b)
    {
      match e
      case Write(x, a, _) => if t == x { SameByte(a, addr); }
      case _ =>
    }
  }

  lemma SameByte(a: nat, addr: nat)
    ensures a / PGSIZE == addr / PGSIZE && a % PGSIZE == addr % PGSIZE ==> a == addr
  {
  }

  lemma {:induction false} TrackedRun(m: seq<Memory>, image: seq<Memory>, ts: seq<Track>, addr: nat, es: seq<Event>)
    requires Tracked(m, image, ts, addr) && SpecCanRun(m, es)
    ensures Tracked(SpecFinal(m, es), image, Tracks(ts, es, addr), addr)
    decreases |es|
  {
    if es != [] {
      TrackedStep(m, image, ts, addr, es[0]);
      TrackedRun(SpecApply(m, es[0]), image, Follow(ts, es[0], addr), addr, es[1..]);
    }
  }

  /** What has become of task t and its ancestors by the end of a run that began
      with n tasks. */
  function TrackOf(n: nat, es: seq<Event>, t: nat, addr: nat): Track {
    var ts := Tracks(Origins(n), es, addr);
    if t < |ts| then ts[t] else Track(0, true)
  }

  /** What a load returns, in terms of the memories that the run began with. */
  lemma ReadTracked(image: seq<Memory>, es: seq<Event>, k: nat, b: Byte)
    requires SpecCanRun(image, es) && k < |es| && es[k].Read?
    ensures var track := TrackOf(|image|, es[..k], es[k].task, es[k].addr);
            && track.origin < |image|
            && (!track.stored && HasByte(image[track.origin], es[k].addr, b) ==> es[k].value == b)
  {
    SpecPrefix(image, es, k);
    TrackedRun(image, image, Origins(|image|), es[k].addr, es[..k]);
  }

  /** The address holds, once its page is faulted in, a byte of the file. */
  predicate IsFileByte(a: Area, addr: nat) {
    Contains(a, addr) && addr < a.start + a.filesz && !IsAnon(a) && GoodGeometry(a)
  }

  /** The image that the tasks start from holds what the page is filled with. */
  lemma ImageByte(disk: Ramdisk, areas: seq<seq<Area>>, o: nat, a: Area, addr: nat)
    requires forall t :: 0 <= t < |areas| ==> WfAreas(areas[t])
    requires o < |areas| && a in areas[o] && Contains(a, addr)
    ensures HasByte(Abs(disk, Boot(areas))[o], addr, InitialPage(disk, a, addr / PGSIZE)[addr % PGSIZE])
  {
    var j :| 0 <= j < |areas[o]| && areas[o][j] == a;
    ContainsInPages(a, addr);
    AreaOfUnique(areas[o], addr / PGSIZE, j);
    SpannedLow(areas[o], addr / PGSIZE);
    BootInv(disk, areas);
  }

  lemma ImageRead(disk: Ramdisk, areas: seq<seq<Area>>, image: seq<Memory>, es: seq<Event>, k: nat, a: Area,
          track: Track)
    requires forall t :: 0 <= t < |areas| ==> WfAreas(areas[t])
    requires image == Abs(disk, Boot(areas)) && SpecCanRun(image, es) && k < |es| && es[k].Read?
    requires track == TrackOf(|areas|, es[..k], es[k].task, es[k].addr)
    ensures track.origin < |areas|
    ensures !track.stored && a in areas[track.origin] && Contains(a, es[k].addr)
            ==> es[k].value == InitialPage(disk, a, es[k].addr / PGSIZE)[es[k].addr % PGSIZE]
  {
    var addr := es[k].addr;
    assert |image| == |areas|;
    ReadTracked(image, es, k, 0);
    if a in areas[track.origin] && Contains(a, addr) {
      ImageByte(disk, areas, track.origin, a, addr);
      ReadTracked(image, es, k, InitialPage(disk, a, addr / PGSIZE)[addr % PGSIZE]);
    }
  }

  /** In every run from boot, a load or fetch at an address not stored to by the
      task or its ancestors returns what the handler fills in there. */
  lemma LoadsOfImage(disk: Ramdisk, areas: seq<seq<Area>>, es: seq<Event>, k: nat, a: Area)
    requires forall t :: 0 <= t < |areas| ==> WfAreas(areas[t])
    requires CanRun(disk, Boot(areas), es) && k < |es| && es[k].Read?
    ensures var track := TrackOf(|areas|, es[..k], es[k].task, es[k].addr);
            && track.origin < |areas|
            && (!track.stored && a in areas[track.origin] && Contains(a, es[k].addr)
                ==> es[k].value == InitialPage(disk, a, es[k].addr / PGSIZE)[es[k].addr % PGSIZE])
  {
    BootInv(disk, areas);
    CowRefinesDeepCopy(disk, Boot(areas), es);
    ImageRead(disk, areas, Abs(disk, Boot(areas)), es, k, a, TrackOf(|areas|, es[..k], es[k].task, es[k].addr));
  }

  lemma FileByteFilled(disk: Ramdisk, a: Area, addr: nat, value: Byte)
    requires Contains(a, addr) ==> value == InitialPage(disk, a, addr / PGSIZE)[addr % PGSIZE]
    ensures IsFileByte(a, addr) ==> value == disk(a.pgoff + addr - a.start)
  {
    if IsFileByte(a, addr) { DemandPageMatchesFile(disk, a, addr); }
  }

  /** At a file address of an area with a good geometry that is the byte of the
      program file. */
  lemma LoadsOfFile(disk: Ramdisk, areas: seq<seq<Area>>, es: seq<Event>, k: nat, a: Area)
    requires forall t :: 0 <= t < |areas| ==> WfAreas(areas[t])
    requires CanRun(disk, Boot(areas), es) && k < |es| && es[k].Read?
    ensures var track := TrackOf(|areas|, es[..k], es[k].task, es[k].addr);
            && track.origin < |areas|
            && (!track.stored && a in areas[track.origin] && IsFileByte(a, es[k].addr)
                ==> es[k].value == disk(a.pgoff + es[k].addr - a.start))
  {
    var addr := es[k].addr;
    LoadsOfImage(disk, areas, es, k, a);
    var track := TrackOf(|areas|, es[..k], es[k].task, addr);
    if !track.stored && a in areas[track.origin] { FileByteFilled(disk, a, addr, es[k].value); }
  }

  /** In an anonymous area, and behind the file part on the page where it ends,
      but for the byte that follows a long one, it is zero; behind the file part
      of an area with RestIsZero everywhere. */
  lemma LoadsOfZero(disk: Ramdisk, areas: seq<seq<Area>>, es: seq<Event>, k: nat, a: Area)
    requires forall t :: 0 <= t < |areas| ==> WfAreas(areas[t])
    requires CanRun(disk, Boot(areas), es) && k < |es| && es[k].Read?
    ensures var track, addr := TrackOf(|areas|, es[..k], es[k].task, es[k].addr), es[k].addr;
            && track.origin < |areas|
            && (!track.stored && a in areas[track.origin] && a.start <= addr < a.end
                && (IsAnon(a) || (a.start + a.filesz <= addr && (RestIsZero(a) || EndsOnPageOf(a, addr))))
                ==> es[k].value == 0)
  {
    var addr := es[k].addr;
    LoadsOfImage(disk, areas, es, k, a);
    if !IsAnon(a) && Contains(a, addr) && a.start + a.filesz <= addr {
      if RestIsZero(a) { RestIsZeroExact(a); }
      if EndsOnPageOf(a, addr) { ZeroBehind(disk, a, addr); }
    }
  }

  /** The page of the address is the one where the file part ends; behind a long
      one the first byte is left out. */
  predicate EndsOnPageOf(a: Area, addr: nat) {
    if a.filesz < 4096 then addr / 4096 == a.start / 4096
    else addr / 4096 == (a.start + a.filesz - 1) / 4096 && addr != a.start + a.filesz
  }

  lemma ZeroBehind(disk: Ramdisk, a: Area, addr: nat)
    requires !IsAnon(a) && a.start + a.filesz <= addr && EndsOnPageOf(a, addr)
    ensures InitialPage(disk, a, addr / 4096)[addr % 4096] == 0
  {
    RestOfPage(disk, a, addr);
  }
}
