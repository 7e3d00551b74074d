/** Virtual memory areas as values: which pages they span, what a page of them
    first holds, and what find_vma answers. */
module Areas {
  import opened Bits
  import opened Options
  import opened PageTable

  const VM_ANON: nat := 1
  const VM_READ: nat := 2
  const VM_WRITE: nat := 4
  const VM_EXEC: nat := 8

  const USER_END: nat := 0x40_0000_0000

  type Byte = b: int | 0 <= b < 256
  type Page = p: seq<Byte> | |p| == 4096 witness seq(4096, _ => 0)
  type Ramdisk = nat -> Byte  // memory from _sramdisk on

  /** vm_start, vm_end, vm_flags, vm_pgoff, vm_filesz */
  datatype Area = Area(start: nat, end: nat, flags: nat, pgoff: nat, filesz: nat)

  predicate IsAnon(a: Area) { a.flags % 2 == 1 }

  predicate CanWrite(a: Area) { Writable(a.flags) }

  predicate CanRead(a: Area) { a.flags / 2 % 2 == 1 }

  predicate CanExec(a: Area) { a.flags / 8 % 2 == 1 }

  /** (flags & READ) | (flags & EXEC) | (flags & WRITE) | PTE_U | PTE_V */
  function AreaPerm(a: Area): (p: nat)
    ensures p < 256 && IsValid(p) && (Writable(p) <==> CanWrite(a))
  {
    (if CanRead(a) then PTE_R else 0) + (if CanExec(a) then PTE_X else 0) + (if CanWrite(a) then PTE_W else 0) + PTE_U + PTE_V
  }

  predicate Contains(a: Area, addr: nat) { a.start <= addr < a.end }

  /** find_vma: the first area in list order that contains the address. */
  function FindVma(areas: seq<Area>, addr: nat): Option<Area> {
    if areas == [] then None
    else if Contains(areas[0], addr) then Some(areas[0])
    else FindVma(areas[1..], addr)
  }

  /** Page v holds at least one address of the area. */
  predicate InPages(a: Area, v: nat) {
    a.start < a.end && a.start / PGSIZE <= v <= (a.end - 1) / PGSIZE
  }

  /** Page v is visited by fork's sweep over the area. */
  predicate InSweep(a: Area, v: nat) {
    a.start / PGSIZE <= v <= a.end / PGSIZE
  }

  predicate Spanned(areas: seq<Area>, v: nat) {
    exists k :: 0 <= k < |areas| && InPages(areas[k], v)
  }

  /** Areas lie in user space and on pairwise disjoint pages. */
  ghost predicate WfAreas(areas: seq<Area>) {
    && (forall k :: 0 <= k < |areas| ==> areas[k].start <= areas[k].end <= USER_END)
    && (forall j, k, v: nat {:trigger InPages(areas[j], v), InPages(areas[k], v)} ::
          0 <= j < |areas| && 0 <= k < |areas| && InPages(areas[j], v) && InPages(areas[k], v) ==> j == k)
  }

  /** The area whose pages include v. */
  function AreaOf(areas: seq<Area>, v: nat): (a: Area)
    requires Spanned(areas, v)
    ensures a in areas && InPages(a, v)
  {
    if InPages(areas[0], v) then areas[0]
    else
      assert Spanned(areas[1..], v) by {
        var k :| 0 <= k < |areas| && InPages(areas[k], v);
        assert areas[1..][k - 1] == areas[k];
      }
      AreaOf(areas[1..], v)
  }

  lemma ContainsInPages(a: Area, addr: nat)
    requires Contains(a, addr)
    ensures InPages(a, addr / PGSIZE)
  {
  }

  lemma AreaOfUnique(areas: seq<Area>, v: nat, k: nat)
    requires WfAreas(areas) && k < |areas| && InPages(areas[k], v)
    ensures Spanned(areas, v) && AreaOf(areas, v) == areas[k]
  {
    var a := AreaOf(areas, v);
    var j :| 0 <= j < |areas| && areas[j] == a;
  }

  lemma {:induction false} FindVmaSome(areas: seq<Area>, addr: nat)
    ensures FindVma(areas, addr).Some?
            ==> FindVma(areas, addr).value in areas && Contains(FindVma(areas, addr).value, addr)
    ensures FindVma(areas, addr).None? ==> forall a :: a in areas ==> !Contains(a, addr)
  {
    if areas != [] {
      FindVmaSome(areas[1..], addr);
      assert forall a :: a in areas ==> a == areas[0] || a in areas[1..];
    }
  }

  lemma FindVmaSkip(areas: seq<Area>, i: nat, addr: nat)
    requires i < |areas|
    ensures FindVma(areas[i..], addr) == if Contains(areas[i], addr) then Some(areas[i]) else FindVma(areas[i + 1..], addr)
  {
    assert areas[i..][1..] == areas[i + 1..];
  }

  /** What find_vma finds is the area of the address's page. */
  lemma FoundIsAreaOf(areas: seq<Area>, addr: nat)
    requires WfAreas(areas) && FindVma(areas, addr).Some?
    ensures Spanned(areas, addr / PGSIZE) && FindVma(areas, addr).value == AreaOf(areas, addr / PGSIZE)
    ensures addr / PGSIZE < USER_VPNS
  {
    FindVmaSome(areas, addr);
    var a := FindVma(areas, addr).value;
    var k :| 0 <= k < |areas| && areas[k] == a;
    ContainsInPages(a, addr);
    AreaOfUnique(areas, addr / PGSIZE, k);
  }

  function Reverse(areas: seq<Area>): seq<Area> {
    if areas == [] then [] else Reverse(areas[1..]) + [areas[0]]
  }

  lemma {:induction false} ReverseAt(areas: seq<Area>)
    ensures |Reverse(areas)| == |areas|
    ensures forall k :: 0 <= k < |areas| ==> Reverse(areas)[k] == areas[|areas| - 1 - k]
  {
    if areas != [] {
      ReverseAt(areas[1..]);
      assert forall k :: 0 <= k < |areas| - 1 ==> areas[1..][k] == areas[k + 1];
    }
  }

  /** Reversing a list adds nothing to it. */
  lemma ReverseFrom(areas: seq<Area>, pool: seq<Area>)
    requires forall a :: a in areas ==> a in pool
    ensures forall a :: a in Reverse(areas) ==> a in pool
  {
    ReverseAt(areas);
    forall a | a in Reverse(areas)
      ensures a in pool
    {
      var k :| 0 <= k < |areas| && Reverse(areas)[k] == a;
      assert areas[|areas| - 1 - k] == a;
    }
  }

  lemma {:induction false} ReverseSnoc(areas: seq<Area>, k: nat)
    requires 0 < k <= |areas|
    ensures Reverse(areas[..k]) == [areas[k - 1]] + Reverse(areas[..k - 1])
    decreases areas
  {
    assert areas[..k][1..] == areas[1..][..k - 1];
    if k > 1 {
      ReverseSnoc(areas[1..], k - 1);
      assert areas[..k - 1][1..] == areas[1..][..k - 2];
    }
  }

  lemma ReverseWf(areas: seq<Area>)
    requires WfAreas(areas)
    ensures WfAreas(Reverse(areas))
  {
    var rev, n := Reverse(areas), |areas|;
    ReverseAt(areas);
    forall j, k, w: nat | 0 <= j < n && 0 <= k < n && InPages(rev[j], w) && InPages(rev[k], w)
      ensures j == k
    {
      assert InPages(areas[n - 1 - j], w) && InPages(areas[n - 1 - k], w);
    }
  }

  /** A reversed list spans the same pages through the same areas. */
  lemma ReverseSpans(areas: seq<Area>, v: nat)
    requires WfAreas(areas)
    ensures Spanned(Reverse(areas), v) <==> Spanned(areas, v)
    ensures Spanned(areas, v) ==> AreaOf(Reverse(areas), v) == AreaOf(areas, v)
  {
    var rev, n := Reverse(areas), |areas|;
    ReverseAt(areas);
    if Spanned(rev, v) {
      var k :| 0 <= k < n && InPages(rev[k], v);
      assert InPages(areas[n - 1 - k], v);
    }
    if Spanned(areas, v) {
      var a := AreaOf(areas, v);
      var k :| 0 <= k < n && areas[k] == a;
      assert rev[n - 1 - k] == a;
      ReverseWf(areas);
      AreaOfUnique(rev, v, n - 1 - k);
    }
  }

  /** Areas that share no address. */
  ghost predicate AddressDisjoint(areas: seq<Area>) {
    forall j, k, x: nat {:trigger Contains(areas[j], x), Contains(areas[k], x)} ::
      0 <= j < |areas| && 0 <= k < |areas| && Contains(areas[j], x) && Contains(areas[k], x) ==> j == k
  }

  /** For address-disjoint areas list order does not matter to find_vma: a
      child's reversed list gives the parent's answers. */
  lemma FindVmaReversed(areas: seq<Area>, addr: nat)
    requires AddressDisjoint(areas)
    ensures FindVma(Reverse(areas), addr) == FindVma(areas, addr)
  {
    var rev, n := Reverse(areas), |areas|;
    ReverseAt(areas);
    FindVmaSome(areas, addr);
    FindVmaSome(rev, addr);
    if FindVma(rev, addr).Some? {
      var j :| 0 <= j < n && rev[j] == FindVma(rev, addr).value;
      assert areas[n - 1 - j] in areas;
      var k :| 0 <= k < n && areas[k] == FindVma(areas, addr).value;
      assert Contains(areas[n - 1 - j], addr) && Contains(areas[k], addr);
    } else {
      forall k | 0 <= k < n
        ensures !Contains(areas[k], addr)
      {
        assert rev[n - 1 - k] in rev;
      }
    }
  }

  // ----------------------------------------------------------- first contents

  function ZeroPage(): Page { seq(4096, (i: nat) => 0) }

  /** A copying loop: n bytes, from an offset into the ramdisk to one into the page. */
  datatype Copy = Copy(at: nat, from: nat, n: nat)

  /** The loop that fills page v: the four branches of the fault handler's file
      case. */
  function FillCopy(a: Area, v: nat): Copy
    requires a.start / PGSIZE <= v
  {
    var off, first := a.start % PGSIZE, a.start / PGSIZE;
    if a.filesz < PGSIZE then Copy(off, off, a.filesz)
    else if v == first then Copy(off, off, (PGSIZE - off) % PGSIZE)
    else if v == (a.start + a.filesz - 1) / PGSIZE then Copy(0, (v - first) * PGSIZE, (a.start + a.filesz) % PGSIZE + 1)
    else Copy(0, (v - first) * PGSIZE, PGSIZE)
  }

  /** The offset into the ramdisk that byte i of page v is copied from, if any. */
  function FileSource(a: Area, v: nat, i: nat): Option<nat> {
    if v < a.start / PGSIZE then None
    else
      var c := FillCopy(a, v);
      if c.at <= i < c.at + c.n then Some(c.from + i - c.at) else None
  }

  function InitialByte(disk: Ramdisk, a: Area, v: nat, i: nat): Byte {
    if IsAnon(a) then 0
    else match FileSource(a, v, i) case Some(k) => disk(k) case None => 0
  }

  function InitialPage(disk: Ramdisk, a: Area, v: nat): Page {
    seq(4096, (i: nat) => InitialByte(disk, a, v, i))
  }

  /** Where the part of the area that comes from the file ends. */
  function FileEnd(a: Area): nat { if a.start + a.filesz < a.end then a.start + a.filesz else a.end }

  /** Geometries for which the handler reproduces the file: there is nothing to
      reproduce, or the offsets agree and, for a short file, its bytes end on
      the first page, for a long one the area does not begin on a page boundary
      nor the file end on one beyond the first byte of its last page. */
  predicate GoodGeometry(a: Area) {
    FileEnd(a) <= a.start ||
    (a.pgoff == a.start % PGSIZE
     && if a.filesz < PGSIZE then FileEnd(a) <= (a.start / PGSIZE + 1) * PGSIZE
        else a.start % PGSIZE != 0
             && ((a.start + a.filesz) % PGSIZE != 0 || FileEnd(a) <= a.start + a.filesz - PGSIZE + 1))
  }

  /** Address addr of the file part, once its page is faulted in, holds the byte
      of the ramdisk at vm_pgoff + addr - vm_start. */
  ghost predicate Faithful(disk: Ramdisk, a: Area, addr: nat)
    requires a.start <= addr
  {
    InitialPage(disk, a, addr / PGSIZE)[addr % PGSIZE] == disk(a.pgoff + addr - a.start)
  }

  /** Demand paging agrees with the file. */
  lemma DemandPageMatchesFile(disk: Ramdisk, a: Area, addr: nat)
    requires !IsAnon(a) && GoodGeometry(a) && a.start <= addr < FileEnd(a)
    ensures Faithful(disk, a, addr)
  {
    var v, i, off, first := addr / PGSIZE, addr % PGSIZE, a.start % PGSIZE, a.start / PGSIZE;
    assert addr == v * PGSIZE + i && a.start == first * PGSIZE + off;
    assert v >= first;
  }

  /** Outside the good geometries some file byte of the area comes out wrong: a
      page-aligned start copies nothing, a file end on a page boundary one byte
      of its last page, a short file that crosses a page nothing of the second
      one. */
  lemma BadGeometry(a: Area) returns (disk: Ramdisk, addr: nat)
    requires !IsAnon(a) && !GoodGeometry(a)
    ensures a.start <= addr < FileEnd(a) && !Faithful(disk, a, addr)
  {
    var off, first := a.start % PGSIZE, a.start / PGSIZE;
    if a.pgoff != off || (a.filesz >= PGSIZE && off == 0) {
      addr := a.start;
    } else if a.filesz < PGSIZE {
      addr := (first + 1) * PGSIZE;
    } else {
      addr := a.start + a.filesz - PGSIZE + 1;
      LastPage(a);
    }
    var target := a.pgoff + addr - a.start;
    disk := (k: nat) => if k == target then 1 else 0;
  }

  lemma LastPage(a: Area)
    requires a.filesz >= PGSIZE && a.start % PGSIZE != 0 && (a.start + a.filesz) % PGSIZE == 0
    ensures var addr := a.start + a.filesz - PGSIZE + 1;
            addr % PGSIZE == 1 && addr / PGSIZE == (a.start + a.filesz - 1) / PGSIZE != a.start / PGSIZE
  {
  }

  /** The code reproduces every file byte that the area contains, whatever the
      file, exactly for the good geometries. */
  lemma DemandPagingExact(a: Area)
    requires !IsAnon(a)
    ensures GoodGeometry(a)
            <==> forall disk: Ramdisk, addr: nat :: Contains(a, addr) && addr < a.start + a.filesz ==> Faithful(disk, a, addr)
  {
    if GoodGeometry(a) {
      forall disk: Ramdisk, addr: nat | Contains(a, addr) && addr < a.start + a.filesz
        ensures Faithful(disk, a, addr)
      {
        DemandPageMatchesFile(disk, a, addr);
      }
    } else {
      var disk, addr := BadGeometry(a);
      assert Contains(a, addr);
    }
  }

  /** Every byte of a filled page. A short file part comes out at its offset in
      every page; of a long one the first page gets nothing if it begins on a page
      boundary, the last page gets the byte behind the end too, and later pages
      get what follows in the ramdisk. All other bytes are zero. */
  lemma FilledBytes(disk: Ramdisk, a: Area, addr: nat)
    requires !IsAnon(a) && a.start / 4096 <= addr / 4096
    ensures var i, page, first, last := addr % 4096, addr / 4096, a.start / 4096, (a.start + a.filesz - 1) / 4096;
            var b := InitialPage(disk, a, page)[i];
            && (a.filesz < 4096 ==> b == if a.start % 4096 <= i < a.start % 4096 + a.filesz then disk(i) else 0)
            && (a.filesz >= 4096 && page == first ==> b == if a.start % 4096 != 0 && a.start <= addr then disk(i) else 0)
            && (a.filesz >= 4096 && first < page == last ==>
                  b == if i <= (a.start + a.filesz) % 4096 then disk(addr - first * 4096) else 0)
            && (a.filesz >= 4096 && first < page != last ==> b == disk(addr - first * 4096))
  {
  }

  /** On the first page nothing lies below the area, */
  lemma NothingBelowStart(disk: Ramdisk, a: Area, addr: nat)
    requires !IsAnon(a) && addr / 4096 == a.start / 4096 && addr < a.start
    ensures InitialPage(disk, a, addr / 4096)[addr % 4096] == 0
  {
    FilledBytes(disk, a, addr);
  }

  /** nor behind a short file part; behind a long one the rest of its last page
      is zero but for one byte, the one that follows in the ramdisk. */
  lemma RestOfPage(disk: Ramdisk, a: Area, addr: nat)
    requires !IsAnon(a) && a.start + a.filesz <= addr
    ensures a.filesz < 4096 && addr / 4096 == a.start / 4096 ==> InitialPage(disk, a, addr / 4096)[addr % 4096] == 0
    ensures a.filesz >= 4096 && addr / 4096 == (a.start + a.filesz - 1) / 4096 ==>
              InitialPage(disk, a, addr / 4096)[addr % 4096]
              == if addr == a.start + a.filesz then disk(addr - a.start / 4096 * 4096) else 0
  {
    FilledBytes(disk, a, addr);
    var end, page := a.start + a.filesz, addr / 4096;
    if a.filesz >= 4096 && page == (end - 1) / 4096 {
      assert end / 4096 == page && addr % 4096 - end % 4096 == addr - end;
    }
  }

  /** The part behind the file is zero, for every ramdisk, exactly when there is
      none or the file part is short and it reaches into no further page at the
      offset where the file part would come out again. */
  predicate RestIsZero(a: Area) {
    a.end <= a.start + a.filesz || a.filesz == 0 || (a.filesz < 4096 && a.end <= a.start + 4096)
  }

  lemma RestIsZeroExact(a: Area)
    requires !IsAnon(a)
    ensures RestIsZero(a)
            <==> forall disk: Ramdisk, addr: nat :: Contains(a, addr) && a.start + a.filesz <= addr ==>
                   InitialPage(disk, a, addr / 4096)[addr % 4096] == 0
  {
    if RestIsZero(a) {
      forall disk: Ramdisk, addr: nat | Contains(a, addr) && a.start + a.filesz <= addr
        ensures InitialPage(disk, a, addr / 4096)[addr % 4096] == 0
      {
        FilledBytes(disk, a, addr);
        if 0 < a.filesz { OffsetBehind(a, addr); }
      }
    } else {
      var disk: Ramdisk := (k: nat) => 1;
      var addr := if a.filesz < 4096 then a.start + 4096 else a.start + a.filesz;
      FilledBytes(disk, a, addr);
      assert Contains(a, addr) && InitialPage(disk, a, addr / 4096)[addr % 4096] == 1;
    }
  }

  /** Less than a page behind the start and behind the file, an address is not at
      an offset that the file part occupies. */
  lemma OffsetBehind(a: Area, addr: nat)
    requires a.start + a.filesz <= addr < a.start + 4096
    ensures !(a.start % 4096 <= addr % 4096 < a.start % 4096 + a.filesz)
  {
  }

  /** A file part below one page in size lies on one page. */
  predicate FillsOwnPage(a: Area) {
    a.filesz < PGSIZE ==> a.start % PGSIZE + a.filesz <= PGSIZE
  }

  /** No byte of any fill lands outside its page exactly when short files lie on
      one page: the loops for long files never leave it. */
  lemma FillsStayExact(a: Area)
    ensures FillsOwnPage(a)
            <==> forall v: nat :: a.start / PGSIZE <= v ==> FillCopy(a, v).at + FillCopy(a, v).n <= PGSIZE
  {
    var c := FillCopy(a, a.start / PGSIZE);
    assert a.filesz < PGSIZE ==> c.at + c.n == a.start % PGSIZE + a.filesz;
  }
}
