/** create_mapping, check_load, pte_entry_ret and change_perm over the page
    tables in memory, with table frames taken from the buddy allocator. */
module MemoryMapping {
  import opened Bits
  import opened BuddyTree
  import opened BuddyAllocator
  import opened PageTable
  import opened Sv39

  const BASE: nat := 0x8_0000  // PHY_START >> 12: the page number of pfn 0

  /** Position of page w counted cyclically from page v. */
  function Offset(v: nat, w: nat): nat
    requires v < VPNS && w < VPNS
  {
    if w >= v then w - v else w + VPNS - v
  }

  function Pages(sz: nat): nat { (sz + PGSIZE - 1) / PGSIZE }

  /** Entry of page w under root q once n pages from page v of root r on have
      been mapped to the frames from ppn on. */
  function Mapped(t: Tables, r: nat, v: nat, ppn: nat, n: nat, perm: nat, q: nat, w: nat): nat
    requires v < VPNS && w < VPNS
  {
    if Offset(v, w) < n && SamePage(q, r, w) then MakePte(ppn + Offset(v, w), perm) else Entry(t, q, w)
  }

  ghost predicate IsMapped(t': Tables, t: Tables, owner: map<nat, Label>, r: nat, v: nat, ppn: nat, n: nat, perm: nat)
    requires v < VPNS
  {
    forall q: nat, w: nat :: IsRoot(owner, q) && w < VPNS ==> Entry(t', q, w) == Mapped(t, r, v, ppn, n, perm, q, w)
  }

  ghost predicate IsUpdated(t': Tables, t: Tables, owner: map<nat, Label>, r: nat, v: nat, e: nat)
    requires v < VPNS
  {
    forall q: nat, w: nat :: IsRoot(owner, q) && w < VPNS ==>
      Entry(t', q, w) == if w == v && SamePage(q, r, w) then e else Entry(t, q, w)
  }

  /** Labels are only added, never for roots, and only to frames from lo on. */
  ghost predicate Grown(owner: map<nat, Label>, owner': map<nat, Label>, lo: nat) {
    && (forall f :: f in owner ==> f in owner' && owner'[f] == owner[f])
    && (forall f :: f in owner' && f !in owner ==> f >= lo && owner'[f] != Root)
  }

  /** The user half is mapped for tasks only. In the kernel half a root's empty
      slot is filled only while there is no other root, which would not see it. */
  ghost predicate MayMap(t: Tables, owner: map<nat, Label>, kernel: nat, r: nat, v: nat)
    requires v < VPNS
  {
    MayFill(t, owner, kernel, r, Index2(v))
  }

  ghost predicate MayFill(t: Tables, owner: map<nat, Label>, kernel: nat, r: nat, i2: nat) {
    if i2 < 256 then r != kernel
    else IsValid(WordAt(t, r, i2)) || (r == kernel && forall q :: IsRoot(owner, q) ==> q == kernel)
  }

  /** No slot of the root that led to a table has lost it. */
  ghost predicate SlotsKept(t: Tables, t': Tables, r: nat) {
    forall i: nat :: i < 512 && IsValid(WordAt(t, r, i)) ==> IsValid(WordAt(t', r, i))
  }

  lemma StillMayMap(t: Tables, t': Tables, owner: map<nat, Label>, owner': map<nat, Label>, lo: nat, kernel: nat,
          r: nat, v: nat)
    requires v < VPNS && MayMap(t, owner, kernel, r, v) && SlotsKept(t, t', r) && Grown(owner, owner', lo)
    ensures MayMap(t', owner', kernel, r, v)
  {
    GrownRoots(owner, owner', lo);
  }

  lemma SlotsTwice(t: Tables, t1: Tables, t2: Tables, r: nat)
    requires SlotsKept(t, t1, r) && SlotsKept(t1, t2, r)
    ensures SlotsKept(t, t2, r)
  {
  }

  /** Page k of a range lies k pages after its first one. */
  lemma OffsetOf(va: nat, pa: nat, k: nat, v: nat, p: nat)
    requires k < VPNS && v == va + k * PGSIZE && p == pa + k * PGSIZE
    ensures Vpn(v) == (Vpn(va) + k) % VPNS && Offset(Vpn(va), Vpn(v)) == k && p / PGSIZE == pa / PGSIZE + k
  {
    VpnPlus(va, k);
    assert (va + k * PGSIZE) / PGSIZE == va / PGSIZE + k;
  }

  lemma GrownRoots(owner: map<nat, Label>, owner': map<nat, Label>, lo: nat)
    requires Grown(owner, owner', lo)
    ensures RootsKept(owner, owner')
    ensures forall q :: IsRoot(owner', q) ==> IsRoot(owner, q)
  {
  }

  lemma GrownTwice(owner: map<nat, Label>, owner1: map<nat, Label>, owner2: map<nat, Label>, lo: nat, lo1: nat)
    requires Grown(owner, owner1, lo) && Grown(owner1, owner2, lo1) && lo <= lo1
    ensures Grown(owner, owner2, lo)
  {
  }

  lemma SameTwice(t: Tables, t1: Tables, t2: Tables, owner: map<nat, Label>, owner1: map<nat, Label>, lo: nat)
    requires SameEntries(t, t1, owner) && SameEntries(t1, t2, owner1) && Grown(owner, owner1, lo)
    ensures SameEntries(t, t2, owner)
  {
    forall q: nat, w: nat | IsRoot(owner, q) && w < VPNS
      ensures Entry(t2, q, w) == Entry(t, q, w)
    {
      assert IsRoot(owner1, q);
    }
  }

  /** A step that translates nothing, then one entry written. */
  lemma UpdateAfterSame(t: Tables, t1: Tables, t2: Tables, owner: map<nat, Label>, owner1: map<nat, Label>, lo: nat,
          r: nat, v: nat, e: nat)
    requires v < VPNS && SameEntries(t, t1, owner) && IsUpdated(t2, t1, owner1, r, v, e) && Grown(owner, owner1, lo)
    ensures IsUpdated(t2, t, owner, r, v, e)
  {
    forall q: nat, w: nat | IsRoot(owner, q) && w < VPNS
      ensures Entry(t2, q, w) == if w == v && SamePage(q, r, w) then e else Entry(t, q, w)
    {
      assert IsRoot(owner1, q);
    }
  }

  /** One more page mapped. */
  lemma MapOneMore(t: Tables, t1: Tables, t2: Tables, owner: map<nat, Label>, owner1: map<nat, Label>, r: nat,
          v: nat, ppn: nat, n: nat, perm: nat, v1: nat)
    requires v < VPNS && n < VPNS && v1 < VPNS && Offset(v, v1) == n
    requires IsMapped(t1, t, owner, r, v, ppn, n, perm)
    requires IsUpdated(t2, t1, owner1, r, v1, MakePte(ppn + n, perm))
    requires RootsKept(owner, owner1)
    ensures IsMapped(t2, t, owner, r, v, ppn, n + 1, perm)
  {
    forall q: nat, w: nat | IsRoot(owner, q) && w < VPNS
      ensures Entry(t2, q, w) == Mapped(t, r, v, ppn, n + 1, perm, q, w)
    {
      assert IsRoot(owner1, q);
      assert Entry(t1, q, w) == Mapped(t, r, v, ppn, n, perm, q, w);
      assert w == v1 <==> Offset(v, w) == n;
    }
  }

  lemma MayMapAt(t: Tables, owner: map<nat, Label>, kernel: nat, r: nat, va: nat, n: nat, k: nat, v: nat)
    requires forall j: nat :: j < n ==> MayMap(t, owner, kernel, r, Vpn(va + j * PGSIZE))
    requires k < n && v == va + k * PGSIZE
    ensures MayMap(t, owner, kernel, r, Vpn(v))
  {
  }

  lemma PageCount(sz: nat, k: nat)
    ensures k * PGSIZE < sz <==> k < Pages(sz)
  {
  }

  lemma PageAt(pa: nat, k: nat, p: nat)
    requires p == pa + k * PGSIZE
    ensures p / PGSIZE == pa / PGSIZE + k
  {
  }

  lemma MappedOneMore(t: Tables, t1: Tables, t2: Tables, owner: map<nat, Label>, owner1: map<nat, Label>, r: nat,
          va: nat, pa: nat, k: nat, perm: nat, v: nat, p: nat)
    requires k < VPNS && v == va + k * PGSIZE && p == pa + k * PGSIZE
    requires IsMapped(t1, t, owner, r, Vpn(va), pa / PGSIZE, k, perm) && RootsKept(owner, owner1)
    requires IsUpdated(t2, t1, owner1, r, Vpn(v), MakePte(p / PGSIZE, perm)) && HasLeaf(t2, r, Vpn(v))
    ensures IsMapped(t2, t, owner, r, Vpn(va), pa / PGSIZE, k + 1, perm) && LeafBefore(t2, r, Vpn(va), k + 1)
  {
    OffsetOf(va, pa, k, v, p);
    MapOneMore(t, t1, t2, owner, owner1, r, Vpn(va), pa / PGSIZE, k, perm, Vpn(v));
  }

  /** Pages from lo up to, and not including, hi are counted once, others as before. */
  ghost predicate NewlyCounted(refs: seq<nat>, refs': seq<nat>, lo: nat, hi: nat) {
    |refs'| == |refs| && forall p :: 0 <= p < |refs| ==> refs'[p] == if lo <= p < hi then 1 else refs[p]
  }

  lemma CountedTwice(refs: seq<nat>, refs1: seq<nat>, refs2: seq<nat>, k: nat, k1: nat, k2: nat)
    requires NewlyCounted(refs, refs1, k, k1) && NewlyCounted(refs1, refs2, k1, k2) && k <= k1 <= k2
    ensures NewlyCounted(refs, refs2, k, k2)
  {
  }

  /** The pages handed out so far, in the order in which they were. */
  ghost predicate IsLog(log: seq<nat>, taken: nat) {
    var ok := |log| == taken && forall i :: 0 <= i < |log| ==> log[i] == BASE + i;
    ok
  }

  ghost predicate Increasing(log: seq<nat>) {
    forall i, j :: 0 <= i < j < |log| ==> log[i] < log[j]
  }

  /** The log at a later moment begins with the log at an earlier one, and every
      page in it has a higher number than all pages before it: none is handed
      out twice. */
  lemma PagesNeverReturn(log: seq<nat>, taken: nat, log': seq<nat>, taken': nat)
    requires IsLog(log, taken) && IsLog(log', taken') && taken <= taken'
    ensures log <= log' && Increasing(log')
  {
  }

  /** Leaf tables that k pages lie under, the first of them at index i0. */
  function LeavesFor(i0: nat, k: nat): nat {
    if k == 0 then 0 else 1 + (i0 + k - 1) / 512
  }

  /** The most pages that mapping n consecutive pages takes for tables: at each
      leaf table begun, one for it and one for a middle table. */
  function TablesFor(n: nat): nat {
    if n == 0 then 0 else 2 * (1 + (n + 510) / 512)
  }

  lemma TablesGrow(i0: nat, k: nat, n: nat)
    requires i0 < 512 && k <= n
    ensures 2 * LeavesFor(i0, k) <= TablesFor(n)
  {
    if k > 0 {
      assert (i0 + k - 1) / 512 <= (n + 510) / 512;
    }
  }

  /** The last of the first k pages from page v on has its leaf table. */
  predicate LeafBefore(t: Tables, r: nat, v: nat, k: nat) {
    k > 0 ==> HasLeaf(t, r, (v + k - 1) % VPNS)
  }

  lemma LeavesOneMore(t: Tables, r: nat, v: nat, k: nat)
    requires v < VPNS
    ensures LeavesFor(Index0(v), k) <= LeavesFor(Index0(v), k + 1)
    ensures k == 0 || (Index0(v) + k) % 512 == 0 ==> LeavesFor(Index0(v), k + 1) == LeavesFor(Index0(v), k) + 1
    ensures k > 0 && (Index0(v) + k) % 512 != 0 ==> (LeafBefore(t, r, v, k) ==> HasLeaf(t, r, (v + k) % VPNS))
  {
    if k > 0 { SameLeaf(v, k - 1); }
  }

  /** One page more takes no more pages than its leaf table's level allows. */
  lemma LeavesBound(done: bool, t0: Tables, t: Tables, r: nat, va: nat, k: nat, v: nat, size: nat, taken0: nat,
          taken1: nat, taken2: nat)
    requires v == va + k * PGSIZE && LeafBefore(t, r, Vpn(va), k) && (k == 0 ==> t == t0)
    requires TablesTaken(true, t0, r, Vpn(va), k, size, taken0, taken1)
    requires taken2 <= taken1 + 2 && (HasLeaf(t, r, Vpn(v)) ==> done && taken2 == taken1)
    requires !done ==> taken2 == size <= taken1 + 1
    ensures TablesTaken(done, t0, r, Vpn(va), k + 1, size, taken0, taken2)
  {
    VpnPlus(va, k);
    LeavesOneMore(t, r, Vpn(va), k);
  }

  /** What the first k pages from page v on, the last of them unless `done`, have
      taken for tables: a single page whose table exists takes none. */
  ghost predicate TablesTaken(done: bool, t0: Tables, r: nat, v: nat, k: nat, size: nat, taken0: nat, taken: nat)
    requires v < VPNS
  {
    var ok :=
      && taken <= taken0 + 2 * LeavesFor(Index0(v), k)
      && (!done ==> taken == size < taken0 + 2 * LeavesFor(Index0(v), k))
      && (k == 0 || (k == 1 && HasLeaf(t0, r, v)) ==> done && taken == taken0);
    ok
  }

  lemma VpnPlus(va: nat, k: nat)
    ensures Vpn(va + k * PGSIZE) == (Vpn(va) + k) % VPNS
  {
    var p := va / 4096;
    assert (va + k * PGSIZE) / 4096 == p + k;
    var q := p / VPNS;
    assert p == q * VPNS + p % VPNS;
    var u := (p % VPNS + k) % VPNS;
    assert p + k == (q + (p % VPNS + k) / VPNS) * VPNS + u;
    DivModUnique(p + k, VPNS, q + (p % VPNS + k) / VPNS, u);
  }

  function ZeroTable(): seq<nat> { seq(512, (i: nat) => 0) }

  /** A page of the kernel image is among those reserved at boot. */
  lemma SwapperReserved(ekernel: nat, pages: nat, swapper: nat)
    requires BASE <= swapper && (swapper + 1) * PGSIZE <= ekernel
    ensures swapper < BASE + Reserved(ekernel, pages)
  {
    ReservedExactly(ekernel, pages, swapper - BASE);
    assert PageOf(swapper * PGSIZE) == swapper - BASE;
  }

  /** A root of zeros alone is well-formed and translates nothing. */
  lemma ClearedRoot(r: nat)
    ensures Wf(map[r := ZeroTable()], map[r := Root], r)
    ensures forall i: nat :: WordAt(map[r := ZeroTable()], r, i) == 0
    ensures forall w: nat :: w < VPNS ==> Entry(map[r := ZeroTable()], r, w) == 0
  {
    var t := map[r := ZeroTable()];
    forall f: nat, i: nat
      ensures WordAt(t, f, i) == 0
    {
    }
  }

  class Mmu {
    const buddy: Buddy
    const kernel: nat  // frame of swapper_pg_dir
    var tables: Tables
    ghost var owner: map<nat, Label>
    ghost var taken: nat  // pages handed out so far; none ever came back
    ghost var log: seq<nat>  // these pages, in order

    ghost predicate Valid()
      reads this, buddy, buddy.bitmap, buddy.refCnt
    {
      var ok :=
        && buddy.Valid() && Logged() && taken <= buddy.size && buddy.live == Prefix(buddy.size, taken)
        && BASE + buddy.size <= PPN_LIMIT
        && buddy.bitmapAt + 8 * buddy.bitmap.Length <= (BASE + taken) * PGSIZE
        && buddy.refCntAt + 8 * buddy.refCnt.Length <= (BASE + taken) * PGSIZE
        && Wf(tables, owner, kernel)
        && (forall f :: f in owner ==> BASE <= f < BASE + taken)
        && (forall i: nat :: i < 256 ==> !IsValid(WordAt(tables, kernel, i)));
      ok
    }

    /** Boot: the allocator is initialised, then swapper_pg_dir, a page of the
        kernel image, is cleared. */
    constructor (pages: nat, ekernel: nat, swapper: nat)
      requires 1 <= pages <= TWO63 && Reserved(ekernel, pages) <= Rounded(pages) && BASE + Rounded(pages) <= PPN_LIMIT
      requires BASE <= swapper && (swapper + 1) * PGSIZE <= ekernel
      ensures Valid() && fresh(buddy) && fresh(buddy.bitmap) && fresh(buddy.refCnt)
      ensures kernel == swapper && taken == Reserved(ekernel, pages) && owner == map[swapper := Root]
      ensures buddy.size == Rounded(pages)
      ensures forall w: nat :: w < VPNS ==> Entry(tables, swapper, w) == 0
    {
      SwapperReserved(ekernel, pages, swapper);
      BeginsBelow(ArraysEnd(ekernel, Rounded(pages)), 0);
      buddy := new Buddy(pages, ekernel);
      kernel := swapper;
      tables := map[swapper := ZeroTable()];
      owner := map[swapper := Root];
      taken := Reserved(ekernel, pages);
      log := seq(Reserved(ekernel, pages), (i: nat) => BASE + i);
      ClearedRoot(swapper);
    }

    /** The log is kept: it lists the pages taken, lowest first. */
    ghost predicate Logged()
      reads this`log, this`taken
    {
      IsLog(log, taken)
    }

    /** At most n pages have been taken since a moment; what was to be done with
        them failed only with the last page gone, and fewer than n taken. */
    ghost predicate Took(done: bool, taken0: nat, n: int)
      reads this`taken, this`log
    {
      var ok := Logged() && taken0 <= taken <= taken0 + n && (!done ==> taken == buddy.size < taken0 + n);
      ok
    }

    /** kalloc: the next page, as a page number, never one that holds a byte of the
        allocator's arrays; 0 when there is none left. */
    method Kalloc() returns (f: nat)
      requires Valid()
      modifies this`taken, this`log, buddy, buddy.bitmap, buddy.refCnt
      ensures Valid()
      ensures f == 0 <==> old(taken) == buddy.size
      ensures f != 0 ==> buddy.bitmapAt + 8 * buddy.bitmap.Length <= f * PGSIZE
                         && buddy.refCntAt + 8 * buddy.refCnt.Length <= f * PGSIZE
      ensures f == 0 ==> taken == old(taken) && buddy.refCnt[..] == old(buddy.refCnt[..])
      ensures log == if f == 0 then old(log) else old(log) + [f]
      ensures f != 0 ==> f == BASE + old(taken) && taken == old(taken) + 1 && f !in owner
                         && buddy.refCnt[..] == old(buddy.refCnt[..])[old(taken) := 1]
    {
      var pfn := buddy.AllocPage(taken);
      if pfn == 0 {
        assert kernel in owner;
        return 0;
      }
      taken := taken + 1;
      f := BASE + pfn;
      log := log + [f];
    }

    /** put_page on a page that is referenced more than once. */
    method PutPage(pfn: nat, ghost n: nat)
      requires Valid() && pfn < taken && buddy.refCnt[pfn] == n >= 2
      modifies buddy, buddy.bitmap, buddy.refCnt
      ensures Valid() && buddy.refCnt[..] == old(buddy.refCnt[..])[pfn := n - 1]
    {
      ghost var leaf := pfn + buddy.size - 1;
      PrefixMember(buddy.size, taken, leaf);
      LeafOfPage(buddy.size, pfn);
      assert IsHead(buddy.size, buddy.live, pfn);
      ghost var _ := buddy.PageRefDec(pfn);
    }

    /** get_page on a page that has been handed out. */
    method SharePage(pfn: nat, ghost n: nat)
      requires Valid() && pfn < taken && buddy.refCnt[pfn] == n
      modifies buddy.refCnt
      ensures Valid() && buddy.refCnt[..] == old(buddy.refCnt[..])[pfn := n + 1]
    {
      PrefixLive(buddy.size, taken, pfn);
      var _ := buddy.GetPage(pfn);
    }

    /** Frames handed out since a moment are counted once, other counts are as then. */
    ghost predicate Handed(refs: seq<nat>, k: nat)
      reads this, buddy.refCnt
    {
      NewlyCounted(refs, buddy.refCnt[..], k, taken)
    }

    /** Nothing but tables has been added since a moment, in order. */
    ghost predicate Kept(owner0: map<nat, Label>, taken0: nat, refs0: seq<nat>)
      reads this, buddy, buddy.bitmap, buddy.refCnt
    {
      var ok := Valid() && taken0 <= taken && Grown(owner0, owner, BASE + taken0) && Handed(refs0, taken0);
      ok
    }

    lemma KeptTwice(owner0: map<nat, Label>, k0: nat, refs0: seq<nat>, owner1: map<nat, Label>, k1: nat, refs1: seq<nat>)
      requires Grown(owner0, owner1, BASE + k0) && NewlyCounted(refs0, refs1, k0, k1) && k0 <= k1
      requires Kept(owner1, k1, refs1)
      ensures Kept(owner0, k0, refs0)
    {
      GrownTwice(owner0, owner1, owner, BASE + k0, BASE + k1);
      CountedTwice(refs0, refs1, buddy.refCnt[..], k0, k1, taken);
    }

    /** First level: make the root's slot valid. */
    method EnsureMid(root: nat, i2: nat) returns (ok: bool, pgdEntry: nat)
      requires Valid() && IsRoot(owner, root) && i2 < 512
      requires MayFill(tables, owner, kernel, root, i2)
      modifies this, buddy, buddy.bitmap, buddy.refCnt
      ensures Kept(old(owner), old(taken), old(buddy.refCnt[..]))
      ensures SameEntries(old(tables), tables, old(owner))
      ensures !ok ==> taken == buddy.size == old(taken)
      ensures ok ==> pgdEntry == WordAt(tables, root, i2) && IsValid(pgdEntry) && SlotsKept(old(tables), tables, root)
      ensures ok ==> pgdEntry % 1024 == 1
      ensures taken <= old(taken) + 1
      ensures IsValid(WordAt(old(tables), root, i2)) ==> ok && taken == old(taken) && tables == old(tables)
    {
      ok, pgdEntry := true, WordAt(tables, root, i2);
      if !IsValid(pgdEntry) {
        var ppmd := Kalloc();
        if ppmd == 0 {
          return false, 0;
        }
        pgdEntry := MakePte(ppmd, PTE_V);
        PteRoundTrip(ppmd, PTE_V);
        AddMid(tables, owner, kernel, root, i2, ppmd);
        tables := SetWord(tables, root, i2, pgdEntry);
        owner := owner[ppmd := Mid(Space(kernel, root, i2), i2)];
      }
      UpperWord(tables, owner, kernel, root, i2);
    }

    /** Second level: make the middle table's slot valid. */
    method EnsureLeaf(pmd: nat, i1: nat) returns (ok: bool, pmdEntry: nat)
      requires Valid() && pmd in owner && owner[pmd].Mid? && i1 < 512
      modifies this, buddy, buddy.bitmap, buddy.refCnt
      ensures Kept(old(owner), old(taken), old(buddy.refCnt[..]))
      ensures SameEntries(old(tables), tables, old(owner))
      ensures forall g, j: nat :: g != pmd && j < 512 ==> WordAt(tables, g, j) == WordAt(old(tables), g, j)
      ensures !ok ==> taken == buddy.size == old(taken)
      ensures ok ==> pmdEntry == WordAt(tables, pmd, i1) && IsValid(pmdEntry) && pmdEntry % 1024 == 1
      ensures taken <= old(taken) + 1
      ensures IsValid(WordAt(old(tables), pmd, i1)) ==> ok && taken == old(taken)
    {
      ok, pmdEntry := true, WordAt(tables, pmd, i1);
      if !IsValid(pmdEntry) {
        var ppte := Kalloc();
        if ppte == 0 {
          return false, 0;
        }
        pmdEntry := MakePte(ppte, PTE_V);
        PteRoundTrip(ppte, PTE_V);
        AddLeaf(tables, owner, kernel, pmd, i1, ppte);
        tables := SetWord(tables, pmd, i1, pmdEntry);
        owner := owner[ppte := Leaf(owner[pmd].space, owner[pmd].i2, i1)];
      }
      UpperWord(tables, owner, kernel, pmd, i1);
    }

    /** Third level: store into the leaf table that the path leads to. */
    method StoreLeaf(ghost root: nat, ghost v: nat, pte: nat, i0: nat, e: nat)
      requires Valid() && IsRoot(owner, root) && v < VPNS && i0 == Index0(v) && e < PTE_LIMIT
      requires HasLeaf(tables, root, v) && pte == Ppn(WordAt(tables, Ppn(WordAt(tables, root, Index2(v))), Index1(v)))
      modifies this`tables
      ensures Valid()
      ensures IsUpdated(tables, old(tables), owner, root, v, e)
      ensures HasLeaf(tables, root, v) && SlotsKept(old(tables), tables, root)
    {
      WalkLabels(tables, owner, kernel, root, v);
      WriteLeaf(tables, owner, kernel, root, v, e);
      forall j: nat | j < 512
        ensures WordAt(SetWord(tables, pte, i0, e), kernel, j) == WordAt(tables, kernel, j)
      {
        SetWordAt(tables, pte, i0, e, kernel, j);
      }
      forall j: nat | j < 512
        ensures WordAt(SetWord(tables, pte, i0, e), root, j) == WordAt(tables, root, j)
      {
        SetWordAt(tables, pte, i0, e, root, j);
      }
      tables := SetWord(tables, pte, i0, e);
    }

    /** The second of the two upper levels of create_mapping's loop body. */
    method ReachSecond(root: nat, va: nat, pgdEntry: nat) returns (ok: bool, pte: nat)
      requires Valid() && IsRoot(owner, root)
      requires pgdEntry == WordAt(tables, root, Index2(Vpn(va))) && IsValid(pgdEntry)
      modifies this, buddy, buddy.bitmap, buddy.refCnt
      ensures Kept(old(owner), old(taken), old(buddy.refCnt[..]))
      ensures SameEntries(old(tables), tables, old(owner))
      ensures !ok ==> taken == buddy.size == old(taken)
      ensures ok ==> HasLeaf(tables, root, Vpn(va)) && SlotsKept(old(tables), tables, root)
                     && pte == Ppn(WordAt(tables, Ppn(WordAt(tables, root, Index2(Vpn(va)))), Index1(Vpn(va))))
      ensures taken <= old(taken) + 1
      ensures HasLeaf(old(tables), root, Vpn(va)) ==> ok && taken == old(taken)
    {
      VaIndices(va);
      WalkLabels(tables, owner, kernel, root, Vpn(va));
      DecodeBits(pgdEntry);
      var pmd, pmdEntry := Decoded(pgdEntry), 0;
      pte := 0;
      ok, pmdEntry := EnsureLeaf(pmd, And(va / 0x20_0000, 0x1ff));
      if ok {
        assert WordAt(tables, root, Index2(Vpn(va))) == pgdEntry;
        DecodeBits(pmdEntry);
        pte := Decoded(pmdEntry);
      }
    }

    /** The two upper levels of create_mapping's loop body: the leaf table of va. */
    method ReachLeaf(root: nat, va: nat) returns (ok: bool, pte: nat)
      requires Valid() && IsRoot(owner, root) && MayMap(tables, owner, kernel, root, Vpn(va))
      modifies this, buddy, buddy.bitmap, buddy.refCnt
      ensures Kept(old(owner), old(taken), old(buddy.refCnt[..]))
      ensures SameEntries(old(tables), tables, old(owner))
      ensures !ok ==> taken == buddy.size <= old(taken) + 1
      ensures ok ==> HasLeaf(tables, root, Vpn(va)) && SlotsKept(old(tables), tables, root)
                     && pte == Ppn(WordAt(tables, Ppn(WordAt(tables, root, Index2(Vpn(va)))), Index1(Vpn(va))))
      ensures taken <= old(taken) + 2
      ensures HasLeaf(old(tables), root, Vpn(va)) ==> ok && taken == old(taken)
    {
      VaIndices(va);
      ghost var t0, owner0, k0, refs0 := tables, owner, taken, buddy.refCnt[..];
      var pgdEntry;
      pte := 0;
      ok, pgdEntry := EnsureMid(root, And(va / 0x4000_0000, 0x1ff));
      if ok {
        ghost var t1, owner1, k1, refs1 := tables, owner, taken, buddy.refCnt[..];
        ok, pte := ReachSecond(root, va, pgdEntry);
        KeptTwice(owner0, k0, refs0, owner1, k1, refs1);
        SameTwice(t0, t1, tables, owner0, owner1, BASE + k0);
        if ok { SlotsTwice(t0, t1, tables, root); }
      }
    }

    /** The body of create_mapping's loop. */
    method MapPage(root: nat, va: nat, pa: nat, perm: nat) returns (ok: bool)
      requires Valid() && IsRoot(owner, root) && perm < 256 && pa / PGSIZE < PPN_LIMIT
      requires MayMap(tables, owner, kernel, root, Vpn(va))
      modifies this, buddy, buddy.bitmap, buddy.refCnt
      ensures Kept(old(owner), old(taken), old(buddy.refCnt[..]))
      ensures !ok ==> taken == buddy.size <= old(taken) + 1
      ensures ok ==> IsUpdated(tables, old(tables), old(owner), root, Vpn(va), MakePte(pa / PGSIZE, perm))
      ensures ok ==> HasLeaf(tables, root, Vpn(va)) && SlotsKept(old(tables), tables, root)
      ensures taken <= old(taken) + 2
      ensures HasLeaf(old(tables), root, Vpn(va)) ==> ok && taken == old(taken)
    {
      var pte;
      ok, pte := ReachLeaf(root, va);
      if !ok {
        return;
      }
      ghost var t1 := tables;
      var i0 := And(va / 0x1000, 0x1ff);
      assert i0 == Index0(Vpn(va)) by { VaIndices(va); }
      StoreLeaf(root, Vpn(va), pte, i0, MakePte(pa / PGSIZE, perm));
      SlotsTwice(old(tables), t1, tables, root);
      UpdateAfterSame(old(tables), t1, tables, old(owner), owner, BASE + old(taken), root, Vpn(va), MakePte(pa / PGSIZE, perm));
    }

    /** create_mapping after k pages of a range that begins at page v0. */
    ghost predicate Progress(t0: Tables, owner0: map<nat, Label>, root: nat, v0: nat, ppn: nat, k: nat, perm: nat)
      requires v0 < VPNS
      reads this
    {
      var ok :=
        && IsMapped(tables, t0, owner0, root, v0, ppn, k, perm) && SlotsKept(t0, tables, root)
        && LeafBefore(tables, root, v0, k) && (k == 0 ==> tables == t0);
      ok
    }

    /** One round of create_mapping's loop. */
    method MapNext(root: nat, v: nat, p: nat, perm: nat, ghost va: nat, ghost pa: nat, ghost k: nat,
            ghost t0: Tables, ghost owner0: map<nat, Label>, ghost taken0: nat, ghost refs0: seq<nat>)
      returns (ok: bool)
      requires Kept(owner0, taken0, refs0) && Progress(t0, owner0, root, Vpn(va), pa / PGSIZE, k, perm)
      requires TablesTaken(true, t0, root, Vpn(va), k, buddy.size, taken0, taken)
      requires IsRoot(owner0, root) && perm < 256 && v == va + k * PGSIZE && p == pa + k * PGSIZE
      requires k < VPNS && pa / PGSIZE + k < PPN_LIMIT && MayMap(t0, owner0, kernel, root, Vpn(v))
      modifies this, buddy, buddy.bitmap, buddy.refCnt
      ensures Kept(owner0, taken0, refs0) && TablesTaken(ok, t0, root, Vpn(va), k + 1, buddy.size, taken0, taken)
      ensures ok ==> Progress(t0, owner0, root, Vpn(va), pa / PGSIZE, k + 1, perm)
    {
      ghost var t1, owner1, k1, refs1 := tables, owner, taken, buddy.refCnt[..];
      GrownRoots(owner0, owner1, BASE + taken0);
      PageAt(pa, k, p);
      StillMayMap(t0, t1, owner0, owner1, BASE + taken0, kernel, root, Vpn(v));
      ok := MapPage(root, v, p, perm);
      KeptTwice(owner0, taken0, refs0, owner1, k1, refs1);
      LeavesBound(ok, t0, t1, root, va, k, v, buddy.size, taken0, k1, taken);
      if ok { SlotsTwice(t0, t1, tables, root); }
      if ok { MappedOneMore(t0, t1, tables, owner0, owner1, root, va, pa, k, perm, v, p); }
    }

    /** create_mapping refines an update of the flat map: every page of
        [va, va + sz) leads to pa + offset with exactly perm, every other page,
        of this and of every other root, translates as before. It fails only
        when memory runs out and takes no more pages than the range can need. */
    method CreateMapping(root: nat, va: nat, pa: nat, sz: nat, perm: nat) returns (ok: bool)
      requires Valid() && IsRoot(owner, root) && perm < 256
      requires va + sz + PGSIZE <= TWO64 && Pages(sz) <= VPNS && pa / PGSIZE + Pages(sz) <= PPN_LIMIT
      requires forall k: nat :: k < Pages(sz) ==> MayMap(tables, owner, kernel, root, Vpn(va + k * PGSIZE))
      modifies this, buddy, buddy.bitmap, buddy.refCnt
      ensures Valid() && Took(ok, old(taken), TablesFor(Pages(sz))) && Grown(old(owner), owner, BASE + old(taken))
      ensures Handed(old(buddy.refCnt[..]), old(taken))
      ensures ok ==> IsMapped(tables, old(tables), old(owner), root, Vpn(va), pa / PGSIZE, Pages(sz), perm)
      ensures Pages(sz) == 1 && HasLeaf(old(tables), root, Vpn(va)) ==> ok && taken == old(taken)
    {
      ok := true;
      ghost var t0, owner0, taken0, refs0, n := tables, owner, taken, buddy.refCnt[..], Pages(sz);
      var vlimit, v, p := va + sz, va, pa;
      ghost var k := 0;
      while ok && v < vlimit
        invariant v == va + k * PGSIZE && p == pa + k * PGSIZE && k <= n
        invariant Kept(owner0, taken0, refs0) && TablesTaken(ok, t0, root, Vpn(va), k, buddy.size, taken0, taken)
        invariant ok ==> Progress(t0, owner0, root, Vpn(va), pa / PGSIZE, k, perm)
        decreases ok, vlimit - v
      {
        PageCount(sz, k);
        MayMapAt(t0, owner0, kernel, root, va, n, k, v);
        ok := MapNext(root, v, p, perm, va, pa, k, t0, owner0, taken0, refs0);
        v := v + PGSIZE;
        p := p + PGSIZE;
        k := k + 1;
      }
      PageCount(sz, k);
      TablesGrow(Index0(Vpn(va)), k, n);
    }

    /** Under the hardware's translation process the tables say what the entries
        say. */
    lemma HardwareAgrees(root: nat, va: nat)
      requires Valid() && IsRoot(owner, root) && CanonicalAddress(va)
      ensures var e := Entry(tables, root, Vpn(va));
              Translate(tables, root, va) == if IsValid(e) && IsPage(e) then Found(Ppn(e), Perm(e)) else PageFault
    {
      WalkIsEntry(tables, owner, kernel, root, va);
    }

    /** check_load: the permission byte of a page, 0 if any level is not valid. */
    method CheckLoad(root: nat, addr: nat) returns (perm: nat)
      requires Valid()
      ensures perm == Loaded(tables, root, addr)
    {
      VaIndices(addr);
      var pgdEntry := WordAt(tables, root, And(addr / 0x4000_0000, 0x1ff));
      if !IsValid(pgdEntry) {
        return 0;
      }
      DecodeBits(pgdEntry);
      var pmdEntry := WordAt(tables, Decoded(pgdEntry), And(addr / 0x20_0000, 0x1ff));
      if !IsValid(pmdEntry) {
        return 0;
      }
      DecodeBits(pmdEntry);
      var pteEntry := WordAt(tables, Decoded(pmdEntry), And(addr / 0x1000, 0x1ff));
      if !IsValid(pteEntry) {
        return 0;
      }
      perm := Perm(pteEntry);
    }

    /** pte_entry_ret: clears the write bit of a mapped page's entry and returns it. */
    method PteEntryRet(root: nat, addr: nat) returns (entry: nat)
      requires Valid() && IsRoot(owner, root) && IsValid(Entry(tables, root, Vpn(addr)))
      modifies this`tables
      ensures Valid()
      ensures entry == ClearW(Entry(old(tables), root, Vpn(addr)))
      ensures IsUpdated(tables, old(tables), owner, root, Vpn(addr), entry)
    {
      VaIndices(addr);
      EntryLimit(tables, owner, kernel, root, Vpn(addr));
      var pgdEntry := WordAt(tables, root, And(addr / 0x4000_0000, 0x1ff));
      DecodeBits(pgdEntry);
      var pmdEntry := WordAt(tables, Decoded(pgdEntry), And(addr / 0x20_0000, 0x1ff));
      DecodeBits(pmdEntry);
      var pteEntry := WordAt(tables, Decoded(pmdEntry), And(addr / 0x1000, 0x1ff));
      entry := ClearW(pteEntry);
      StoreLeaf(root, Vpn(addr), Decoded(pmdEntry), And(addr / 0x1000, 0x1ff), entry);
    }

    /** change_perm: sets the write bit of a mapped page's entry. */
    method ChangePerm(root: nat, addr: nat)
      requires Valid() && IsRoot(owner, root) && IsValid(Entry(tables, root, Vpn(addr)))
      modifies this`tables
      ensures Valid()
      ensures IsUpdated(tables, old(tables), owner, root, Vpn(addr), SetW(Entry(old(tables), root, Vpn(addr))))
    {
      VaIndices(addr);
      EntryLimit(tables, owner, kernel, root, Vpn(addr));
      var pgdEntry := WordAt(tables, root, And(addr / 0x4000_0000, 0x1ff));
      DecodeBits(pgdEntry);
      var pmdEntry := WordAt(tables, Decoded(pgdEntry), And(addr / 0x20_0000, 0x1ff));
      DecodeBits(pmdEntry);
      var pteEntry := WordAt(tables, Decoded(pmdEntry), And(addr / 0x1000, 0x1ff));
      StoreLeaf(root, Vpn(addr), Decoded(pmdEntry), And(addr / 0x1000, 0x1ff), SetW(pteEntry));
    }

    /** A task's new root: one page, filled with a copy of swapper_pg_dir. It
        shares the kernel half and translates no user page. */
    method NewRoot() returns (root: nat)
      requires Valid()
      modifies this, buddy, buddy.bitmap, buddy.refCnt
      ensures Valid() && old(taken) <= taken
      ensures Handed(old(buddy.refCnt[..]), old(taken))
      ensures root == 0 ==> taken == old(taken) == buddy.size && tables == old(tables) && owner == old(owner)
      ensures root != 0 ==>
                && root == BASE + old(taken) && taken == old(taken) + 1
                && root !in old(owner) && owner == old(owner)[root := Root]
                && SameEntries(old(tables), tables, old(owner))
                && (forall w: nat :: w < USER_VPNS ==> Entry(tables, root, w) == 0)
                && (forall w: nat :: USER_VPNS <= w < VPNS ==> Entry(tables, root, w) == Entry(old(tables), kernel, w))
    {
      root := Kalloc();
      if root == 0 {
        return;
      }
      var words: seq<nat> := [];
      for i := 0 to 512
        invariant |words| == i && forall j :: 0 <= j < i ==> words[j] == WordAt(tables, kernel, j)
        invariant tables == old(tables) && owner == old(owner)
      {
        words := words + [WordAt(tables, kernel, i)];
      }
      AddRoot(tables, owner, kernel, root);
      ghost var t := tables;
      assert words == seq(512, (i: nat) => WordAt(t, kernel, i));
      tables := tables[root := words];
      forall i: nat | i < 256
        ensures WordAt(tables, kernel, i) == WordAt(t, kernel, i)
      {
      }
      owner := owner[root := Root];
    }
  }
}
