/** setup_vm_final: the kernel's own address space. */
module KernelMapping {
  import opened Bits
  import opened BuddyAllocator
  import opened PageTable
  import opened Sv39
  import opened MemoryMapping

  const VM_START: nat := 0xffff_ffe0_0000_0000
  const PA2VA_OFFSET: nat := VM_START - 0x8000_0000
  const PHY_SIZE: nat := 128 * 1024 * 1024
  const RAM_PAGES: nat := 0x8000  // PHY_SIZE / PGSIZE

  const TEXT: nat := PTE_X + PTE_R + PTE_V
  const RODATA: nat := PTE_R + PTE_V
  const DATA: nat := PTE_W + PTE_R + PTE_V

  /** The linker's section symbols. */
  ghost predicate Layout(stext: nat, srodata: nat, sdata: nat) {
    && VM_START <= stext <= srodata <= sdata <= stext + PHY_SIZE && stext + PHY_SIZE + PGSIZE <= TWO64
    && stext % PGSIZE == 0 && srodata % PGSIZE == 0 && sdata % PGSIZE == 0
  }

  /** Permissions of the page k pages after _stext. */
  function SectionPerm(stext: nat, srodata: nat, sdata: nat, k: nat): nat {
    if stext + k * PGSIZE < srodata then TEXT else if stext + k * PGSIZE < sdata then RODATA else DATA
  }

  /** The entry of page w: within the size of RAM from _stext on, the page at
      its virtual address less PA2VA_OFFSET, under its section's permissions;
      elsewhere none. */
  function KernelEntry(stext: nat, srodata: nat, sdata: nat, w: nat): nat
    requires stext >= PA2VA_OFFSET && w < VPNS
  {
    var k := Offset(Vpn(stext), w);
    if k < RAM_PAGES then MakePte((stext - PA2VA_OFFSET) / PGSIZE + k, SectionPerm(stext, srodata, sdata, k)) else 0
  }

  lemma KernelHalf(va: nat)
    requires VM_START <= va < TWO64
    ensures USER_VPNS <= Vpn(va) < VPNS
  {
  }

  lemma MayMapKernel(t: Tables, owner: map<nat, Label>, kernel: nat, va: nat, sz: nat)
    requires VM_START <= va && va % PGSIZE == 0 && va + sz <= TWO64
    requires forall q :: IsRoot(owner, q) ==> q == kernel
    ensures forall k: nat :: k < Pages(sz) ==> MayMap(t, owner, kernel, kernel, Vpn(va + k * PGSIZE))
  {
    forall k: nat | k < Pages(sz)
      ensures MayMap(t, owner, kernel, kernel, Vpn(va + k * PGSIZE))
    {
      KernelHalf(va + k * PGSIZE);
    }
  }

  /** Page w seen from a page d pages further on. */
  lemma OffsetShift(v: nat, d: nat, w: nat)
    requires v < VPNS && v + d < VPNS && w < VPNS
    ensures Offset(v, w) >= d ==> Offset(v + d, w) == Offset(v, w) - d
    ensures Offset(v, w) < d ==> Offset(v + d, w) == Offset(v, w) + VPNS - d
  {
  }

  lemma VpnHigh(va: nat)
    requires VM_START <= va < TWO64
    ensures Vpn(va) == va / PGSIZE - 0xf_ffff_f800_0000
  {
    var p := va / 4096;
    DivModUnique(p, VPNS, 0x1ff_ffff, p - 0xf_ffff_f800_0000);
  }

  /** Page numbers of a section start n pages after _stext. */
  lemma PageNumbers(stext: nat, n: nat)
    requires VM_START <= stext && stext + n * PGSIZE < TWO64 && stext % PGSIZE == 0
    ensures Vpn(stext + n * PGSIZE) == Vpn(stext) + n
    ensures (stext + n * PGSIZE - PA2VA_OFFSET) % PGSIZE == 0
    ensures (stext + n * PGSIZE - PA2VA_OFFSET) / PGSIZE == (stext - PA2VA_OFFSET) / PGSIZE + n
    ensures Pages(n * PGSIZE) == n
  {
    VpnHigh(stext);
    VpnHigh(stext + n * PGSIZE);
  }

  /** Three consecutive ranges mapped one after the other over an empty kernel
      half, a, b and all of n pages in. */
  lemma ThreeRanges(t0: Tables, t1: Tables, t2: Tables, t3: Tables, r: nat, v: nat, ppn: nat, a: nat, b: nat, n: nat,
          w: nat)
    requires v + n < VPNS && a <= b <= n && w < VPNS
    requires Entry(t0, r, w) == 0
    requires Entry(t1, r, w) == Mapped(t0, r, v, ppn, a, TEXT, r, w)
    requires Entry(t2, r, w) == Mapped(t1, r, v + a, ppn + a, b - a, RODATA, r, w)
    requires Entry(t3, r, w) == Mapped(t2, r, v + b, ppn + b, n - b, DATA, r, w)
    ensures var k := Offset(v, w);
            Entry(t3, r, w) == if k < n then MakePte(ppn + k, if k < a then TEXT else if k < b then RODATA else DATA) else 0
  {
    OffsetShift(v, a, w);
    OffsetShift(v, b, w);
  }

  /** n pages of the kernel's address space, k pages after _stext, have been mapped. */
  ghost predicate SectionMapped(t': Tables, t: Tables, r: nat, stext: nat, k: nat, n: nat, perm: nat) {
    && stext >= PA2VA_OFFSET && Vpn(stext) + k < VPNS
    && forall w: nat :: w < VPNS ==>
         Entry(t', r, w) == Mapped(t, r, Vpn(stext) + k, (stext - PA2VA_OFFSET) / PGSIZE + k, n, perm, r, w)
  }

  lemma AllRanges(t0: Tables, t1: Tables, t2: Tables, t3: Tables, r: nat, stext: nat, srodata: nat, sdata: nat)
    requires Layout(stext, srodata, sdata) && Vpn(stext) + RAM_PAGES < VPNS
    requires forall w: nat :: w < VPNS ==> Entry(t0, r, w) == 0
    requires var a, b := (srodata - stext) / PGSIZE, (sdata - stext) / PGSIZE;
             && a <= b <= RAM_PAGES
             && SectionMapped(t1, t0, r, stext, 0, a, TEXT)
             && SectionMapped(t2, t1, r, stext, a, b - a, RODATA)
             && SectionMapped(t3, t2, r, stext, b, RAM_PAGES - b, DATA)
    ensures forall w: nat :: w < VPNS ==> Entry(t3, r, w) == KernelEntry(stext, srodata, sdata, w)
  {
    var a, b := (srodata - stext) / PGSIZE, (sdata - stext) / PGSIZE;
    WholePages(stext, srodata, sdata);
    forall w: nat | w < VPNS
      ensures Entry(t3, r, w) == KernelEntry(stext, srodata, sdata, w)
    {
      ThreeRanges(t0, t1, t2, t3, r, Vpn(stext), (stext - PA2VA_OFFSET) / PGSIZE, a, b, RAM_PAGES, w);
    }
  }

  /** No table but swapper_pg_dir and those below it. */
  ghost predicate OneRoot(owner: map<nat, Label>, kernel: nat) {
    forall q :: IsRoot(owner, q) <==> q == kernel
  }

  /** One section: n pages, k pages after _stext. */
  method MapSection(mmu: Mmu, stext: nat, va: nat, sz: nat, perm: nat, ghost k: nat, ghost n: nat) returns (ok: bool)
    requires mmu.Valid() && OneRoot(mmu.owner, mmu.kernel) && perm < 256
    requires VM_START <= stext && stext % PGSIZE == 0 && va == stext + k * PGSIZE && sz == n * PGSIZE
    requires va + sz + PGSIZE <= TWO64
    modifies mmu, mmu.buddy, mmu.buddy.bitmap, mmu.buddy.refCnt
    ensures mmu.Valid() && OneRoot(mmu.owner, mmu.kernel)
    ensures mmu.Took(ok, old(mmu.taken), TablesFor(n))
    ensures ok ==> SectionMapped(mmu.tables, old(mmu.tables), mmu.kernel, stext, k, n, perm)
  {
    SectionFits(va, sz, n);
    MayMapKernel(mmu.tables, mmu.owner, mmu.kernel, va, sz);
    ghost var t, owner, lo := mmu.tables, mmu.owner, BASE + mmu.taken;
    ok := mmu.CreateMapping(mmu.kernel, va, va - PA2VA_OFFSET, sz, perm);
    GrownRoots(owner, mmu.owner, lo);
    if ok { MappedSection(mmu.tables, t, owner, mmu.kernel, stext, va, k, n, perm); }
  }

  lemma SectionFits(va: nat, sz: nat, n: nat)
    requires VM_START <= va && va + sz + PGSIZE <= TWO64 && sz == n * PGSIZE
    ensures Pages(sz) == n <= VPNS && (va - PA2VA_OFFSET) / PGSIZE + Pages(sz) <= PPN_LIMIT
  {
  }

  lemma MappedSection(t': Tables, t: Tables, owner: map<nat, Label>, r: nat, stext: nat, va: nat, k: nat, n: nat, perm: nat)
    requires VM_START <= stext && stext % PGSIZE == 0 && va == stext + k * PGSIZE < TWO64 && IsRoot(owner, r)
    requires IsMapped(t', t, owner, r, Vpn(va), (va - PA2VA_OFFSET) / PGSIZE, n, perm)
    ensures SectionMapped(t', t, r, stext, k, n, perm)
  {
    PageNumbers(stext, k);
  }

  /** The most pages that the kernel's own tables take. */
  const KERNEL_TABLES: nat := 138

  lemma ThreeSections(a: nat, b: nat)
    requires a <= b <= RAM_PAGES
    ensures TablesFor(a) + TablesFor(b - a) + TablesFor(RAM_PAGES - b) <= KERNEL_TABLES
    ensures TablesFor(a) + TablesFor(b - a) <= KERNEL_TABLES
  {
  }

  /** setup_vm_final's three mappings make exactly the kernel's address space:
      every page of it linear, under its section's permissions, and no other
      page of any kind mapped. */
  method SetupVmFinal(mmu: Mmu, stext: nat, srodata: nat, sdata: nat) returns (ok: bool)
    requires mmu.Valid() && OneRoot(mmu.owner, mmu.kernel) && Layout(stext, srodata, sdata)
    requires forall w: nat :: w < VPNS ==> Entry(mmu.tables, mmu.kernel, w) == 0
    modifies mmu, mmu.buddy, mmu.buddy.bitmap, mmu.buddy.refCnt
    ensures mmu.Valid() && OneRoot(mmu.owner, mmu.kernel)
    ensures mmu.Took(ok, old(mmu.taken), KERNEL_TABLES)
    ensures ok ==> forall w: nat :: w < VPNS ==> Entry(mmu.tables, mmu.kernel, w) == KernelEntry(stext, srodata, sdata, w)
    ensures ok ==> forall va: nat :: CanonicalAddress(va) ==>
              Translate(mmu.tables, mmu.kernel, va)
              == if stext <= va < stext + 0x800_0000
                 then Found((va - 0xffff_ffdf_8000_0000) / 4096, if va < srodata then 0xb else if va < sdata then 0x3 else 0x7)
                 else PageFault
  {
    ghost var t0, a, b := mmu.tables, (srodata - stext) / PGSIZE, (sdata - stext) / PGSIZE;
    WholePages(stext, srodata, sdata);
    ThreeSections(a, b);
    ghost var t1;
    ok, t1 := MapReadOnly(mmu, stext, srodata, sdata, a, b);
    if ok {
      ghost var t2 := mmu.tables;
      ok := MapSection(mmu, stext, sdata, PHY_SIZE - (sdata - stext), DATA, b, RAM_PAGES - b);
      if ok {
        AllRanges(t0, t1, t2, mmu.tables, mmu.kernel, stext, srodata, sdata);
        forall va: nat | CanonicalAddress(va)
          ensures Translate(mmu.tables, mmu.kernel, va) == KernelPage(stext, srodata, sdata, va)
        {
          KernelTranslates(mmu.tables, mmu.owner, mmu.kernel, mmu.kernel, stext, srodata, sdata, va);
        }
      }
    }
  }

  /** The first two mappings, of a pages and of the pages up to b. */
  method MapReadOnly(mmu: Mmu, stext: nat, srodata: nat, sdata: nat, ghost a: nat, ghost b: nat)
    returns (ok: bool, ghost t1: Tables)
    requires mmu.Valid() && OneRoot(mmu.owner, mmu.kernel) && VM_START <= stext && stext % PGSIZE == 0
    requires a <= b && srodata == stext + a * PGSIZE && sdata == stext + b * PGSIZE && sdata + PGSIZE <= TWO64
    modifies mmu, mmu.buddy, mmu.buddy.bitmap, mmu.buddy.refCnt
    ensures mmu.Valid() && OneRoot(mmu.owner, mmu.kernel)
    ensures mmu.Took(ok, old(mmu.taken), TablesFor(a) + TablesFor(b - a))
    ensures ok ==> SectionMapped(t1, old(mmu.tables), mmu.kernel, stext, 0, a, TEXT)
                   && SectionMapped(mmu.tables, t1, mmu.kernel, stext, a, b - a, RODATA)
  {
    t1 := mmu.tables;
    ok := MapSection(mmu, stext, stext, srodata - stext, TEXT, 0, a);
    if ok {
      t1 := mmu.tables;
      ok := MapSection(mmu, stext, srodata, sdata - srodata, RODATA, a, b - a);
    }
  }

  lemma WholePages(stext: nat, srodata: nat, sdata: nat)
    requires Layout(stext, srodata, sdata)
    ensures var a, b := (srodata - stext) / PGSIZE, (sdata - stext) / PGSIZE;
            && srodata == stext + a * PGSIZE && sdata == stext + b * PGSIZE && a <= b <= RAM_PAGES
            && (forall k: nat :: SectionPerm(stext, srodata, sdata, k) == if k < a then TEXT else if k < b then RODATA else DATA)
    ensures Vpn(stext) + RAM_PAGES < VPNS
  {
    VpnHigh(stext);
  }

  /** Through the kernel's address space all can be read, exactly the text
      fetched, exactly the data written, no user access is allowed, and an
      address differs from what it leads to by PA2VA_OFFSET. */
  lemma KernelSpaceIsSafe(stext: nat, srodata: nat, sdata: nat, va: nat)
    requires Layout(stext, srodata, sdata) && stext <= va < stext + PHY_SIZE
    ensures var e := KernelEntry(stext, srodata, sdata, Vpn(va));
            && IsValid(e) && Ppn(e) == (va - 0xffff_ffdf_8000_0000) / 4096
            && Perm(e) == (if va < srodata then TEXT else if va < sdata then RODATA else DATA)
            && Perm(e) / 2 % 2 == 1 && (Perm(e) / 8 % 2 == 1 <==> va < srodata) && (Perm(e) / 4 % 2 == 1 <==> sdata <= va)
            && Perm(e) / 16 % 2 == 0 && !(Writable(e) && Perm(e) / PTE_X % 2 == 1)
  {
    var k := (va - stext) / PGSIZE;
    VpnHigh(stext);
    VpnHigh(va);
    assert Offset(Vpn(stext), Vpn(va)) == k < RAM_PAGES;
    PteRoundTrip((stext - PA2VA_OFFSET) / PGSIZE + k, SectionPerm(stext, srodata, sdata, k));
  }

  /** Nothing else is mapped, up to the page after the last one. */
  lemma KernelSpaceIsAll(stext: nat, srodata: nat, sdata: nat, va: nat)
    requires Layout(stext, srodata, sdata) && CanonicalAddress(va) && !(stext <= va < stext + 0x800_0000)
    ensures KernelEntry(stext, srodata, sdata, Vpn(va)) == 0
  {
    VpnHigh(stext);
    if va < 0x40_0000_0000 {
      assert Vpn(va) < USER_VPNS;
    } else {
      VpnCanonical(va);
    }
  }

  lemma VpnCanonical(va: nat)
    requires 0xffff_ffc0_0000_0000 <= va < TWO64
    ensures Vpn(va) == va / PGSIZE - 0xf_ffff_f800_0000
  {
    var p := va / 4096;
    DivModUnique(p, VPNS, 0x1ff_ffff, p - 0xf_ffff_f800_0000);
  }

  /** What the hardware makes of a root that holds the kernel's address space and
      nothing else: 128 MiB from _stext on, lower by the offset, text fetched and
      read, the rest read, data written too; no other address at all. */
  function KernelPage(stext: nat, srodata: nat, sdata: nat, va: nat): Translation {
    if stext <= va < stext + 0x800_0000 && va >= 0xffff_ffdf_8000_0000 then
      Found((va - 0xffff_ffdf_8000_0000) / 4096, if va < srodata then 0xb else if va < sdata then 0x3 else 0x7)
    else PageFault
  }

  lemma KernelTranslates(t: Tables, owner: map<nat, Label>, kernel: nat, root: nat, stext: nat, srodata: nat,
          sdata: nat, va: nat)
    requires Wf(t, owner, kernel) && IsRoot(owner, root) && (forall f :: f in owner ==> f < PPN_LIMIT)
    requires Layout(stext, srodata, sdata) && CanonicalAddress(va)
    requires Entry(t, root, Vpn(va)) == KernelEntry(stext, srodata, sdata, Vpn(va))
    ensures Translate(t, root, va) == KernelPage(stext, srodata, sdata, va)
  {
    WalkIsEntry(t, owner, kernel, root, va);
    if stext <= va < stext + PHY_SIZE {
      KernelSpaceIsSafe(stext, srodata, sdata, va);
      IsPagePerm(KernelEntry(stext, srodata, sdata, Vpn(va)));
    } else {
      KernelSpaceIsAll(stext, srodata, sdata, va);
    }
  }
}
