/** From power-on to the first user task. */
module KernelBoot {
  import opened Bits
  import opened BuddyAllocator
  import opened PageTable
  import opened Sv39
  import opened MemoryMapping
  import opened KernelMapping
  import opened Areas
  import opened VmaList
  import opened Cow
  import opened DeepCopy
  import opened KernelMemory

  /** What the linker and the program file fix: end of the kernel image, frame of
      swapper_pg_dir, section symbols, program headers. */
  datatype Config = Config(ekernel: nat, swapper: nat, stext: nat, srodata: nat, sdata: nat, phdrs: seq<Phdr>)

  function InitialAreas(phdrs: seq<Phdr>): seq<Area> { [STACK] + Segments(phdrs) }

  /** The image, with its sections and swapper_pg_dir, and the allocator's arrays
      fit into RAM. */
  ghost predicate MemoryOk(c: Config) {
    && Reserved(c.ekernel, RAM_PAGES) <= RAM_PAGES
    && BASE <= c.swapper && (c.swapper + 1) * PGSIZE <= c.ekernel
    && Layout(c.stext, c.srodata, c.sdata) && c.sdata <= c.ekernel + PA2VA_OFFSET
  }

  ghost predicate ProgramOk(c: Config) {
    WfAreas(InitialAreas(c.phdrs)) && forall a :: a in InitialAreas(c.phdrs) ==> FillsOwnPage(a)
  }

  /** The most pages that booting takes: those reserved, the kernel's tables, two
      task structures and a root, and a list node for each area. */
  function BootPages(c: Config): nat {
    Reserved(c.ekernel, RAM_PAGES) + KERNEL_TABLES + 3 + |InitialAreas(c.phdrs)|
  }

  /** The kernel half that setup_vm_final makes. */
  ghost function HalfOf(c: Config): nat -> nat
    requires c.stext >= PA2VA_OFFSET
  {
    (w: nat) => if w < VPNS then KernelEntry(c.stext, c.srodata, c.sdata, w) else 0
  }

  /** One page for a task_struct or a list node. */
  method TakePage(mmu: Mmu) returns (ok: bool)
    requires mmu.Valid()
    modifies mmu`taken, mmu`log, mmu.buddy, mmu.buddy.bitmap, mmu.buddy.refCnt
    ensures mmu.Valid() && mmu.Took(ok, old(mmu.taken), 1)
  {
    var f := mmu.Kalloc();
    ok := f != 0;
  }

  /** The pages that load_program's list nodes take. */
  method TakeNodes(mmu: Mmu, phdrs: seq<Phdr>) returns (ok: bool)
    requires mmu.Valid()
    modifies mmu`taken, mmu`log, mmu.buddy, mmu.buddy.bitmap, mmu.buddy.refCnt
    ensures mmu.Valid() && mmu.Took(ok, old(mmu.taken), |InitialAreas(phdrs)|)
  {
    for i := 0 to |phdrs|
      invariant mmu.Valid() && mmu.Took(true, old(mmu.taken), |Segments(phdrs[..i])|)
    {
      SegmentsGrow(phdrs, i + 1);
      assert phdrs[..i + 1][..i] == phdrs[..i];
      if phdrs[i].isLoad {
        ok := TakePage(mmu);
        if !ok {
          return;
        }
      }
    }
    assert phdrs[..|phdrs|] == phdrs;
    ok := TakePage(mmu);
  }

  lemma {:induction false} SegmentsGrow(phdrs: seq<Phdr>, i: nat)
    requires i <= |phdrs|
    ensures |Segments(phdrs[..i])| <= |Segments(phdrs)| <= |phdrs|
    decreases |phdrs|
  {
    if i == |phdrs| { assert phdrs[..i] == phdrs; }
    if phdrs != [] {
      var less := phdrs[..|phdrs| - 1];
      SegmentsGrow(less, if i < |phdrs| then i else |less|);
      if i < |phdrs| { assert less[..i] == phdrs[..i]; }
    }
  }

  /** The kernel half has no page right above user space. */
  lemma NothingAboveUser(stext: nat, srodata: nat, sdata: nat)
    requires Layout(stext, srodata, sdata)
    ensures KernelEntry(stext, srodata, sdata, USER_VPNS) == 0
    ensures forall w: nat :: w < USER_VPNS ==> KernelEntry(stext, srodata, sdata, w) == 0
  {
    VpnHigh(stext);
    WholePages(stext, srodata, sdata);
  }

  /** The kernel's root holds exactly the kernel's address space, a task's root
      the same and no user page. */
  ghost predicate TaskRootOk(t: Tables, kernel: nat, pgd: nat, stext: nat, srodata: nat, sdata: nat)
    requires stext >= PA2VA_OFFSET
  {
    && (forall w: nat :: w < VPNS ==> Entry(t, kernel, w) == KernelEntry(stext, srodata, sdata, w))
    && (forall w: nat :: w < VPNS ==> Entry(t, pgd, w) == KernelEntry(stext, srodata, sdata, w))
  }

  /** mm_init and setup_vm_final */
  method BootMemory(c: Config) returns (ok: bool, mmu: Mmu)
    requires MemoryOk(c)
    ensures fresh(mmu) && fresh(mmu.buddy) && fresh(mmu.buddy.bitmap) && fresh(mmu.buddy.refCnt)
    ensures mmu.Valid() && OneRoot(mmu.owner, mmu.kernel) && mmu.buddy.size == RAM_PAGES
    ensures mmu.Took(ok, Reserved(c.ekernel, RAM_PAGES), KERNEL_TABLES)
    ensures ok ==> TaskRootOk(mmu.tables, mmu.kernel, mmu.kernel, c.stext, c.srodata, c.sdata)
  {
    RamRounded();
    mmu := new Mmu(RAM_PAGES, c.ekernel, c.swapper);
    ok := SetupVmFinal(mmu, c.stext, c.srodata, c.sdata);
  }

  /** task_init's pages for the idle task and the first user task, and its root. */
  method FirstRoot(mmu: Mmu, stext: nat, srodata: nat, sdata: nat) returns (pgd: nat)
    requires mmu.Valid() && IsRoot(mmu.owner, mmu.kernel) && Layout(stext, srodata, sdata)
    requires TaskRootOk(mmu.tables, mmu.kernel, mmu.kernel, stext, srodata, sdata)
    modifies mmu, mmu.buddy, mmu.buddy.bitmap, mmu.buddy.refCnt
    ensures mmu.Valid() && mmu.Took(pgd != 0, old(mmu.taken), 3)
    ensures pgd != 0 ==> pgd != mmu.kernel && IsRoot(mmu.owner, pgd) && IsRoot(mmu.owner, mmu.kernel)
                         && TaskRootOk(mmu.tables, mmu.kernel, pgd, stext, srodata, sdata)
  {
    NothingAboveUser(stext, srodata, sdata);
    var ok := TakePage(mmu);
    if !ok {
      return 0;
    }
    ok := TakePage(mmu);
    if !ok {
      return 0;
    }
    pgd := mmu.NewRoot();
  }

  /** task_init's pages, in all. */
  method FirstPages(c: Config, mmu: Mmu) returns (pgd: nat)
    requires MemoryOk(c) && mmu.Valid() && IsRoot(mmu.owner, mmu.kernel)
    requires TaskRootOk(mmu.tables, mmu.kernel, mmu.kernel, c.stext, c.srodata, c.sdata)
    modifies mmu, mmu.buddy, mmu.buddy.bitmap, mmu.buddy.refCnt
    ensures mmu.Valid() && mmu.Took(pgd != 0, old(mmu.taken), 3 + |InitialAreas(c.phdrs)|)
    ensures pgd != 0 ==> pgd != mmu.kernel && IsRoot(mmu.owner, pgd) && IsRoot(mmu.owner, mmu.kernel)
                         && TaskRootOk(mmu.tables, mmu.kernel, pgd, c.stext, c.srodata, c.sdata)
  {
    pgd := FirstRoot(mmu, c.stext, c.srodata, c.sdata);
    if pgd != 0 {
      var ok := TakeNodes(mmu, c.phdrs);
      if !ok {
        pgd := 0;
      }
    }
  }

  /** mm_init, setup_vm_final and task_init: the kernel starts in the state from
      which the copy-on-write machine runs, its own address space mapped and
      shared with the first task. It fails only when memory runs out, which it
      does not if there are as many pages as booting can take. */
  method BootKernel(c: Config, disk: Ramdisk) returns (mmu: Mmu, kernel: Kernel?)
    requires MemoryOk(c) && ProgramOk(c)
    ensures fresh(mmu) && fresh(mmu.buddy) && fresh(mmu.buddy.bitmap) && fresh(mmu.buddy.refCnt)
    ensures mmu.buddy.size == RAM_PAGES && mmu.Logged() && mmu.taken <= BootPages(c)
    ensures kernel == null ==> mmu.taken == RAM_PAGES < BootPages(c)
    ensures kernel != null ==>
              && fresh(kernel) && kernel.mmu == mmu && kernel.Valid() && kernel.disk == disk && kernel.current == 0
              && kernel.view == Boot([InitialAreas(c.phdrs)]) && kernel.half == HalfOf(c)
              && TaskRootOk(mmu.tables, mmu.kernel, kernel.task[0].pgd, c.stext, c.srodata, c.sdata)
  {
    kernel := null;
    var ok;
    ok, mmu := BootMemory(c);
    if !ok {
      return;
    }
    var pgd := FirstPages(c, mmu);
    if pgd == 0 {
      return;
    }
    kernel := FirstTask(c, disk, mmu, pgd);
  }

  /** The first task's list, filled by load_program. */
  method FirstTask(c: Config, disk: Ramdisk, mmu: Mmu, pgd: nat) returns (kernel: Kernel)
    requires MemoryOk(c) && ProgramOk(c) && mmu.Valid()
    requires pgd != mmu.kernel && IsRoot(mmu.owner, pgd) && IsRoot(mmu.owner, mmu.kernel)
    requires TaskRootOk(mmu.tables, mmu.kernel, pgd, c.stext, c.srodata, c.sdata)
    ensures fresh(kernel) && kernel.mmu == mmu && kernel.Valid() && kernel.disk == disk && kernel.current == 0
    ensures kernel.view == Boot([InitialAreas(c.phdrs)]) && kernel.task[0].pgd == pgd && kernel.half == HalfOf(c)
  {
    NothingAboveUser(c.stext, c.srodata, c.sdata);
    var mm := new Mm();
    LoadProgram(mm, c.phdrs);
    var first := new TaskStruct(pgd, mm);
    kernel := new Kernel(mmu, disk, first, HalfOf(c));
  }

  /** The kernel reaches every page it has been handed since boot: the page lies
      in RAM, and in the page table of every task, at whatever moment, its
      address plus PA2VA_OFFSET leads to it, for reading and writing. */
  lemma HandedOutMapped(k: Kernel, c: Config, i: nat, f: nat)
    requires k.Valid() && MemoryOk(c) && k.half == HalfOf(c) && k.mmu.buddy.size == RAM_PAGES && i < |k.task|
    requires f in k.mmu.log && f >= BASE + Reserved(c.ekernel, RAM_PAGES)
    ensures 0x8000_0000 <= f * 4096 && (f + 1) * 4096 <= 0x8800_0000
    ensures var e := Entry(k.mmu.tables, k.task[i].pgd, Vpn(f * PGSIZE + PA2VA_OFFSET));
            IsValid(e) && Ppn(e) == f && Perm(e) == DATA
    ensures Translate(k.mmu.tables, k.task[i].pgd, f * PGSIZE + 0xffff_ffdf_8000_0000) == Found(f, 0x7)
  {
    var va := f * PGSIZE + PA2VA_OFFSET;
    RamRounded();
    assert f < BASE + RAM_PAGES;
    VpnHigh(va);
    KernelSpaceIsSafe(c.stext, c.srodata, c.sdata, va);
    assert k.Roots(k.task)[i] == k.task[i].pgd;
    assert k.half(Vpn(va)) == KernelEntry(c.stext, c.srodata, c.sdata, Vpn(va));
    k.mmu.HardwareAgrees(k.task[i].pgd, va);
    IsPagePerm(KernelEntry(c.stext, c.srodata, c.sdata, Vpn(va)));
  }

  // ----------------------------------------------------------- the board

  /** The machine the kernel is built for, 128 MiB of RAM with the kernel image
      2 MiB in, meets what booting asks of the configuration; and unless the
      image or the program is very large, it boots. */
  lemma BoardConfiguration(c: Config, pgDir: nat)
    requires c.stext == 0xffff_ffe0_0020_0000
    requires c.stext <= c.srodata <= c.sdata <= c.ekernel + PA2VA_OFFSET && c.srodata % PGSIZE == 0 && c.sdata % PGSIZE == 0
    requires c.stext <= pgDir && pgDir + PGSIZE <= c.ekernel + PA2VA_OFFSET && pgDir % PGSIZE == 0
    requires c.swapper == (pgDir - PA2VA_OFFSET) / PGSIZE && c.ekernel <= PHY_START + PHY_SIZE / 2
    ensures MemoryOk(c)
    ensures |c.phdrs| <= 0x2000 ==> BootPages(c) < 0x8000
  {
    RamRounded();
    DivModUnique(c.stext, PGSIZE, 0xf_ffff_fe00_0200, 0);
    SwapperPlace(c, pgDir);
    SegmentsGrow(c.phdrs, 0);
  }

  lemma SwapperPlace(c: Config, pgDir: nat)
    requires VM_START <= pgDir && pgDir + PGSIZE <= c.ekernel + PA2VA_OFFSET && pgDir % PGSIZE == 0
    requires c.swapper == (pgDir - PA2VA_OFFSET) / PGSIZE
    ensures BASE <= c.swapper && (c.swapper + 1) * PGSIZE <= c.ekernel
  {
    var n := pgDir / PGSIZE;
    assert pgDir == n * PGSIZE && PA2VA_OFFSET == 0xf_ffff_fdf8_0000 * PGSIZE;
    DivModUnique(pgDir - PA2VA_OFFSET, PGSIZE, n - 0xf_ffff_fdf8_0000, 0);
  }

  lemma RamRounded()
    ensures Rounded(RAM_PAGES) == RAM_PAGES && PHY_SIZE / PGSIZE == RAM_PAGES
  {
    assert Pow2(7) == 128;
    Pow2Add(7, 7);
    assert RAM_PAGES == Pow2(15);
    PowerOfTwoTestCorrect(RAM_PAGES);
  }
}
