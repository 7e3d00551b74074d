# A small RISC-V kernel, verified

This project models the memory subsystem, the tick scheduler and the integer
printer and parser of a small RISC-V (Sv39) kernel, and proves what they are
for.

**Physical pages** (`Bits`, `BuddyTree`, `Buddy`). The buddy allocator is a class
over its two flat arrays. A ghost set of live tree nodes says which blocks are
out; the invariant is that every cell of `bitmap` is a function of that set
alone. Allocation succeeds exactly when an aligned free run of the rounded size
exists and returns the lowest one; the last release of a block restores both
arrays bit for bit. Boot takes exactly the pages that hold a byte of what lies
below the end of the two arrays: the kernel image and the arrays themselves, so
that no page handed out later holds a byte of either.

**Page tables** (`PageTable`, `Sv39`, `Mmu`, `KernelMap`). Tables are 512-word frames
reached through words in other frames. Every table frame carries a ghost label
naming the one slot it hangs from, so no two slots share a table and all tasks
share the kernel half. `create_mapping` is proved to be an update of a flat map
from pages to frames and permissions, for every root at once. The pages that the
allocator hands out are recorded in a log; over every run it only grows and no
page occurs in it twice. `Sv39` is the translation that the hardware carries out,
sections 4.3.2 and 4.4 of the RISC-V Privileged Architecture, version 20211203,
written down independently of the kernel's own walk: a reserved encoding faults,
R or X makes a leaf on any level, a superpage must be aligned. In every reachable
state it finds for every address what the kernel's entry says
(`MemoryMapping.Mmu.HardwareAgrees`); loads and stores of user code go through it.

**Demand paging and copy-on-write** (`Areas`, `Vma`, `Cow`, `CowInvariant`,
`DeepCopy`, `FileLoads`, `Reachable`, `Kernel`, `Boot`, `Runs`). Two layers.
`Cow` is a value machine: tasks map pages to frames, frames carry counts, one
function for each kernel entry point. `Kernel` is the kernel itself as a class over real page
tables, counts and linked lists; each of its methods is proved equal to a step
of the value machine. The value machine is proved to refine the plain one in
which every task has private memory and fork copies all of it, over every
sequence of loads, stores, faults and forks of any number of tasks. A load from
the file part of a segment returns the file's byte unless the task or one of its
ancestors has stored there (`FileLoads`). `KernelRuns.BootAndExecute` puts the
layers together, from power-on. How many pages booting, a fault and a fork can
take is bounded, and so is what any sequence of calls can take: with that many
pages memory never runs out. A run ends only with its calls, at a call that
cannot be made, such as a fork when the task array is full, at a fault from which
the handler does not return, or with the last page of memory gone.

**Scheduler** (`Epoch`, `Sched`). The class methods equal a value machine, whose
trace over whole epochs is proved: each task for exactly its priority, in
consecutive ticks, by decreasing priority, ties by lowest index, over and over.

**Printer and parser** (`Strtol`, `Printk`, `RoundTrip`, `Format`, `Directives`).
`strtol` reads back what the integer conversions print, under every setting of
the flags; the format loop halts, counts what it writes, and prints the meaning
of every well-formed format piece by piece.

Conventions. Machine words are natural numbers, with C's bitwise operators
defined bit by bit in `Bits` and every mask and shift of the kernel proved equal
to the arithmetic that stands for it. Frames are named by physical page number;
the kernel's linear offset between virtual and physical addresses of RAM is
taken as the identity except in `KernelMap`, which is about that offset, and in
`KernelBoot.HandedOutMapped`, which shows why this is right: in every page table,
at every moment of every run, each page handed out is mapped for reading and
writing at its address plus the offset. RAM is
zero at boot outside the kernel image: a frame never written reads as zero,
which is what pages fresh from the allocator hold, because no page ever returns
to it while tasks run. Running out of memory is an outcome (`ok == false`, a
zero result, `OutOfMemory`), after which nothing is promised, the kernel itself
going on with a null page. A trap outside every area is the outcome `Hung`. A
write fault on a shared page that its area lets user code write but not read is
the outcome `Stuck`: the handler copies the page through the user's mapping and
faults there itself. The task array `task[NR_TASKS]` is the kernel's sequence of
tasks and, in slot 0, the idle task; fork stores into it unchecked, so a free
slot is part of what a fork requires, and the invariant keeps the tasks within
the array.

Where the code and what it is meant to do part ways, the code is kept and the
exact condition is proved: demand paging reproduces the program file if and only
if the segment has one of the geometries in `GoodGeometry`
(`Areas.DemandPagingExact`); what lies behind the file part reads as zero, for every
ramdisk, if and only if there is nothing, or the file part is short and the area
ends within a page's length of its start, or it is empty (`Areas.RestIsZeroExact`);
on the page where a long file part ends exactly one byte behind it is not cleared
(`Areas.RestOfPage`); the copy into a page stays inside it if and only if
a file part below one page in size lies on one page (`Areas.FillsStayExact`); a
write fault gets stuck if and only if it would copy a page that cannot be read
(`CannotCopy`), never where writable areas are readable; releasing a page leaves
the allocator in order if and only if the page heads an allocated block
(`Buddy.PageRefDec`); reference counts equal the number of mappings in every
reachable state if and only if no fork sweep, which goes up to the page of
`vm_end`, reaches into another area's pages (`Reachable.ExactCountsIff`); `%u`
without an l prints an unsigned int as itself, under any flags, width and
precision, if and only if it is below 2^31 (`Directives.UnsignedIntExact`); a decimal
number falls short of its width, by one character, if and only if it has a sign, more
zeros are asked for than it has digits and fewer than the width (`Printing.IsDecimal`,
`Printing.WidthMissed`);
`strtol` in base 16 does not accept the `0x` that `%#x` prints
(`RoundTrip.MarkedHexReadsBack`).

## Model

| member | source | states |
|---|---|---|
| `Bits.PowerOfTwoTestCorrect` | arch/riscv/kernel/mm.c:20 | the macro holds of a positive word if and only if it is a power of two |
| `Bits.FixsizeLeast` | arch/riscv/kernel/mm.c:26-35 | for 1 <= n <= 2^63 fixsize returns the least power of two not below n |
| `BuddyAllocator.RoundedLeast` | arch/riscv/kernel/mm.c:119-122 | a request is rounded to the least power of two that holds it, zero pages to one |
| `BuddyTree.StartClosed` | arch/riscv/kernel/mm.c:136 | at every level the page number computed from a node's index and size is the first page of the node; sizes halve downwards and leaves have size one |
| `BuddyTree.LeafOfPage` | arch/riscv/kernel/mm.c:89-90 | the index where a release starts climbing is the leaf of that very page |
| `BuddyTree.LiveDisjoint` | arch/riscv/kernel/mm.c:134-137 | no page belongs to two live blocks |
| `BuddyTree.LongestRun` | arch/riscv/kernel/mm.c:100-111 | the canonical cell of a node that no block covers is at least n exactly when n aligned free pages lie in the node's range |
| `BuddyAllocator.ClimbWrite` | arch/riscv/kernel/mm.c:104-110 | one round of recombination makes the parent's cell canonical too; where one half is not full it is just a maximum |
| `BuddyAllocator.CanonicalUnique` | arch/riscv/kernel/mm.c:82-146 | the set of live blocks determines the bitmap, whatever calls led to it |
| `BuddyAllocator.FreshTree` | arch/riscv/kernel/mm.c:52-57 | with no live block every cell is its subtree's size, so a fully released tree equals the initial one |
| `BuddyAllocator.PrefixNext` | arch/riscv/kernel/mm.c:59-61 | when exactly the first k pages are out, the lowest free page is k, and there is one if and only if k is below the size |
| `BuddyAllocator.Buddy.constructor` | arch/riscv/kernel/mm.c:37-65 | buddy_init places bitmap at the end of the kernel image and ref_cnt, eight bytes a cell, behind it, and leaves a canonical tree in which a page is out if and only if it begins below the end of ref_cnt; those pages are counted once |
| `BuddyAllocator.ReservedExactly` | arch/riscv/kernel/mm.c:44-61 | the pages taken at boot are exactly those of RAM that hold a byte below ekernel plus the 16 bytes a page of bitmap and the 8 of ref_cnt: what lies before the image, the image and the arrays |
| `BuddyAllocator.Buddy.LabelTree` | arch/riscv/kernel/mm.c:52-57 | the labelling loop produces the canonical tree without live blocks |
| `BuddyAllocator.Buddy.Reserve` | arch/riscv/kernel/mm.c:59-61 | the K allocations at boot hand out pages 0 to K - 1 in order |
| `BuddyAllocator.Buddy.PageRefInc` | arch/riscv/kernel/mm.c:67-69 | one count goes up by one; the allocator is in order afterwards if and only if the page heads a live block |
| `BuddyAllocator.Buddy.PageRefDec` | arch/riscv/kernel/mm.c:71-79 | for every page: a positive count goes down by one, and the block goes with the last one; the allocator is in order afterwards if and only if the page heads a live block |
| `BuddyAllocator.Buddy.BuddyFree` | arch/riscv/kernel/mm.c:82-112 | for every page: nothing while it is counted; otherwise the whole block that the page lies in is freed and the tree is canonical without it, or, for a free page, the root gets twice the size; the allocator is in order afterwards if and only if the page headed a block |
| `BuddyAllocator.Buddy.ClimbToZero` | arch/riscv/kernel/mm.c:89-96 | the upward search stops at precisely the live block that the page lies in, and for a free page runs past the root |
| `BuddyAllocator.Buddy.Recombine` | arch/riscv/kernel/mm.c:100-111 | a tree canonical off the path above a node becomes canonical everywhere |
| `BuddyAllocator.Buddy.BuddyAlloc` | arch/riscv/kernel/mm.c:114-146 | succeeds if and only if an aligned free run of the rounded size exists; the lowest such run becomes live, its head counted once; on failure nothing changes |
| `BuddyAllocator.Buddy.AllocBlock` | arch/riscv/kernel/mm.c:124-145 | the same for a size already rounded: the descent never dead-ends and stops at a node of that size |
| `BuddyAllocator.Buddy.RefreshAncestors` | arch/riscv/kernel/mm.c:139-143 | taking only the larger child up to the root restores the canonical tree after an allocation |
| `BuddyAllocator.Buddy.GetPage` | arch/riscv/kernel/mm.c:148-156 | an allocated block's head gets one reference more, any other page is refused and nothing changes |
| `BuddyAllocator.Buddy.AllocPage` | arch/riscv/kernel/mm.c:170-179 | while only single pages have been taken, successive calls return strictly consecutive pages; after boot zero means failure and nothing else |
| `BuddyAllocator.Buddy.AllocPages` | arch/riscv/kernel/mm.c:170-175 | while page 0 is out, a request of any size returns zero if and only if no aligned free run holds it |
| `BuddyAllocator.Buddy.AllocThenRelease` | arch/riscv/kernel/mm.c:71-146 | an allocation followed by dropping its reference restores bitmap and ref_cnt exactly |
| `PageTable.EncodeBits` | arch/riscv/kernel/vm.c:107 | the or of the shifted page number and a permission byte is the sum that stands for a page table entry |
| `PageTable.DecodeBits` | arch/riscv/kernel/vm.c:97 | the shifts by which every walk decodes an entry give its page number as page address |
| `PageTable.FlagBits` | arch/riscv/kernel/trap.c:379-388 | masking V and W, clearing and setting W, as bit operations on a word |
| `PageTable.PermBits` | arch/riscv/kernel/trap.c:277 | the low byte mask is the entry's permission byte |
| `PageTable.PteRoundTrip` | arch/riscv/kernel/vm.c:107 | decoding an encoded entry gives back page number and permission byte; clearing or setting W touches the permission byte only |
| `PageTable.VaIndices` | arch/riscv/kernel/vm.c:89-107 | the three shifted and masked indices of an address are those of its page number |
| `PageTable.IndicesDetermine` | arch/riscv/kernel/vm.c:89-107 | two pages with the same three indices are the same page |
| `PageTable.WalkLabels` | arch/riscv/kernel/vm.c:88-107 | every walk passes only frames labelled with the walk's own path: no two slots share a table |
| `PageTable.UserTablesDisjoint` | arch/riscv/kernel/trap.c:333-338 | the tables that a walk to a user page passes belong to its root alone: no walk from another root meets them, and none of them is a root |
| `PageTable.WriteLeaf` | arch/riscv/kernel/vm.c:106-107 | storing a leaf entry changes one page's translation, in the roots that own or share it, and no other translation of any root |
| `PageTable.AddMid` | arch/riscv/kernel/vm.c:89-95 | hanging a fresh middle table into an empty slot keeps separation and every translation |
| `PageTable.AddLeaf` | arch/riscv/kernel/vm.c:98-104 | hanging a fresh leaf table into an empty slot keeps separation and every translation |
| `PageTable.AddRoot` | arch/riscv/kernel/proc.c:285-293 | a copied root shares the kernel half, translates no user page and leaves all other roots alone |
| `Sv39.WalkIsEntry` | arch/riscv/kernel/vm.c:88-107 | in well-formed tables the translation process of the privileged architecture yields, for every root and address, exactly page number and permission byte of the entry that the kernel's own walk reaches, and a page fault exactly where that is not valid or, by its bits, no page |
| `MemoryMapping.Mmu.Kalloc` | arch/riscv/kernel/mm.c:170-194 | pages are handed out consecutively, each appended to the log of all pages handed out, none holding a byte of bitmap or ref_cnt; zero exactly when none is left |
| `MemoryMapping.PagesNeverReturn` | arch/riscv/kernel/mm.c:114-146 | the log kept by the allocator's user at a later moment begins with the log at an earlier one and is increasing, so no page is handed out twice |
| `MemoryMapping.Mmu.EnsureMid` | arch/riscv/kernel/vm.c:89-95 | the first level exists afterwards, a word of whose low ten bits V alone is set; no translation changes; it takes a page only where there was none |
| `MemoryMapping.Mmu.EnsureLeaf` | arch/riscv/kernel/vm.c:97-104 | the second level exists afterwards, likewise; no translation changes; it takes a page only where there was none |
| `MemoryMapping.Mmu.MapPage` | arch/riscv/kernel/vm.c:88-113 | one round of the loop updates exactly one page of the flat map |
| `MemoryMapping.Mmu.CreateMapping` | arch/riscv/kernel/vm.c:72-115 | every page of [va, va + sz) then leads to pa + offset with exactly perm; every other page, of this and of every other root, translates as before; it fails only when memory runs out, takes at most two pages for each leaf table begun, and none for a page whose table exists |
| `MemoryMapping.Mmu.HardwareAgrees` | arch/riscv/kernel/vm.c:72-115 | so in every valid state: what create_mapping and the fault handlers store is what the hardware finds, at every canonical address of every root |
| `MemoryMapping.Mmu.CheckLoad` | arch/riscv/kernel/trap.c:267-278 | returns the flat map's permission byte, 0 for a page that is not mapped |
| `MemoryMapping.Mmu.PteEntryRet` | arch/riscv/kernel/trap.c:379-388 | clears the write bit of one page in the flat map and returns the new entry |
| `MemoryMapping.Mmu.ChangePerm` | arch/riscv/kernel/trap.c:429-438 | sets the write bit of one page in the flat map |
| `MemoryMapping.Mmu.NewRoot` | arch/riscv/kernel/trap.c:333-338 | a new task's root has the kernel's translations and no user page; all other roots keep theirs |
| `KernelMapping.SetupVmFinal` | arch/riscv/kernel/vm.c:37-49 | swapper_pg_dir then translates, under the hardware's own process, exactly the 128 MiB from _stext on, linearly, text for reading and fetching, read-only data for reading, the rest for reading and writing, and faults at every other address |
| `KernelMapping.KernelSpaceIsSafe` | arch/riscv/kernel/vm.c:41-49 | every kernel address leads to itself less PA2VA_OFFSET, can be read, can be fetched from exactly in the text and written exactly in the data, and is never open to user code |
| `KernelMapping.KernelSpaceIsAll` | arch/riscv/kernel/vm.c:37-49 | no canonical address outside those 128 MiB is mapped |
| `Areas.FoundIsAreaOf` | arch/riscv/kernel/proc.c:312-321 | for page-disjoint areas the area found for an address is the one whose pages include it |
| `Areas.FindVmaReversed` | arch/riscv/kernel/trap.c:341-351 | for address-disjoint areas find_vma answers the same in the child's reversed list as in the parent's, at every address |
| `Areas.DemandPageMatchesFile` | arch/riscv/kernel/trap.c:130-158 | for the good geometries every file byte of the area, once its page is faulted in, is the ramdisk byte at vm_pgoff + addr - vm_start |
| `Areas.BadGeometry` | arch/riscv/kernel/trap.c:130-158 | for any other geometry there is a ramdisk and a file byte inside the area that comes out wrong |
| `Areas.DemandPagingExact` | arch/riscv/kernel/trap.c:130-158 | demand paging reproduces, for every ramdisk, every file byte that the area contains if and only if the geometry is good, also when the file part is longer than the area or empty |
| `Areas.FilledBytes` | arch/riscv/kernel/trap.c:130-158 | what every byte of a filled page is, in each of the four cases: which ramdisk byte, or zero |
| `Areas.NothingBelowStart` | arch/riscv/kernel/trap.c:133-146 | on the first page every byte below vm_start is zero |
| `Areas.RestOfPage` | arch/riscv/kernel/trap.c:135-155 | behind a short file part the rest of its page is zero; behind a long one all of the rest but the first byte, which is what follows in the ramdisk |
| `Areas.RestIsZeroExact` | arch/riscv/kernel/trap.c:130-158 | the part of an area behind its file part is zero, for every ramdisk, if and only if there is none, or the file part is empty, or it is below one page in size and the area at most one page |
| `Areas.FillsStayExact` | arch/riscv/kernel/trap.c:133-158 | the copying loops stay inside their page, for every page of the area, if and only if a file part below one page in size lies on one page |
| `VmaList.Mm.Find` | arch/riscv/kernel/proc.c:312-321 | the pointer walk returns the first node in list order with vm_start <= addr < vm_end, null if there is none, and agrees with the search over the list's values |
| `VmaList.Mm.AddMmap` | arch/riscv/kernel/trap.c:280-294 | the list stays a well-formed doubly linked one, the new node in front, linked to the former head and to its mm |
| `VmaList.Mm.DoMmap` | arch/riscv/kernel/proc.c:333-356 | the same with a fresh node holding the area asked for |
| `VmaList.Mm.AddCopy` | arch/riscv/kernel/trap.c:343-351 | a fresh node with the values of another list's node goes in front |
| `VmaList.SegmentFlagBits` | arch/riscv/kernel/proc.c:374 | the shifted flag bits of a program header give execute, read and write in the area's encoding |
| `VmaList.LoadProgram` | arch/riscv/kernel/proc.c:366-379 | the list holds the stack, then the loadable segments, last one first |
| `VmaList.LoadedAreas` | arch/riscv/kernel/proc.c:366-379 | those areas are one for each loadable header, with its extent, offset, file size and permissions, in the opposite order; the stack is the last page of user space, anonymous, readable and writable |
| `CowInvariant.MapFresh` | arch/riscv/kernel/trap.c:123-161 | mapping a fresh frame at an unmapped page keeps the frame invariant and exact counts |
| `CowInvariant.SetWrite` | arch/riscv/kernel/trap.c:174-178 | a frame counted once may get its write bit back: its only mapper is this page |
| `CowInvariant.CopyPage` | arch/riscv/kernel/trap.c:179-185 | when the frame is shared its count is at least 2, so put_page never frees it; the copy keeps the invariant |
| `CowInvariant.FaultKeepsInv` | arch/riscv/kernel/trap.c:114-187 | a fault at any address keeps the invariant: counts cover mappings, writable frames are mapped once, mapped pages lie in areas under their permissions |
| `CowInvariant.ForkExact` | arch/riscv/kernel/trap.c:341-369 | after a fork parent and child map the same pages to the same frames with the parent's permissions minus PTE_W, nobody else's pages change, and exact counts stay exact if and only if no mapped page is swept twice |
| `CowInvariant.ForkKeepsInv` | arch/riscv/kernel/trap.c:296-377 | a fork keeps the invariant for one task more |
| `DeepCopy.FaultStutters` | arch/riscv/kernel/trap.c:114-187 | a page fault, demand fill or copy, changes no task's memory as the task sees it |
| `DeepCopy.StoreIsPrivate` | arch/riscv/kernel/trap.c:165-186 | a store the page table allows changes one byte of the storing task's memory and nothing of any other task's |
| `DeepCopy.ReadIsPrivate` | arch/riscv/kernel/trap.c:53-57 | a load returns the byte of the task's own memory |
| `DeepCopy.ForkCopies` | arch/riscv/kernel/trap.c:233-258 | sharing every frame amounts to the deep copy that the unused do_fork spells out |
| `DeepCopy.StepRefines` | arch/riscv/kernel/trap.c:114-187 | every step of the copy-on-write machine is a step of the private-memory machine and keeps the invariant |
| `DeepCopy.CowRefinesDeepCopy` | arch/riscv/kernel/trap.c:296-377 | over every interleaving of loads, stores, faults and forks by any number of tasks, each load returns what it would return if every task had private memory and fork copied all of it |
| `DeepCopy.BootInv` | arch/riscv/kernel/proc.c:296 | with areas and nothing mapped the invariant holds, and the memory the tasks see is what the handler fills in |
| `DeepCopy.FaultMakesProgress` | arch/riscv/kernel/trap.c:114-187 | after one fault the load, store or instruction fetch that the area allows is possible, as far as Sv39 knows the permission: W without R is reserved |
| `FileLoads.LoadsOfFile` | arch/riscv/kernel/trap.c:130-158 | in every run from boot a load or fetch at a file byte of a well-placed segment, which the task and its ancestors have not stored to, returns the byte of the program file |
| `FileLoads.LoadsOfImage` | arch/riscv/kernel/trap.c:123-161 | at any address of an area not stored to, the load returns what the handler fills in there |
| `FileLoads.LoadsOfZero` | arch/riscv/kernel/trap.c:123-158 | so zero in an anonymous area, behind the file part on its page but for the one byte, and everywhere behind the file part where Areas.RestIsZero holds |
| `Reachable.EveryLoadIsPrivate` | arch/riscv/kernel/trap.c:114-187 | in every run from boot each load returns the byte that private memories, holding at first what the handler fills in and copied whole by every fork, hold at that address at that moment |
| `Reachable.EveryRunIsSafe` | arch/riscv/kernel/trap.c:165-186 | in every reachable state a writable page's frame is mapped nowhere else, every frame is counted at least as often as it is mapped, and no page is mapped outside its area or beyond its permissions |
| `Reachable.Overcount` | arch/riscv/kernel/trap.c:353-368 | where a sweep reaches another area's page, touching that page and forking counts its frame once too often |
| `Reachable.ExactCountsIff` | arch/riscv/kernel/trap.c:353-368 | counts equal the number of mappings in every reachable state if and only if no sweep, taken up to the page of vm_end, reaches another area's pages |
| `KernelMemory.FlagsPerm` | arch/riscv/kernel/trap.c:124 | the masked and or-ed area flags are the permission byte with U and V |
| `KernelMemory.Kernel.constructor` | arch/riscv/kernel/proc.c:285-299 | the first task starts with its areas and nothing mapped |
| `KernelMemory.Kernel.FillPage` | arch/riscv/kernel/trap.c:133-158 | the copying loops fill a zero page with its initial contents, which Areas.FilledBytes spells out, and never write outside it |
| `KernelMemory.Kernel.CopyUserPage` | arch/riscv/kernel/trap.c:413-420 | where the user's entry lets the kernel read, the copy holds the bytes of the shared page; elsewhere there is none |
| `KernelMemory.Kernel.FreshFrame` | arch/riscv/kernel/mm.c:170-179 | a page from the allocator is the next one in order, unmapped, no table and still zero |
| `KernelMemory.Kernel.PutShared` | arch/riscv/kernel/mm.c:165-168 | dropping one of at least two references frees nothing and changes one count |
| `KernelMemory.Kernel.PageCow` | arch/riscv/kernel/trap.c:412-427 | the page moves to a fresh frame with the same bytes and its write bit, the old frame loses one reference, and one page is taken; a page that cannot be read stops the handler |
| `KernelMemory.Kernel.DemandPage` | arch/riscv/kernel/trap.c:123-161 | the page gets a fresh frame, zero or filled from the file, under the area's permissions, for at most three pages |
| `KernelMemory.Kernel.WriteFault` | arch/riscv/kernel/trap.c:165-186 | a frame counted once gets its write bit back, any other is copied if it can be read |
| `KernelMemory.Kernel.DoPageFault` | arch/riscv/kernel/trap.c:114-187 | over real page tables, counts and lists the handler is the fault step of the value machine, with the allocator's next page; it takes at most three pages and with three left does not run out; it gets stuck, with the state unchanged, exactly when it has to copy a page that the kernel cannot read |
| `KernelMemory.ReadableCopies` | arch/riscv/kernel/trap.c:412-420 | where writable areas are readable no write fault gets stuck |
| `KernelMemory.Kernel.ShareOne` | arch/riscv/kernel/trap.c:354-367 | the sweep's work on one mapped page is one sweep step of the value machine |
| `KernelMemory.Kernel.SweepPages` | arch/riscv/kernel/trap.c:353-368 | the address loop goes through the sweep steps of all pages up to that of vm_end, in order, and takes at most two pages for each page that the child gets |
| `KernelMemory.Kernel.ForkLoop` | arch/riscv/kernel/trap.c:342-369 | the list loop has swept all of the parent's areas and copied its list into fresh nodes, for at most one page an area and two a mapped page |
| `KernelMemory.Kernel.DoForkCow` | arch/riscv/kernel/trap.c:296-377 | with a free slot in the task array it is, over real page tables, counts and lists, the fork step of the value machine; the child is new, its pid is its slot, counting the idle task's, its list is made of fresh nodes and is the reversal of the parent's; the other tasks stay as they are; it takes at most two pages, one for each area and two for each mapped page, and with that many left does not run out |
| `KernelMemory.Kernel.UserLoad` | arch/riscv/kernel/trap.c:15-61 | a load or fetch by user code, through the hardware's translation of the current page table, succeeds exactly where the value machine allows it and reads the byte that it reads |
| `KernelMemory.Kernel.UserStore` | arch/riscv/kernel/trap.c:15-61 | likewise a store, which changes that one byte |
| `KernelBoot.BoardConfiguration` | arch/riscv/include/defs.h:6-7 | 128 MiB of RAM with the kernel 2 MiB in meets what booting asks of memory, a page directory inside the image included; unless image or program header table is very large there are more pages than booting takes |
| `KernelBoot.BootKernel` | arch/riscv/kernel/head.S:15-19 | mm_init, setup_vm_final and task_init lead to the state from which the copy-on-write machine runs, the kernel half mapped and shared; without a kernel all of memory is taken, and it is less than the reserved pages, the kernel tables', three and one for each area |
| `KernelBoot.HandedOutMapped` | arch/riscv/include/defs.h:10-11 | every page handed out since boot lies in the 128 MiB of RAM, and under the hardware's translation with the page table of every task, after any run, its address plus PA2VA_OFFSET leads to it for reading and writing |
| `KernelRuns.Execute` | arch/riscv/kernel/trap.c:15-61 | any sequence of loads, fetches, stores, faults, forks and task switches on the real data structures is a run of the value machine made of just these events; it stops early only at an impossible call, a fork without a free slot included, at a fault that the handler does not return from or when memory runs out, which it does not while the calls' budget of pages is left; the log of pages handed out and the set of live blocks only grow |
| `KernelRuns.SizedAfter` | arch/riscv/kernel/trap.c:114-187 | a fault adds at most one mapped page to its task and a fork gives the child as many areas and pages as its parent has: what the budget rests on |
| `KernelRuns.BootAndExecute` | arch/riscv/kernel/trap.c:15-61 | from power-on every load returns what it would return with private memories and a copying fork; it boots and makes all calls that can be made if RAM has the pages that booting and the calls can take together, and stops for Execute's reasons only; it never gets stuck where writable areas are readable |
| `Epoch.BestIsFirstLargest` | arch/riscv/kernel/proc.c:180-189 | the task chosen has the largest counter, and is the first such |
| `Epoch.PickRuns` | arch/riscv/kernel/proc.c:191-201 | after a refill some counter is positive, so schedule recurses at most once and leaves a current task with time left |
| `Epoch.AlwaysRunning` | arch/riscv/kernel/proc.c:161-202 | from start_kernel's call on, over every sequence of timer interrupts and forks, counters stay within priorities, priorities in range, and a user task with time left is current |
| `Epoch.TickSpends` | arch/riscv/kernel/proc.c:161-176 | every tick uses up one unit of the time left; the last one refills |
| `Epoch.DrainsToRefill` | arch/riscv/kernel/proc.c:161-202 | from any running state the refill comes after exactly the sum of the remaining counters |
| `Epoch.EpochTrace` | arch/riscv/kernel/proc.c:161-202 | over the sum of the priorities each task runs for exactly its priority in consecutive ticks, by decreasing priority, ties by lowest index, and the state after is the state before |
| `Epoch.EpochsRepeat` | arch/riscv/kernel/proc.c:161-202 | and so for any number of epochs |
| `Epoch.ExpectedOutput` | arch/riscv/kernel/proc.c:112 | the trace of the kernel's own scheduler test, two epochs of priorities 7, 10, 4 and 1 |
| `Epoch.OrderExists` | arch/riscv/kernel/proc.c:182-189 | every list of priorities has such an order of its tasks |
| `Epoch.EveryTaskRuns` | arch/riscv/kernel/proc.c:161-202 | without further forks every task runs within the remaining counters plus the priorities |
| `Epoch.CloneTime` | arch/riscv/kernel/trap.c:315-319 | a fork raises the time left in the epoch by the parent's counter and the length of every later epoch by the parent's priority, and leaves all other tasks alone |
| `Epoch.CloneEpoch` | arch/riscv/kernel/trap.c:315-319 | in the epoch after a fork the child runs for exactly its parent's priority, in consecutive ticks, and only after the parent has had all of its own |
| `Scheduling.Scheduler.constructor` | arch/riscv/kernel/proc.c:238-304 | all counters zero, each priority one more than its random number modulo 10, pids the slots, the idle task current |
| `Scheduling.Scheduler.SwitchTo` | arch/riscv/kernel/proc.c:148-159 | the task given becomes current, nothing else changes |
| `Scheduling.Scheduler.Choose` | arch/riscv/kernel/proc.c:180-189 | the search loop finds the first task with the largest counter |
| `Scheduling.Scheduler.RefillAll` | arch/riscv/kernel/proc.c:191-197 | every task but the idle one gets its priority as counter |
| `Scheduling.Scheduler.Schedule` | arch/riscv/kernel/proc.c:178-202 | is the choosing step of the value machine, and terminates |
| `Scheduling.Scheduler.DoTimer` | arch/riscv/kernel/proc.c:161-176 | is the tick step of the value machine |
| `Scheduling.Scheduler.AddClone` | arch/riscv/kernel/trap.c:315-376 | the child takes the next slot, which is its pid, with the parent's counter and priority; the other tasks keep theirs |
| `Numerals.Strtol` | lib/printk.c:35-90 | value and end position are right: the longest run of digits of the radix, behind blanks, a sign and a prefix, and the signed value it denotes |
| `Numerals.TakeDigits` | lib/printk.c:65-83 | the digit loop stops at the first character that is no digit of the base and returns the value of the digits before it |
| `Numerals.ParseNumber` | lib/printk.c:40-89 | a signed numeral behind blanks is read back, from the middle of a string too, up to its end |
| `Numerals.CharacterClasses` | lib/printk.c:31-83 | which character codes are blanks, and the value of every letter and digit |
| `Numerals.ParseReads` | lib/printk.c:35-90 | the specification yields, from every position and in every base, such a run, maximal, with its radix and its value |
| `Numerals.DigitsDenote` | lib/printk.c:126-129 | the digits produced by repeated division denote the number |
| `Printing.BuffersSuffice` | lib/printk.c:121-122 | 20 decimal and 16 hexadecimal digits hold every 64-bit number |
| `Printing.DecDigits` | lib/printk.c:121-129 | the buffer read backwards is the decimal numeral; no write leaves it |
| `Printing.HexDigits` | lib/printk.c:207-214 | the buffer read backwards is the hexadecimal numeral; no write leaves it |
| `Printing.PrintDecInt` | lib/printk.c:104-158 | prints nothing for zero at precision zero and else blanks, at most one sign, zeros and the numeral without leading zeros of the magnitude, as many of each as flags, width and precision ask; returns their number |
| `Printing.PrintHex` | lib/printk.c:194-241 | the same for x, X and p, with their mark, and letters of the conversion's case |
| `Printing.DecShown` | lib/printk.c:104-158 | that form, of the specification: the output has its width unless there is a sign and the precision lies between the number of digits and the width, where it is one short |
| `Printing.HexShown` | lib/printk.c:194-241 | that form for hexadecimal output, which always has its width |
| `Printing.WidthMissed` | lib/printk.c:131-150 | %+5.3d prints 7 in four characters |
| `Printing.PutsWoNl` | lib/printk.c:93-102 | prints exactly the string, or (null) for none, and returns its length |
| `RoundTrip.DecReadsBack` | lib/printk.c:104-158 | for every signed 64-bit value but the least and every flag, width and precision, strtol in base 10 on the output returns the value with endptr at the end |
| `RoundTrip.HexReadsBack` | lib/printk.c:194-241 | likewise below 2^63 in base 16 without a prefix |
| `RoundTrip.MarkedHexReadsBack` | lib/printk.c:51-63 | and in base 0 with one; in base 16 strtol returns 0 and stops before the prefix's letter |
| `Formatting.Round` | lib/printk.c:168-280 | one round of the format loop is one step of its specification |
| `Formatting.VPrintFmt` | lib/printk.c:160-283 | halts on every format, writes what the specification's run writes, returns the number of characters written |
| `Directives.TokenStep` | lib/printk.c:168-280 | one round consumes exactly one token of a format and has its effect: text, flags, numbers, stars, length letters, conversions and characters that are none |
| `Directives.FormatMeans` | lib/printk.c:160-283 | every format of text and directives, each with any flags in any order, width, precision, any length letters and any conversion character, is printed piece by piece: text as it is, each conversion under what its directive spells, with the arguments that the pieces before it left |
| `Directives.DecimalDirective` | lib/printk.c:242-246 | a format of one d, i or u directive prints the argument behind those for its stars, int or long, in the form of IsDecimal, under the flags it contains, its width and its precision |
| `Directives.HexadecimalDirective` | lib/printk.c:194-241 | the same for x, X and p, unsigned int or long |
| `Directives.OtherDirective` | lib/printk.c:247-273 | one s, c or n directive prints its string, its character, or nothing and stores 0; any other character prints itself |
| `Directives.PlainFormat` | lib/printk.c:274-279 | a format without a percent sign is printed as it is |
| `Directives.FormatsInSequence` | lib/printk.c:160-283 | one format behind another prints what each prints, the second with the arguments the first has left, and its %n count from the start of the first |
| `Directives.LongRoundTrip` | lib/printk.c:243-246 | printing a long with any signed decimal directive that has a length letter and parsing the output gives it back |
| `Directives.UnsignedIntExact` | lib/printk.c:243-245 | under any flags, width and precision without an l, %u prints the argument as an unsigned int if and only if it is below 2^31 |

## Left out

- Hardware and firmware: SBI calls, CSR access, timer programming, `sfence.vma` and the TLB, A and D bits. Translations are always current; `stval` is an argument; logging does nothing.
- `arch/riscv/kernel/entry.S`, `__switch_to` and register contents across a trap or a fork; of fork's return values only the child's pid is modelled.
- `setup_vm` (`arch/riscv/kernel/vm.c:7-29`), the temporary gigabyte mapping used before `mm_init`.
- `do_fork` and `check_cow`: nothing calls them. `do_fork` serves as the intent that `DeepCopy.ForkCopies` is measured against.
- `srand`, `rand`: their results are arguments of the scheduler's constructor. `memset`, the ELF header itself (program headers are arguments), user programs, the scheduler's test harness around `dummy`.
- One task structure: the fields for memory (`KernelMemory.TaskStruct`) and for scheduling (`Scheduling.Task`) are separate classes, and the two machines are joined only by `Resume`, which makes any task current.
- Memory is typed: table frames hold words, user frames bytes, list nodes and task structures are objects, although each of these also takes a page from the allocator. That a user frame is never a table frame is part of the invariant.
- `kfree` and `free_pages`: they call `buddy_free` while the count is still 1, where `BuddyAllocator.Buddy.BuddyFree` shows that nothing happens.
- BuddyAllocator.Buddy.BuddyFree: requires every other count to be that of a live block's head, as both callers find it; counts are unbounded.
- MemoryMapping.Mmu.CreateMapping: requires no wrap past 2^64; user pages are mapped in a task's root only, and in the kernel half an empty slot of the top level is filled only in the kernel's root before any task has copied it, which is how the kernel calls it: copied roots would not see such a slot. When memory runs out nothing is said of the flat map.
- MemoryMapping.Mmu.MapPage: the same requirements for one page.
- MemoryMapping.Mmu.EnsureMid: the same for one slot of a root.
- VmaList.LoadProgram: the ELF header, and the entry point that goes into the task's sepc, are not modelled; the program headers are the argument.
- KernelMemory.Kernel.FillPage: requires that a segment below one page in size lies within one page; otherwise the copy leaves the page (`Areas.FillsStayExact`) for the one behind it, which is not modelled.
- MemoryMapping.Mmu.HardwareAgrees: the translation is the tables' alone; what an access may do with the permissions found is `DeepCopy.Accessible` and `DeepCopy.Storable`.
- KernelMemory.Kernel.DoPageFault: says nothing of the state after running out of memory, where the code goes on with a null page; of the handler's own fault (`Stuck`) only that and when it happens is modelled.
- KernelMemory.Kernel.DoForkCow: likewise; requires a free slot of the task array, since the code stores behind the array when it is full; registers, the kernel stack and the scheduling fields of the child are not part of it.
- Scheduling.Scheduler.AddClone: requires a free slot of the task array, for the same reason.
- KernelRuns.Execute: the dispatch on scause, the timer branch and system calls other than clone are not modelled; which fault a trap was is left to the handler, as in the code, and a task switch is a call of its own.
- KernelRuns.BootAndExecute: areas are page-disjoint and in user space, as the linker script of the user program makes them, and short segments lie in one page each.
- Numerals.Strtol: does not model overflow of the result, which C leaves undefined; values are unbounded integers.
- Printing.PrintDecInt: width and precision are unbounded integers; that the sign counts towards the precision is modelled as the code has it, not as the C standard asks.
- Formatting.VPrintFmt: `%n` returns what it would store instead of writing through its pointer; reading more arguments than were passed, undefined in C, reads arbitrary ones.
