# JOS: kernel, file system and user library, modelled in Dafny

The repository is a teaching operating system (TPJOS): an exokernel with two-level page
tables, copy-on-write fork in user space, several CPUs under one big kernel lock, a file
system server with a block cache, pipes and user-level page-fault handlers. Beside it are
some small programs (TPFork). This project states what the parts promise and proves it of
models that take the same branches as the C and assembly code.

Each part has its own modules; they share nothing but `Options`, and the file layout.

| part | modules | form |
|---|---|---|
| copy-on-write fork | `CowFork`, `CowForkInvariant`, `CowForkRefinement`, `CowForkRights`, `CowForkLoops` | a machine that steps from system call to system call, any environments interleaved, against an eager machine; the loops of `fork` and `fork_v0` as methods |
| page allocator and page tables | `Vm`, `PageTables` | the class `Machine`: reference counts, links and table words changed in place |
| CPUs and the kernel lock | `KernelLock`, `Scheduler` | a machine that steps from one shared access to the next; the search of `sched_yield` as a method |
| file system | `FileLayout`, `FileSystem`, `FsFormat` | the classes `Server` and `Image`: bitmap, File records and blocks changed in place |
| block cache | `BlockCache` | the class `Cache`: disk, pages, present and dirty bits |
| pipes | `PipeRing`, `PipeEof` | machines that step from one load, store or system call to the next |
| page-fault upcall | `Upcall` | a stack machine that executes the assembly instructions |
| handles | `Handles` | the classes `EnvTable` and `OpenTable` |
| small algorithms | `StabSearch`, `InitStack`, `Numbers`, `Primes` | methods with loops, tied to functions whose properties are lemmas |

Where the code does not do what its comments say, the model follows the code. Each such place
has the exact condition under which the promise holds:

- `page_lookup` tests `*pte | PTE_P`, which is always true. `page_remove` therefore takes a
  reference off page 0 when there is a table but no mapping, as every close of a pipe does once
  (TPJOS/lib/pipe.c:188, TPJOS/lib/fd.c:117). All other counts and the free list stay right until
  the 65536th such removal puts page 0 on the list (`PageTables.Machine.PageLookup`,
  `PageTables.Machine.PageRemove`, `PageTables.Machine.StraysLeft`, `PageTables.Machine.SysPageUnmap`).
- `sys_page_map` takes an empty entry of an existing table for a mapping of page 0, and does not test
  for permissions above PTE_SYSCALL, which `page_insert` then adds to the page number: 0x1007 makes the
  entry for an even page name the next one. It is right exactly when something is mapped at the source
  and the page number has those bits already. When memory is short it panics where -E_NO_MEM is
  promised, and returns -E_NO_MEM only after it has put page 0 on the list
  (`PageTables.Machine.SysPageMap`, `PageTables.HighPerm`, `PageTables.OrKeepsIff`).
- `page_free` notices a double free except for the last page on the list, and then makes the list
  circular (`PageTables.Machine.PageFree`, `Vm.DoubleFreeSlips`).
- `sys_env_set_status` on an environment that another CPU runs, or that waits for a message, and
  `env_destroy` of a dying one break the kernel's invariant; nothing else does (`KernelLock.StepKeepsIff`).
- A page is copied by `fork` when the parent is re-marked copy-on-write or, if the parent faults on
  that page just before, at that fault (`CowForkRefinement.StepRefines`).
- `fork_v0` copies through UTEMP: a page that the parent has there is lost to the first writable page,
  and comes out empty in the child if it is itself the first (`CowForkLoops.DupOrShare`,
  `CowForkLoops.ForksAgree`).
- `file_get_block` keeps the result of `alloc_block` in an unsigned slot: on a full disk the server
  panics, and -E_NO_DISK appears only for want of an indirect block (`FileSystem.Server.FileGetBlock`).
- `alloc_block` flushes the first bitmap block whichever block it has changed (`BlockCache.Cache.TakeBlock`).
- `fsformat` takes an indirect block for a file of exactly ten blocks (`FsFormat.Image.FinishFile`).
- `fsformat` without input files rounds the size 0 of the root directory as an int, to 4096, but reserves
  for it as a uint32_t, nothing: the root gets the first block after the bitmap, which stays free, and
  the server panics when it reads it. With files the image is right (`FsFormat.RoundUps`,
  `FsFormat.Image.FinishDir`, `FsFormat.Format`).
- `fork` maps the fd pages of the child before its data pages, and `_pipeisclosed` can be wrong in
  between (`PipeEof.AnswerIs`, `PipeEof.ForkFoolsTheTest`, `PipeEof.TheTestIsFooled`).
- A write to a pipe whose readers go away returns 0 although bytes have been put in (`PipeRing.WriteReturns`).
- The return from the upcall fails for the one stack pointer UXSTACKTOP (`Upcall.TopOfStackFails`).
- `stab_binsearch` is right for a range and all ranges within it exactly when the address and the next
  one are not both addresses of entries, and says "not contained" only when there is no entry of the
  type (`StabSearch.RegionIs`, `StabSearch.RightWithinIff`, `StabSearch.NotContainedIff`).
- `free_block` of a bitmap block is what makes `bc_pgfault` panic on a bitmap block later
  (`BlockCache.Cache.FreeBlock`).
- A negative number that is padded with blanks does not come back from `strtol` (`Numbers.IntRoundTripIff`).

## Model

| member | source | states |
|---|---|---|
| CowForkInvariant.StepKeeps | TPJOS/lib/fork.c:15-222 | every store, allocation, unmapping, fault call and fork call keeps the invariant: a privately writable page has one mapping, except in the two windows of lines 53-59 and 90-93 |
| CowForkInvariant.SoleScratch | TPJOS/lib/fork.c:47-60 | until the remapping call of `pgfault`, the page at PFTEMP is mapped there alone |
| CowForkInvariant.RemapKeeps | TPJOS/lib/fork.c:53-57 | the remapping call keeps the invariant, also when the environment is between lines 90 and 93 of its own fork of that page |
| CowForkInvariant.MapChildKeeps | TPJOS/lib/fork.c:89-92 | mapping a page into the child before the parent is re-marked keeps the invariant |
| CowForkInvariant.RemarkKeeps | TPJOS/lib/fork.c:93-94 | re-marking whatever page the parent has there by then keeps the invariant |
| CowForkRefinement.StepRefines | TPJOS/lib/fork.c:15-222 | each step is at most one operation of the machine in which address spaces own their bytes; the copy happens at line 93, or at the parent's own fault after line 90 |
| CowForkRefinement.RemarkMeansCopy | TPJOS/lib/fork.c:93-94 | line 93 is the moment at which the child gets its copy, unless a fault has parted the two before |
| CowForkRefinement.MapChildMeansNothing | TPJOS/lib/fork.c:89-92 | line 90 alone changes nothing that either environment sees |
| CowForkRefinement.FaultCallsMean | TPJOS/lib/fork.c:47-61 | the calls of `pgfault` change no visible byte, and complete a copy in flight if they part it |
| CowForkRefinement.RunRefines | TPJOS/lib/fork.c:15-222 | over every interleaved sequence of steps, what the environments see is what eager copying gives; PTE_SHARE pages stay one common copy |
| CowForkRefinement.PrivateBytesStay | TPJOS/lib/fork.c:64-101 | no sequence of steps of other environments changes the private bytes of a running one |
| CowForkRefinement.ChildBytes | TPJOS/lib/fork.c:64-222 | at any moment of any run, a page that a child has in view shows what its parent's page showed at the step that copied it |
| CowForkRefinement.ChildComplete | TPJOS/lib/fork.c:188-221 | before line 217 the child does not run, and then it has exactly its parent's pages, each with the bytes that the parent had there when that page was copied, and an empty exception stack |
| CowForkRefinement.BootInv | TPJOS/lib/fork.c:174-178 | an environment whose pages are its own satisfies the invariant |
| CowForkRights.RightsStay | TPJOS/lib/fork.c:15-101 | no step but a mapping or unmapping of that page by its owner changes whether a page may be written (writable or copy-on-write), nor any PTE_SHARE entry |
| CowForkRights.RightsStayOverRuns | TPJOS/lib/fork.c:15-222 | the same over every run of any number of environments |
| CowForkRights.AppearsProtected | TPJOS/lib/fork.c:80-99 | a page appears in a child with its parent's page behind it: the same entry if it is PTE_SHARE, else not writable and copy-on-write exactly if the parent could write it; the exception stack appears writable |
| CowForkRights.RunGives | TPJOS/lib/fork.c:174-222 | so it is at any moment of any run for every page of a child that has not started, against the entry that the parent has then |
| CowForkRights.MappedAsAsked | TPJOS/lib/fork.c:84-86 | allocating, sharing and unmapping leave the entry that was asked for |
| CowForkRights.StoreProceeds | TPJOS/lib/fork.c:29-41 | a store to a page that may be written goes through or takes a fault that the handler serves |
| CowForkRights.FaultEndsWritable | TPJOS/lib/fork.c:53-61 | after the handler the store goes through |
| CowForkRights.FaultServed | TPJOS/lib/fork.c:15-61 | the handler, uninterrupted: its four calls are possible, the page ends writable in the free page with the bytes it had, and nothing else has changed |
| CowForkRights.NeverStuck | TPJOS/lib/fork.c:15-222 | fork and the handler have a next call to make at every point, as long as there is a free page |
| CowForkLoops.ScanPage | TPJOS/lib/fork.c:195-203 | one turn of the inner loop gives the child the parent's page, if there is one to give, with the right protection in both, and changes no other view and no other entry |
| CowForkLoops.Fork | TPJOS/lib/fork.c:174-222 | the two loops leave a runnable child that sees its parent's pages and a zero exception stack that it may write; PTE_SHARE entries are the same in both, every other page is copy-on-write in both exactly if the parent could write it and writable in neither; all other views and entries are as before |
| CowForkLoops.DupOrShare | TPJOS/lib/fork.c:103-124 | the child's page has the parent's bytes, in a page of its own exactly if it is writable; a copy loses what the parent has at UTEMP, and of UTEMP itself is empty |
| CowForkLoops.ForkV0 | TPJOS/lib/fork.c:144-150 | the eager loop gives the child the parent's bytes and permissions, in pages that nobody else has where it may write; what becomes of a page at UTEMP, exactly |
| CowForkLoops.ForksAgree | TPJOS/lib/fork.c:126-222 | `fork` and `fork_v0` give the child the same private bytes, for a page at UTEMP exactly unless there is a writable page before it, or it is writable and not empty |
| Vm.SetPte | TPJOS/kern/pmap.c:558 | because no table is shared, a table word belongs to one virtual page of one environment |
| Vm.SetPde | TPJOS/kern/pmap.c:428 | a directory entry changes no translation while its table is empty |
| Vm.EnterTable | TPJOS/kern/pmap.c:418-430 | a zeroed unreferenced page becomes a table with one reference, and counts and non-aliasing hold |
| Vm.EnterPte | TPJOS/kern/pmap.c:558 | the entry that is stored keeps counts and non-aliasing if and only if it names the page whose count was raised |
| Vm.LeavePte | TPJOS/kern/pmap.c:612-615 | clearing a mapping and taking one reference off its page keeps the counts exact |
| Vm.EnterDir | TPJOS/kern/env.c:189-194 | a new page directory has one reference, an empty lower half, and disturbs no translation |
| Vm.LeaveTable | TPJOS/kern/env.c:458-460 | a table in which nothing is left has exactly one reference to give back |
| Vm.LeaveDir | TPJOS/kern/env.c:463-466 | a directory in which nothing is left has exactly one reference to give back |
| Vm.StructureHasOneRef | TPJOS/kern/pmap.c:426-428 | a directory or table in use is named from one place and has count one |
| Vm.DoubleFreeSlips | TPJOS/kern/pmap.c:391-404 | the check for a double free misses exactly the last page on the list, and then no finite list is left |
| Vm.NobodyElse | TPJOS/kern/env.c:441-466 | after a teardown a page is unreferenced exactly if only that environment named it |
| PageTables.Machine.constructor | TPJOS/kern/pmap.c:316-353 | the list holds exactly the pages outside page 0, the hole up to the end of the kernel, and the CPU entry page; the invariant holds |
| PageTables.Machine.PageAlloc | TPJOS/kern/pmap.c:367-385 | the first free page, zeroed if asked for, unreferenced, or none when the list is empty; the invariant holds |
| PageTables.Machine.PageFree | TPJOS/kern/pmap.c:391-404 | the page goes to the front of the list exactly if its count is zero and it has no link; when it is the last of the list already, no list is left |
| PageTables.Machine.PageDecref | TPJOS/kern/pmap.c:410-415 | one reference less, modulo 2^16, and the page is freed exactly when the last one goes |
| PageTables.Machine.CreatePageTable | TPJOS/kern/pmap.c:418-430 | exactly one directory entry is new, its table is empty with count one; fails exactly without memory and then changes nothing |
| PageTables.Machine.PgdirWalk | TPJOS/kern/pmap.c:454-468 | the table for the address, made on demand; fails exactly when it is missing and not wanted or not to be had |
| PageTables.Machine.PageInsert | TPJOS/kern/pmap.c:544-561 | exactly one translation is new, also for the same page at the same address; counts, free list and non-aliasing stay exact if and only if the page is not page 0 and has the bits that `perm` brings into its number; on failure nothing changes |
| PageTables.OrKeepsIff | TPJOS/kern/pmap.c:558 | the page number in the entry is that of the page exactly if it has all the bits or-ed into it |
| PageTables.HighPerm | TPJOS/kern/syscall.c:282-291 | a permission that passes the tests of sys_page_map and makes the entry for every even page name the next page |
| PageTables.EntryBits | TPJOS/kern/pmap.c:558 | bit by bit, the entry has the low twelve bits of the permissions, and PTE_P |
| PageTables.OrBits | TPJOS/kern/pmap.c:558 | bit by bit, the page number is or-ed with the rest of them |
| PageTables.AllocPermIs | TPJOS/kern/syscall.c:218-220 | the permissions that sys_page_alloc takes have no bit outside PTE_SYSCALL, and PTE_U or PTE_P |
| PageTables.Machine.PageLookup | TPJOS/kern/pmap.c:574-586 | right exactly when there is no table or there is a mapping; otherwise it names page 0 |
| PageTables.Machine.PageRemove | TPJOS/kern/pmap.c:603-617 | exactly one translation is gone and its page freed with the last reference; without a mapping but with a table page 0 loses a reference, and the invariant survives exactly unless that was its last |
| PageTables.Machine.StraysLeft | TPJOS/kern/pmap.c:411-415 | the removal that frees page 0 is the 65536th without a mapping, and none before |
| PageTables.Machine.EnvSetupVm | TPJOS/kern/env.c:162-197 | a directory whose lower half is empty, whose upper half is the kernel's but for UVPT, and which disturbs no other |
| PageTables.Machine.EnvFree | TPJOS/kern/env.c:443-466 | the address space is gone, every other translation is as before, and the free pages are exactly those that nobody else has |
| PageTables.Machine.ClearTable | TPJOS/kern/env.c:448-460 | one turn of the outer loop clears one table and gives it back |
| PageTables.Machine.SysPageAlloc | TPJOS/kern/syscall.c:202-237 | the error cases exactly; on success a zeroed page at the address with the permissions asked for, bit by bit, and no other new translation |
| PageTables.Machine.SysPageMap | TPJOS/kern/syscall.c:255-294 | the error cases exactly; the source's page at the target with the permissions asked for, bit by bit, writable only if the source is, and no other new translation; the invariant survives exactly when something is mapped at the source and the permissions leave its page number alone; when memory is short a mapped source means a panic |
| PageTables.Machine.SysPageUnmap | TPJOS/kern/syscall.c:303-323 | right exactly when page_remove is: unless it frees page 0 |
| PageTables.InsertIsUpdate | TPJOS/kern/pmap.c:544-561 | seen as one flat map for each environment, page_insert updates one virtual page, also when it makes a table |
| PageTables.RemoveIsUpdate | TPJOS/kern/pmap.c:603-617 | seen so, page_remove clears one virtual page |
| KernelLock.StepKeepsIff | TPJOS/kern/trap.c:308-353 | one step of any CPU keeps lock, CPU and environment state consistent if and only if it is not one of the two misuses |
| KernelLock.MisuseBreaks | TPJOS/kern/syscall.c:106-129 | the two misuses do break it |
| KernelLock.RunSafe | TPJOS/kern/trap.c:308-353 | in every interleaving of any number of CPUs: at most one in the kernel, the lock held exactly then, no environment on two CPUs, every running or dying one on exactly one, no check of the lock fails |
| KernelLock.TryLockKeeps | TPJOS/kern/spinlock.c:61-72 | the xchg loop never finds the CPU holding the lock itself, and takes the lock only when it is free |
| KernelLock.ClearKeeps | TPJOS/kern/spinlock.c:83-108 | the CPU that unlocks is the holder |
| KernelLock.CheckKeeps | TPJOS/kern/trap.c:322-331 | a CPU that traps from user mode has an environment, and a zombie is freed by the CPU that had it |
| KernelLock.EnvRunKeeps | TPJOS/kern/env.c:551-560 | dispatching a runnable environment leaves it current on this CPU alone |
| KernelLock.YieldKeeps | TPJOS/kern/sched.c:37-82 | dispatching, going on, halting and dropping into the monitor keep the invariant |
| KernelLock.YieldLosesNobody | TPJOS/kern/sched.c:37-82 | a CPU stops only when nothing is runnable and its own environment is not running; scheduling loses no environment and wakes none |
| KernelLock.ActKeeps | TPJOS/kern/syscall.c:78-129 | the calls that change a status keep the invariant unless misused |
| KernelLock.StatusAfter | TPJOS/kern/syscall.c:78-129 | the status of every environment after every step: env_destroy makes it dying if another CPU has it and free otherwise, a zombie is freed when its CPU traps, a dispatch puts one back and one on, and nobody else changes |
| KernelLock.ReceiversAfter | TPJOS/kern/syscall.c:351-450 | who waits for a message after every step |
| KernelLock.CallsServed | TPJOS/kern/syscall.c:78-129 | which calls an environment can make: exactly the free slots can be taken, any environment set or destroyed, any waiting one sent to |
| KernelLock.CurrentAfter | TPJOS/kern/env.c:480-560 | what every CPU runs after every step |
| KernelLock.BackToCaller | TPJOS/kern/trap.c:345-353 | a call after which its caller still runs goes back to it |
| KernelLock.OnToScheduler | TPJOS/kern/trap.c:345-353 | any other call leads to the scheduler |
| KernelLock.ComesIn | TPJOS/kern/trap.c:308-345 | with the lock free a trap goes its course: halt ended, lock taken, zombie freed or environment served |
| KernelLock.GoesOut | TPJOS/kern/spinlock.c:83-117 | a CPU that leaves gives the lock back and is in user mode or halted |
| KernelLock.Waits | TPJOS/kern/spinlock.c:69-72 | while another CPU has the lock the loop changes nothing |
| KernelLock.ChecksFire | TPJOS/kern/spinlock.c:63-66 | a second lock by the holder and an unlock by anybody else panic |
| KernelLock.NeverStuck | TPJOS/kern/trap.c:308-353 | in every consistent state each CPU has a step to take, unless it is in the monitor |
| KernelLock.GoneForGood | TPJOS/kern/env.c:441-496 | in every run a dying or free environment is neither running nor runnable before its slot is allocated again |
| KernelLock.Destroyed | TPJOS/kern/env.c:480-496 | so it is after env_destroy, whatever the other CPUs do |
| KernelLock.BootInv | TPJOS/kern/init.c:53-136 | the state with the boot CPU in the kernel and the others about to enter satisfies it |
| KernelLock.SetStatusRunsTwice | TPJOS/kern/syscall.c:106-129 | a misuse of sys_env_set_status after which two CPUs have the same environment |
| Scheduler.FindRunnable | TPJOS/kern/sched.c:32-42 | the first runnable slot in circular order after the current one, or none if there is none |
| Scheduler.FirstRunnableUnique | TPJOS/kern/sched.c:37-42 | the circular search has one answer |
| Scheduler.DistanceDrops | TPJOS/kern/sched.c:33-42 | an environment that is passed over comes strictly nearer |
| KernelLock.RoundRobinBound | TPJOS/kern/sched.c:32-45 | in every run of all CPUs, an environment that stays runnable is dispatched by each CPU whose calls of sched_yield exceed 1023 times one plus the number of resets of its curenv |
| KernelLock.PassedOver | TPJOS/kern/sched.c:32-45 | until then the calls of one CPU are bounded by the distance from its search to the environment, and only a reset starts that again |
| Scheduler.ResetStarves | TPJOS/kern/sched.c:33-36 | with curenv reset, slot 0 wins whenever it is runnable |
| FileLayout.WordPut | TPJOS/fs/fs.c:173-176 | a number stored in an indirect block is read back, and the others are as before |
| FileLayout.PutChanges | TPJOS/fs/fs.c:200-207 | storing a block number touches no other slot of any file and no data |
| FileLayout.EnterIndirect | TPJOS/fs/fs.c:159-170 | a new indirect block touches no other slot and no data |
| FileLayout.ConservedEnter | TPJOS/fs/fs.c:69-73 | a free block put in an empty slot: each block is still free, reserved or owned once |
| FileLayout.ConservedLeave | TPJOS/fs/fs.c:436-439 | the same for a block taken out of its slot |
| FileLayout.Conservation | TPJOS/fs/fs.c:52-76 | free blocks, blocks named by files and reserved blocks add up to s_nblocks |
| FileLayout.ChunkWritten | TPJOS/fs/fs.c:417-418 | one memmove into a block changes those bytes of that file and no other |
| FileLayout.ReadBack | TPJOS/fs/fs.c:373-424 | a read of what was written, in whole or in part, gives those bytes, whatever reads, writes, truncations and allocations come in between that do not touch those positions of that file |
| FileLayout.AllSpare | TPJOS/fs/fs.c:373-479 | every sequence of operations that do not touch a range of a file leaves each byte there that has a value |
| FileSystem.Server.AllocBlock | TPJOS/fs/fs.c:60-76 | the lowest free block is taken; none exactly when none is free |
| FileSystem.Server.FileBlockWalk | TPJOS/fs/fs.c:141-179 | the slot of the block, every error exactly, and a zeroed indirect block when one is made; no byte of any file changes |
| FileSystem.Server.FileGetBlock | TPJOS/fs/fs.c:189-209 | the block of the file, never a free one; every error and the panic exactly; no byte with a value changes; the invariant survives exactly unless the block number is past the size, and none is lost or shared even then |
| FileSystem.Server.FileRead | TPJOS/fs/fs.c:373-395 | the bytes of the file at the offset, as many as its size allows; positions with a value keep it; no read fails for them, nor while there is room on the disk |
| FileSystem.Server.FileWrite | TPJOS/fs/fs.c:402-424 | afterwards the file reads as the buffer there and everything else that had a value keeps it; the size; it succeeds while there is room, and writes a prefix otherwise |
| FileSystem.Server.FileFreeBlock | TPJOS/fs/fs.c:428-441 | exactly the bytes of that block are gone, and the block is free |
| FileSystem.Server.FileTruncateBlocks | TPJOS/fs/fs.c:452-468 | exactly the blocks beyond the new size are gone, with the indirect block when it is not needed |
| FileSystem.Server.FileSetSize | TPJOS/fs/fs.c:471-479 | a smaller size cuts the file to whole blocks, a larger one changes no byte |
| FileSystem.InUse | TPJOS/fs/bc.c:70-71 | a block behind a slot is not free, so no access of the server makes bc_pgfault panic |
| FsFormat.Image.OpenDisk | TPJOS/fs/fsformat.c:109-120 | boot block, superblock and bitmap are set aside, or the disk is too small |
| FsFormat.Image.Alloc | TPJOS/fs/fsformat.c:81-89 | whole blocks from the left; the last block of the disk is never given |
| FsFormat.Image.FinishFile | TPJOS/fs/fsformat.c:134-148 | the file has the blocks from `start` on and nothing else changes; an indirect block from ten blocks on; the image stays in order exactly if those blocks were allocated |
| FsFormat.Image.WriteFile | TPJOS/fs/fsformat.c:180-209 | a new file that reads as its contents, the earlier ones unchanged; fails exactly for size, number or space |
| FsFormat.Image.FinishDir | TPJOS/fs/fsformat.c:169-178 | the root directory gets its blocks and the files are unchanged; without files it gets a block that was never allocated |
| FsFormat.Image.FinishDisk | TPJOS/fs/fsformat.c:122-132 | exactly the blocks before the position are marked in use, and if the image is in order the server's invariant holds of it |
| FsFormat.Format | TPJOS/fs/fsformat.c:218-243 | it succeeds exactly when everything fits, the image reads as the input files, and it satisfies the server's invariant if and only if there are any; otherwise the root directory has a free block |
| FsFormat.RoundUps | TPJOS/fs/fsformat.c:34 | the macro gives whole blocks for a uint32_t, and for an int the same except 4096 for 0 |
| FsFormat.FreeRoot | TPJOS/fs/bc.c:70-71 | a root directory with a free block is outside the invariant of the server |
| FsFormat.EmptyFits | TPJOS/fs/fsformat.c:225-243 | the image without files that main accepts succeeds, for 1024 blocks with the root in block 3 |
| BlockCache.BitPut | TPJOS/fs/fs.c:37-49 | setting or clearing a bit of a bitmap word changes that bit alone |
| BlockCache.MarkedBit | TPJOS/fs/fs.c:49-70 | the bitmap operations change the bit of one block and no other |
| BlockCache.Cache.BcPgfault | TPJOS/fs/bc.c:29-72 | the logical disk is unchanged and the block is in memory and clean, with the bitmap block that it takes a further fault to read; panics exactly for a free block |
| BlockCache.Cache.BlockIsFree | TPJOS/fs/fs.c:32-40 | the bit of the block on the logical disk, reading in what it takes; the faults inside each other end |
| BlockCache.Cache.constructor | TPJOS/fs/fs.c:82-96 | with nothing in memory and the bitmap blocks in use the invariant holds |
| BlockCache.Cache.Load | TPJOS/fs/bc.c:29-72 | a load sees the logical disk |
| BlockCache.Cache.Store | TPJOS/fs/bc.c:20-24 | a store changes that byte of the logical disk and marks its block dirty |
| BlockCache.Cache.FlushBlock | TPJOS/fs/bc.c:81-103 | that block of the disk is the logical one and is clean in memory; the logical disk is unchanged |
| BlockCache.Cache.FsSync | TPJOS/fs/fs.c:504-510 | from block 1 on the disk is the logical disk, and nothing there is dirty |
| BlockCache.Cache.FileFlush | TPJOS/fs/fs.c:485-500 | the file's data, record and indirect block are on the disk, and no other block is written |
| BlockCache.Cache.TakeBlock | TPJOS/fs/fs.c:69-73 | the bit is cleared in memory, and on the disk exactly if the block is covered by the first bitmap block |
| BlockCache.Cache.FreeBlock | TPJOS/fs/fs.c:44-50 | the bit of that block is set and no other changes; the bitmap stays readable exactly if it is not a bitmap block |
| BlockCache.IsBitmapBlockIff | TPJOS/fs/fs.c:83-89 | the bitmap blocks are those that have the bit of some block |
| PipeRing.StepKeeps | TPJOS/lib/pipe.c:104-172 | every load and store keeps 0 <= p_wpos - p_rpos <= 32 and the unread bytes in their slots |
| PipeRing.NoOverwrite | TPJOS/lib/pipe.c:165-167 | a store to the buffer hits no unread byte |
| PipeRing.BytesInOrder | TPJOS/lib/pipe.c:104-172 | in every interleaving of a reader and a writer the bytes read are a prefix of the bytes written |
| PipeRing.ReadReturns | TPJOS/lib/pipe.c:116-136 | a read that returns has the next bytes, as many as it says |
| PipeRing.ReadCall | TPJOS/lib/pipe.c:104-138 | a whole read against any writer: fewer bytes than asked for only if at some moment of the call nothing more was in the pipe, and 0 only if it was told after that that the writers are gone |
| PipeRing.ReadGoesOn | TPJOS/lib/pipe.c:116-136 | left to itself without writers, a read takes a byte or returns within 6 steps |
| PipeRing.WriteReturns | TPJOS/lib/pipe.c:151-171 | a write that returns has put in all its data and says so, or a prefix when told that the readers are gone, and then it says 0 |
| PipeRing.WriteCall | TPJOS/lib/pipe.c:140-172 | a whole write against any reader: it stops short only if at some moment of the call the buffer was full and it was told after that that the readers are gone |
| PipeRing.WriteGoesOn | TPJOS/lib/pipe.c:151-169 | left to itself without readers, a write puts in a byte or returns within 6 steps |
| PipeEof.StepKeeps | TPJOS/lib/fd.c:173-201 | every step of dup, close, fork, kill, exit and of the test itself keeps each fd page covered by a data page, outside children being made, and each data page without an fd page owned by a dup or close of that number in progress |
| PipeEof.ForkCopies | TPJOS/lib/fork.c:188-217 | a fork that ends leaves a running child with exactly its parent's descriptors and data pages |
| PipeEof.ForkGoesOn | TPJOS/lib/fork.c:188-204 | each step of a fork brings it one nearer to its end |
| PipeEof.KilledGone | TPJOS/kern/env.c:441-496 | an environment that is killed or ends has no page left, and nobody else loses any |
| PipeEof.DupCopies | TPJOS/lib/fd.c:173-201 | a dup that ends leaves a descriptor of the same end and no other change |
| PipeEof.CloseEnds | TPJOS/lib/pipe.c:185-190 | a close that ends leaves neither page and no other change |
| PipeEof.WholeCalls | TPJOS/lib/pipe.c:185-190 | close and dup as wholes, when nobody steps in |
| PipeEof.TestAnswers | TPJOS/lib/pipe.c:75-89 | a test that is not interrupted answers after one turn |
| PipeEof.CountsCompared | TPJOS/lib/pipe.c:82 | the difference of the two page counts, exactly |
| PipeEof.AnswerIs | TPJOS/lib/pipe.c:75-89 | what _pipeisclosed answers, exactly, because the two env_runs loads make its counts one snapshot |
| PipeEof.ClosedMeansClosed | TPJOS/lib/pipe.c:75-89 | with no fork half-way "closed" is sound, and with no dup or close half-way it is right both ways |
| PipeEof.EveryAnswerSound | TPJOS/lib/pipe.c:28-89 | over every interleaving from a new pipe, with environments dying in the middle of anything: each answer given while no fork is half-way is sound, and right both ways while no dup or close is |
| PipeEof.ForkFoolsTheTest | TPJOS/lib/fork.c:188-204 | the steps of a fork that lead to a state in which the counts mislead |
| PipeEof.TheTestIsFooled | TPJOS/lib/pipe.c:80-85 | in that state a reader is told that nobody can write, while somebody can |
| Upcall.FaultIsTransparent | TPJOS/lib/pfentry.S:34-95 | for every nesting that fits the exception stack: registers, flags, eip and esp are restored and no live word of any interrupted frame has changed |
| Upcall.HandlerKeeps | TPJOS/kern/trap.c:405-446 | a handler that obeys the calling convention, with any faults inside it, leaves its frame intact |
| Upcall.FrameKept | TPJOS/kern/trap.c:436-441 | the return code finds in the frame the registers, flags and pointers that the kernel put there |
| Upcall.HandlerSees | TPJOS/kern/trap.c:405-444 | at any depth the handler is called with a pointer to the fault address, the error code and the registers of the interrupted code in the order of struct UTrapframe, just below the stack of a fault on the exception stack |
| Upcall.FitsIff | TPJOS/kern/trap.c:409-423 | the environment survives exactly if the whole frame, with the blank word, lies in the page of the exception stack |
| Upcall.StoreLast | TPJOS/lib/pfentry.S:36-39 | the stores of a handler take effect in order |
| Upcall.Returns | TPJOS/lib/pfentry.S:68-95 | what the fourteen instructions do to any machine |
| Upcall.TopOfStackFails | TPJOS/lib/pfentry.S:70-72 | with the stack pointer at UXSTACKTOP the code goes on at the address of its own frame |
| Handles.CountsGenerations | TPJOS/kern/env.c:221-225 | ids count generations and skip the negative ones |
| Handles.SameIdIff | TPJOS/kern/env.c:221-225 | a slot gets the same id again exactly after a multiple of 2^19 - 1 allocations |
| Handles.EnvTable.constructor | TPJOS/kern/env.c:114-129 | all slots free, in the order of the array |
| Handles.EnvTable.Alloc | TPJOS/kern/env.c:207-269 | the first free slot with its next id; fails exactly when none is free or there is no page for a directory, and then changes nothing |
| Handles.EnvTable.Free | TPJOS/kern/env.c:468-471 | the slot is the next one to be allocated |
| Handles.EnvTable.Envid2Env | TPJOS/kern/env.c:72-106 | the one live slot with that id, if the caller may have it, and every error exactly |
| Handles.EnvTable.LiveIdsDistinct | TPJOS/kern/env.c:221-225 | live ids are positive and distinct |
| Handles.EnvTable.StaleUntilWrap | TPJOS/kern/env.c:83-92 | over the whole life of the table an id resolves exactly while its slot is live with a multiple of 2^19 - 1 allocations in between |
| Handles.OpenTable.constructor | TPJOS/fs/serv.c:49-59 | file ids are the slot numbers |
| Handles.OpenTable.Alloc | TPJOS/fs/serv.c:62-84 | the first slot that no client maps, with its next file id; fails exactly when there is none or its Fd page cannot be had |
| Handles.OpenTable.Lookup | TPJOS/fs/serv.c:88-97 | resolves exactly to the open that received the id, while a client maps it |
| Handles.OpenTable.OneOpen | TPJOS/fs/serv.c:77-80 | a file id comes again exactly after a multiple of 2^22 opens, and is a positive int for fewer than 2^21 |
| StabSearch.StabBinsearch | TPJOS/kern/kdebug.c:59-106 | the loops end and compute the region function |
| StabSearch.LoopKeeps | TPJOS/kern/kdebug.c:68-94 | what lies left and right of the range at every turn |
| StabSearch.RegionIs | TPJOS/kern/kdebug.c:96-105 | the region of the last entry at or before the address, up to just before the next one, exactly unless the address after it has been matched |
| StabSearch.ProbeIs | TPJOS/kern/kdebug.c:87-93 | that takes both addresses to be addresses of entries |
| StabSearch.RightWithinIff | TPJOS/kern/kdebug.c:59-106 | over a range and all ranges within it the answer is right if and only if the address and the next one are not both addresses of entries |
| StabSearch.NotContainedIff | TPJOS/kern/kdebug.c:96-97 | left > right exactly when the range has no entry of the type |
| StabSearch.AdjacentAddresses | TPJOS/kern/kdebug.c:87-93 | two entries one address apart for which the answer is the wrong one |
| StabSearch.BeforeTheFirst | TPJOS/kern/kdebug.c:84-86 | an address before every entry that is not reported as not contained |
| InitStack.InitStack | TPJOS/lib/spawn.c:196-257 | fails exactly when the page is too small, cannot be had or cannot be mapped into the child; otherwise the child finds argc, the terminated argv and the strings |
| InitStack.StrCpy | TPJOS/lib/spawn.c:248 | the string and its terminator are there and nothing else has changed |
| InitStack.Finish | TPJOS/lib/spawn.c:251-257 | decoding the page from the stack pointer, at child addresses, yields the arguments |
| InitStack.ArgsRead | TPJOS/lib/spawn.c:246-251 | following the pointers one by one yields the strings up to the null pointer |
| Numbers.Output.PrintNum | TPJOS/lib/printfmt.c:44-59 | padding and digits are appended, most significant first |
| Numbers.Output.PrintInt | TPJOS/lib/printfmt.c:199-236 | the sign comes before the padding |
| Numbers.TextLength | TPJOS/lib/printfmt.c:49-55 | the output has max(width, number of digits) characters |
| Numbers.ParseNumber | TPJOS/lib/string.c:241-286 | the loops compute value and end, in any base, with the prefixes 0x and 0 |
| Numbers.ParsedPrefix | TPJOS/lib/string.c:265-281 | on any text the longest run of digits of the base is read, and its value |
| Numbers.DigitOfIs | TPJOS/lib/string.c:269-276 | the digits are 0 to 9 and the letters of either case, and nothing else |
| Numbers.DigitsValue | TPJOS/lib/printfmt.c:57-58 | the digits denote the number |
| Numbers.RoundTrip | TPJOS/lib/string.c:241-286 | strtol of the printed number in the same base is the number and consumes everything |
| Numbers.PrefixRoundTrip | TPJOS/lib/string.c:257-263 | with base 0 a number printed after its prefix, in base 16, 8 or 10, comes back and everything is consumed |
| Numbers.IntRoundTripIff | TPJOS/lib/printfmt.c:199-207 | a signed number comes back exactly unless it is negative and padded with blanks |
| Primes.RunPrimes | TPFork/primes.c:16-53 | one process prints its first number and its children the chain of what it passes on |
| Primes.FilterKeeps | TPFork/primes.c:37-43 | what passes is what the prime does not divide, in order |
| Primes.NextCandidates | TPFork/primes.c:16-53 | the first number is the next prime, and what is passed on has no divisor up to it |
| Primes.ChainIsPrimes | TPFork/primes.c:16-53 | the chain prints exactly the primes of its range, ascending |
| Primes.Sieve | TPFork/primes.c:55-91 | the program prints exactly the primes up to its argument, ascending |

## Left out

- KernelLock.StepKeepsIff: the kernel is a machine over its shared accesses, not a class, because steps of other CPUs come between; updates in place inside one step are not visible in it.
- KernelLock.RunSafe: memory is sequentially consistent; stores to lk->pcs, the panic string and the non-kernel lock users are not modelled.
- KernelLock.ActKeeps: env_ipc_perm, env_ipc_dstva and the page transfer of the IPC calls; their effect on page tables is that of `PageTables.Machine.PageInsert`.
- Scheduler.FindRunnable: env_run does not return in C; here the search returns the slot.
- CowForkRefinement.RunRefines: pages sent by IPC, sys_page_map of private pages by the program itself, and running out of memory are excluded; a program faults, stores and allocates but calls nothing else while its own fork is under way.
- CowForkLoops.Fork: no other environment steps during the loops; the interleaved case is `CowForkRefinement.RunRefines`.
- CowForkLoops.ForksAgree: PTE_SHARE pages are left out, because fork_v0 copies the writable ones and fork shares them.
- PageTables.Machine.constructor: the kernel's own mappings above UTOP and the tables that mem_init allocates for them.
- PageTables.Machine.PageInsert: the page must be page 0 or allocated and not a table, and its count below 65535.
- PageTables.Machine.SysPageMap: the 65536th mapping of one page, with which its count comes round to 0.
- PageTables.Machine.EnvSetupVm: the bytes of user pages, the TLB and CR3.
- FileSystem.Server.FileBlockWalk: the flush_block calls of fs.c and the mapping of the new block, which change nothing on the logical disk (`BlockCache.Cache.FlushBlock`).
- FileSystem.Server.FileGetBlock: after the panic the server is gone, so nothing is stated of its state.
- FileSystem.Server.FileRead: offsets and sizes are natural numbers; sums stay below 2^31.
- FileSystem.Server.AllocBlock: the bitmap is a sequence of bits; `BlockCache.MarkedBit` ties the bits to the words on the disk.
- FileLayout.Conservation: File records are kept apart from the directory blocks that hold them, so directory contents and growth (TPJOS/fs/fs.c:213-269), path names and file creation are not modelled.
- FsFormat.Format: the bytes of the superblock, of the bitmap blocks and of the directory records.
- BlockCache.Cache.BcPgfault: the mapping calls of the handler do not fail.
- BlockCache.Cache.FileFlush: the File record is a value read before the loop; its block is `fb`.
- PipeRing.BytesInOrder: one reader and one writer at a time, and fewer than 2^31 bytes.
- PipeEof.EveryAnswerSound: one CPU; spawn, which copies shared pages in the same order as fork, is not a step of its own. The child of a parent that is killed while it forks stays half-made, and nothing is stated of answers after that but `PipeEof.AnswerIs`.
- Upcall.FaultIsTransparent: stack pointers that are not multiples of 4, a handler that changes its own frame, and faults in the tail of the return code.
- Handles.OpenTable.Lookup: the client environment is not compared, as in the code.
- StabSearch.RegionIs: addresses of entries below 0xFFFFFFFF, so that the address searched for does not wrap.
- InitStack.InitStack: strings of 4 MB and more, for which the pointer arithmetic wraps.
- Numbers.ParseNumber: overflow of a long.
- Numbers.Output.PrintInt: the format string itself, the other conversions, and the flag '-', which pads with minus signs on the left.
- Primes.Sieve: failing pipes and forks, and output that a full buffer would repeat after fork.
- Devices, boot, the shell, the other programs of TPFork, the self-checks and the test programs.
