# KINAKO-OS kernel: a Dafny model and its proofs

KINAKO-OS is a small RISC-V kernel whose state lives in arrays and tables. This project models six of its parts and proves
what they guarantee over all inputs, all runs and all interleavings:

* **Address spaces** (`Memory`, `Sv32`, `AddressSpace`, `Mmu`, `Isolation`, `UserMemory`). The bump allocator and the
  two-level page-table builder work on raw bytes of one physical memory. The specification is the translation walk of
  section 4.3.2 of the RISC-V Privileged Architecture (Volume II, version 20211203), with the entry format of section 4.3.1.
  `map_page` is a one-key update of that walk; `proc_create` builds isolated address spaces, and over any sequence of
  creations, scheduling and user stores a process sees its own stores only. A ghost map from page number to use (root,
  table, stack, image page, owner) carries the separation argument.
* **Scheduling** (`Sched`, `Process`, `KernelRuns`). One register file is time-shared. The machine with saved contexts
  simulates a machine with a register file for each process, and round robin has bounded waiting. The class `Kernel` has the
  routines of the source and `context_switch` in their imperative form, proved equal to the transition system. `KernelRuns`
  looks at scheduling and address spaces together, over whole runs from boot.
* **File-system read path** (`CString`, `Disk`, `DiskLayout`, `BlockDevice`, `Paths`, `InodeCache`, `Inodes`, `FileTables`, `Files`,
  `Sessions`, `TestFs`, `Names`, `Boot`, `FullCache`, `Trees`). Abstract content, directory search and path resolution are
  functions of the raw disk, and `DiskLayout` proves that they are what the layout of the disk says byte by byte: the flat
  inode table, the blocks of a file in order, the entries of a directory, the chain of directories of a path. The cached, block-chunked, table-driven code is proved against them, from `bdev_read` up to runs of
  system calls by any processes and a program that opens a path, reads to the end and closes. `TestFs` is the builder of
  the boot-time disk, and `Boot` composes all of it, which shows that the preconditions of the parts can be met together.
  `FullCache` is a run that exhausts the inode cache; `Trees` reads a file of any content up to twelve blocks in a directory
  inside the root.
* **Spinlocks** (`Spinlock`). A state machine with a program counter per CPU, one step per access to memory or to the
  interrupt bit, any number of CPUs and locks, any schedule.
* **Intrusive lists** (`List`). Nodes on the heap against the sequence of elements.
* **Decimal output** (`Printk`). Digit loops in fixed buffers, widths and padding, with the reading back of what is printed.

`panic` does not return in the kernel; a routine that can reach it returns `Outcome`, and every contract says exactly when it
is `Panic`. Bytes and words are integers with their range; 32-bit wraps are written out except where "Left out" says so.

## What the proofs brought up

* `alloc_pages` adds in 32 bits before it compares (mm/alloc.c:9-11). `Mmu.AllocGuardExact` says for which requests the test
  is right, `Mmu.AllocGuardWraps` gives one for which it is not. Every call in the kernel asks for one page.
* `uint64_t` is `unsigned long` (include/common.h:6), 32 bits on the target, so `%lld` prints the magnitude modulo 2^32
  (lib/printk.c:105-116): right exactly when the magnitude is below 2^32 (`Printk.LongLongReadsIff`, `Printk.LongLongWraps`).
* "The current process is RUNNING" does not survive a yield that selects the same process (kernel/proc.c:156-160, 313). It
  holds after a yield if and only if another process exists (`Sched.YieldMarksRunningIff`); `Sched.LoneYieldStaysReady` is a
  state in which it fails. The invariant is therefore "at most one process is RUNNING, and it is the current one".
* Path components are cut to thirteen bytes (kernel/fs_inode.c:75-79), directory names hold fourteen. An entry in use can be
  reached by a path if and only if its name is nonempty, slash-free and at most thirteen bytes (`Names.EntryReachableIff`,
  with the entry of `Names.FullNameUnreachable`); elements that agree in thirteen bytes are one (`Names.CutAgrees`).
* There is no `iput`: an inode keeps its cache slot after its files are closed. A path can be walked if and only if it
  resolves and the inodes met that are not cached yet fit the free slots (`InodeCache.ReachableIff`). Over every run of
  calls a full cache stays full of the same inodes (`Sessions.FullForever`), and from then on an open can succeed only on a
  path all whose inodes are among them, whatever was closed (`Sessions.FullOpensIff`). `FullCache.FillAndRefuse` gets there
  from the empty cache: the root and thirty-one files opened and closed, and a path that resolves is refused.
* The flag word of `map_page` is or-ed into the entry unmasked. The page maps to the address given if and only if the flags
  are legal and the bits from the eleventh up are in its frame number already (`Sv32.LeafEntryExact`); `Sv32.FrameChanges`
  is an entry that leads to another frame. The kernel's own flags have five bits.
* A `pop_off` with nothing pushed, by a CPU that holds a lock, is not caught and gives the interrupts back inside the
  critical section (`Spinlock.UnpairedPop`).

## Model

The main results come first; after them the rows follow the modules.

| member | source | states |
|---|---|---|
| Mmu.Machine.MapPage | arch/riscv/kernel/MMU.c:9-32 | panics exactly on misalignment or shortage; otherwise a one-key update of the walk that writes only this tree's pages, so every other tree, stack and image is unchanged (`Sv32.OtherTreesKept` says it for the translations), and allocates exactly when the table was missing |
| Mmu.Machine.UserMapPage | arch/riscv/kernel/MMU.c:45-60 | every byte of the image reads back at USER_BASE through the walk and the rest of the last page reads zero, though tables and image pages are allocated interleaved; exact page cost |
| Mmu.Machine.KernelMapPage | arch/riscv/kernel/MMU.c:34-43 | identity with R, W, X and without U on exactly the kernel range, at a cost of one page for each missing table |
| Isolation.RunDeliversImages | kernel/proc.c:212-257 | at the end of a run the process of each creation reads its own image with zero tail |
| UserMemory.OwnMemory | kernel/proc.c:212-315 | over every mix of creations, scheduling and user stores a process reads at each of its addresses what it last stored there, or what was there at the start |
| KernelRuns.RunSound | kernel/proc.c:194-315 | in every state of every run from boot the address spaces are isolated and the scheduling invariant holds |
| KernelRuns.RunTranslates | kernel/proc.c:165-185 | in every state of every run the hardware translates, through satp, as the current process's address space says, and sscratch is the top of its kernel stack |
| KernelRuns.RunOwnMemory | kernel/proc.c:194-315 | from any state of any run on, a process reads at each user address what it stored there itself while current, or what was there |
| KernelRuns.BootAndDrive | kernel/proc.c:194-315 | calls on a kernel just booted are a run from boot with the events of the calls, up to the first that panics and up to the state of the kernel afterwards, and every state of it is isolated and keeps the scheduling invariant |
| KernelRuns.CreateAll | kernel/proc.c:212-257 | PROC_MAX calls of proc_create on a fresh kernel panic if and only if their pages exceed free memory: with 64 MB, if and only if one process takes more than 256 pages |
| Process.Kernel.ProcCreate | kernel/proc.c:212-257 | fails exactly when the table is full or memory is short; otherwise it is the creation step of both transition systems, and the saved registers of the new process are trampoline, stack top, entry point, argument and ten zeros, each in its register |
| KernelRuns.FirstTimeOnCpu | kernel/proc.c:355-374 | over every run from boot: the process that a creation enters in the first unused slot finds on the CPU, when it first gets it, its trampoline in ra, the top of its stack in sp, its entry point in s0, its argument in s1 and zeros, whatever ran before, the start of the scheduler included |
| KernelRuns.RunOwnRegisters | kernel/proc.c:137-191 | from any state of any run from boot on, a process has the registers that it last left itself while current, or those it had |
| Sched.RunSimulates | kernel/proc.c:137-191 | over every run of writes, yields and creations the two machines agree, and satp and sscratch name the current process |
| Sched.BoundedWaiting | kernel/proc.c:303-315 | a live process at cyclic distance d gets the CPU within d yields, in any run |
| Sched.YieldMarksRunningIff | kernel/proc.c:156-160 | after a yield the current process is marked RUNNING if and only if another process exists |
| Inodes.InodeLayer.Readi | kernel/fs_inode.c:177-217 | -1 for type 0, otherwise byte j is the byte of the disk at block (off + j) / 1024 of the address array, offset (off + j) % 1024, up to the request or the first byte that is past the size, in no direct block or off the disk; the rest of the buffer unchanged |
| DiskLayout.BlocksAreFile | kernel/fs_inode.c:30-41 | a file whose direct blocks hold some content, block k of it in the k-th entry of the address array, has exactly that content, for up to twelve blocks |
| DiskLayout.ResolveIff | kernel/fs_inode.c:294-366 | resolution leads from one inode to another if and only if there is a chain of directories, of type 1 each, in which the first entry for each component, read off its sixteen bytes, is the next inode |
| Inodes.InodeLayer.Namei | kernel/fs_inode.c:331-366 | succeeds if and only if resolution on the raw disk succeeds and the cache has room for the inodes met (`DiskLayout.ResolveIff` says what resolution is, `DiskLayout.NotThroughFiles` that it stops at a file), returns the inode so resolved, and takes a cache slot for exactly the inodes met that had none |
| Files.FileLayer.SysOpen | kernel/syscall_fs.c:88-113 | succeeds if and only if the path cut to 127 bytes is reachable, the mode without bit 0 and bit 1, a file and a descriptor free; success takes cache slots for exactly the inodes met that had none, a failure leaves both tables as they were in effect |
| Files.FileLayer.SysRead | kernel/syscall_fs.c:115-159 | fails exactly on a bad descriptor or an inode not on the disk; else delivers the next bytes of the file, at most 512, and moves no other file's offset; the user buffer need hold only what is delivered |
| Sessions.RunDelivers | kernel/syscall_fs.c:88-180 | over every run of calls by any processes, the concatenated results of the reads through a descriptor since it was opened are exactly the content of its inode before the offset of the file |
| Sessions.PathDelivers | kernel/syscall_fs.c:88-180 | over every run: what is read through a descriptor since a path was opened, until it is closed, is a prefix of the content of the inode that the path resolves to on the raw disk, and all of it exactly when a read of positive size comes back empty; reads fail exactly when that inode is not on the disk |
| Sessions.FullOpensIff | kernel/fs_inode.c:98-135 | once the inode cache is full in a state of a run, an open in any later state succeeds if and only if the path resolves, all inodes met were cached then, the mode is read-only, and a file and a descriptor are free |
| FullCache.FillAndRefuse | kernel/fs_inode.c:98-135 | from the empty cache, on a disk whose root has thirty-two files: thirty-one are opened and closed, every call succeeding, and the last path, which resolves, is refused |
| Sessions.Run | kernel/syscall_fs.c:88-180 | a sequence of system calls performs a run of the call relation, from the state before to the state after, and returns the answers of all its calls |
| Sessions.ReadToEnd | kernel/syscall_fs.c:88-180 | open, reads of any positive sizes until 0, close: exactly the content of the inode that resolution gives, which is its bytes on the disk in order, or nothing exactly when open cannot succeed or the inode is not on the disk; both tables restored |
| Trees.ReadTree | kernel/syscall_fs.c:88-180 | on a disk with a directory in the root and a file in it, of any two names and any content up to twelve blocks, a program that opens the path and reads to the end gets the content |
| Names.EntryReachableIff | kernel/fs_inode.c:42-89 | an entry in use matches a component of some path if and only if its name, up to a zero, is nonempty, slash-free and at most thirteen bytes |
| InodeCache.ReachableIff | kernel/fs_inode.c:331-366 | a path can be walked if and only if it resolves and the inodes met that are not cached are no more than the free slots |
| Spinlock.StepRefines | lib/spinlock.c:12-86 | every step of every CPU is a step of atomic locks: a test-and-set succeeds only on a lock without owner, only the owner releases, and the protocol invariant is kept |
| Spinlock.RunsAreSafe | lib/spinlock.c:12-86 | over all schedules of any number of CPUs and locks: mutual exclusion, spinlock_holding never true for a non-holder and always for a holder, no panic, noff equals nesting depth, interrupts off while nested and as chosen when not |
| Spinlock.CallsReturn | lib/spinlock.c:12-86 | over all schedules: when a call is back in its caller's code, an acquire has added its lock to the held ones and the lock names the CPU, a release has taken it away, a push is one deeper and a pop one less deep, with interrupts off at any depth and as chosen at depth 0 |
| Spinlock.AcquireCompletes | lib/spinlock.c:12-32 | from every state inside an acquire, contended before or not, once no other CPU has the lock the CPU alone holds it within seven steps |
| Spinlock.MisusePanics | lib/spinlock.c:12-86 | under every schedule of the other CPUs, acquiring a held lock, releasing one not held and popping at depth 0 end in a panic within six steps |
| Spinlock.UnpairedPop | lib/spinlock.c:70-86 | a pop with nothing pushed by a CPU that holds a lock, undisturbed, returns with all locks still held and the depth one less; with one lock the interrupt bit is restored while the lock is held, a state the protocol excludes |
| List.Remove | lib/list.c:25-31 | deletion at any position, writing two pointers of the neighbours; the node's own pointers become null |
| List.ForEach | lib/list.c:81-90 | every original node is visited once and in order, even when the callback removes any of the nodes it is called on; the list then holds the others |
| List.KeptIs | lib/list.c:81-90 | the elements left are those that the callback did not remove, and no others |
| Printk.FieldReads | lib/printk.c:103-171 | round trip: a field read back - spaces, sign, zeros, digits - is the number, and its length is the greater of width and what the number needs |
| Printk.FieldLayout | lib/printk.c:105-140 | the digits come last, a minus sign stands before padding zeros and after padding spaces |
| Printk.LongLongReadsIff | lib/printk.c:105-116 | a long long reads back if and only if its magnitude is below 2^32 |
| Mmu.AllocGuardExact | mm/alloc.c:9-11 | the 32-bit test of alloc_pages is right if and only if the sum does not wrap, or wraps to an address that the test refuses as well |
| Memory.OrIntoZeros | arch/riscv/kernel/MMU.c:25-31 | or-ing bits into a field of zeros adds them, for every width |
| Memory.OrFields | arch/riscv/kernel/MMU.c:31 | or works on the high and the low bits of two words by themselves, at every position |
| Memory.AndOnes | arch/riscv/kernel/MMU.c:19 | masking with a run of ones is a remainder, for every width |
| Memory.SetWordReads | arch/riscv/kernel/MMU.c:25-31 | a little-endian word store is read back, and every word and byte apart from it is unchanged |
| Sv32.IndexFields | arch/riscv/kernel/MMU.c:19-29 | the shift-and-mask index computations are the VPN fields of section 4.3.1 |
| Sv32.Entries | arch/riscv/kernel/MMU.c:25-31 | for every flag word the entries written are a frame field and ten low bits with V set: flag bits from the eleventh up are or-ed into the frame number |
| Sv32.LinkRoundTrip | arch/riscv/kernel/MMU.c:25-30 | the table address recomputed from a link entry, and the one the hardware takes from it, are the address it was made from |
| Sv32.LeafEntryMeaning | arch/riscv/kernel/MMU.c:31 | what the hardware makes of an entry with any flag word: the frame or-ed with the flag bits from the eleventh up, the low ten bits with V, a fault when they are not legal |
| Sv32.LeafEntryExact | arch/riscv/kernel/MMU.c:31 | the page maps to the address given, with its flags, if and only if the flags are legal and their bits from the eleventh up are in the frame number already |
| Sv32.FrameChanges | arch/riscv/kernel/MMU.c:31 | a flag word with its twelfth bit set maps address 0x1000 to frame 3, one with its eleventh bit set does no harm |
| Sv32.TreeWalk | arch/riscv/kernel/MMU.c:19-31 | on a well-formed tree the walk of section 4.3.2 is the two table reads of the code, and superpages do not arise |
| Sv32.TreeFrame | arch/riscv/kernel/MMU.c:9-32 | a table tree and its whole translation depend only on the bytes of its own tables |
| Sv32.OtherTreesKept | arch/riscv/kernel/MMU.c:9-32 | writing in the tree of one process keeps the trees of all others and their translations of every address |
| Sv32.AllocationKeepsTree | mm/alloc.c:9-15 | zeroing a page that had no use keeps every tree |
| Sv32.LinkTable | arch/riscv/kernel/MMU.c:21-26 | linking a zeroed page as second-level table keeps the tree well formed and translates every address as before |
| Sv32.SetLeaf | arch/riscv/kernel/MMU.c:28-31 | the leaf store keeps the tree and changes the translation of one page only |
| AddressSpace.ExtendStep | arch/riscv/kernel/MMU.c:39-58 | after one more map_page the translation is that of the run with one more page |
| AddressSpace.ExtendCost | arch/riscv/kernel/MMU.c:21-26 | the next page of a run costs a table exactly when its first-level entry is reached first and was empty |
| AddressSpace.AllMissing | arch/riscv/kernel/MMU.c:21-26 | a range of first-level entries that lead nowhere counts all its entries as missing tables |
| AddressSpace.ImageReadBack | arch/riscv/kernel/MMU.c:45-60 | an image held in its frames and mapped reads back through the walk byte for byte, with zeros to the end of its last page |
| Mmu.AllocGuardWraps | mm/alloc.c:9-11 | a concrete request that passes the test although it exceeds memory |
| Mmu.Machine.LoadWord | arch/riscv/kernel/MMU.c:21-30 | a table entry read is the little-endian word in memory |
| Mmu.Machine.StoreWord | arch/riscv/kernel/MMU.c:25-31 | a table entry written changes four bytes and nothing else |
| Mmu.Machine.Memset | lib/string.c:3-11 | exactly the bytes of the range are set |
| Mmu.Machine.Memcpy | lib/string.c:13-22 | exactly the destination range changes; each byte comes from the same index of the source, or, when the destination begins inside the source, from the start of the source repeated |
| Mmu.CopiedFromBack | lib/string.c:13-22 | the upward copy reads the source byte at the same index unless that was copied over before |
| Mmu.Machine.AllocPages | mm/alloc.c:5-16 | panics exactly when memory is short; otherwise the lowest pages not yet handed out, zeroed, all other bytes unchanged |
| Mmu.Machine.EnsureTable | arch/riscv/kernel/MMU.c:21-26 | the second-level table exists afterwards, no translation changed, one page used exactly when it was missing |
| Mmu.Machine.StoreLeaf | arch/riscv/kernel/MMU.c:28-31 | the translation is updated at one page and the links are unchanged |
| Isolation.UserPageIsImage | kernel/proc.c:212-257 | a page reached through U is an image page of that process, so no page table, kernel stack or kernel page |
| Isolation.UserPagesDisjoint | kernel/proc.c:212-257 | no two live processes reach a common page in user mode |
| Isolation.ImagePagesDistinct | arch/riscv/kernel/MMU.c:45-60 | two user addresses of a process share a frame exactly when they share a virtual page |
| Isolation.CreationIsolates | kernel/proc.c:212-257 | creation keeps all address spaces apart |
| Isolation.CreationPreserves | kernel/proc.c:212-257 | creation keeps the record, the whole translation and every user-reachable byte of every other process |
| Isolation.RunIsolated | kernel/proc.c:212-257 | isolation holds after every creation of every run |
| Isolation.RunPreserves | kernel/proc.c:212-257 | over every run of creations a process keeps its translation and its user memory |
| Isolation.RunConsumes | kernel/proc.c:223-240 | k creations of equal images use exactly k times the cost of one |
| Isolation.RunFits | kernel/proc.c:223-240 | every run of creations of equal images fits in memory, so the page cost bounds their number |
| Isolation.AllProcessesCost | arch/riscv/kernel/linker.ld:4-32 | a run that creates PROC_MAX processes from fresh memory of 64 MB has a page cost of at most 256 each |
| Isolation.TwoRuns | kernel/proc.c:230-240 | kernel run and image run on an empty root give exactly the address space of a process |
| Isolation.TwoRunsTables | arch/riscv/kernel/MMU.c:34-60 | the tables of both runs number one for each first-level index touched |
| Isolation.KernelView | arch/riscv/kernel/MMU.c:34-43 | on an empty root the kernel's run translates exactly its range, identically, with R, W, X and no U |
| Isolation.SchedulingKeepsIsolation | kernel/proc.c:137-191 | table changes that touch neither pids, page tables, stacks nor use of slots keep isolation |
| Isolation.YieldKeepsSpaces | kernel/proc.c:303-315 | a yield is such a change |
| Isolation.CurrentTranslation | kernel/proc.c:165-185 | the hardware, through satp, translates as the current process's address space says, and sscratch is the top of its stack |
| UserMemory.StoreKeepsSpaces | kernel/proc.c:212-257 | a user-mode store leaves every translation of every process, and isolation, as they were |
| UserMemory.PlacesDistinct | arch/riscv/kernel/MMU.c:45-60 | two user addresses of a process share a byte of memory exactly when they are equal |
| UserMemory.StoreIsLocal | kernel/proc.c:212-257 | a user-mode store changes what one process reads at one address, and nothing else any process can reach |
| KernelRuns.EventKeepsSound | kernel/proc.c:137-315 | creation, start, yield, register change and user store each keep isolation and the scheduling invariant together |
| KernelRuns.EventKeepsRegisters | kernel/proc.c:137-315 | one event of any kind changes the registers of a live process only if it is the current one and changes them itself |
| KernelRuns.Do | kernel/proc.c:194-315 | one routine called in a sound state panics exactly under its stated condition and otherwise is one event of the run |
| KernelRuns.Drive | kernel/proc.c:194-315 | a sequence of calls performs a run whose events are those calls, up to the first that panics, which panics for the stated reason |
| Sched.SatpNamesRoot | kernel/proc.c:165-175 | the satp value built with shift and or selects Sv32 and names the page table it was made from |
| Sched.NextReadyIsNearest | kernel/proc.c:109-135 | the cyclic scan finds the ready slot at least distance, and nothing exactly when none is ready |
| Sched.StartOk | kernel/proc.c:259-301 | the scheduler can be started exactly when a process is ready; the ready one of least index becomes current, the CPU has the registers of its saved context, the boot context those the CPU had, and every process the register file of its saved context |
| Sched.YieldSimulates | kernel/proc.c:303-315 | a yield never panics, leaves every private register file alone and makes the next live process current |
| Sched.SpawnSimulates | kernel/proc.c:212-257 | creation gives the first free slot a register file of its own and disturbs no other |
| Sched.CreateRegisters | kernel/proc.c:355-374 | a creation fills the first unused slot, with the registers asked for, and no other |
| Sched.CreateKeepsOk | kernel/proc.c:212-257 | creation keeps the scheduling invariant before and after the scheduler is started |
| Sched.LoneYieldStaysReady | kernel/proc.c:156-160 | a state with one process, whose yield leaves it current and marked READY |
| Sched.StepSimulates | kernel/proc.c:137-191 | one step of the shared machine is one step of the machine with private register files |
| Sched.NextLiveApproaches | kernel/proc.c:109-135 | each selection brings the current slot nearer to any given live slot |
| Process.Kernel.constructor | kernel/proc.c:194-210 | the table starts empty and the invariants hold |
| KernelRuns.BootKernel | kernel/proc.c:194-210 | a kernel just constructed is in the state from which runs from boot start |
| Process.Kernel.PickupNextProc | kernel/proc.c:92-135 | the two scanning loops compute the selection of the transition system |
| Process.Kernel.ContextSwitch | arch/riscv/kernel/switch.S:8-45 | the old context, if any, receives all fourteen registers, and the registers become those of the new one |
| Process.Kernel.RunSchedule | kernel/proc.c:137-191 | in-place scheduling is the schedule step, panic included |
| Process.Kernel.YieldNow | kernel/proc.c:303-315 | in-place yield is the yield step, and from every valid state it succeeds and keeps isolation and the scheduling invariant |
| Process.Kernel.SchedulerStart | kernel/proc.c:259-301 | in place: the start step, with the registers of the ready process of least index loaded and those of boot saved |
| Process.Kernel.MakeName | kernel/proc.c:248-253 | the stored name is the given one cut to fifteen bytes and terminated |
| Process.Kernel.BuildSpace | kernel/proc.c:223-240 | panics exactly when the exact page cost does not fit; otherwise the new process has its address space and no page in use changed |
| CString.Strncmp | lib/string.c:83-100 | zero exactly when the strings agree up to n bytes or a zero; buffers shorter than n are allowed when terminated |
| CString.Memcpy | lib/string.c:13-22 | the bytes are put in place and the rest of the buffer is unchanged |
| CString.Strncpy | lib/string.c:46-59 | the string cut to n bytes and padded with zeros, the rest of the buffer unchanged |
| CString.NameFieldReads | kernel/fs_test_layout.c:71-89 | a name stored in a fixed field reads back whole, or cut to the field |
| Disk.Extent | kernel/fs_inode.c:191-214 | the readable stretch from an offset is exactly the run of bytes within the size whose blocks are present and on the disk |
| Disk.WholeFileReadable | kernel/fs_inode.c:30-40 | a file whose blocks are all direct, present and on the disk is all content |
| Disk.ChunksAreOneRead | kernel/fs_inode.c:177-217 | what reads of any sizes deliver is what one read of the total size delivers |
| Disk.ChunksUntilEmpty | kernel/fs_inode.c:177-217 | reads of any sizes that ended empty have delivered the whole content |
| Disk.ChunkOfContent | kernel/fs_inode.c:177-217 | a read at an offset is a slice of the content |
| Disk.EmptyReadAtEnd | kernel/fs_inode.c:182-186 | a read of positive size is empty exactly at the end of the readable stretch |
| Disk.SearchFindsFirst | kernel/fs_inode.c:305-328 | directory search returns the first entry in use of that name and nothing when there is none before an unreadable one |
| Disk.ResolveEndsAtLast | kernel/fs_inode.c:348-365 | a resolution succeeds exactly when every component was found, and ends at the last inode met |
| DiskLayout.InodeTableIsFlat | kernel/fs_inode.c:16-25 | inode inum is the 64 bytes at inum * 64 from the start of the table, field by field, and absent exactly when its block is off the disk |
| DiskLayout.ReadIsChunk | kernel/fs_inode.c:177-217 | what a read yields is exactly the bytes there are by the address array, the direct blocks in order, and no more |
| DiskLayout.FileIsContent | kernel/fs_inode.c:177-217 | the content is exactly the file from its first byte to the first that there is not |
| DiskLayout.SearchIff | kernel/fs_inode.c:305-328 | directory search finds exactly the first entry in use whose fourteen name bytes hold the name up to a zero |
| DiskLayout.LookupGives | kernel/fs_inode.c:294-329 | a lookup gives an inode exactly when the inode searched is of type 1 and its first entry of that name is for it |
| DiskLayout.NotThroughFiles | kernel/fs_inode.c:351-355 | a path that has come to an inode that is no directory, or is not on the disk, with components left does not resolve |
| BlockDevice.BdevRead | kernel/fs_block.c:9-21 | fails exactly off the disk, otherwise the buffer is the block |
| BlockDevice.BdevWrite | kernel/fs_block.c:23-35 | fails exactly off the disk without effect, otherwise replaces the block |
| BlockDevice.WithBlockReads | kernel/fs_block.c:9-35 | a block written is read back and no other block changes |
| Paths.Skipelem | kernel/fs_inode.c:54-89 | the pointer loops return the first component, cut to thirteen bytes, and the rest of the path, or nothing when only slashes are left |
| Paths.ComponentsOfJoin | kernel/fs_inode.c:54-89 | parsing a join of slash-free components with any numbers of slashes gives them back, each cut to thirteen bytes |
| Paths.ShortComponentsComeBack | kernel/fs_inode.c:54-89 | components of at most thirteen bytes come back unchanged |
| Paths.ComponentsFit | kernel/fs_inode.c:75-80 | every component of every path is nonempty, slash-free and at most thirteen bytes |
| Names.ComponentsAreNameable | kernel/fs_inode.c:54-89 | a name is a component of some path if and only if it is nonempty, at most thirteen bytes, and has no slash or zero |
| Names.FullNameUnreachable | kernel/fs_inode.c:75-80 | on a disk whose root has one entry with a fourteen-byte name, the lookup finds it under that name and under no component of any path |
| Names.CutAgrees | kernel/fs_inode.c:75-80 | two path elements are the same component if and only if they are equal or agree in their first thirteen bytes |
| Names.CutPathsResolveAlike | kernel/fs_inode.c:54-89 | paths whose elements agree up to the cut have the same components and resolve to the same inode |
| InodeCache.IgetKeepsOk | kernel/fs_inode.c:98-135 | iget keeps the cache invariant: references count the iget calls, no inode number twice, valid slots equal the disk, invalid ones have type 0 |
| InodeCache.IlockKeepsOk | kernel/fs_inode.c:137-170 | ilock keeps the cache invariant |
| InodeCache.IlockAgrees | kernel/fs_inode.c:137-170 | after ilock the slot is the dinode on the disk, or has type 0 when the disk has no such inode |
| InodeCache.IgetRoom | kernel/fs_inode.c:98-135 | iget fails exactly when the inode is not cached and no slot is free, and takes a slot exactly on a miss |
| InodeCache.AdmitsCounts | kernel/fs_inode.c:98-135 | a walk fits the cache exactly when the inodes not yet cached are no more than the free slots |
| InodeCache.TookOneMore | kernel/fs_inode.c:331-366 | one more inode on a walk: the cached inodes grow by exactly the inodes met, and the free slots shrink by the number of those that were new |
| InodeCache.FullStaysFull | kernel/fs_inode.c:98-135 | a cache without a free slot that only grows keeps the same inodes and still has none free |
| Sessions.FullForever | kernel/fs_inode.c:98-135 | so over every run from a state with a full cache |
| FullCache.LastRefused | kernel/fs_inode.c:121-126 | in every run of those calls the last open fails, although its path resolves and both tables have room, since the cache is full |
| Inodes.InodeLayer.constructor | kernel/fs_inode.c:92-96 | the cleared cache satisfies the invariant |
| Inodes.InodeLayer.Iget | kernel/fs_inode.c:98-135 | the one-pass scan returns the live slot, else the first empty one, and keeps the invariant |
| Inodes.InodeLayer.Ilock | kernel/fs_inode.c:137-170 | the slot is filled from inode block and index unless valid or unreadable |
| Inodes.InodeLayer.ReadBlockPart | kernel/fs_inode.c:194-213 | one loop turn copies the wanted part of one block, at least a byte, or nothing when the block is absent or off the disk |
| Inodes.InodeLayer.Dirlookup | kernel/fs_inode.c:294-329 | the inode of the first matching entry through iget, its offset, and nothing otherwise with the cache unchanged |
| FileTables.RefsCountHolders | kernel/fs_file.c:14-55 | conservation: the reference count of a file is the number of descriptors holding it, at most one |
| FileTables.OpenKeepsFds | kernel/syscall_fs.c:88-113 | opening keeps the conservation law |
| FileTables.CloseKeepsFds | kernel/syscall_fs.c:161-180 | closing keeps it, and the file closed was open |
| FileTables.OpenThenClose | kernel/syscall_fs.c:88-180 | closing what was opened gives back the descriptor table, and the file table in effect |
| Files.FileLayer.constructor | kernel/fs_file.c:9-12 | cleared tables satisfy the invariant |
| Files.FileLayer.FileAlloc | kernel/fs_file.c:14-27 | the first file not in use, or nothing |
| Files.FileLayer.FileClose | kernel/fs_file.c:29-55 | the last reference clears the file, others only count down |
| Files.FileLayer.FileOpen | kernel/fs_file.c:87-116 | succeeds exactly when the path is reachable, the mode read-only and a file free |
| Files.ReadOnlyIff | kernel/fs_file.c:96 | the mode test passes exactly when bit 0 and bit 1 are clear |
| Files.KernelPathIs | kernel/syscall_fs.c:88-91 | the path the kernel sees is the string up to its zero, cut to 127 bytes |
| Files.FileLayer.FileRead | kernel/fs_file.c:57-75 | delivers the chunk of the inode on the disk at the file's offset and moves only that offset |
| Files.FileLayer.Copyinstr | kernel/syscall_fs.c:54-70 | the buffer holds the user string cut to max - 1 bytes, terminated |
| Files.FileLayer.Copyout | kernel/syscall_fs.c:73-86 | exactly the first len bytes of the user buffer change |
| Files.FileLayer.Fdalloc | kernel/syscall_fs.c:14-25 | the lowest free descriptor, or -1 without effect |
| Files.FileLayer.SysClose | kernel/syscall_fs.c:161-180 | frees the descriptor and its file, or fails without effect |
| Sessions.ReceivedMore | kernel/fs_file.c:57-75 | what was received through a file and the next chunk are together the content before the new offset |
| Sessions.ReceivedAll | kernel/fs_inode.c:182-186 | a read of positive size comes back empty exactly when everything has been received |
| Sessions.ReadGives | kernel/syscall_fs.c:135-138 | a read answers the next bytes of the file, as many as asked for, at most 512, and there are |
| Sessions.OpenNotThroughFiles | kernel/fs_inode.c:351-355 | an open of a path that goes on through a regular file fails |
| Sessions.CallKeepsState | kernel/syscall_fs.c:88-180 | every open, read and close keeps the conservation law and leaves open files on live inodes |
| Sessions.OthersKept | kernel/syscall_fs.c:88-180 | a descriptor that a call does not name keeps its file, and the file its inode and its offset |
| Sessions.RunConserves | kernel/syscall_fs.c:88-180 | after every run the reference count of a file is the number of descriptors that hold it, at most one |
| Sessions.Do | kernel/syscall_fs.c:88-180 | one system call gives back and does to the tables what the call relation says, success and failure alike |
| TestFs.DecodeEncode | kernel/fs_test_layout.c:111-137 | a dinode encoded into its 64 bytes decodes to itself |
| TestFs.WithDinodeReads | kernel/fs_test_layout.c:101-143 | a dinode written is read back and every other inode stays as it was |
| TestFs.WriteDinode | kernel/fs_test_layout.c:101-121 | read, clear, set fields, write replaces exactly one dinode |
| TestFs.PackedLookup | kernel/fs_inode.c:294-329 | looking up a name in a directory of packed entries gives the first entry in use of that name |
| TestFs.StoreDirent | kernel/fs_test_layout.c:71-89 | one entry stored by memset and strncpy |
| TestFs.TestImageLayout | kernel/fs_test_layout.c:25-148 | on the disk of the builder the readers of the other modules find superblock, root directory and /hello |
| TestFs.BuildTestFs | kernel/fs_test_layout.c:25-148 | every byte of the disk, zeros included, is that of the layout, and g_sb is the superblock |
| TestFs.LoadSuper | kernel/fs_super.c:7-21 | for any disk the superblock loaded is the first seven words of block 1 |
| TestFs.LoadedSuper | kernel/fs_super.c:7-21 | on the disk of the builder it is the superblock that was written |
| Boot.BootAndRead | kernel/fs_block.c:37-54 | builder, superblock load, cache on the loaded inodestart, file layer and a reading program in sequence, without the self tests between them, deliver the message of /hello for reads of any sizes, and /hello/x cannot be opened |
| Trees.StoredReads | kernel/fs_block.c:23-35 | content written block by block into different blocks is all there |
| Trees.StoredIsFile | kernel/fs_inode.c:30-41 | and an inode that lists those blocks in order is the file with that content |
| Trees.TreeResolves | kernel/fs_inode.c:331-366 | a path of two components leads through a directory inside the root to the file |
| Spinlock.AcquireStepOk | lib/spinlock.c:12-32 | the check before the test-and-set never finds the CPU's own name on a lock it does not hold |
| Spinlock.ReleaseStepOk | lib/spinlock.c:34-50 | the check before a release always finds it on a lock it holds |
| Spinlock.AcquirePanicsIff | lib/spinlock.c:14-19 | undisturbed, an acquire panics if and only if the CPU holds the lock |
| Spinlock.ReleasePanicsIff | lib/spinlock.c:36-40 | undisturbed, a release panics if and only if the CPU does not hold the lock |
| Spinlock.PopPanicsIff | lib/spinlock.c:70-80 | undisturbed, a pop panics if and only if nothing is pushed or held |
| Spinlock.AcquireThenRelease | lib/spinlock.c:12-50 | acquire and release, undisturbed, restore CPU and lock, the interrupt bit included |
| Spinlock.SpinLock.constructor | lib/spinlock.c:5-10 | a lock starts free, unowned and with the given name |
| Spinlock.Core.PushOff | lib/spinlock.c:57-68 | the routine ends in the state that its four steps lead to |
| Spinlock.Core.PopOff | lib/spinlock.c:70-86 | the routine ends, or panics, as its four steps do |
| Spinlock.Core.Holding | lib/spinlock.c:52-55 | in every state the protocol reaches, the answer is whether the caller holds the lock |
| Spinlock.Core.Release | lib/spinlock.c:34-50 | the routine ends, or panics, as its eight steps do |
| List.Pointers | lib/list.c:33-56 | all pointers of a list, which the getters return, are determined by the sequence it holds |
| List.HoldsIf | lib/list.c:3-31 | nodes with those pointers are the list |
| List.Init | lib/list.c:3-7 | the empty list |
| List.InsertHead | lib/list.c:9-15 | cons, writing two pointers of the list and the node |
| List.InsertTail | lib/list.c:17-23 | append, writing two pointers of the list and the node |
| List.IsEmpty | lib/list.c:33-36 | true exactly for the empty sequence |
| List.Count | lib/list.c:58-68 | the length, in the 32 bits of size_t |
| List.Clear | lib/list.c:70-79 | the empty list, with every former node unlinked |
| List.InsertThenRemove | lib/list.c:9-31 | removal after insertion restores every pointer of the list |
| List.MoveFirst | lib/list.c:17-31 | moving a node between two lists leaves the rest of both as they were |
| Printk.DecReads | lib/printk.c:15-25 | decimal notation is digits only, has its value, and no leading zero except for 0 |
| Printk.DecFits | lib/printk.c:18 | every value fits ten digits, so the 11- and 21-byte buffers never overflow |
| Printk.U64DecDigits | lib/printk.c:8-13 | the digit count is the number of digits that are printed |
| Printk.FillDigits | lib/printk.c:132-133 | the do-while loop fills the buffer with the digits, least significant first, within bounds |
| Printk.Console.PrintU64Dec | lib/printk.c:15-25 | prints the decimal notation |
| Printk.Console.PrintInt | lib/printk.c:127-140 | prints the padded field of an int |
| Printk.Console.PrintUnsigned | lib/printk.c:159-169 | prints the padded field of an unsigned |
| Printk.Console.PrintLongLong | lib/printk.c:105-126 | prints the padded field of the magnitude modulo 2^32 |
| Printk.Console.PrintUnsignedLongLong | lib/printk.c:145-158 | prints the padded field of the value modulo 2^32 |
| Printk.LongLongWraps | lib/printk.c:105-116 | 2^32 is printed as 0 |
| Printk.ParseWidth | lib/printk.c:50-59 | the width is the value of the run of digits, a leading '0' asks for zero padding, and the pointer stops after the run |

## Left out

- Boot, trap entry and exit, inline assembly, SBI console: satp, sscratch and the interrupt bit are plain fields, and the trap code's own use of sscratch is not modelled.
- A and D bits, TLB and fences: the code never sets the bits and the model's memory is translated afresh at each access.
- `proc_exit`, ZOMBIE processes, `free_pages`, `kfree_page`: exit leaves the table in a state outside the scheduler's invariant (the comment at kernel/proc.c:340-341 calls the slot of an exited process unused, while the code marks it READY), and freeing is a no-op.
- `schedule_tick` and interrupts on a CPU while it is inside a routine of the scheduler or of the spinlock.
- Mmu.Machine.UserMapPage: the image is required to lie below free memory, where the linker puts it.
- Process.Kernel.BuildSpace: the image is required to lie below free memory and below the kernel's first-level entries.
- Process.Kernel.ProcCreate: the user image is required to lie in the kernel's own memory and below the first-level entries of the kernel range, where the linker scripts put it; an image that overlaps the kernel's addresses is not modelled.
- KernelRuns.CreateAll: as Process.Kernel.ProcCreate.
- KernelRuns.Do: creation calls as Process.Kernel.ProcCreate.
- KernelRuns.Drive: creation calls as Process.Kernel.ProcCreate.
- Mmu.Machine.AllocPages: requests whose 32-bit sum wraps below the end of memory are excluded; `Mmu.AllocGuardExact` says which they are.
- Process identifiers are unbounded: wrap-around of the 32-bit pid counter is not modelled.
- User programs as such: `UserMemory` and `KernelRuns` take any store through a U-flagged translation as a step, one byte at a time.
- Inodes.InodeLayer.Readi: the sum of offset and length is required not to wrap; `sys_read` guarantees it, since a read is at most 512 bytes from an offset within the direct blocks.
- Inodes.InodeLayer.Namei: requires that the root is cached or a slot is free, since the code dereferences the result of the first `iget` unchecked; boot leaves the root cached and the file layer keeps it so.
- Files.FileLayer.FileOpen: requires, as `namei` does, that the root is cached or a slot is free.
- Files.FileLayer.FileRead: requires, as `readi` does, that offset and length do not wrap.
- Reference counts of inodes and files are unbounded: overflow of an `int` after 2^31 opens is not modelled.
- Files.FileLayer.SysRead: the user buffer is required to have room for the bytes delivered, and copies between user and kernel memory do not fault.
- `file_write`, `iunlock`, indirect blocks, creation flags: stubs or unimplemented in the source; indirect blocks count as absent, as in `bmap`.
- Spinlock.Core: `spinlock_acquire` has no sequential method, since its loop ends only through other CPUs; it is modelled as steps, and `Spinlock.AcquireThenRelease` runs it on a free lock.
- Memory ordering weaker than sequential consistency: the barriers of the source are taken to give atomic, ordered steps. Test-and-set locks are not fair, so no waiting bound is claimed.
- Spinlock.RunsAreSafe: callers pair their calls, leave the interrupt bit alone while nested, and do not nest 2^32 deep. Of the calls left out, `Spinlock.MisusePanics` covers an acquire of a held lock, a release of one not held and a pop at depth 0, and `Spinlock.UnpairedPop` one pop with nothing pushed; what a caller does after such a pop, or by changing the interrupt bit while nested, is not modelled.
- List.Remove: takes the list and the position as ghost arguments; a node that is in no list has null pointers, and removing it is not modelled. The trivial getters are covered by `List.Pointers`.
- List.ForEach: the callback may remove the node it is called on; a callback that rewires other nodes is not modelled.
- Printk.Console.PrintInt: the most negative int is excluded, since its negation overflows.
- Printk.Console.PrintLongLong: the most negative long long is excluded, since its negation overflows.
- Printk.ParseWidth: a width that does not fit an int is excluded, since its accumulation overflows.
- Hexadecimal and pointer output, echo of unsupported specifiers, `%s` and `%c`, the argument list and the outer loop of `printk`.
- CString.Memcpy: the source is bytes apart from the destination; the overlapping copy is `Mmu.Machine.Memcpy`.
- Boot.BootAndRead: the self tests that `fs_init` runs between its steps are left out; they leave /hello and the root in the cache, which the walk then finds there.
- Shell, `cat` and the user-side system call stubs.
