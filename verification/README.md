# Project Luciano: a verified model of the kernel's core

Project Luciano is a small x86_64 kernel. This project models the parts of it that hold
state other parts depend on, and proves what they promise.

- **Memory.** The bitmap allocator of physical frames, the four-level page tables (4-level
  paging, section 4.5 of the Intel 64 and IA-32 Software Developer's Manual, Volume 3A) and the bump heap.
  Physical memory is an array of entries, 512 to a frame; a well-formed state relates it to
  the free frames and to a level for every frame that serves as a table. Every operation is
  a method that changes memory and bitmap in place, proved against a function on values,
  and that function is proved to refine a flat map from pages to frames.
- **Scheduling.** The round-robin queue with its exits and the cleanup daemon, as a
  transition system over whole runs; the same steps as methods on task objects; the timer
  interrupt as pushes and pops on stacks; and the three put together.
- **Files.** The one-pass path parser, the directory tree with lookup by walking, file
  contents in doubling buffers, and packed directory listings.
- **Volumes.** The partition table check and the clipping of volume requests.

| file | content |
|---|---|
| `Options.dfy`, `Words.dfy`, `Bits.dfy` | optional values; machine words and numbers as bytes; bits of a byte |
| `Pmm.dfy` | the frame allocator, boot regions, runs of allocations |
| `Addresses.dfy`, `PageTables.dfy`, `Mapping.dfy`, `Spaces.dfy`, `Teardown.dfy` | page tables on values: walks, mapping, runs, destroying a space |
| `Demand.dfy`, `Plans.dfy` | the tables a page needs; lists and ranges of pages, and the frames they take |
| `Vmm.dfy`, `Boot.dfy`, `Heap.dfy` | page tables in memory; the kernel's space at boot; the heap |
| `Scheduling.dfy`, `Scheduler.dfy` | the scheduler as a transition system and on objects |
| `Interrupts.dfy`, `Multitasking.dfy`, `Machine.dfy` | the timer stub, runs of tasks, and both on one machine |
| `Paths.dfy`, `Tree.dfy`, `Vfs.dfy` | paths, the tree, the calls on it |
| `Files.dfy`, `RamDisks.dfy`, `Listing.dfy` | byte strings and buffers; tree and contents together; listings |
| `Volumes.dfy` | partition tables, volumes, the disk manager |

## Assumptions

- No boot region reaches the last frame of the address space, every usable one has a frame
  boundary in it, and the first usable one larger than the bitmap has room for it behind its
  first boundary. Page-aligned regions, which the boot loader gives, meet this as soon as one
  of them is larger than the bitmap.
- Free frames hold zeros when the memory manager starts. `vmm_map` relies on it, because it
  does not clear the tables it takes. Mapping, unmapping and creating a space keep it;
  `vmm_destroy` frees dirty frames, so the model does not map after it.
- `k_panic` does not return: "enough free frames" is a precondition of the operations
  that would panic (`CanMap`, `EventOk`, `StepsOk`, or at boot `Needed`, for which
  `Plans.ScheduleExistsIff` shows that it is exact).
  `Pmm.FrameAllocator.Alloc` itself returns None there.
- Pages are mapped with aligned frames below 2^52 and with the present bit among the flags, as
  every caller in the kernel does (0x3 and 0x7).
- A space is named by the frame of its root, and a frame is reached by its number: the
  offset of the direct map is left out of addresses. An entry is a frame number and flags.
  `Addresses.EntryWord` and `Addresses.IndexWords` justify both on 64-bit words.
- Interrupt gates and the system call mask make ticks and system calls atomic. The daemon
  can be preempted between finding a dead task and clearing its slot, so these are two steps.
  An exit is the marking of tasks followed by the tick of the interrupt it yields with.
- The daemon is queued first and never exits (`Scheduling.TickFaultsIff` says what happens
  when nothing is live), added tasks are new and ready, kernel stacks are disjoint, and the
  running task writes no other task's kernel stack.
- Queue, volume table and buffer table are not checked for room by the code: room is a precondition.
- The heap grows in a space whose top-level slot for the new page is that of the space the
  heap is described in. Spaces made after the slot was filled share it.
- Paths hold no NUL character, and allocation failures in buffers come from a parameter.

## Where the code is not what one might expect

The model keeps the code as it is. Each of these is stated, with the exact condition under
which the expected behaviour holds.

- The path parser pops a level at any two adjacent dots, also inside a name:
  `Paths.CanonicalIffLegal`.
- Paths of 256 characters and more can be written outside their row of the caller's table, or
  be refused; up to 255 never: `Paths.ShortPathsFit`, `Paths.ShortIsNeeded`.
- Opening an existing name with the create flag and without the exclusive one unbinds the
  inode and fails, after which walks below it access a null pointer: `Tree.OpenEffect`.
- Creating under a regular file succeeds and attaches a child that no path reaches: `Tree.OpenEffect`.
- A kernel page mapped under a top-level slot that was empty when a space was made does not
  appear in that space: `Spaces.SharedIffPresentThen`, `Spaces.UnsharedDiverge`.
- A heap request within a page of 2^64 bytes gets too few pages: `Heap.PageCountCovers`.
- Partition ends are computed in 32 bits. Tables with a wrapped end can be accepted although
  entries overlap: `Volumes.ProperIffAccepted`, `Volumes.WrapHidesOverlap`.
- Volume requests are computed in 64 bits and can wrap out of the volume:
  `Volumes.StaysInsideIff`, `Volumes.WrapEscapes`.
- A log message calls a partition of size zero or less invalid; the comparison is unsigned, so only zero is.

## Model

| member | source | states |
|---|---|---|
| Pmm.TotalMemorySize | kernel/memory_manager/pmm.c:7-18 | the result is the highest end, in 64 bits, of a usable or kernel region, 0 without one |
| Pmm.Roundings | kernel/memory_manager/pmm.c:56-100 | region bounds are rounded to the next frame boundary inwards, the frames are as many as the top of memory needs, and the bitmap has a bit for each and less than a byte too many |
| Pmm.FrameAllocator.HoldsBitmap | kernel/memory_manager/pmm.c:105-116 | the frames kept for the bitmap are exactly those that a byte of it lies in |
| Pmm.FrameAllocator.Init | kernel/memory_manager/pmm.c:56-116 | a frame is free exactly when it lies in a usable region and holds no part of the bitmap; the bitmap lies in the first usable region larger than it, from its first frame boundary on; padding bits stay set |
| Pmm.FrameAllocator.Alloc | kernel/memory_manager/pmm.c:25-45 | returns the lowest free frame and takes exactly it; None exactly when no frame is free, leaving the bitmap as it is |
| Pmm.FrameAllocator.Release | kernel/memory_manager/pmm.c:47-54 | exactly the addressed frame becomes free |
| Pmm.AllocThenFree | kernel/memory_manager/pmm.c:36-52 | freeing the frame just taken restores the bitmap bit for bit |
| Pmm.FirstClear | kernel/memory_manager/pmm.c:27-37 | the first clear bit of the first byte that is not full is the lowest free frame |
| PmmRuns.RunConserves | kernel/memory_manager/pmm.c:25-54 | over every run of allocations and releases of held frames, held and free frames split the frames free at the start |
| PmmRuns.AllocReturnsLowestUnheld | kernel/memory_manager/pmm.c:25-45 | after any run an allocation returns the lowest frame that was free at the start and is not held: never a reserved, padding or held one |
| Addresses.PathDigits | kernel/arch/x86_64/vmm.c:7-10 | the four indices are the digits of bits 47 to 12 in base 512 |
| Addresses.SamePathSamePage | kernel/arch/x86_64/vmm.c:7-10 | two addresses take one path exactly when bits 47 to 12 agree |
| Addresses.EntryWord | kernel/arch/x86_64/vmm.c:11-12 | masking an entry word gives back the frame address it was made of, bit 0 that of the flags |
| Addresses.IndexWords | kernel/arch/x86_64/vmm.c:7-10 | the four masked shifts of a 64-bit word say exactly what its bits 47 to 12 are |
| PageTables.UniquePath | kernel/arch/x86_64/vmm.c:94-150 | walks that meet in a table took the same indices, from one root or through one shared upper-half slot |
| PageTables.PutWalk | kernel/arch/x86_64/vmm.c:118-149 | one write of a leaf or of a new empty table changes exactly the walks that end in the slot |
| Mapping.MapRefines | kernel/arch/x86_64/vmm.c:110-150 | mapping an unmapped page adds exactly that binding, mapping a mapped one changes nothing, in this space and in those that share the upper-half table |
| Mapping.MapWf | kernel/arch/x86_64/vmm.c:110-150 | mapping keeps the tables well-formed, including that free frames are zero |
| Mapping.UnmapRefines | kernel/arch/x86_64/vmm.c:187-216 | unmapping removes exactly one binding |
| Mapping.UnmapWf | kernel/arch/x86_64/vmm.c:187-216 | unmapping keeps the tables well-formed |
| Mapping.CreatedTranslate | kernel/arch/x86_64/vmm.c:94-103 | a new space maps the upper half as the current one and nothing below; other spaces translate as before |
| Mapping.CreatedWf | kernel/arch/x86_64/vmm.c:94-103 | creating a space keeps the tables well-formed |
| Spaces.RunKeepsOwnership | kernel/arch/x86_64/vmm.c:94-150 | over every run each table frame is allocated, has one level and one parent slot (or the same upper-half slot of several roots), and the next allocation is no table |
| Spaces.RunKeepsTop | kernel/arch/x86_64/vmm.c:110-150 | over every run present slots of roots are never rewritten |
| Spaces.KernelHalfCoherent | kernel/arch/x86_64/vmm.c:94-216 | after any later run, a space and the one it was made from translate alike every page under an upper-half slot present at its creation |
| Spaces.RunKeepsSharing | kernel/arch/x86_64/vmm.c:94-216 | over every run two spaces share a top slot exactly if they did before |
| Spaces.SharedIffPresentThen | kernel/arch/x86_64/vmm.c:94-216 | after any later run, a space shares with the one it was made from exactly the upper-half slots present at its creation |
| Spaces.UnsharedDiverge | kernel/arch/x86_64/vmm.c:94-150 | under any other slot, a page mapped later in one of the two is not mapped in the other |
| Teardown.DestroyFreesMine | kernel/arch/x86_64/vmm.c:218-250 | the frames freed are the root and all that its lower half leads to, each once |
| Teardown.DestroyIsSafe | kernel/arch/x86_64/vmm.c:218-250 | the loops read only frames of memory and free only frames the bitmap has |
| Teardown.MineIsNobodysTable | kernel/arch/x86_64/vmm.c:218-250 | no other space and no upper half walks through a frame that is freed |
| Teardown.RunPrivate | kernel/arch/x86_64/vmm.c:94-150 | over every run a space owns exactly what its lower half was given, whatever other spaces do |
| Teardown.DestroyAfterRun | kernel/arch/x86_64/vmm.c:94-250 | after any such run destroying frees exactly what the space took, each frame once, none of it free before |
| Teardown.CreateBuildDestroy | kernel/arch/x86_64/vmm.c:94-250 | create, build any number of new pages, destroy: the set of free frames is the original one |
| Vmm.MemoryManager.constructor | kernel/arch/x86_64/vmm.c:48-49 | the zeroed root is well-formed and takes exactly one frame |
| Vmm.MemoryManager.EnsureTable | kernel/arch/x86_64/vmm.c:118-140 | the slot leads to a table afterwards, a new one exactly when it was absent |
| Vmm.MemoryManager.VmmMap | kernel/arch/x86_64/vmm.c:110-150 | memory, bitmap and levels end as the specification says, in every space's translation |
| Vmm.MemoryManager.VmmGetPaddr | kernel/arch/x86_64/vmm.c:152-178 | the frame address of the translation, 0 when there is none |
| Vmm.MemoryManager.VmmUnmap | kernel/arch/x86_64/vmm.c:187-216 | as the specification says, in every space's translation |
| Vmm.MemoryManager.VmmCreate | kernel/arch/x86_64/vmm.c:94-103 | the new root is the lowest free frame, with the loaded space's upper half |
| Vmm.MemoryManager.VmmSwitch | kernel/arch/x86_64/vmm.c:180-185 | another root is loaded and nothing else changes |
| Vmm.MemoryManager.VmmDestroy | kernel/arch/x86_64/vmm.c:218-250 | the four nested loops free the frames of the scan in its order, and nothing else changes |
| Vmm.MemoryManager.DestroyPrivate | kernel/arch/x86_64/vmm.c:218-250 | a space with a lower half of its own gives back exactly its frames, each once |
| Heap.PageCountCovers | kernel/memory_manager/kmalloc.c:13-15 | the pages taken cover the request exactly when rounding it up does not wrap, and are never a page too many |
| Heap.HeapPathInjective | kernel/memory_manager/kmalloc.c:6-25 | no two pages of the heap range share a path through the tables |
| Heap.HeapRunSafe | kernel/memory_manager/kmalloc.c:12-29 | over every run, from whatever spaces that share the top slots and with any other activity between, as many pages are handed out as were asked for, each keeps its frame, no two share one, none becomes a table |
| Heap.BlocksApart | kernel/memory_manager/kmalloc.c:12-29 | over every run of requests no address lies in two blocks, and every address of every block is translated to the frame of its page, a frame of its own |
| Heap.HeapSeenFrom | kernel/memory_manager/kmalloc.c:16-26 | a space that shares the top slot of a page translates the page alike |
| Heap.SharedSlotStays | kernel/arch/x86_64/vmm.c:94-150 | a top slot that two spaces share and that is filled stays shared |
| Heap.KernelHeap.Kmalloc | kernel/memory_manager/kmalloc.c:12-29 | the block starts at the old end of the heap and has the pages for its size, each mapped to a frame of its own; blocks handed out before keep theirs; null for size 0, with no effect |
| Heap.InitMemory | kernel/kmain.c:161-162 | with frames for the tables needed and no range in the heap's addresses, boot ends with an empty heap in the space that was set up |
| Demand.MapMakes | kernel/arch/x86_64/vmm.c:118-140 | mapping a page makes exactly the tables missing on its path, from as many free frames |
| Plans.PlanExistsIff | kernel/arch/x86_64/vmm.c:110-150 | a list of pages can be mapped without running out of frames exactly when the tables missing for it, each counted once, are no more than the free frames |
| Plans.ScheduleExistsIff | kernel/arch/x86_64/vmm.c:53-87 | the same of ranges mapped one after the other |
| Plans.RangesNeed | kernel/arch/x86_64/vmm.c:53-87 | whatever tables are there, ranges need no more than, at each of three levels, one for every aligned group of 512, 512^2 and 512^3 pages they lie in |
| Boot.VmmInit | kernel/arch/x86_64/vmm.c:37-92 | when frames are left for the root and the tables needed, every page is mapped as the first range that has it says: memory at the direct map, the kernel image, the devices; nothing else is mapped |
| Boot.DirectMapFirst | kernel/arch/x86_64/vmm.c:53-56 | every frame of memory is mapped at its place in the direct map, whatever is mapped later |
| Boot.KernelMapped | kernel/arch/x86_64/vmm.c:65-68 | every page of the kernel image is mapped to its frame, unless the direct map has the page |
| Boot.DeviceMapped | kernel/arch/x86_64/vmm.c:71-87 | every page of a framebuffer, ACPI or bootloader region, a last partial one included, is mapped to its frame at the direct map's offset, unless something before the region has the page |
| Boot.OnlyThesePages | kernel/arch/x86_64/vmm.c:53-87 | whatever is mapped is a page of memory, of the kernel image or of such a region, to its own frame |
| Plans.RangesTranslate | kernel/arch/x86_64/vmm.c:53-87 | ranges mapped in order: what was mapped stays, the first range with a page decides |
| Boot.MapRange | kernel/arch/x86_64/vmm.c:53-56 | a loop passes through the states of its range and ends in the last |
| Scheduling.NextLiveIsNearest | kernel/process/scheduler.c:83-96 | the scan finds the live slot nearest after the current one, nothing exactly when none is live |
| Scheduling.TickNeverFaults | kernel/process/scheduler.c:117-134 | under the invariant a tick dereferences no null pointer |
| Scheduling.TickFaultsIff | kernel/process/scheduler.c:83-134 | with a queued task current, a tick dereferences null exactly when no task is live |
| Scheduling.TickKeepsInv | kernel/process/scheduler.c:109-134 | after an enabled tick the current slot holds the nearest live task, running |
| Scheduling.TickEffect | kernel/process/scheduler.c:109-134 | slot by slot: the chosen task runs, the task that ran is ready unless it has died, every other slot is as before |
| Scheduling.StepEffect | kernel/process/scheduler.c:58-191 | slot by slot for every other step: a task added is ready at the end, an exit marks exactly the tasks it ends, a clearing empties exactly the slot found dead |
| Scheduling.SweepEmpties | kernel/process/scheduler.c:170-195 | the daemon's test and clearing of a slot empties exactly that slot, and comes to the clearing exactly when the task in it is dead |
| Scheduling.ApplyKeepsInv | kernel/process/scheduler.c:58-195 | every step keeps the invariant: the current slot is held and running or dead, no other is running, the daemon lives |
| Scheduling.RunIsSafe | kernel/process/scheduler.c:58-195 | the invariant holds and the next tick never faults after every run |
| Scheduling.DeadIsFinal | kernel/process/scheduler.c:147-195 | a slot without a live task never holds another and is never picked again |
| Scheduling.GroupNeverPicked | kernel/arch/x86_64/syscalls/syscall_proc.c:31-40 | after a group exit no queued task of the process is ever picked |
| Scheduling.ExitedNeverPicked | kernel/arch/x86_64/syscalls/syscall_proc.c:14-29 | after an exit the task is dead and never picked again |
| Scheduling.LiveUntilExit | kernel/process/scheduler.c:83-195 | over every run a live task stays live, and the same task, exactly as long as neither it nor its process exits |
| Scheduling.BoundedWaiting | kernel/process/scheduler.c:83-134 | a task that stays live is picked within its cyclic distance plus the number of additions in ticks, whatever else happens |
| Scheduling.WithinQueueLength | kernel/process/scheduler.c:83-134 | a live task is picked within as many ticks as the queue is long, and one more for every task added, unless it or its process exits |
| Scheduler.TaskScheduler.constructor | kernel/process/scheduler.c:22-56 | boot leaves the daemon alone in the queue and nothing started |
| Scheduler.TaskScheduler.GetNext | kernel/process/scheduler.c:83-96 | the loop's result and index are those of the specified scan |
| Scheduler.TaskScheduler.Choose | kernel/process/scheduler.c:117-124 | the task that runs now, or the sentinel, and the one to run next |
| Scheduler.TaskScheduler.UpdateState | kernel/process/scheduler.c:109-115 | the new task runs, the old one is ready if it was running and keeps its state otherwise, no other changes |
| Scheduler.TaskScheduler.Tick | kernel/process/scheduler.c:117-134 | the new state is the specified one; a switch is reported exactly when another task is chosen, with the two tasks, of which the one left is ready if it was running; no other task changes |
| Scheduler.TaskScheduler.Add | kernel/process/scheduler.c:58-63 | the task enters at the end, the rest is unchanged |
| Scheduler.TaskScheduler.Enable | kernel/process/scheduler.c:164-168 | only the enabled flag changes |
| Scheduler.TaskScheduler.Remove | kernel/process/scheduler.c:147-162 | exactly the slot that holds the task becomes dead |
| Scheduler.TaskScheduler.SysExitGroup | kernel/arch/x86_64/syscalls/syscall_proc.c:31-40 | all queued tasks of the process, and no others, die before the tick |
| Scheduler.TaskScheduler.SysExit | kernel/arch/x86_64/syscalls/syscall_proc.c:14-29 | a main task exits its group, any other only itself, before the tick |
| Scheduler.TaskScheduler.CheckSlot | kernel/process/scheduler.c:175-177 | the daemon's test of one slot |
| Scheduler.TaskScheduler.ClearSlot | kernel/process/scheduler.c:191-191 | exactly the slot found dead is cleared |
| Interrupts.ImageInjective | kernel/arch/x86_64/isr_timer.asm:16-48 | the saved words determine registers and interrupt frame |
| Interrupts.StartContextStarts | kernel/arch/x86_64/task.c:48-63 | a new task starts at its entry point, with interrupts on, the segments and the stack pointer of its privilege and zeros in all general registers |
| Interrupts.Cpu.TimerInterrupt | kernel/arch/x86_64/isr_timer.asm:15-85 | without a switch the context is unchanged; with one the old context lies at the saved pointer and the new one is what lay at the next task's; nothing changes but the active stack below the entry point and, after a switch, the next task's stack below its saved pointer |
| Interrupts.BuildStack | kernel/arch/x86_64/task.c:48-63 | the fabricated words are fifteen zeros and a frame with entry point, flags, segments and stack pointer of the privilege, which is the image of the start context; nothing else changes |
| Multitasking.NextKeepsInv | kernel/arch/x86_64/isr_timer.asm:15-85 | interrupts, with the calls they make on either stack, computation and new tasks keep stacks apart and saved contexts inside them |
| Multitasking.WaitsOrResumes | kernel/arch/x86_64/isr_timer.asm:43-85 | a waiting task goes on waiting in its saved context or runs in it |
| Multitasking.RoundTrip | kernel/arch/x86_64/isr_timer.asm:15-85 | over every run a resumed task has the registers and frame it was switched out with |
| Multitasking.RoundTripStack | kernel/arch/x86_64/isr_timer.asm:15-85 | over every run the stack of a resumed task is word for word what it was, from the point up at which the interrupt entered: the stack pointer aligned down to 16 bytes in the kernel, the stack's end from user code |
| Multitasking.FirstDispatch | kernel/arch/x86_64/task.c:48-63 | over every run a new task first runs at its entry point, with interrupts on, the segments and stack pointer of its privilege and zeroed registers |
| Machine.TimerTick | kernel/arch/x86_64/isr_timer.asm:15-85 | stub and scheduler objects together make exactly one interrupt step of the multitasking model |
| Machine.SpawnTask | kernel/arch/x86_64/task.c:48-64 | building the stack and queueing the task make exactly one spawn step |
| Paths.ParsePath | kernel/vfs/vfs_dentry.c:5-71 | every write lies in its row or is reported; on success each row is a component with its terminator and the depth is their number |
| Paths.ParseNames | kernel/vfs/vfs.c:47-50 | reading the rows back as C strings gives the components |
| Paths.LegalIsCanonical | kernel/vfs/vfs_dentry.c:10-70 | when adjacent dots occur only as a whole "..", the one pass gives the canonical form: split, drop "" and ".", ".." pops and stops at the root |
| Paths.CanonicalIffLegal | kernel/vfs/vfs_dentry.c:29-53 | exactly those paths are parsed canonically at every directory on their way |
| Paths.ComponentsAreNames | kernel/vfs/vfs_dentry.c:18-59 | of any path, each component is nonempty, has no separator and no adjacent dots and is not "." |
| Paths.ComponentsAreShort | kernel/vfs/vfs_dentry.c:18-67 | an accepted path has components of at most 255 characters |
| Paths.AcceptedIff | kernel/vfs/vfs_dentry.c:12-67 | exactly the paths of at most 257 characters are accepted whose components are at most 128, of at most 255 characters each |
| Paths.NamesRoundTrip | kernel/vfs/vfs_dentry.c:5-71 | any list of such names survives joining and parsing |
| Paths.UpTakesBack | kernel/vfs/vfs_dentry.c:29-40 | in a legal path a name followed by ".." can be left out: exactly one level is taken back |
| Paths.UpOne | kernel/vfs/vfs_dentry.c:29-53 | ".." behind a list of names gives the list without its last, "." the list, with any names behind either |
| Paths.UpStopsAtRoot | kernel/vfs/vfs_dentry.c:29-40 | at the root ".." changes nothing |
| Paths.DotStays | kernel/vfs/vfs_dentry.c:18-53 | a ".", a doubled separator and one at the end change nothing in a legal path |
| Paths.PrintParse | kernel/vfs/vfs_dentry.c:5-71 | joining the components of any path gives one no longer with the same components |
| Paths.ShortPathsFit | kernel/vfs/vfs_dentry.c:12-57 | paths of up to 255 characters are accepted with every write in its row |
| Paths.ShortIsNeeded | kernel/vfs/vfs_dentry.c:12-66 | all paths of a length are accepted in bounds exactly up to 255 |
| Tree.OnePath | kernel/vfs/vfs.c:21-42 | in a tree no inode is reached by two paths |
| Tree.MkdirEffect | kernel/vfs/vfs.c:44-98 | succeeds exactly for a free name in an existing directory with room; then exactly that path resolves anew, to a new inode; on failure no resolution changes |
| Tree.OpenEffect | kernel/vfs/vfs.c:100-191 | creating resolves exactly that path anew, under a regular file none; an unbinding open cuts off exactly the paths below; otherwise all resolutions stay |
| Tree.OpenOfExisting | kernel/vfs/vfs.c:170-191 | an open of a path that resolves: the code, the inode handed out (the one the path leads to), and what becomes of it: cut to size 0, unbound or nothing; every other inode stays |
| Tree.HandleIsFound | kernel/vfs/vfs.c:100-191 | an open that succeeds hands out the inode that the path led to or, where it led nowhere, the new one, to which it leads afterwards in a directory |
| Tree.MkdirMakes | kernel/vfs/vfs.c:72-97 | what is made is an empty bound directory with the next number, behind the other children of the directory above, which is all that changes |
| Tree.OpenMakes | kernel/vfs/vfs.c:137-168 | what is made is an empty bound file with the next number and the next buffer, likewise |
| Tree.RefusedPath | kernel/vfs/vfs.c:44-52 | a path that the parser refuses changes nothing, and the parser's code is returned |
| Tree.MkdirCode | kernel/vfs/vfs.c:44-98 | the code for every accepted path |
| Tree.OpenCode | kernel/vfs/vfs.c:100-168 | the code for every accepted path that does not resolve; no inode changes unless it is success |
| Tree.AttachFrame | kernel/drivers/ramfs/ramfs.c:322-340 | a new child changes the resolution of exactly one path |
| Tree.UnbindFrame | kernel/drivers/ramfs/ramfs.c:106-125 | unbinding an inode makes walks below it fault and no others |
| Tree.RunKeepsTree | kernel/vfs/vfs.c:44-191 | every run keeps sibling names distinct and every inode entered at most once |
| Tree.ResolutionPersists | kernel/vfs/vfs.c:44-191 | what resolves goes on resolving to the same inode over every run without an unbinding open |
| Tree.RunKeepsNumbers | kernel/vfs/vfs.c:75-140 | over every run no two inodes have one number |
| Vfs.FileSystem.LookupChild | kernel/drivers/ramfs/ramfs.c:297-320 | the scan finds the child of that name, nothing in a regular file |
| Vfs.FileSystem.WalkParent | kernel/vfs/vfs.c:21-42 | the walk ends where all names but the last resolve, or in the way it is lost |
| Vfs.FileSystem.PutUnder | kernel/drivers/ramfs/ramfs.c:322-340 | a child is appended, unless there is no room or its name is taken |
| Vfs.FileSystem.VfsMkdir | kernel/vfs/vfs.c:44-98 | code and new tree are the specified ones, and the tree invariant is kept |
| Vfs.FileSystem.VfsOpen | kernel/vfs/vfs.c:100-191 | code, opened inode and new tree are the specified ones, and the tree invariant is kept |
| Files.KBuf.Init | kernel/lib/kbuf.c:31-46 | the new size, or the status and the old buffer |
| Files.KBuf.Grow | kernel/lib/kbuf.c:4-29 | the buffer of twice the size, or of one byte, holds the old bytes; when doubling passes 64 bits or without memory the old buffer stays |
| Files.KBuf.Reserve | kernel/drivers/ramfs/ramfs.c:191-198 | the doubling loop ends, with room exactly when growth reaches the target; old bytes survive any number of growths |
| Files.GrowsToHalfTheRange | kernel/lib/kbuf.c:6-10 | with memory to spare a buffer grows to 2^63 bytes and no further |
| Files.GrowsFromNothing | kernel/lib/kbuf.c:6-10 | a buffer that is still empty grows as far |
| Files.MakeBuffers | kernel/drivers/ramfs/ramfs.c:47-53 | buffers of 16 bytes, pairwise apart |
| Files.ReadBack | kernel/drivers/ramfs/ramfs.c:137-209 | a read over a write returns what was written there and what was there before around it, and the file ends at the later of its old end and that of the write |
| Files.ReadLengths | kernel/drivers/ramfs/ramfs.c:153-167 | a read is empty exactly when nothing is asked for or left, gives what is asked for when that much is left, and otherwise ends at the end of the file |
| Files.ReadsJoin | kernel/drivers/ramfs/ramfs.c:137-168 | two reads, the second from where the first stopped, make one with the summed limit |
| Files.ReadToTheEnd | kernel/drivers/ramfs/ramfs.c:137-168 | reads in turn until nothing comes give all the bytes of the file, in order |
| RamDisks.RamDisk.constructor | kernel/drivers/ramfs/ramfs.c:35-67 | a mounted root, all buffers apart and unused |
| RamDisks.RamDisk.MakeDir | kernel/vfs/vfs.c:44-98 | code and tree are the specified ones, every file keeps its contents and its buffer |
| RamDisks.RamDisk.OpenFile | kernel/vfs/vfs.c:100-191 | code, opened inode and tree are the specified ones; a new file is empty with a buffer of its own, a truncated one empty, all others keep their contents |
| RamDisks.RamDisk.Write | kernel/drivers/ramfs/ramfs.c:170-209 | accepted exactly for a bound regular file, without wrap and with room; then this file is the byte string written to, otherwise it is unchanged; other files and the tree are untouched |
| RamDisks.RamDisk.Read | kernel/drivers/ramfs/ramfs.c:137-168 | the bytes of the byte string, cut at its end; the rest of the caller's buffer is untouched |
| RamDisks.ReadWhole | kernel/drivers/ramfs/ramfs.c:137-168 | a caller that reads on until nothing comes ends, and has every byte of the file in order |
| RamDisks.BytePersists | kernel/vfs/vfs.c:44-215 | over every run of mkdir, open and write that does not unbind an inode along the path, truncate the file or overwrite the byte, the path leads to the same file and the byte is in it |
| RamDisks.ReadAfterRun | kernel/vfs/vfs.c:44-215 | a read through a path after such a run returns the byte that was written through it before |
| RamDisks.RunIsPerFile | kernel/vfs/vfs.c:44-215 | over every run of mkdir, open and write that neither truncates nor unbinds a file, the file ends as its own accepted writes alone leave it, whatever is done to other inodes and to the tree |
| RamDisks.OpenKeepsContents | kernel/vfs/vfs.c:100-191 | an open keeps the contents of every inode that it neither cuts nor unbinds |
| RamDisks.OpenMakesEmpty | kernel/vfs/vfs.c:137-168 | a new file is empty |
| RamDisks.OpenCuts | kernel/vfs/vfs.c:178-191 | an open that succeeds with the truncating flag on a path that resolves leaves the file there empty, and hands it out |
| RamDisks.RunOwnBuffers | kernel/drivers/ramfs/ramfs.c:106-127 | over every run no two bound files share a buffer |
| Listing.SizeBounds | kernel/drivers/ramfs/ramfs.c:213-217 | a record length is the least multiple of eight with room for header, name and terminator |
| Listing.RecordFields | kernel/include/vfs.h:100-108 | where number, type, name length, record length and name lie in a record, least significant byte first |
| Listing.EmitEntry | kernel/drivers/ramfs/ramfs.c:211-230 | the record appended is one of the entry, or nothing is written when it does not fit |
| Listing.ReadDir | kernel/drivers/ramfs/ramfs.c:232-289 | the bytes are the records of the longest run of entries that fits from the index on; error and empty cases |
| Listing.DecodeRecords | kernel/drivers/ramfs/ramfs.c:222-229 | stepping by record length over records gives back the entries |
| Listing.ReadDirDecodes | kernel/drivers/ramfs/ramfs.c:232-289 | what the caller decodes is the longest run of the entries left that fits, and its records are all that is written |
| Listing.FittingIsLongest | kernel/drivers/ramfs/ramfs.c:253-286 | the run at which the loop stops is the longest that fits |
| Listing.PagingIsComplete | kernel/drivers/ramfs/ramfs.c:253-286 | pages of entries that fit, one behind the other, are the whole listing exactly when each record alone fits |
| Listing.ListAll | kernel/drivers/ramfs/ramfs.c:232-289 | reading, decoding and going on by the decoded count until nothing comes ends with every entry once, in order, exactly when the buffer has room for each record |
| Listing.DotDotIsParent | kernel/drivers/ramfs/ramfs.c:254-267 | the first two entries carry number, mode and name of the directory itself, ".", and of the one that the path without its last name resolves to, "..", at the root the root |
| Listing.ListedIffResolves | kernel/drivers/ramfs/ramfs.c:268-271 | the children listed are exactly the names that resolve below the directory, each with number and mode of the inode it resolves to and the characters of its name |
| Listing.RunKeepsParents | kernel/drivers/ramfs/ramfs.c:69-135 | over every run each bound child knows the directory it is in, and every bound directory can be listed: its inodes are there, its names fit in records |
| Volumes.MbrCheck | kernel/diskmanager/mbr.c:21-119 | the volumes of the used entries and their number, or -1 exactly when the table is not accepted |
| Volumes.PartitionFields | kernel/include/diskmanager.h:25-32 | an entry's type, start and count are the bytes at 4, 8 and 12 of its 16 bytes from 446 on, least significant first |
| Volumes.TableRoundTrip | kernel/include/diskmanager.h:25-32 | a table written entry by entry is read back |
| Volumes.UsedConcat | kernel/diskmanager/mbr.c:33-76 | entries are kept or dropped one by one, in order |
| Volumes.UsedOne | kernel/diskmanager/mbr.c:40-76 | an entry is dropped exactly when its type is 0 |
| Volumes.VolumeCovers | kernel/diskmanager/mbr.c:53-74 | an entry whose end does not wrap becomes the volume of its sectors, FAT32 exactly for its two types |
| Volumes.ProperIffAccepted | kernel/diskmanager/mbr.c:78-118 | a table is proper (used, nothing empty, no overlap) exactly when it is accepted and at most the entry that starts last wraps; without wrap exactly when accepted |
| Volumes.AcceptedIsSoundIffNoWrap | kernel/diskmanager/mbr.c:53-60 | accepted volumes are nonempty disjoint intervals exactly when no end wraps |
| Volumes.WrapHidesOverlap | kernel/diskmanager/mbr.c:94-114 | a table of two overlapping entries that is accepted |
| Volumes.StaysInsideIff | kernel/diskmanager/diskmanager.c:135-147 | a request that is not turned away stays in the volume exactly when it is empty or does not run past 2^64 |
| Volumes.WrapEscapes | kernel/diskmanager/diskmanager.c:158-166 | a wrapping request changes a sector outside its volume |
| Volumes.WriteIsolation | kernel/diskmanager/diskmanager.c:108-167 | a write to one volume changes no read of a disjoint one |
| Volumes.ReadAfterWrite | kernel/diskmanager/diskmanager.c:108-167 | a read of what was written returns the sectors that were moved |
| Volumes.ReadFinds | kernel/diskmanager/diskmanager.c:108-148 | a request below 2^64 gets the sectors it asks for, counted from the start of the volume, and as many as asked for unless the volume, the disk or one transfer ends before |
| Volumes.WriteFinds | kernel/diskmanager/diskmanager.c:150-167 | it changes exactly those sectors |
| Volumes.ReadOverWrite | kernel/diskmanager/diskmanager.c:108-167 | after a write any such read, of this volume or another, gives the new sectors where it meets them and the old ones elsewhere |
| Volumes.RunIsolation | kernel/diskmanager/diskmanager.c:108-167 | on a proper table no run of writes to other volumes changes what a volume reads |
| Volumes.DiscoverAllOk | kernel/diskmanager/diskmanager.c:30-94 | after all disks are set up no two volumes of one disk share a sector, and numbers are indices |
| Volumes.DiscoveredCover | kernel/diskmanager/diskmanager.c:50-94 | a signed disk has a volume with the sectors of each used entry of an accepted table, in order, or one with all of the disk's |
| Volumes.DiskManager.SetupDrive | kernel/diskmanager/diskmanager.c:50-94 | the volumes of an accepted table, the disk as a whole when it is not, nothing without a signature |
| Volumes.DiskManager.Init | kernel/diskmanager/diskmanager.c:30-41 | all disks' volumes in order, pairwise disjoint when no table wraps |
| Volumes.DiskManager.ReadVolume | kernel/diskmanager/diskmanager.c:108-148 | what the caller gets are the sectors of the clipped request; below 2^64 those from the volume's start plus the address on, as many as are there |
| Volumes.DiskManager.WriteVolume | kernel/diskmanager/diskmanager.c:150-167 | the disk after is the one with the clipped request written; below 2^64 exactly the sectors asked for have changed |

## Left out

- Pmm.FrameAllocator.Init: a memory map without a usable region larger than the bitmap, where the kernel writes through a null bitmap, and one whose region has no room behind its first boundary, where the bitmap runs out of it, are excluded.
- Boot.VmmInit: addresses of the kernel image come from the linker and are arguments; device regions are page aligned.
- Heap.KernelHeap.Kmalloc: a page whose top slot the loaded space does not share with the space the heap is described in is excluded; it would be mapped in the loaded space alone (`Spaces.UnsharedDiverge`).
- Vmm.MemoryManager.VmmMap: the four levels are one method called three times and a leaf write; effective permissions are not modelled; flags without the present bit and unaligned frames, which no caller passes, are excluded.
- Vmm.MemoryManager.EnsureTable: flags without the present bit are excluded as for `VmmMap`.
- Vmm.MemoryManager.VmmDestroy: each of the four nested loops is a method; the scan of a bitmap byte in `pmm_alloc` is one as well.
- Vmm.MemoryManager.VmmGetPaddr: 0 stands both for "not mapped" and for a page mapped to frame 0, as in the code.
- RamDisks.RamDisk.Write: null pointer arguments, here and in the other calls of the file system, are not modelled; the order of size update and copy is not observable.
- Listing.ReadDir: names longer than 65511 characters, whose record lengths wrap in 16 bits so that the record overruns the buffer, are excluded; no run creates one (`Listing.RunKeepsParents`).
- Listing.EmitEntry: the same names are excluded.
- Listing.RunKeepsParents: inode numbers are counted without bound, up to 2^64; the kernel's counter has 32 bits.
- Scheduler.TaskScheduler.Add: tasks that are queued already or not ready are excluded; nothing in the kernel adds one.
- Scheduler.TaskScheduler.SysExitGroup: calls by the daemon's process are excluded, as are those of `Scheduler.TaskScheduler.SysExit`; the daemon makes none.
- Tree.OpenEffect: inodes are indices into a list, so sharing of one inode by two dentries is not captured; descriptors are reduced to the inode opened, and running out of memory for a dentry is not modelled.
- Paths.ParsePath: a write outside its row ends the model's parser with a flag of its own; the code goes on, and a terminator at the start of the next row of the table, or a write behind the table, is not modelled.
- Interrupts.Cpu.TimerInterrupt: the calls into C code clobber what the calling convention allows; the scheduler's part runs before the stub instead of inside it, and that the calls find room for themselves on either stack is taken for granted.
- Volumes.Drive.Read: the drive is an array of sectors that clips to its size and to 255 sectors; the 28-bit sector numbers of the IDE driver are not modelled, and its write, which is missing, is taken to clip alike.
- Volumes.MbrCheck: the null check of the sector; type and magic number of a volume are one value, unset for a whole disk.
- The pages behind task stacks: stacks are word ranges, not pages mapped by the memory manager.
- Address translation caches, the effect of loading a root, and interrupt controllers.
- The user stack pointer across a system call that yields, which is one global in the kernel.
- `process_destroy`: several kernel processes share one space, and the process table is a static of a header, one for each file.
- The blocked state, which nothing sets; mounting elsewhere than at the root; reference counts of descriptors; `sys_vfs_open`, a stub.
- Port I/O, timer and interrupt controller setup, serial log, IDE polling, framebuffer and fonts; encodings of GDT, IDT and TSS; the boot protocol's structures.
