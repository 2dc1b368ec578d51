# A verified model of the FerriOS kernel

This project models the parts of the FerriOS kernel where correctness is hardest to see, and proves what they keep.

* **Paging.** Four-level page tables live in physical frames. `PageTree` gives the separation invariant (every
  table and every data page below a PML4 has exactly one parent slot) and the one structural update, the splice.
  `FrameAlloc`, `Walker`, `UserMemory`, `HeapGrowth`, `Mapper` and `TreeCopy` run the kernel's own operations on it:
  frame allocation, the walk, heap growth with rollback, shrinking, mapping, fork's deep copy, the recursive free.
  `TreeNodes` counts what a set of pages needs, so that each operation's success has an exact condition,
  `TableEntries`, `TableRights` and `ProgramRights` say which entries lie above a page and what they let a program do,
  and `KernelHalves` is the kernel half as a system call's walk meets it.
* **Programs.** `AddressSpace` reads a tree as a flat map from pages to frame, flags and bytes. `UserBytes`,
  `Syscalls`, `Elf`, `Argv` and `Exec` move bytes through it in page-sized chunks: loading ELF segments, the initial
  stack, the checked copies of the system calls. `LittleEndian` and `ElfFormat` are the file format itself, with a
  linker whose output the loader reads back.
* **Processes.** `Processes`, `Tables`, `Scheduler`, `Runs`, `Histories` and `Records` are the process and thread tables
  as a state machine: fork, exit, wait, kill, exec, the timer, the round-robin scheduler, and what holds over all runs.
  `FrameLedger` says who owns every frame in use; `Kernel` puts tables, page tables and frames together and runs the
  system calls as the kernel does, loop by loop, against the state machine and the ledger.
* **Input.** `AsyncInput` is the interrupt, waker and executor protocol of the keyboard and serial streams.
* **Heaps.** `Layouts`, `LinkedListHeap` and `FixedSizeBlocks` are the two kernel heaps.

The main results:

* A forked child has the same pages, flags and bytes as its parent, over fresh frames; fork's copy succeeds exactly
  if there are at least as many free frames as the parent's tree has; freeing the copy makes the same frames
  available again.
* In every state that the kernel reaches, each frame in use belongs to the kernel, to exactly one process, or is
  lost; frames are lost only when exec replaces an image and when a fork or an exec fails halfway.
* A heap growth succeeds exactly if it stays in the user half, none of its pages is mapped yet, and there are frames
  for these pages and the tables they lack; one that fails leaves the program's view exactly as it was.
* exec builds its image exactly if the headers are accepted, no segment reaches into guard page or stack, and there are
  frames for the PML4, all pages, and the tables above them (for argument lists within the readers' limits).
* The loader reads headers exactly as the ELF format lays them out: of a linked file it loads exactly the segments that
  were linked. A loaded image is the one the program headers describe, whatever the order and page sharing of disjoint segments.
* What the kernel writes on a new stack, its own readers read back exactly if there are at most 15 arguments, none
  longer than 255 bytes and none with a zero byte.
* While thread code runs, the current thread is Running and no other is; the scheduler never halts and never picks
  the thread it just left; a runnable thread, and one that a tick or a wait took the CPU from, waits for fewer than 64
  picks.
* A process is marked exactly if it was killed while it was there; its recorded heap size is that of its last exec, or
  of its parent's when it was forked; its parent is the process that forked it, and its status the one it gave to exit.
* Each process is forked once, exits once and is reaped once, by its own parent and with its own status; reaping
  never takes one of its error exits.
* A copy for a system call stores and returns only bytes of pages whose own entry lets the program write or use them; a
  pointer into the kernel half, which an address from 2^47 up to 2^48 is too, is walked like any other, and refused unless
  that walk meets a page of more than 4096 bytes (not covered).
* In every process the program may use exactly the pages whose own entry says so. It may write to a page exactly if that
  entry has the write bit and so have the tables above it: those the image came with have it exactly where a writable
  segment was the first to need one of their pages, or the stack; all later ones have it. Fork copies these rights.
* The mark of kill never ends a wait: it lasts exactly as long as there is a living child and no dead one.
* No interleaving of interrupts loses a wakeup. Every byte that comes once its task was polled, and finds fewer than 100
  waiting, is delivered once and in order; from every state of every run, without further interrupts all of them are
  delivered within a bound and the executor halts.
* The executor's ready queue can overflow after k inputs that came while a waker was registered exactly if k >= 99.
* Heap blocks never overlap, and the bytes of the linked-list heap add up.

Several plausible claims are false of the code, and the model keeps the code and says exactly when they hold.

* A second `sbrk` need not succeed, because the size it records never changes. After one that needed a page, another
  growth succeeds exactly if it stays in the user half and needs no page, in every state of the kernel
  (`Kernel.SbrkTwice`); `HeapGrowth.GrowTwice` is a concrete pair of requests of which the second fails.
* `wait` has a branch for a process that was killed meanwhile, which is never taken (`Histories.KilledWaiterWaits`).
* A heap page that `copy_to_user` stores in need not be writable for the program: exactly when one of its tables is older
  than the growth and has no write bit (`ProgramRights.HeapRights`, with `ProgramRights.ReadOnlyNeighbour` as a run).
* Shrinking keeps the program's pages exactly if the new size stays at or above the break (`HeapGrowth.ShrinkKeepsProgram`).
* A reaped slot is never used again, so no run holds more than 14 successful forks (`Histories.ForksBounded`).
* The memory map offers each frame once exactly if no two usable regions reach into one frame
  (`FrameAlloc.UsableFramesDistinct`).
* The executor's ready queue can overflow: exactly after 99 or more inputs that came while the waker of the polled task
  was registered (`AsyncInput.OverflowThreshold`).
* A free region that has room for a block is refused exactly if the alignment is the least and the lowest aligned block
  would leave eight bytes (`LinkedListHeap.RefusedWithRoom`).

## Model

| member | source | states |
|---|---|---|
| FrameAlloc.UsableFramesDistinct | kernel/src/memory/mod.rs:103-114 | the frames offered by the memory map are pairwise distinct exactly if no two usable regions reach into one frame |
| FrameAlloc.UsableFramesHave | kernel/src/memory/mod.rs:103-114 | a frame is offered exactly if some usable region reaches into it |
| FrameAlloc.AlignedMapIsWellFormed | kernel/src/memory/mod.rs:103-114 | page-aligned, non-overlapping usable regions never share a frame |
| FrameAlloc.UnalignedMapRepeatsAFrame | kernel/src/memory/mod.rs:103-114 | two regions inside one frame offer it twice |
| FrameAlloc.FrameAllocator.constructor | kernel/src/memory/mod.rs:94-100 | a new allocator has handed out nothing and offers the map's frames; only the kernel's own reserved frames are in use |
| FrameAlloc.FrameAllocator.AllocateFrame | kernel/src/memory/mod.rs:69-77 | never hands out an outstanding frame, prefers the last one freed, returns None exactly if every usable frame is out; free and outstanding frames stay the reserved and the first min(next, total) usable ones |
| FrameAlloc.FrameAllocator.DeallocateFrame | kernel/src/memory/mod.rs:81-83 | an outstanding frame becomes the next one to hand out |
| PageTree.TreeFrame | kernel/src/memory/va.rs:93-152 | shape and translations depend on a tree's own tables only |
| PageTree.Splice | kernel/src/memory/va.rs:93-152 | changing one slot of one table, and what hangs in it, keeps the separation invariant and every translation that does not go through the slot |
| PageTree.LeafInjective | kernel/src/memory/umem.rs:123-148 | two index paths never lead to the same data frame |
| AddressSpace.PathInjective | kernel/src/memory/va.rs:8-11 | different user pages have different index paths |
| AddressSpace.PageIndices | kernel/src/memory/va.rs:8-11 | the four 9-bit indices of a user page are the digits of its number in base 512, and stay in the user half |
| AddressSpace.ViewFrames | kernel/src/memory/va.rs:93-152 | every mapped page is backed by a data frame of the tree, and no two pages by the same one |
| Walker.NextTable | kernel/src/memory/va.rs:97-149 | one level of the walk: follows a used entry, and with alloc fills an unused one with a new empty table that user code may use and write through, which is then the only new table; no table's flags and no translation change; fails only when frames run out |
| Walker.WalkPagetable | kernel/src/memory/va.rs:93-152 | reaches the entry of the page, in the user half or the kernel half; alloc=false changes nothing and fails exactly where no table is; alloc=true makes exactly the missing tables on the path, or, when frames run out, some of them, and keeps every translation, the flags of the tables that were there, the invariant, the kernel half and all other frames |
| Walker.MapView | kernel/src/memory/umem.rs:195-207 | writing an unused entry maps this page and changes no other |
| Walker.RewriteView | kernel/src/memory/umem.rs:226-232 | clearing or re-flagging a used entry changes this page and no other |
| TreeNodes.FramesAreNodes | kernel/src/memory/va.rs:93-152 | a tree has exactly one frame for each of its tables and pages |
| TreeNodes.NodesTaken | kernel/src/memory/va.rs:93-152 | the frames in use grow and shrink by exactly the tables and pages of the tree |
| TreeNodes.WalkStopped | kernel/src/memory/va.rs:105-145 | where a walk ran out of frames the page is not mapped, and at least two more frames than it took are needed |
| TreeNodes.PageAdded | kernel/src/memory/umem.rs:171-207 | after mapping a page the tree has what it had and what that page needs |
| TreeNodes.TookMore | kernel/src/memory/umem.rs:171-209 | mapping pages one after the other succeeds exactly if there are frames for all of them and the tables they lack |
| TableRights.EffectiveRights | kernel/src/memory/va.rs:93-169 | where every table is open to user code, a program may use a page exactly if the page's own entry says so, and may write to it exactly if that entry and those of the three tables above it have the write bit |
| TableRights.ImageTablesStep | kernel/src/memory/va.rs:155-169 | mapping further pages of an image gives the write bit to the tables above them exactly if the mapping is writable, and takes it from none |
| TableRights.ProgramMayWrite | kernel/src/memory/va.rs:93-169 | whatever tables a walk adds later, a program may write to a page exactly if its own entry has the write bit and each table above it that was there from the start lies above a page mapped writable |
| TableRights.ImageMayWrite | kernel/src/memory/va.rs:155-188 | right after mapping, that is so exactly if its own entry has the write bit and some page of its page table was mapped writable |
| KernelHalves.ShutKept | kernel/src/memory/kmem.rs:59-61 | what leaves the kernel's own frames alone leaves its half without an entry open to user code |
| KernelHalves.ShutAddress | kernel/src/memory/va.rs:93-152 | in such a kernel half the walk of a kernel address, if it meets no larger page, ends at a missing table or at an entry that is unused or not for user code |
| UserMemory.PageRoundUp | kernel/src/memory/umem.rs:241-243 | the least page boundary at or above the size, or an overflow error |
| UserMemory.UnmapPage | kernel/src/memory/umem.rs:253-263 | unmaps exactly this page and gives back exactly its frame |
| UserMemory.RollbackAllocUvm | kernel/src/memory/umem.rs:245-270 | exactly the pages of the range are unmapped and exactly their frames given back |
| UserMemory.GrowPage | kernel/src/memory/umem.rs:171-207 | maps one zeroed page on a frame that was free, exactly if the page is not mapped and there are frames for it and the tables it lacks; otherwise changes no page and keeps no frame but those of new tables |
| UserMemory.AllocUvm | kernel/src/memory/umem.rs:158-212 | exactly the new range is mapped, zeroed; succeeds exactly if the range is in the user half, none of its pages is mapped and the free frames suffice for them and the tables they lack; on each error every page and byte is as before, no frame is lost, and the error says which condition failed |
| HeapGrowth.DeallocUvm | kernel/src/memory/umem.rs:216-239 | exactly the pages between the rounded sizes are unmapped and their frames given back |
| HeapGrowth.GrowProcessHeap | kernel/src/memory/umem.rs:361-391 | a request grows, shrinks or leaves the heap, with the recorded size and the mapped pages changing together; a growth succeeds exactly under alloc_uvm's condition and a refusal has its reason; for a shrink larger than the heap the 64-bit sum is a huge size, and nothing happens; tables stay, and new ones are open to user code |
| HeapGrowth.HeapRunInv | kernel/src/memory/umem.rs:361-391 | over any run of requests that stay at or above the break, the pages mapped between break and guard are those of the current size, and no other page ever changes |
| HeapGrowth.GrowThenShrink | kernel/src/memory/umem.rs:361-391 | a growth followed by the opposite shrink restores the program's view |
| HeapGrowth.ShrinkKeepsProgram | kernel/src/memory/umem.rs:379-388 | a shrink keeps the program's pages exactly if the new size stays at or above the break |
| HeapGrowth.SecondGrowth | kernel/src/memory/syscalls.rs:4-17 | from an unchanged recorded size, once the first page above it is mapped and whatever was stored meanwhile, a growth succeeds exactly if it stays in the user half and needs no page |
| HeapGrowth.GrowTwice | kernel/src/memory/umem.rs:361-391 | two one-page requests from the same recorded size, in a new address space with frames to spare: the first succeeds, the second fails |
| Mapper.CreateNextTable | kernel/src/memory/va.rs:155-169 | one level of the mapper: a new table, which is then the only new one, or at least the asked flags on a used entry; no other entry's flags and no translation change; fails only when frames run out |
| Mapper.MapPage | kernel/src/memory/va.rs:155-169 | maps this page to a new zeroed frame exactly if it is unused and there are frames for it and the tables it lacks; exactly the tables above the page get the mapping's present, write and user flags; an error changes no page, says which condition failed, and its frame is lost |
| Mapper.MapPages | kernel/src/memory/va.rs:172-188 | exactly the pages of the range are new, and exactly the tables above them get the mapping's flags; succeeds exactly if none was mapped and the frames suffice for all |
| TreeCopy.SizeCountsFrames | kernel/src/memory/umem.rs:49-154 | the number of frames a copy needs is the number of frames of the tree, each counted once |
| TreeCopy.SetupKvm | kernel/src/memory/kmem.rs:38-65 | a new PML4 with no user entry and the kernel half of the active one |
| TreeCopy.NewUvm | kernel/src/memory/umem.rs:22-46 | an empty user tree sharing the kernel half |
| TreeCopy.CopyTable | kernel/src/memory/umem.rs:61-151 | a copy with the same shape, flags and bytes over frames that were free; fails only if there are too few |
| TreeCopy.SameTreeEntries | kernel/src/memory/umem.rs:61-151 | a copy has entries with the same flags on every path, tables included |
| ProgramRights.CopyRights | kernel/src/memory/umem.rs:61-151 | a child may use and write exactly the pages that its parent may |
| TreeCopy.CopyUvm | kernel/src/memory/umem.rs:49-154 | the child has the parent's pages, flags and bytes over exactly the frames taken meanwhile, the parent is unchanged, and it succeeds exactly if the free frames are enough |
| TreeCopy.FreeTable | kernel/src/memory/umem.rs:285-343 | every frame below the table is given back once, and nothing else |
| TreeCopy.FreeUvm | kernel/src/memory/umem.rs:277-350 | gives back exactly the frames of the tree, touches no other memory |
| TreeCopy.CopyThenFree | kernel/src/memory/umem.rs:277-350 | a copy that is freed leaves the same frames available and the parent as it was |
| TreeCopy.Isolation | kernel/src/memory/umem.rs:49-154 | whatever happens within one tree, a disjoint tree looks the same |
| UserBytes.PageWritten | kernel/src/exec/mod.rs:319-325 | bytes written to the frame behind a page are seen in that page only |
| UserBytes.CopyToUserPagetable | kernel/src/exec/mod.rs:304-329 | stores the bytes exactly if the whole range is mapped; otherwise exactly the bytes before the first missing page; no other byte changes |
| UserBytes.ZeroUserRange | kernel/src/exec/mod.rs:332-357 | clears the range under the same conditions |
| Syscalls.CopyToUser | kernel/src/syscall/mod.rs:219-295 | for any 64-bit pointer: succeeds exactly if every byte of the range is user-writable; otherwise exactly the bytes before the first refused address were stored, and the error says why that one was refused; through a pointer into the kernel half nothing is stored |
| Syscalls.CopyBytesFromUser | kernel/src/syscall/mod.rs:147-215 | for any 64-bit pointer: returns the bytes exactly if every byte of the range is user-accessible, else the reason of the first refused address; changes nothing |
| Syscalls.CopyRoundTrip | kernel/src/syscall/mod.rs:147-295 | what was copied to a writable user range is what a copy from it returns |
| ElfFormat.ElfHeaderRead | kernel/src/exec/mod.rs:134-159 | the loader accepts a file exactly if its first 64 bytes are an ELF header of an x86-64 executable, and takes entry, phoff, phentsize and phnum from it; any 64 bytes are one header |
| ElfFormat.HeaderRefused | kernel/src/exec/mod.rs:135-158 | which error a file gets: too short, wrong magic number, wrong class, wrong target, in this order |
| ElfFormat.ProgramHeaderRead | kernel/src/exec/mod.rs:45-56 | 56 bytes read as a program header exactly if they are one in the format, whatever its physical address and alignment |
| ElfFormat.SegmentsRead | kernel/src/exec/mod.rs:161-221 | of the program headers in a file all are accepted exactly if each LOAD header has no more bytes in the file than in memory, its bytes are in the file, and its end is an address; then the LOAD headers with memory are loaded, in order, with their bytes, and writable by the second flag bit |
| ElfFormat.LinkedIsLoaded | kernel/src/exec/mod.rs:135-221 | for any segments, the file that a linker writes for them is accepted, with its entry point, and exactly these segments are read back |
| Elf.FlagsAreUnion | kernel/src/exec/mod.rs:206-217 | a page is mapped exactly if a segment touches it, with the union of those segments' flags |
| Elf.BytesTouched | kernel/src/exec/mod.rs:204-217 | a byte exists exactly if some segment touches its page |
| Elf.TouchedCovered | kernel/src/exec/mod.rs:204-210 | the pages from the first to the last of a segment are exactly those that hold a byte of it |
| Elf.MaxEndIs | kernel/src/exec/mod.rs:202-224 | the end of the image is that of the segment that ends highest |
| Elf.ImageBytes | kernel/src/exec/mod.rs:212-221 | for disjoint segments in any order: file bytes, then zeros up to the size, and zeros in the rest of every touched page |
| Exec.EnsureUserPageMapping | kernel/src/exec/mod.rs:237-265 | keeps a mapped page's bytes and adds flags, or maps a zeroed page; fails exactly if the frames do not suffice for the page and the tables it lacks |
| Exec.EnsurePages | kernel/src/exec/mod.rs:212-214 | the same for a range of pages, with one condition for all, and no other page changes |
| Exec.LoadSegment | kernel/src/exec/mod.rs:200-221 | adds one segment to what the address space holds, exactly if the frames suffice for its pages and the tables they lack |
| Exec.SegmentTables | kernel/src/exec/mod.rs:206-217 | a segment gives the write bit to the tables above the pages that it is the first to need, exactly if it is writable |
| Exec.LoadElfSegments | kernel/src/exec/mod.rs:161-225 | the address space holds exactly the flat memory of all LOAD headers, and the heap starts at the rounded end of the highest; succeeds exactly if every header passes its checks and the frames suffice |
| Exec.AboveAllSegments | kernel/src/exec/mod.rs:197-224 | no segment touches a page above the initial break |
| Exec.HeapReady | kernel/src/exec/mod.rs:104-112 | a new image that ends below the guard page has an empty heap that can grow up to it |
| Exec.PrepareExecImage | kernel/src/exec/mod.rs:76-132 | segments, one guard page without user access, eight stack pages with the arguments, and nothing else, over fresh frames, whenever what was pushed fits in the stack pages, which the readers' limits on argv guarantee; within these limits it succeeds exactly if the headers are accepted, no segment reaches into guard page or stack, and the frames suffice; on error nothing that was in use changed |
| Exec.LinkedImage | kernel/src/exec/mod.rs:76-132 | an image can be built from a linked file exactly if no segment touches guard page or stack and there are frames for its pages, the stack and the tables above |
| Exec.StackTables | kernel/src/exec/mod.rs:103-119 | the tables that the guard page, which is closed to user code, brings with it are open again once the stack is mapped, since the two share them |
| ProgramRights.ImageRights | kernel/src/exec/mod.rs:204-217 | in a new image a page's own flags decide whether the program may use it; it may write exactly if they say so and some page of the same page table is a stack page or was first needed by a writable segment |
| ProgramRights.HeapRights | kernel/src/memory/umem.rs:361-391 | after any growth and shrinking, a program may write to a page exactly if its own entry has the write bit and each table above it that the image came with lies above such a page |
| ProgramRights.HeapBesideReadOnly | kernel/src/memory/umem.rs:195-207 | a heap page whose page table the image made for read-only pages has a writable entry, so that copy_to_user stores in it, but the program may not write to it |
| ProgramRights.ReadOnlyNeighbour | kernel/src/memory/va.rs:105-169 | a run that reaches such a page: a read-only page is mapped, then the heap grows to the page after it |
| LittleEndian.LittleRoundTrip | kernel/src/exec/mod.rs:295-301 | a number is read back from its little-endian bytes |
| LittleEndian.RecordReads | kernel/src/exec/mod.rs:19-56 | bytes are the record of these fields, without gaps and each in its width, exactly if reading each part in its place gives the field |
| Argv.StoreString | kernel/src/exec/mod.rs:272-278 | the string and its terminating zero are stored, no other byte changes |
| Argv.CopyU64SliceToUser | kernel/src/exec/mod.rs:295-301 | the words are stored as little-endian bytes, no other byte changes |
| Argv.PlaceStrings | kernel/src/exec/mod.rs:269-280 | the strings lie below one another, 8-aligned, not overlapping, inside the stack |
| Argv.SetupUserStack | kernel/src/exec/mod.rs:268-292 | strings, pointer array and initial frame do not overlap, sp is 8 modulo 16, and within the readers' limits it succeeds and stays inside the stack pages |
| Argv.CopyCstrFromUser | kernel/src/syscall/mod.rs:129-144 | the bytes up to the first zero as the kernel reads them, in either half, or why there is no such string within the limit |
| Argv.CopyArgv | kernel/src/syscall/mod.rs:111-126 | the strings up to the first null pointer, read the same way, or why not |
| Argv.StringRead | kernel/src/syscall/mod.rs:129-144 | a stored string is read back exactly if it is shorter than the limit and has no zero byte |
| Argv.ArgvRoundTrip | kernel/src/syscall/mod.rs:111-126 | the readers return what setup_user_stack stored exactly if there are at most 15 arguments, each at most 255 bytes long and without a zero byte |
| Tables.FirstFree | kernel/src/thread/uprocess/mod.rs:144-152 | the first slot that holds no process, if there is one |
| Tables.FirstUnused | kernel/src/thread/mod.rs:61-69 | the first unused thread, if there is one |
| Tables.CurrentProcess | kernel/src/cpu.rs:41-56 | the running thread's process is there, alive, and its page table is the active one |
| Tables.ForkInv | kernel/src/thread/uprocess/syscalls.rs:16-99 | fork keeps the invariant of the tables, also when its copy fails and a thread is left behind |
| Tables.ExitInv | kernel/src/thread/uprocess/syscalls.rs:113-159 | exit of any process but init keeps it |
| Tables.WaitInv | kernel/src/thread/uprocess/syscalls.rs:161-210 | each round of wait keeps it |
| Tables.ReapInv | kernel/src/thread/uprocess/mod.rs:184-245 | freeing a zombie keeps it |
| Tables.KillInv | kernel/src/thread/uprocess/syscalls.rs:212-231 | kill keeps it |
| Tables.KillTarget | kernel/src/thread/uprocess/syscalls.rs:215-221 | kill finds exactly the process in use with that pid; reaped slots, which hold pid 0, are never taken for one |
| Tables.ExecInv | kernel/src/exec/mod.rs:397-434 | exec's commit keeps it |
| Tables.SyscallYieldInv | kernel/src/scheduler/round_robin.rs:139-174 | giving up the CPU in a system call keeps it |
| Scheduler.FindNearest | kernel/src/scheduler/round_robin.rs:177-186 | the scan picks a runnable thread, if there is one, and the one at the least cyclic distance, for any table size |
| Scheduler.PickOther | kernel/src/scheduler/round_robin.rs:25-36 | there is always a runnable thread other than the one just left |
| Scheduler.ScheduleInv | kernel/src/scheduler/round_robin.rs:36-61 | a scheduler round keeps the invariant and ends in thread code with that thread's page table |
| Scheduler.TimerInv | kernel/src/scheduler/round_robin.rs:93-132 | a timer tick keeps the invariant |
| Scheduler.PickingCurrentLosesRunning | kernel/src/scheduler/round_robin.rs:39-44 | picking the current thread would leave it Runnable while it runs |
| Scheduler.PickComesCloser | kernel/src/scheduler/round_robin.rs:36-47 | a runnable thread that is passed over stays runnable and comes strictly closer |
| Runs.StepInv | kernel/src/scheduler/round_robin.rs:20-89 | every step of the machine keeps the invariant |
| Runs.RunInv | kernel/src/scheduler/round_robin.rs:20-89 | so it holds throughout every run |
| Runs.OneRunning | kernel/src/scheduler/round_robin.rs:36-47 | over every run from boot, in thread code exactly the current thread is Running |
| Runs.AlwaysSwitches | kernel/src/scheduler/round_robin.rs:29-47 | over every run from boot, each scheduler round switches to a thread other than the one it left |
| Runs.RunnableStep | kernel/src/scheduler/round_robin.rs:36-47 | only being picked ends a thread's being runnable |
| Runs.ZombieStep | kernel/src/thread/uprocess/syscalls.rs:138-150 | a dead thread is never run; it stays a zombie until it is cleared |
| Runs.ZombieNeverRuns | kernel/src/scheduler/round_robin.rs:177-186 | over every run from boot, a dead thread is never picked and never current until its slot is cleared |
| Runs.BoundedWaiting | kernel/src/scheduler/round_robin.rs:177-186 | over every run from boot, fewer than NTHREAD picks go to others while a thread waits |
| Runs.RunsAgain | kernel/src/scheduler/round_robin.rs:93-174 | over every run from boot, a thread that a tick or a wait took the CPU from runs again after fewer than 64 picks of others |
| Histories.OneLife | kernel/src/thread/uprocess/syscalls.rs:113-210 | over every run from boot, what happens to a pid is a beginning of: forked by q, exits with s, reaped by q with s |
| Histories.WaitResultOk | kernel/src/thread/uprocess/syscalls.rs:161-210 | wait returns a child that this process forked, with the status it exited with, not reaped before; and reports no child exactly if there is none |
| Histories.KilledWaiterWaits | kernel/src/thread/uprocess/syscalls.rs:199-206 | over every run, marked or not, no round of a wait ends with the killed error, and it goes on waiting exactly while there is a living child and no dead one |
| Histories.ReapIsSafe | kernel/src/thread/uprocess/mod.rs:184-225 | reaping never takes an error exit: the thread is in range and the child's own, its page table is not active |
| Histories.ReapedForGood | kernel/src/thread/uprocess/mod.rs:230-242 | a reaped slot stays reaped: pids are not recycled |
| Histories.ReapedInRun | kernel/src/thread/uprocess/mod.rs:230-242 | over every run from boot, a reaped slot stays reaped |
| Histories.ForksBounded | kernel/src/thread/uprocess/mod.rs:144-152 | no run from boot holds more than NPROCESS - 2 successful forks |
| Records.StepRecord | kernel/src/thread/uprocess/mod.rs:118-135 | what each step does to each field of each process: kill marks it, exit sets state and status, exec sets page table and heap size, fork makes a living, unmarked child with its parent's heap size, wait takes away a dead child of the waiting process; nothing else changes |
| Records.MarkedInRun | kernel/src/thread/uprocess/syscalls.rs:212-231 | over every run from boot, a process that is there is marked exactly if an earlier step killed it while it was there |
| Records.BreakInRun | kernel/src/exec/mod.rs:397-405 | over every run from boot, the recorded heap size is that of the process's last exec, or of its parent's when it was forked |
| Records.ParentInRun | kernel/src/thread/uprocess/syscalls.rs:34-37 | over every run from boot, every process but init was forked by the one that it names as its parent |
| Records.ExitedInRun | kernel/src/thread/uprocess/syscalls.rs:113-159 | over every run from boot, every zombie called exit, with the status that is kept for it |
| Records.WaitedInRun | kernel/src/thread/uprocess/syscalls.rs:161-210 | over every run from boot, what wait returns is a child that this process forked and the status that child gave to exit |
| Records.ThreadIdInRun | kernel/src/thread/uprocess/mod.rs:112-141 | over every run from boot, a thread in use has the number of its slot |
| Records.ActiveInRun | kernel/src/scheduler/round_robin.rs:49-61 | over every run from boot, the active page table is the current process's own while its code runs, and otherwise the kernel's |
| FrameLedger.LedgerStep | kernel/src/memory/umem.rs:22-350 | an operation on one process's frames keeps every frame's having one owner, and the kernel half shut to user code |
| FrameLedger.NoSharing | kernel/src/memory/umem.rs:49-154 | no two processes share a frame, so no page of one is backed by a frame of another |
| FrameLedger.NoMappedFrameIsFree | kernel/src/memory/mod.rs:68-84 | no frame of an address space is free |
| FrameLedger.Unseen | kernel/src/memory/umem.rs:22-350 | what changes one process's frames and free ones is not seen by any other process |
| FrameLedger.PageWritesLedger | kernel/src/syscall/mod.rs:219-295 | writes to a process's pages change no ownership |
| ProgramRights.ProcessRights | kernel/src/memory/va.rs:93-169 | in every state of the ledger, each process may use exactly the pages whose own entry says so, and write to none whose own entry has no write bit |
| Kernel.Start | kernel/src/main.rs:89-101 | booting reaches the initial state, with nothing lost, exactly if init's image can be built; init is then the only process, alive, not marked, with its image's break, and its thread and the input thread are the ones that can run |
| Kernel.Kernel.NextPid | kernel/src/thread/uprocess/mod.rs:144-152 | the loop finds the first free slot |
| Kernel.Kernel.NextTid | kernel/src/thread/mod.rs:61-69 | the loop finds the first unused thread |
| Kernel.Kernel.AllocProc | kernel/src/thread/uprocess/mod.rs:112-141 | a new living, unmarked process with an empty heap and one Embryo thread that points back to it, or no change if a table is full |
| Kernel.Kernel.MarkThreadsAsRunnable | kernel/src/thread/uprocess/mod.rs:168-181 | exactly the listed threads before the first one beyond the table become runnable; an error exactly if that one's id is more than 64, the index panic exactly if it is 64 |
| Kernel.Kernel.MarkThreadsAsZombie | kernel/src/thread/uprocess/syscalls.rs:139-150 | exactly the listed threads that belong to the process become zombies |
| Kernel.Kernel.FindNextRunnableThread | kernel/src/scheduler/round_robin.rs:177-186 | the loop computes the cyclic scan |
| Kernel.Kernel.SwitchPageTable | kernel/src/scheduler/round_robin.rs:49-61 | the active table is the thread's process's, or the kernel's for a kernel thread; panics exactly if that process or its table is missing |
| Kernel.Kernel.SchedulerRound | kernel/src/scheduler/round_robin.rs:20-89 | one round is the scheduler's step and keeps the invariant and the ledger; the panic of the page-table switch is not reached |
| Kernel.Kernel.OnYield | kernel/src/scheduler/round_robin.rs:93-132 | the tick is the timer's step: the current thread, and nobody else, becomes runnable, and the kernel's page table active; its panic is not reached |
| Kernel.Kernel.OnSyscallYield | kernel/src/scheduler/round_robin.rs:139-174 | the yield is its step |
| Kernel.Kernel.Fork | kernel/src/thread/uprocess/syscalls.rs:16-99 | fork is its step, succeeds exactly if a pid, a thread and enough frames are free; the child owns exactly the new frames, holds the parent's program and has entries with the same flags on all four levels; on failure exactly the new frames are lost and a thread is; the child in the table is alive, not marked, has its parent's pid and heap size and one runnable thread, and no other entry changed |
| Kernel.Kernel.Exit | kernel/src/thread/uprocess/syscalls.rs:113-159 | exit is its step, or for init an error without a change: the process and its thread are zombies, with this status, nobody else has changed, and no frame changes its owner |
| Kernel.Kernel.ExitIfCurrentProcessKilled | kernel/src/syscall/mod.rs:297-303 | a marked process exits with the error status, a marked init panics, others go on; who exits is a zombie with status -1 |
| Kernel.Kernel.FreeProcess | kernel/src/thread/uprocess/mod.rs:184-245 | clears all listed threads and the slot and gives back exactly the address space; refuses exactly an out-of-range, foreign or repeated thread and the active page table, and then exactly the threads before that one are cleared |
| Kernel.Kernel.EnterWait | kernel/src/thread/uprocess/syscalls.rs:161-163 | a call of wait by a marked process exits instead, or for init panics; any other goes on with a copy of the process whose mark is not set |
| Kernel.Kernel.FindChild | kernel/src/thread/uprocess/syscalls.rs:161-210 | the scan finds the first zombie child, and otherwise whether there is any child |
| Kernel.Kernel.WaitRound | kernel/src/thread/uprocess/syscalls.rs:161-210 | a round is wait's step; reaping gives back exactly the child's frames and loses none |
| Kernel.Kernel.Kill | kernel/src/thread/uprocess/syscalls.rs:212-231 | kill finds exactly a process in use with that pid, sets its mark and changes nothing else |
| Kernel.Kernel.Exec | kernel/src/exec/mod.rs:68-132 | the process owns exactly the frames of the new image, the old image's frames are lost, or on failure exactly the new ones; within the readers' limits it succeeds exactly if the image can be built from the free frames; then the rounded end of the image is the recorded heap size, and below the guard page the new heap is empty and can grow up to it |
| Kernel.Kernel.CommitExec | kernel/src/exec/mod.rs:397-434 | the process has the new page table, which is active, and the new heap size; nothing else changes |
| Kernel.Kernel.CopyOut | kernel/src/syscall/mod.rs:219-295 | a copy to the current process stores in user-writable pages only and nothing through a pointer into the kernel half, is not seen by any other process and changes no ownership |
| Kernel.Kernel.Sbrk | kernel/src/memory/syscalls.rs:4-17 | returns the recorded size, does one heap step from it, and records nothing; a growth succeeds exactly under alloc_uvm's condition; no frame is lost |
| Kernel.SbrkTwice | kernel/src/memory/syscalls.rs:4-17 | in every valid state: a first growth that can succeed and needs a page succeeds, and after it any second growth succeeds exactly if it stays in the user half and needs no page |
| AsyncInput.RunInv | kernel/src/task/keyboard.rs:47-64 | the wakeup invariant holds in every state of every interleaving |
| AsyncInput.NoLostWakeup | kernel/src/task/executor.rs:36-76 | unread input means that its task is being polled or is in the ready queue, and the executor is not halted |
| AsyncInput.SleepsOnlyIfIdle | kernel/src/task/executor.rs:62-75 | at the moment the executor halts, all queues are empty |
| AsyncInput.DeliveredInOrder | kernel/src/task/keyboard.rs:13-64 | what came in, of the inputs of the run, is what poll_next returned, then the byte in hand, then the queue; what came in are the bytes that came after the task's first poll and found fewer than 100 waiting |
| AsyncInput.RunRecorded | kernel/src/task/keyboard.rs:13-64 | the bytes that a device has accepted and delivered are exactly those, told by the inputs and pops of the run |
| AsyncInput.LessWork | kernel/src/task/executor.rs:36-76 | every step of the executor leaves less to do |
| AsyncInput.Drains | kernel/src/task/executor.rs:36-76 | from every state of every run that has not panicked, without further interrupts all that came in is delivered and the executor halts, within a bound |
| AsyncInput.DrainedRun | kernel/src/task/executor.rs:36-76 | so every run goes on to one in which poll_next has returned exactly what came in |
| AsyncInput.PanicsExactly | kernel/src/task/serial_input.rs:12-21 | a run panics exactly at an input whose wakeup finds the ready queue full, or at a serial byte that finds 100 waiting |
| AsyncInput.ExtraWakeup | kernel/src/task/keyboard.rs:55-63 | a byte between the registration and the second pop is delivered and puts the task in the ready queue once more, or finds that queue full |
| AsyncInput.ReadyQueueOverflows | kernel/src/task/executor.rs:91-93 | from there a run goes on to the overflow panic, after as many such bytes as the queue has room for |
| AsyncInput.CaughtIsReachable | kernel/src/task/executor.rs:44-56 | and such a state is reached from boot without any such byte |
| AsyncInput.TokensBound | kernel/src/task/executor.rs:80-94 | in every run, ready tasks, registered wakers and a poll that will register one are at most two more than the inputs that came while a waker was registered |
| AsyncInput.OverflowNeeds | kernel/src/task/executor.rs:91-93 | a wakeup that finds the ready queue full, which panics, comes after at least 99 such inputs |
| AsyncInput.ManyInputs | kernel/src/task/keyboard.rs:55-63 | any number of such inputs in one gap queues the task only once more |
| AsyncInput.OverflowThreshold | kernel/src/task/executor.rs:91-93 | the ready queue can overflow after k such inputs exactly if k is at least 99 |
| AsyncInput.CalmNeverOverflows | kernel/src/task/executor.rs:91-93 | without any such input the ready queue holds each task at most once |
| AsyncInput.Input.Add | kernel/src/task/serial_input.rs:12-21 | the handler is one step: a byte for a queue that exists and has room is queued and a registered waker used up, its task at the end of the ready queue; otherwise nothing changes; and it panics exactly when the ready queue, or a serial queue, is full |
| AsyncInput.Input.Pop | kernel/src/task/keyboard.rs:51-62 | a pop is one step and takes the oldest byte |
| AsyncInput.Input.RegisterWaker | kernel/src/task/keyboard.rs:56-56 | registering is one step |
| AsyncInput.Input.Take | kernel/src/task/keyboard.rs:58-61 | taking the waker back is one step and delivers the byte |
| AsyncInput.Input.PollNext | kernel/src/task/keyboard.rs:47-64 | with any interrupts in between, it delivers one byte, or is pending with the queue just seen empty and the waker registered or already used |
| AsyncInput.Input.PopTask | kernel/src/task/executor.rs:44-49 | takes the first ready task, or goes on to sleep |
| AsyncInput.Input.SleepIfIdle | kernel/src/task/executor.rs:62-75 | halts only if every queue is empty |
| Layouts.AlignUpLeast | kernel/src/allocator/linked_list.rs:88-88 | aligning gives the least aligned address |
| LinkedListHeap.SizeAlign | kernel/src/allocator/linked_list.rs:107-111 | the padded request holds the layout and a list node, and meets the layout's alignment |
| LinkedListHeap.SizeAlignLeast | kernel/src/allocator/linked_list.rs:107-111 | and no more than that: a node's size, or the least multiple of the alignment that holds the layout |
| LinkedListHeap.AllocFromRegion | kernel/src/allocator/linked_list.rs:87-103 | an accepted block is aligned, inside the region, and leaves nothing or room for a node behind it |
| LinkedListHeap.LowestStart | kernel/src/allocator/linked_list.rs:87-103 | the accepted block is the lowest aligned one |
| LinkedListHeap.RefusedWithRoom | kernel/src/allocator/linked_list.rs:87-103 | a region is refused although a block would fit in it exactly if the alignment is the least and the lowest aligned block would leave eight bytes |
| LinkedListHeap.NoneFitsMeans | kernel/src/allocator/linked_list.rs:64-84 | no region fits exactly if none has room for the block, apart from regions with those eight bytes |
| LinkedListHeap.LinkedListAllocator.Init | kernel/src/allocator/linked_list.rs:40-44 | the whole heap is one free region |
| LinkedListHeap.LinkedListAllocator.AddFreeRegion | kernel/src/allocator/linked_list.rs:47-60 | the nodes in memory spell out the old list with the region in front |
| LinkedListHeap.LinkedListAllocator.FindRegion | kernel/src/allocator/linked_list.rs:64-84 | unlinks the first region that fits and keeps the order of the others; None exactly if none fits |
| LinkedListHeap.LinkedListAllocator.Alloc | kernel/src/allocator/linked_list.rs:115-133 | an aligned block disjoint from all others, cut from the first region that fits; null only if none does; the assertions never fire |
| LinkedListHeap.LinkedListAllocator.Dealloc | kernel/src/allocator/linked_list.rs:135-142 | the block is free again as one region, and every other byte keeps its owner |
| LinkedListHeap.HeapApart | kernel/src/allocator/linked_list.rs:115-142 | free regions and live blocks never overlap and lie in the heap |
| LinkedListHeap.BytesAddUp | kernel/src/allocator/linked_list.rs:115-142 | free, live and lost bytes add up to the heap |
| LinkedListHeap.LostPadding | kernel/src/allocator/linked_list.rs:119-127 | what an allocation loses is exactly the padding in front of the block |
| FixedSizeBlocks.BlockSizesAre | kernel/src/allocator/fixed_size_block.rs:11-11 | the nine block sizes |
| FixedSizeBlocks.BlockSizes | kernel/src/allocator/fixed_size_block.rs:9-11 | every block size is a power of two that holds a node |
| FixedSizeBlocks.ListIndexFrom | kernel/src/allocator/fixed_size_block.rs:49-52 | the smallest class that holds size and alignment, or none |
| FixedSizeBlocks.ServedMeetsRequest | kernel/src/allocator/fixed_size_block.rs:66-72 | a block of the class meets the layout's size and alignment |
| FixedSizeBlocks.ServedExactly | kernel/src/allocator/fixed_size_block.rs:49-77 | up to 2048 bytes and that alignment the smallest block size that holds both, beyond it the layout itself |
| FixedSizeBlocks.FixedSizeBlockAllocator.Alloc | kernel/src/allocator/fixed_size_block.rs:55-77 | a free block of the class, else what the fallback heap gives; all blocks stay disjoint and every list holds exactly the free blocks of its class; beyond 2048 bytes the fallback is asked for the layout itself |
| FixedSizeBlocks.FixedSizeBlockAllocator.Dealloc | kernel/src/allocator/fixed_size_block.rs:79-103 | the block goes to the front of its class's list, or back to the fallback heap |

## Left out

- Walker.WalkPagetable: in the kernel half only without alloc and where the entries on the way lead to tables; the code takes a larger page, such as a map of all physical memory may have, for a table.
- Kernel.Kernel.CopyOut: not for a kernel-half pointer whose walk meets a larger page, nor for a user range that runs over 2^47 when the walk of 2^47 does, for that reason.
- KernelHalves.ShutAddress: for walks that meet no larger page, for that reason.
- Syscalls.CopyToUser: a pointer into the kernel half, or a user range that runs into it, is not covered where the entry were open to user code; the code would copy there. The machine's invariant excludes such entries. Write permission is that of the page's own entry, as in the code; what the processor makes of the tables above is `ProgramRights`.
- Syscalls.CopyBytesFromUser: the same as Syscalls.CopyToUser. The buffer is taken to be allocated: the code asks for its whole length before the first walk and panics if that is too much for a vector or the kernel heap, which sys_print_str with a length of -1 reaches, since its limit check is signed.
- UserBytes.CopyToUserPagetable: for ranges below 2^47; the code also accepts addresses of the kernel half, those from 2^47 up to 2^48 among them, and writes behind them if they are mapped.
- UserBytes.ZeroUserRange: the same as UserBytes.CopyToUserPagetable.
- Exec.LoadElfSegments: for images whose segments lie in the user half. A segment at an address of the kernel half, for which version 0.14 of the x86_64 crate also takes one from 2^47 up to 2^48, is accepted by the code, which adds flags to mapped pages there, clears them and stores the file bytes; that is not covered. At any other address from 2^47 on, or with such an end, or with an end of exactly 2^47, from which the code subtracts one, the crate panics.
- Exec.PrepareExecImage: for the same images as Exec.LoadElfSegments, as are Kernel.Kernel.Exec and Kernel.Start.
- Argv.CopyCstrFromUser: the kernel dereferences user pointers directly; what it reads is a parameter, and a page fault on the way is an error result in the model.
- Argv.CopyArgv: the same as Argv.CopyCstrFromUser.
- Mapper.MapToSlot: the x86_64 crate's map_to is modelled by its contract: tables on the way are made or get more flags, a used entry is an error, huge pages do not occur in a user tree.
- TreeCopy.CopyTable: the four nested loops of copy_uvm are one method per level that calls itself; TreeCopy.FreeTable does the same for free_uvm.
- HeapGrowth.GrowProcessHeap: the sum of size and request wraps around at 64 bits, as in a build without overflow checks; with them the code panics for every shrink that is not larger than the heap, since the request is converted to an unsigned number first.
- HeapGrowth.DeallocUvm: the loop is that of rollback_alloc_uvm, which it calls; in the source the same loop is written twice.
- FrameAlloc.FrameAllocator.AllocateFrame: the counter of used frames does not overflow in the model.
- Kernel.Kernel.WaitRound: wait's loop is one round at a time; the rounds of a whole wait are steps of a run, with the mark of the copied process as a parameter, which Kernel.Kernel.EnterWait fixes and Histories.WaitCall asks to be the same in all of them.
- Kernel.Kernel.Fork: registers, trap frames and kernel stacks are not modelled; the stack's address is a parameter.
- Kernel.Kernel.CommitExec: entry point, stack pointer and arguments are in the image that exec returns; storing them in the thread's context and trap frame is not modelled.
- Kernel.Start: creating the input thread and init is one step. The kernel's own frames (its PML4, the tables of its half, the boot-time heap) are in use from the start and never offered by the memory map, and no 4096-byte page of its half is open to user code at the start.
- AsyncInput.Input.PollNext: ArrayQueue and AtomicWaker are modelled by their contracts, one access at a time; the executor's maps of tasks and wakers, which never lose an entry because the streams never end, are not.
- LinkedListHeap.AllocFromRegion: align_up, which that file imports but the repository does not define, has its usual meaning and does not overflow.
- FixedSizeBlocks.FixedSizeBlockAllocator.Alloc: the fallback heap's answer is a parameter that must be a correct one: aligned, and disjoint from the blocks it gave before.
- The other flag bits of page-table entries (accessed, dirty, no-execute) are one set that copies and unions carry along.
- The rollback branch of commit_exec: its failing conditions were checked when the snapshot was taken.
- TLB flushes, the MMU, context switches, GDT, interrupt controller and timer set-up, and all assembly.
- Lookup of programs by path, console, serial output, keyboard decoding, and the user library.
- Sleeping threads, re-parenting of orphans and processes with several threads: the code has none of them.
- The bump allocator and the simple executor.
