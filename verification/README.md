# SaturnOS kernel: model and proofs

A Dafny model of the parts of the SaturnOS ARM64 kernel whose behaviour depends on whole runs and on several
functions at once, with the properties its design promises proved for all inputs and all runs.

| part of the kernel | value model and theorems | the code as it updates its state |
|---|---|---|
| task table and page-table slots | Scheduler, SchedulerRuns, SchedulerKin, SchedulerAnswers | TaskTable |
| RAM filesystem | Paths, FileBytes, RamFs, RamFsTree | RamFsTable |
| SaturnFS on a block device | SaturnFs, SaturnFsMap, SaturnFsRefines, SaturnFsFailures, SaturnFsMount, ChecksumDetects | SaturnFsDriver |
| VFS over both backends | Vfs, VfsNames | VfsDispatch |
| physical pages | Pmm (sets) | Pmm (class PageAllocator) |
| kernel heap | Heap, HeapRuns, HeapLedger | HeapList |
| kernel page tables | Bits, Mmu, Vm, VmBuild, RegionScan, VmValidate, VmBlindSpot | VmTables |
| user address spaces | UserSpace, SpaceRecord, ProcessSpaces, LiveIsolation | UserTables |
| starting a program | Executable, Launch, ProgramStart | Executable, Launch, ProgramStart (methods) |
| virtio keyboard | Keyboard, KeyboardMeaning, KeyboardRuns | KeyboardDriver |

Each C file that works by changing static data in place has a class whose fields are that data; every method states
its whole new state as a function of the old one, and the theorems are proved about those functions. A null or error
return is part of each function's result.

Main results:

- Scheduler: one inductive invariant over every atomic step from boot (exactly the current task runs, idle is always
  runnable, `task_count` is tight, page-table slots are used iff owned), with the tick counter and deadlines wrapping at
  64 bits; the halt loop is unreachable, a waiting task is passed over at most six times, sleep ends at exactly its tick,
  and the code that a program exits with is what its parent is told, whatever happens in between.
- RAM filesystem: the flat table is a tree in every reachable state; rename is prefix substitution, free of collisions
  because of tree closure, it succeeds under exactly stated conditions, and renaming back restores the filesystem exactly.
- SaturnFS: runs of writes, remounts and formats refine a finite map from path to bytes that is specified without any
  filesystem; an interrupted write damages nothing else; no change of a single byte of a file or an executable escapes
  the checksum, although its round is not injective; mounting writes to no device but a blank one.
- VFS: for every path, offset and buffer, a write leaves the same content on both backends up to which buffer shows
  through in a gap; creations, truncations and reads are the same byte-sequence operations; over every run of VFS calls
  a file whose name no call touches stays as it is.
- Heap and pages: the blocks tile the grown pages and stay coalesced across page borders; over every run from boot without
  wrapping requests each pointer that was handed out and not freed is a payload at least as large as asked for, apart
  from every other, from the kernel image and from the framebuffer.
- Page tables: the built map is the identity on MMIO and RAM outside the guard pages and nothing else, executable exactly
  on the pages of the kernel text and writable exactly off text and read-only data; on arbitrary
  tables the validator is characterised exactly, and it accepts whatever the builder makes; each user root adds exactly
  three EL0 pages. Task table and table slots together are one machine, in which after any run from boot no two live
  user tasks reach a common byte.
- Starting a program: a task is created iff the file is the layout of a valid image, the argument fits, and a task slot
  and a page-table slot are free; the pages of its own slot are then exactly as laid out, and it is admitted to run.
- Keyboard: for every interleaving with the device across 16-bit index wrap, each buffer is in exactly one place and the
  characters returned are a fold of the event stream, in which shift is on iff the last event of a shift key is no release
  and each key types its character of the US layout.

Where the code and what one would expect of it differ, the code is modelled, an input shows the difference, and the exact
condition is proved:

- A write beyond the end of a file exposes old bytes: of the node's own buffer in the RAM filesystem
  (RamFsTree.WriteBeyondEnd, RamFsTree.GapIsStale), and under `/disk` of whatever file was read last
  (Vfs.DiskWriteBeyondEnd, Vfs.GapShowsOtherFile). A write is the zero-filling byte operation iff the offset lies within or
  at the end of the file or those old bytes are zero (Vfs.WriteIsSparseIff).
- mkdir, remove and rename work on the node table alone, while reads and writes of names under `/disk` go to SaturnFS. A
  file renamed to such a name can no longer be read (VfsNames.RenameHidesWitness, VfsNames.RenameHides): a renamed file is
  seen under its new name iff that name is not under `/disk` or SaturnFS holds the same bytes there
  (VfsNames.RenameSeenIff).
- `sfs_write_file` reports a failed directory write although the new content is already visible
  (SaturnFsMap.FailedDirectoryWriteIsVisible): reads are as before iff the file already held those bytes
  (SaturnFsFailures.DirectoryFailureHarmlessIff). What the next mount finds is what the sector left by the failed write
  decodes to, so the old directory returns iff it decodes to that (SaturnFsFailures.AfterMount,
  SaturnFsFailures.FailureSurvivesMount). After a failed data write reads are as before iff the file was absent or its
  bytes are still in place (SaturnFsFailures.DataFailureHarmlessIff).
- `kmalloc` hands out blocks that are too small exactly for requests above 2^64 - 16 (HeapRuns.KmallocCoversIff), even as
  the first call after boot (HeapRuns.KmallocWrapWitness).
- The tick count of `scheduler_sleep_ms` is too small exactly when its rounding wraps (SchedulerRuns.SleepTicksExactIff),
  and the call does not sleep at all exactly when its deadline wraps (SchedulerRuns.SleepBegins), as in
  SchedulerRuns.SleepWrapWitness. The kernel itself only sets an interval of 100 ms (kernel/src/kernel.c:113).
- `validate_tables` looks at one address per block, so it passes tables that map every guard page (VmBlindSpot.GuardMissed);
  RAM is correct as a whole iff its region passes and at least one guard page was counted (VmValidate.RamCorrectIff).
- `validate_tables` does not reset its count of guard pages, so on built tables it succeeds iff that count is zero when
  it is called (VmValidate.ValidatesOnce).
- `scheduler_terminate_child` leaves the children of its target behind, and a new task with the same pid inherits them
  (SchedulerKin.TerminateKeepsChildren, SchedulerKin.StrangerInherits, and from boot
  SchedulerKin.StrangerInheritsFromBoot); parent links stay sound exactly over the steps that sever none
  (SchedulerKin.KinStepIff).
- Only the first block of RAM is mapped by pages, so kernel text beyond it would not be executable: a page is executable
  iff it lies in that block and meets the text (Vm.KernelMapExact).
- Releasing one of two held shift keys turns shift off (KeyboardMeaning.ShiftLostWitness): the shift state is whether a
  shift key is held iff that has not just happened (KeyboardMeaning.ShiftIsHeldIff).
- `address_space_user_range_valid` accepts the planned regions while one page of each is mapped: an accepted range is
  accessible iff it lies in the first page of its region (SpaceRecord.ValidRangeMappedIff), which the first push of a
  program does not (SpaceRecord.StackTopUnmapped).

`dafny verify dfyconfig.toml` checks the whole project.

## Model

| member | source | states |
|---|---|---|
| `SchedulerRuns.InitialInv` | kernel/sched/scheduler.c:335-347 | the table after scheduler_init satisfies the invariant: idle alone, counted, runnable, no slot used |
| `SchedulerRuns.ScanResult` | kernel/sched/scheduler.c:249-270 | the round-robin scan picks the first runnable non-idle task after the current one, skipping every earlier candidate, and otherwise idle |
| `SchedulerRuns.IdleOnlyWhenAlone` | kernel/sched/scheduler.c:249-270 | the selected task is counted and runnable, and it is idle iff no other task is runnable |
| `SchedulerRuns.SelectionApproaches` | kernel/sched/scheduler.c:249-270 | a selection while another task t is runnable strictly decreases (t - current_task) mod 8 and never picks idle or the current task |
| `SchedulerRuns.WakeInYieldIsIdle` | kernel/sched/scheduler.c:234-247 | when every sleeper has a deadline in the future, the wake scan inside scheduler_yield wakes no one |
| `SchedulerRuns.SelectingStep` | kernel/sched/scheduler.c:916-1062 | yield, preempt, blocking sleep and exit end in a hand-over to a runnable task, and a task that slept or exited is not chosen again |
| `SchedulerRuns.StepKeeps` | kernel/sched/scheduler.c:159-1077 | every atomic step keeps the invariant: one RUNNING task which is current, idle runnable, tight task_count, UNUSED above it, sleepers in the future, slots owned exactly once, not halted |
| `SchedulerRuns.RunKeeps` | kernel/sched/scheduler.c:159-1077 | every legal run keeps the invariant |
| `SchedulerRuns.ReachableInv` | kernel/sched/scheduler.c:916-951 | the invariant holds after every legal run from boot, so the "No runnable task remains" loop is never entered |
| `SchedulerRuns.SlotUsedIffOwned` | kernel/memory/address_space.c:110-136 | in every reachable state a page-table slot is marked used iff a live user task owns it |
| `SchedulerRuns.FailedCreateChangesNothing` | kernel/sched/scheduler.c:368-561 | a failed user-task creation on any failing path leaves task states, task_count, current task and slot usage as they were |
| `SchedulerRuns.CreateUserSucceedsIff` | kernel/sched/scheduler.c:379-561 | the table step of a creation succeeds iff its inputs were accepted and both a task slot and a page-table slot are free |
| `SchedulerRuns.ZombieStep` | kernel/sched/scheduler.c:690-791 | a ZOMBIE can only become UNUSED, only through a reap or its parent waiting for it or for any child, and keeps its exit status until then |
| `SchedulerRuns.StepApproaches` | kernel/sched/scheduler.c:249-270 | with t READY, each step that selects brings the scan strictly closer to t and each other step keeps current_task |
| `SchedulerRuns.BoundedBypass` | kernel/sched/scheduler.c:249-270 | over any legal run in which t stays READY at most six selections happen, whatever is created, reaped, blocked or terminated meanwhile |
| `SchedulerRuns.RunsWithinSevenSelections` | kernel/sched/scheduler.c:916-1023 | a task that stays runnable becomes the current task within seven selections |
| `SchedulerRuns.SleepTicksExactIff` | kernel/sched/scheduler.c:970-992 | the tick count is max(1, ceil(ms / interval)) iff the 64-bit addition does not wrap or one tick is enough |
| `SchedulerRuns.SleepTicksWrapWitness` | kernel/sched/scheduler.c:970-992 | a concrete wrap: the longest sleep at interval 10 lasts one tick |
| `SchedulerRuns.SleepBegins` | kernel/sched/scheduler.c:970-992 | a blocking sleep leaves the caller SLEEPING, with its deadline exactly that many ticks ahead, iff the 64-bit deadline does not wrap; otherwise the caller is runnable again at once |
| `SchedulerRuns.LongestSleepReturns` | kernel/sched/scheduler.c:970-992 | at interval 1 and any tick but the first the longest sleep wraps its deadline and the caller is runnable at once |
| `SchedulerRuns.SleepWrapWitness` | kernel/sched/scheduler.c:970-1035 | from boot: one thread, started by the first tick, asks for the longest sleep and goes on running |
| `SchedulerRuns.SleepYields` | kernel/sched/scheduler.c:970-992 | a sleep is a yield from its selection point; after a wrap the wake scan inside that yield wakes the caller and nobody else |
| `SchedulerRuns.SleepIsExact` | kernel/sched/scheduler.c:970-1035 | from the call on: unless an addition wraps, in any later run that reaches tick T + max(1, ceil(ms / interval)) without terminating the caller, it sleeps at every moment before that tick and is runnable at its first moment |
| `SchedulerRuns.SleeperStep` | kernel/sched/scheduler.c:234-247 | unless terminated, a sleeper keeps sleeping with the same deadline or becomes runnable at the tick that equals it |
| `SchedulerRuns.WakesExactlyAtDeadline` | kernel/sched/scheduler.c:916-1035 | in any run that reaches the deadline without terminating the sleeper there is a first moment at that tick where it is runnable, and it sleeps at every earlier moment |
| `SchedulerKin.KinStepIff` | kernel/sched/scheduler.c:690-820 | from sound parent links a step leaves them sound iff it neither links to an unused slot nor clears a zombie with a surviving child |
| `SchedulerKin.ReachableKin` | kernel/sched/scheduler.c:159-1077 | over every run from boot that severs no link each live task has no parent or one that still exists |
| `SchedulerKin.ExitOrphans` | kernel/sched/scheduler.c:1042-1062 | a task that exits is nobody's parent any more |
| `SchedulerKin.TerminateKeepsChildren` | kernel/sched/scheduler.c:805-820 | terminating a task changes no other task, so its children keep it as parent |
| `SchedulerKin.StrangerInherits` | kernel/sched/scheduler.c:805-820 | after such a zombie is reaped, the next task created with its pid has no parent and is the parent of those children; in any later table where it is current it may terminate a child iff the child is no zombie |
| `SchedulerKin.StrangerInheritsFromBoot` | kernel/sched/scheduler.c:690-820 | a run of eleven steps from boot after which a thread runs that may terminate a child it never had |
| `SchedulerKin.WaitClears` | kernel/sched/scheduler.c:748-791 | a wait clears exactly the user zombie child that is waited for, or for pid 0 the first zombie child, and no other task |
| `SchedulerAnswers.WaitAnswers` | kernel/sched/scheduler.c:748-791 | for every table and pid a wait reports a child with the exit code and success it left iff one is awaited, asks to wait on iff a child still has to end, and fails otherwise |
| `SchedulerAnswers.ExitLeaves` | kernel/sched/scheduler.c:1042-1062 | what each end of a task body leaves in its entry: a zombie with its code and success |
| `SchedulerAnswers.ExitCodeArrives` | kernel/sched/scheduler.c:748-1062 | in any later run that does not clear the task, the parent that waits for it is told the code it exited with and that it succeeded |
| `SchedulerAnswers.TerminationArrives` | kernel/sched/scheduler.c:748-820 | likewise the code of a termination, as a failure |
| `SchedulerAnswers.TerminateMeaning` | kernel/sched/scheduler.c:805-820 | succeeds iff the pid is a living child of the caller; only that task changes, to a failed zombie with the code |
| `SchedulerAnswers.BlockMeaning` | kernel/sched/scheduler.c:612-653 | succeeds iff the pid is a ready kernel thread other than idle and the caller; only its state changes, and unblocking brings it back |
| `SchedulerAnswers.UnblockMeaning` | kernel/sched/scheduler.c:655-688 | succeeds iff the pid is a blocked kernel thread other than idle; only its state changes |
| `SchedulerAnswers.UnblockUserMeaning` | kernel/sched/scheduler.c:563-610 | succeeds iff the pid is a blocked user task; only its state changes |
| `SchedulerAnswers.SetParentMeaning` | kernel/sched/scheduler.c:793-803 | succeeds iff both pids are counted, not idle and different; only the link changes |
| `SchedulerAnswers.CreateKernelMeaning` | kernel/sched/scheduler.c:272-333 | a thread is created iff a task slot is unused; it gets the lowest one as a fresh ready orphan and nothing else changes |
| `SchedulerAnswers.CreateUserMeaning` | kernel/sched/scheduler.c:431-561 | a created user task is a fresh blocked orphan in the lowest unused task slot with the lowest free page-table slot, and nothing else changes |
| `SchedulerAnswers.ReapMeaning` | kernel/sched/scheduler.c:690-722 | succeeds iff the pid is a zombie other than idle and the caller; exactly that task is cleared |
| `SchedulerAnswers.ReapAllMeaning` | kernel/sched/scheduler.c:724-746 | clears every zombie but the caller and returns how many there were |
| `SchedulerAnswers.ClockMeaning` | kernel/sched/scheduler.c:994-1035 | one timer interrupt is one tick modulo 2^64, and no other entry point moves the clock |
| `SchedulerAnswers.SleepWithoutTimer` | kernel/sched/scheduler.c:970-992 | before threads start, in idle and without an interval a sleep leaves the table alone |
| `TaskTable.KernelScheduler.constructor` | kernel/sched/scheduler.c:335-347 | the arrays start as the initial table |
| `TaskTable.KernelScheduler.WakeSleepers` | kernel/sched/scheduler.c:234-247 | the loop over task_count computes exactly the woken table |
| `TaskTable.KernelScheduler.SelectNext` | kernel/sched/scheduler.c:249-270 | the modulo scan returns the specified next task |
| `TaskTable.KernelScheduler.YieldNow` | kernel/sched/scheduler.c:916-968 | the in-place table becomes the specified one, including the halt branch |
| `TaskTable.KernelScheduler.TimerInterrupt` | kernel/sched/scheduler.c:994-1035 | the in-place table becomes the specified one after a tick |
| `TaskTable.KernelScheduler.SleepFor` | kernel/sched/scheduler.c:970-992 | the in-place table becomes the specified one; the busy-wait path leaves it alone |
| `TaskTable.KernelScheduler.ExitCurrent` | kernel/sched/scheduler.c:1042-1062 | outcome recorded, children orphaned, ZOMBIE, then yield, as specified |
| `TaskTable.KernelScheduler.CreateThread` | kernel/sched/scheduler.c:272-333 | the kernel-thread creation computes the specified table and pid |
| `TaskTable.KernelScheduler.CreateUserFrom` | kernel/sched/scheduler.c:431-561 | the table side of the creation with all its failing paths computes the specified table and pid |
| `TaskTable.KernelScheduler.AdmitPid` | kernel/sched/scheduler.c:460-556 | page-table slot, task entry and the way back on failure compute the specified table |
| `TaskTable.KernelScheduler.AllocSlot` | kernel/memory/address_space.c:110-136 | the scan takes the lowest unused page-table slot or reports none |
| `TaskTable.KernelScheduler.ClearTask` | kernel/sched/scheduler.c:159-175 | clearing a task slot frees its page-table slot and blanks the task |
| `TaskTable.KernelScheduler.TrimUnusedTail` | kernel/sched/scheduler.c:177-183 | task_count drops to just above the last slot that is not UNUSED |
| `TaskTable.KernelScheduler.ReapOne` | kernel/sched/scheduler.c:690-722 | reaping clears exactly a ZOMBIE that is neither idle nor current |
| `TaskTable.KernelScheduler.ReapEvery` | kernel/sched/scheduler.c:724-746 | the sweep computes the specified table and count |
| `TaskTable.KernelScheduler.WaitFor` | kernel/sched/scheduler.c:748-791 | wait on one child or any child computes the specified table, result and status |
| `TaskTable.KernelScheduler.UnblockUserPid` | kernel/sched/scheduler.c:563-610 | a BLOCKED user task with tables becomes READY, anything else is refused |
| `TaskTable.KernelScheduler.BlockPid` | kernel/sched/scheduler.c:612-653 | blocking computes the specified table and result |
| `TaskTable.KernelScheduler.UnblockPid` | kernel/sched/scheduler.c:655-688 | unblocking computes the specified table and result |
| `TaskTable.KernelScheduler.SetParentOf` | kernel/sched/scheduler.c:793-803 | setting the parent computes the specified table and result |
| `TaskTable.KernelScheduler.TerminatePid` | kernel/sched/scheduler.c:805-820 | terminating a child computes the specified table and result, without orphaning its children |
| `TaskTable.KernelScheduler.StartAll` | kernel/sched/scheduler.c:1064-1077 | starting threads computes the specified table |
| `RamFsTree.EmptyInv` | kernel/fs/vfs.c:140-150 | the table after vfs_init is an empty tree whatever the storage held |
| `RamFsTree.AllocationSucceeds` | kernel/fs/vfs.c:118-128 | node allocation never fails once a count check has passed |
| `RamFsTree.AncestorExists` | kernel/fs/vfs.c:90-116 | tree closure: everything above an existing node is an existing directory |
| `RamFsTree.NothingBelow` | kernel/fs/vfs.c:214-302 | nothing lies below a name that is not an existing directory |
| `RamFsTree.MovedInjective` | kernel/fs/vfs.c:214-302 | prefix substitution keeps different names different when nothing lies at or below the new name |
| `RamFsTree.RenameSubstitutes` | kernel/fs/vfs.c:214-302 | a successful rename substitutes the prefix on the node and all its descendants and changes no data, kind, size, count or other path |
| `RamFsTree.RenameKeeps` | kernel/fs/vfs.c:214-302 | rename keeps paths unique, valid and below 48 bytes and every parent an existing directory; a failed rename changes nothing |
| `RamFsTree.RenameLookup` | kernel/fs/vfs.c:214-302 | in the node table each old name is found under its substituted name with the same kind and content, and nothing else is found |
| `RamFsTree.RenameOthers` | kernel/fs/vfs.c:214-302 | a name that is neither moved nor moved onto keeps its node |
| `RamFsTree.RenameSucceedsIff` | kernel/fs/vfs.c:214-302 | for files and directories alike: succeeds iff the old name exists, the new one is valid and free with a standing parent, a directory does not move below itself, and no path of the subtree reaches 48 bytes |
| `RamFsTree.RemoveSucceedsIff` | kernel/fs/vfs.c:174-212 | succeeds iff the name exists and nothing lies below it |
| `RamFsTree.MkdirSucceedsIff` | kernel/fs/vfs.c:152-172 | succeeds iff the path is valid and free, its parent stands and fewer than eight directories exist |
| `RamFsTree.RenameBack` | kernel/fs/vfs.c:214-302 | after a successful rename, renaming back succeeds and restores the filesystem exactly |
| `RamFsTree.MkdirKeeps` | kernel/fs/vfs.c:152-172 | mkdir keeps the tree invariant and exact counts |
| `RamFsTree.CreateKeeps` | kernel/fs/vfs.c:346-380 | create keeps the tree invariant and exact counts |
| `RamFsTree.CreateMeaning` | kernel/fs/vfs.c:346-380 | a creation succeeds iff the path is valid, new, below an existing directory, the bytes fit and fewer than eight files exist; it then adds exactly that file, and otherwise changes nothing |
| `RamFsTree.RemoveKeeps` | kernel/fs/vfs.c:174-212 | remove keeps the tree invariant and exact counts: a directory is removed only when nothing lies below it |
| `RamFsTree.WriteMeaning` | kernel/fs/vfs.c:382-432 | for every offset: a write succeeds iff the path is a file and the bytes fit, changes exactly that file, overwrites exactly those bytes and leaves the node's old bytes in a gap; otherwise nothing changes |
| `RamFsTree.TruncateMeaning` | kernel/fs/vfs.c:434-474 | truncation cuts the tail or grows with zeros whatever the buffer held, for exactly that file |
| `RamFsTree.WriteBeyondEnd` | kernel/fs/vfs.c:382-432 | a write beyond the end makes the gap read as whatever bytes the node buffer held there |
| `RamFsTree.GapIsStale` | kernel/fs/vfs.c:382-432 | for every size and larger offset there is a run after which the gap shows bytes written earlier |
| `RamFsTree.ListEnumerates` | kernel/fs/vfs.c:583-617 | listing index i yields an entry iff i < file_count + dir_count, with the node's kind and size, and no name twice |
| `RamFsTree.EveryNameListed` | kernel/fs/vfs.c:583-617 | every existing name is listed at some index |
| `RamFsTree.OpKeeps` | kernel/fs/vfs.c:152-474 | each of mkdir, create, remove, rename, write and truncate keeps the tree invariant |
| `RamFsTree.RunKeeps` | kernel/fs/vfs.c:152-474 | every run keeps unique valid paths, existing parents and exact counts of at most eight each |
| `RamFsTable.RamFileSystem.Reset` | kernel/fs/vfs.c:140-150 | the in-place clearing gives the empty table |
| `RamFsTable.RamFileSystem.Locate` | kernel/fs/vfs.c:77-88 | the scan returns the first used node with that path |
| `RamFsTable.RamFileSystem.HasParent` | kernel/fs/vfs.c:90-116 | the character scan and prefix lookup decide whether the parent directory exists |
| `RamFsTable.RamFileSystem.Allocate` | kernel/fs/vfs.c:118-128 | the scan returns the first unused node |
| `RamFsTable.RamFileSystem.Mkdir` | kernel/fs/vfs.c:152-172 | in place, the table becomes the specified one |
| `RamFsTable.RamFileSystem.Create` | kernel/fs/vfs.c:346-380 | in place, the table becomes the specified one |
| `RamFsTable.RamFileSystem.Unlink` | kernel/fs/vfs.c:174-212 | in place, the table becomes the specified one; the descendant scan decides emptiness |
| `RamFsTable.RamFileSystem.DescendantsFit` | kernel/fs/vfs.c:246-270 | the length pre-check decides whether some descendant path would reach 48 bytes |
| `RamFsTable.RamFileSystem.Move` | kernel/fs/vfs.c:214-302 | the rewrite loop turns the table into the specified one, or leaves it alone |
| `RamFsTable.RamFileSystem.WriteAt` | kernel/fs/vfs.c:418-431 | in place, the table becomes the specified one |
| `RamFsTable.RamFileSystem.SetSize` | kernel/fs/vfs.c:461-473 | in place, the table becomes the specified one |
| `RamFsTable.RamFileSystem.ReadAt` | kernel/fs/vfs.c:505-518 | the copy loop returns the specified clipped bytes |
| `RamFsTable.RamFileSystem.ListAt` | kernel/fs/vfs.c:583-617 | the counting scan returns the specified entry |
| `Paths.ResolveDiskPath` | kernel/fs/vfs.c:25-43 | the prefix comparison returns the SaturnFS path behind /disk, or none |
| `Paths.FindLastSlash` | kernel/fs/vfs.c:90-116 | the scan returns the last slash position |
| `Paths.IsBelow` | kernel/fs/vfs.c:191-200 | the matched-length loop decides whether a path lies below a directory |
| `Paths.PathEquals` | kernel/fs/vfs.c:66-75 | the character loop decides equality |
| `Vfs.WriteMeaning` | kernel/fs/vfs.c:382-432 | for every path, offset and buffer: the write succeeds iff the file exists, the bytes fit and, under /disk, there is at least one; it then leaves exactly the written content in exactly that file, and otherwise changes nothing |
| `Vfs.WriteIsSparseIff` | kernel/fs/vfs.c:382-432 | a successful write is the byte operation that grows with zeros iff the offset lies within or at the end of the file or the buffer behind it is zero in the gap |
| `Vfs.ReadBack` | kernel/fs/vfs.c:382-519 | reading back what was just written returns it on both backends |
| `Vfs.DiskWriteBeyondEnd` | kernel/fs/vfs.c:390-416 | under /disk a write beyond the end fills the gap from the shared buffer |
| `Vfs.GapShowsOtherFile` | kernel/fs/vfs.c:390-503 | reading any longer file under /disk and then writing beyond the end of another copies bytes of the first into the second |
| `Vfs.TruncateMeaning` | kernel/fs/vfs.c:434-474 | on both backends truncation cuts or zero-extends exactly one file, or fails and changes nothing |
| `Vfs.ReadMeaning` | kernel/fs/vfs.c:476-519 | on both backends a read returns the end-clipped bytes and changes no file |
| `Vfs.DiskWriteRewrites` | kernel/fs/vfs.c:390-416 | for every offset the read-modify-rewrite hands exactly the specified content to SaturnFS |
| `Vfs.DiskTruncateRewrites` | kernel/fs/vfs.c:439-459 | truncation through the shared buffer hands exactly the resized content to SaturnFS, whatever the buffer held |
| `VfsNames.CreateMeaning` | kernel/fs/vfs.c:346-380 | on both backends: a creation succeeds exactly under its conditions, an existing file being refused in RAM and overwritten under /disk; it then leaves the bytes in exactly that file, and otherwise changes nothing |
| `VfsNames.StatMeaning` | kernel/fs/vfs.c:304-344 | the size of a file is that of the bytes a read returns, on both backends, and no file changes |
| `VfsNames.MkdirMeaning` | kernel/fs/vfs.c:152-172 | succeeds iff the path is valid and free, its parent stands and there is room; no file that can be read changes |
| `VfsNames.RemoveMeaning` | kernel/fs/vfs.c:174-212 | succeeds iff the node exists and nothing lies below it; takes away exactly one RAM file, and under /disk nothing that can be read |
| `VfsNames.RenameSucceedsIff` | kernel/fs/vfs.c:214-302 | when a rename succeeds, in terms of the node table alone |
| `VfsNames.RenameSeenIff` | kernel/fs/vfs.c:214-519 | after a rename a file of the node table can be read under its substituted name iff that name is not under /disk or SaturnFS holds the same bytes there |
| `VfsNames.RenameHides` | kernel/fs/vfs.c:214-519 | a file renamed to a name under /disk is gone under its old name, and the new name reads and stats as before |
| `VfsNames.RenameHidesWitness` | kernel/fs/vfs.c:152-519 | mkdir /disk, create /f and rename /f to /disk/f all succeed, and the file cannot be read any more |
| `VfsNames.RenameElsewhere` | kernel/fs/vfs.c:214-302 | names outside the old and the new subtree keep their files |
| `VfsNames.OpKeeps` | kernel/fs/vfs.c:152-519 | each of the eight calls keeps both backends consistent and every file whose name it does not touch |
| `VfsNames.RunKeeps` | kernel/fs/vfs.c:152-519 | over every run of VFS calls both backends stay consistent, and a file whose name no call touches is the same at the end |
| `VfsDispatch.FileLayer.Load` | kernel/fs/vfs.c:400-406 | a file is read into the shared buffer, or nothing changes |
| `VfsDispatch.FileLayer.WriteAt` | kernel/fs/vfs.c:382-432 | dispatch, buffer update and rewrite compute the specified state |
| `VfsDispatch.FileLayer.SetSize` | kernel/fs/vfs.c:434-474 | dispatch, zero fill and rewrite compute the specified state |
| `VfsDispatch.FileLayer.ReadAt` | kernel/fs/vfs.c:476-519 | dispatch and clipped copy compute the specified result |
| `VfsDispatch.FileLayer.CreateAt` | kernel/fs/vfs.c:346-380 | dispatch computes the specified state, which VfsNames.CreateMeaning describes |
| `VfsDispatch.FileLayer.MkdirAt` | kernel/fs/vfs.c:152-172 | the call works on the node table and computes the specified state |
| `VfsDispatch.FileLayer.RemoveAt` | kernel/fs/vfs.c:174-212 | the call works on the node table and computes the specified state |
| `VfsDispatch.FileLayer.RenameAt` | kernel/fs/vfs.c:214-302 | the call works on the node table and computes the specified state |
| `VfsDispatch.FileLayer.StatAt` | kernel/fs/vfs.c:304-344 | dispatch computes the specified answer and leaves the files alone |
| `SaturnFs.WordRoundTrip` | kernel/fs/sfs.c:13-36 | a 32-bit little-endian field reads back as written |
| `SaturnFs.ChecksumBound` | kernel/fs/sfs.c:74-82 | the accumulated checksum stays within 32 bits |
| `ChecksumDetects.OneByteDetected` | kernel/fs/sfs.c:74-82 | for data of any length, replacing one byte keeps the checksum iff the byte is the same |
| `ChecksumDetects.VisibleStays` | kernel/fs/sfs.c:74-82 | a difference of checksum values that two rounds do not cancel is cancelled by no further round |
| `ChecksumDetects.DamagedImageRejected` | kernel/user/executable.c:16-62 | a valid executable with one payload byte replaced is rejected |
| `SaturnFsMount.DamageIsNoticed` | kernel/fs/sfs.c:225-245 | a file with one byte damaged on the device is never returned, and every other file reads as before |
| `SaturnFsMount.AcceptedIff` | kernel/fs/sfs.c:150-158 | the superblock tests accept exactly the sectors that start like a superblock of a device no larger than this one |
| `SaturnFsMount.MountMeaning` | kernel/fs/sfs.c:140-178 | for any device: only a blank one is written to; any other is left as it is, and mounted with the directory it holds iff its superblock is accepted |
| `SaturnFs.DirRoundTrip` | kernel/fs/sfs.c:97-100 | the directory sector decodes to the directory that was encoded |
| `SaturnFs.PathStored` | kernel/fs/sfs.c:180-223 | a stored path with its NUL is read back as that path whatever follows in the field |
| `SaturnFsMap.FormatEmpties` | kernel/fs/sfs.c:102-138 | formatting a large enough disk gives a mounted, consistent filesystem without files |
| `SaturnFsMap.ReadReturnsContent` | kernel/fs/sfs.c:225-245 | a read returns exactly the bytes the map holds, and fails iff the file is absent or too large for the caller |
| `SaturnFsMap.WriteUpdatesOne` | kernel/fs/sfs.c:180-223 | a completed write updates the map at exactly one path and keeps the invariant |
| `SaturnFsMap.MountLoads` | kernel/fs/sfs.c:140-178 | mounting a disk with the superblock and a directory loads exactly that directory |
| `SaturnFsMap.RemountRecovers` | kernel/fs/sfs.c:140-178 | remounting with any leftover memory state recovers the same filesystem |
| `SaturnFsMap.BlankDiskIsFormatted` | kernel/fs/sfs.c:140-178 | a blank disk is formatted on first mount |
| `SaturnFsMap.InterruptedWrite` | kernel/fs/sfs.c:140-245 | if a write stops after any change to its extent but before the directory write, then after remount other files read as before, a new file is absent, and an overwritten one fails to read or returns old-size bytes with the stored checksum |
| `SaturnFsMap.FailedDataWrite` | kernel/fs/sfs.c:180-223 | a failed data write touches only the target extent and leaves the directory alone |
| `SaturnFsMap.FailedDirectoryWriteIsVisible` | kernel/fs/sfs.c:180-223 | a failed directory write returns failure while the new content is already visible in memory |
| `SaturnFsMap.FailedDirectoryWriteUndone` | kernel/fs/sfs.c:140-223 | if the failed write left the old directory sector, the next mount brings the old directory back: other files read as before and a new file is gone |
| `SaturnFsFailures.DirectoryFailureHarmlessIff` | kernel/fs/sfs.c:180-223 | after a failed directory write every path reads as before iff the file already held the new bytes |
| `SaturnFsFailures.AfterMount` | kernel/fs/sfs.c:140-223 | after a failed directory write the next mount loads exactly what the sector left behind decodes to, so the old or the new directory is found iff it decodes to that |
| `SaturnFsFailures.FailureSurvivesMount` | kernel/fs/sfs.c:140-223 | if the failed write did reach the sector, the new content is there after the mount |
| `SaturnFsFailures.DataFailureHarmlessIff` | kernel/fs/sfs.c:180-223 | after a failed data write every path reads as before iff the file was absent or its old bytes are still at the start of the extent |
| `SaturnFsRefines.RoomIff` | kernel/fs/sfs.c:180-223 | the directory has a free entry iff the map it stands for has fewer than eight files |
| `SaturnFsRefines.ReadRefines` | kernel/fs/sfs.c:225-245 | a read returns what the map holds, and fails iff the path is absent or its bytes exceed the capacity |
| `SaturnFsRefines.WriteRefines` | kernel/fs/sfs.c:180-223 | a write is the put of the map: taken, and reported as such, iff the path is valid, the bytes fit, and the path exists or fewer than eight files do |
| `SaturnFsRefines.RemountRefines` | kernel/fs/sfs.c:140-178 | a remount leaves the map as it is, whatever was in memory |
| `SaturnFsRefines.FormatRefines` | kernel/fs/sfs.c:102-138 | a format empties the map |
| `SaturnFsRefines.RunRefines` | kernel/fs/sfs.c:102-245 | over every run of writes, remounts and formats the filesystem stands for what the same run makes of the map |
| `SaturnFsRefines.BlankRunReads` | kernel/fs/sfs.c:102-245 | from a blank device on, what any path reads after any run is decided by the run alone |
| `SaturnFsDriver.RamDisk.Admit` | kernel/storage/block.c:42-50 | requests are admitted iff the range of sectors lies on the device, without overflow |
| `SaturnFsDriver.RamDisk.ReadBlocks` | kernel/storage/block.c:42-70 | the nested copy returns exactly the requested sectors and the statistics count it |
| `SaturnFsDriver.RamDisk.WriteBlocks` | kernel/storage/block.c:72-101 | the nested copy changes exactly the requested sectors and the statistics count it |
| `SaturnFsDriver.ComputeChecksum` | kernel/fs/sfs.c:74-82 | the loop computes the specified checksum |
| `SaturnFsDriver.FileSystem.FormatDisk` | kernel/fs/sfs.c:102-138 | in place, device and directory become the specified ones |
| `SaturnFsDriver.FileSystem.Init` | kernel/fs/sfs.c:140-178 | in place, device and directory become the specified ones, including the formatting fallback |
| `SaturnFsDriver.FileSystem.Locate` | kernel/fs/sfs.c:84-95 | the scan returns the first used entry with that path |
| `SaturnFsDriver.FileSystem.Write` | kernel/fs/sfs.c:180-223 | in place, device and directory become the specified ones |
| `SaturnFsDriver.FileSystem.Read` | kernel/fs/sfs.c:225-245 | the result is the specified one and the files stay as they were |
| `Pmm.PageAllocator.constructor` | kernel/memory/pmm.c:80-91 | after pmm_init exactly the kernel image and the framebuffer range are used |
| `Pmm.PageAllocator.Mark` | kernel/memory/pmm.c:34-41 | marking adds exactly that page and keeps used_pages its size |
| `Pmm.PageAllocator.Release` | kernel/memory/pmm.c:43-50 | freeing removes exactly that page and keeps used_pages its size |
| `Pmm.PageAllocator.Reserve` | kernel/memory/pmm.c:52-78 | exactly the pages overlapping the range are added |
| `Pmm.PageAllocator.Alloc` | kernel/memory/pmm.c:93-105 | the lowest free page is taken, or 0 is returned and nothing changes |
| `Pmm.PageAllocator.Free` | kernel/memory/pmm.c:107-122 | a page-aligned RAM address frees exactly its page, any other address nothing |
| `Pmm.MaskIsShift` | kernel/memory/pmm.c:29-50 | the bit of a page inside its byte is 1 shifted by the page number mod 8 |
| `Pmm.ReservedIsBetween` | kernel/memory/pmm.c:52-78 | clipping and rounding the range gives exactly the overlapping pages |
| `HeapRuns.CoalesceKeeps` | kernel/memory/heap.c:57-81 | coalescing leaves no two adjacent contiguous free blocks and keeps the tiling and the byte counts |
| `HeapRuns.KmallocKeeps` | kernel/memory/heap.c:152-183 | kmalloc, including growth, keeps the invariant: blocks tile the grown pages in order, stay coalesced, and heap_used is the allocated sum |
| `HeapRuns.KfreeKeeps` | kernel/memory/heap.c:202-221 | kfree of a payload in the list keeps the invariant, merging across page borders too |
| `HeapRuns.BlocksDisjoint` | kernel/memory/heap.c:32-140 | no byte belongs to two blocks |
| `HeapRuns.BlockInPages` | kernel/memory/heap.c:100-140 | every byte of a block lies in a page the heap holds |
| `HeapRuns.KmallocAllocates` | kernel/memory/heap.c:152-183 | kmalloc adds exactly one live block of at least the aligned size and less than 56 bytes more, moves none, and fails exactly for size 0, a size above one page, or exhaustion |
| `HeapRuns.KmallocFirstFit` | kernel/memory/heap.c:83-98 | the block is the first free one of the list that is large enough, and no page is taken |
| `HeapRuns.KmallocGrows` | kernel/memory/heap.c:100-140 | without such a block the lowest free page joins the heap and its start is handed out |
| `HeapRuns.SplitMeaning` | kernel/memory/heap.c:32-55 | a block is cut iff a header and at least 32 bytes remain, into exactly the size asked for and one free rest |
| `HeapRuns.KmallocCoversIff` | kernel/memory/heap.c:152-183 | the block handed out is at least as large as the request iff the request is at most 2^64 - 16 |
| `HeapRuns.KmallocWrapWitness` | kernel/memory/heap.c:152-183 | as the first call after boot, with the kernel image and the framebuffer reserved, the largest request gets a block of no bytes |
| `HeapRuns.BlockInRegion` | kernel/memory/heap.c:128-136 | every byte of a block lies between heap_start and heap_end |
| `HeapRuns.AlignUpCoversIff` | kernel/memory/heap.c:22-25 | the aligned size covers the request iff the request is at most 2^64 - 16 |
| `HeapRuns.KfreeReleases` | kernel/memory/heap.c:202-221 | kfree releases exactly the block of the pointer; a second free of a listed block releases nothing |
| `HeapRuns.ByteAccounting` | kernel/memory/heap.c:223-278 | used + free + 24 per block equals 4096 per grown page, and the overhead statistic follows |
| `HeapRuns.OpKeeps` | kernel/memory/heap.c:32-221 | each allowed operation of the heap or of another page user keeps the invariant and the reservations |
| `HeapRuns.RunKeeps` | kernel/memory/heap.c:32-221 | every run of allowed operations keeps them |
| `HeapRuns.LivePayloadsSafe` | kernel/memory/heap.c:100-221 | after every allowed run from boot live payloads share no byte and touch neither the kernel image nor the framebuffer range |
| `HeapLedger.FairIsAllowed` | kernel/memory/heap.c:152-221 | with a ledger of outstanding pointers and requested sizes: what callers may do by it the heap allows, and the ledger stays exact, every entry backed by a live block at least that large and every live block entered |
| `HeapLedger.RunLedger` | kernel/memory/heap.c:152-221 | the ledger stays exact over every run of calls that do not wrap and free only what is held |
| `HeapLedger.OutstandingSafe` | kernel/memory/heap.c:152-221 | after any such run from boot the bytes asked for by the holders of different pointers never meet each other, the kernel image or the framebuffer |
| `HeapList.KernelHeap.FindFree` | kernel/memory/heap.c:83-98 | walking the links finds the first fitting block |
| `HeapList.KernelHeap.Split` | kernel/memory/heap.c:32-55 | the header updates split exactly that block in the list |
| `HeapList.KernelHeap.GrowOne` | kernel/memory/heap.c:100-140 | a page is taken, its block linked at the tail, and heap_start and heap_end stay the bounds of the grown pages |
| `HeapList.KernelHeap.CoalesceAll` | kernel/memory/heap.c:57-81 | the pointer walk computes the specified coalesced list and tail |
| `HeapList.KernelHeap.Allocate` | kernel/memory/heap.c:152-183 | in place, headers, head, tail and heap_used become the specified ones |
| `HeapList.KernelHeap.Release` | kernel/memory/heap.c:202-221 | in place, headers, head, tail and heap_used become the specified ones |
| `HeapList.KernelHeap.CountFreeBytes` | kernel/memory/heap.c:233-249 | the walk sums the sizes of the free blocks |
| `MmuMasks.IndexMasks` | arch/arm64/mmu.c:18-31 | shifting and masking are the table indices as quotient and remainder |
| `MmuMasks.FieldMasks` | arch/arm64/mmu.c:45-114 | tag, AP, XN and address masks select exactly those fields of a descriptor |
| `MmuMasks.TableDescMasks` | arch/arm64/mmu.c:33-38 | the or-ed table descriptor is address plus tag |
| `MmuMasks.BlockDescMasks` | arch/arm64/mmu.c:126-132 | the or-ed block descriptor is address plus attributes plus tag |
| `MmuMasks.PageDescMasks` | arch/arm64/mmu.c:134-140 | the or-ed page descriptor is address plus attributes plus tag |
| `Mmu.TableDescIs` | arch/arm64/mmu.c:33-66 | a table descriptor is recognised as one and gives its address back |
| `Mmu.BlockDescIs` | arch/arm64/mmu.c:51-132 | a block descriptor is recognised, and gives address, AP, XN, memory type, shareability and access flag back |
| `Mmu.PageDescIs` | arch/arm64/mmu.c:57-140 | a page descriptor is recognised, and gives address, AP, XN, memory type, shareability and access flag back |
| `Vm.AttributesFollowRanges` | kernel/memory/vm.c:168-202 | a page is executable iff it meets the kernel text, and read-only iff it meets the text or the read-only data |
| `Vm.GuardIsOneOfNine` | kernel/sched/scheduler.c:1489-1501 | the guard test holds iff the address lies in one of the nine guard pages |
| `Vm.WalksAgree` | kernel/memory/vm.c:394-461 | the lookup by slot agrees with following the level 1 descriptor in memory, up to the access flag that only the hardware tests |
| `Vm.KernelMapExact` | kernel/memory/vm.c:351-461 | the built tables translate every 32-bit MMIO or RAM address outside guard pages to itself, with the access flag set, and nothing else; MMIO is device memory and RAM shareable normal memory; executable are exactly the pages of the first block that meet the kernel text, writable exactly those that meet neither text nor read-only data; nothing is accessible from EL0 |
| `VmBuild.AddSlotKeeps` | kernel/memory/vm.c:209-236 | taking a level 2 table serves its level 1 entry, disturbs no other lookup and maps nothing |
| `VmBuild.SetBlockKeeps` | kernel/memory/vm.c:267-268 | storing an entry changes the map at that block only |
| `VmBuild.NineGuards` | kernel/memory/vm.c:302-311 | a stack region inside the first RAM block has exactly nine guard pages there |
| `VmBuild.BuiltCounts` | kernel/memory/vm.c:351-392 | a built map has 80 blocks and 512 minus the guards pages mapped |
| `VmTables.KernelTables.FindTable` | kernel/memory/vm.c:394-406 | the slot scan returns the specified slot |
| `VmTables.KernelTables.GetTable` | kernel/memory/vm.c:209-236 | the found table, or a fresh cleared one, or none when all four serve others |
| `VmTables.KernelTables.MapRegion` | kernel/memory/vm.c:245-287 | on success exactly the region's blocks are mapped, no more tables are taken than needed, and the counters grow by its blocks; a misaligned region is refused without a change, and it fails otherwise only when level 2 tables run out |
| `VmTables.KernelTables.MapKernelL3` | kernel/memory/vm.c:289-349 | the first RAM block becomes a table of pages without guards, other blocks stay, and the counters follow |
| `VmTables.KernelTables.BuildTables` | kernel/memory/vm.c:351-392 | always succeeds with the built map, and the counters equal the blocks, pages, guards and bytes really mapped |
| `VmTables.KernelTables.Lookup` | kernel/memory/vm.c:408-461 | the walk returns the specified translation |
| `VmTables.KernelTables.CheckRegion` | kernel/memory/vm.c:468-531 | the loop passes or fails, and counts, as specified |
| `VmTables.KernelTables.CheckTables` | kernel/memory/vm.c:533-588 | succeeds iff both regions pass and the three counts match |
| `VmTables.KernelTables.Init` | kernel/memory/vm.c:590-602 | always ends ready, with the exact kernel map in force |
| `VmValidate.StepFits` | kernel/memory/vm.c:480-528 | whatever the tables hold, a step never exceeds what remains, so the unsigned counter never wraps |
| `RegionScan.Visit` | kernel/memory/vm.c:480-528 | every address of a range that passes is passed by the step of an address that was looked at and passed |
| `RegionScan.Conserved` | kernel/memory/vm.c:480-528 | along a row of positions that pass, what is still counted and what was counted before make the same total |
| `VmValidate.ValidateSound` | kernel/memory/vm.c:468-531 | success on any tables means that every non-guard address of the range maps to its offset |
| `VmValidate.ValidateExact` | kernel/memory/vm.c:468-531 | on any tables every address of the range, guard or not, translates as it must iff the loop succeeds and no block entry covers a guard page of the range |
| `VmValidate.RamCorrectIff` | kernel/memory/vm.c:468-585 | on any tables all of RAM, guard pages included, translates as it must iff the region passes and at least one guard page is counted |
| `VmBlindSpot.GuardMissed` | kernel/memory/vm.c:468-588 | on the tables before map_kernel_l3_block validate_tables succeeds with fitting counters while every guard page is mapped |
| `VmValidate.ValidatesOnce` | kernel/memory/vm.c:533-588 | on built tables validate_tables succeeds iff the guard count it does not reset is zero |
| `VmValidate.ValidatorSound` | kernel/memory/vm.c:533-588 | validate_tables succeeding on any contents means every non-guard address of both regions maps to itself, and guard pages are unmapped once any guard is expected |
| `VmValidate.ValidatorComplete` | kernel/memory/vm.c:533-588 | validate_tables succeeds on whatever build_tables made, with the counts really there |
| `UserSpace.BuiltKernelIn` | kernel/memory/vm.c:351-392 | memory with the built tables satisfies what the user overlay assumes of the kernel map |
| `UserSpace.KernelWalk` | arch/arm64/mmu.c:18-140 | walking from the kernel root in such memory gives exactly the kernel map |
| `UserSpace.SharedAbove` | kernel/memory/address_space.c:102-107 | above the first gigabyte a user root walks as the kernel root |
| `UserSpace.LowBlock` | kernel/memory/address_space.c:92-100 | below it the walk is the kernel's except in the three region blocks, where only the first page is mapped |
| `UserSpace.OverlayExact` | kernel/memory/address_space.c:70-191 | for every 32-bit address a user root gives the slot's own page for the first page of code, data and stack, where the kernel maps nothing, as flagged shareable normal memory that only EL0 may execute (code) or both may write (data and stack), and the kernel's translation everywhere else |
| `UserSpace.SlotsShareNothing` | kernel/memory/address_space.c:35-38 | pages of different slots or regions share no physical byte |
| `UserTables.SlotsIsolated` | kernel/memory/address_space.c:110-191 | in every state of the slots an EL0-accessible address of a used slot leads into its own pages, and two used slots never reach the same byte |
| `LiveIsolation.MemoryShows` | kernel/memory/address_space.c:23-39 | the tables of all slots fit into one memory beside the kernel's without disturbing each other |
| `ProcessSpaces.FilledIs` | kernel/memory/address_space.c:473-564 | what address_space_init_user promises of the slots determines them: the machine's step and the code in place agree |
| `ProcessSpaces.WipedIs` | kernel/memory/address_space.c:442-471 | the same for address_space_destroy_user |
| `ProcessSpaces.SpacesKeep` | kernel/sched/scheduler.c:159-791 | whatever entry point is called, the slots it fills and wipes keep their invariant, and their flags stay those the scheduler goes by |
| `ProcessSpaces.EventKeeps` | kernel/sched/scheduler.c:159-1077 | each entry point, and each write to pages of used slots, keeps the joint invariant of task table and slots |
| `ProcessSpaces.RunKeeps` | kernel/sched/scheduler.c:159-1077 | every legal run keeps it |
| `ProcessSpaces.BootJoined` | kernel/memory/address_space.c:110-136 | it holds at boot |
| `LiveIsolation.SlotsExist` | kernel/memory/address_space.c:110-191 | every combination of used slots has tables that keep the invariant |
| `LiveIsolation.LiveTasksIsolated` | kernel/memory/address_space.c:70-191 | after any run from boot of scheduler entry points and writes to pages of used slots, two different live user tasks reach no common byte from EL0, and each only the pages of its own slot |
| `SpaceRecord.ReadyIff` | kernel/memory/address_space.c:473-564 | the readiness flags of a new space are all set iff it got a slot |
| `SpaceRecord.AdmissibleIff` | kernel/sched/scheduler.c:563-610 | an image loads iff the space has a slot and the image is valid, and exactly then the task passes the tests of scheduler_unblock_user_task, with its first instruction in the mapped code page |
| `SpaceRecord.DestroyedIsRefused` | kernel/memory/address_space.c:442-471 | a destroyed space is never admitted |
| `SpaceRecord.RangeValidIff` | kernel/memory/address_space.c:263-302 | a range is accepted iff it is empty, or does not wrap and all its bytes belong to one planned region |
| `SpaceRecord.ValidRangeMappedIff` | kernel/memory/address_space.c:263-302 | a range that the kernel accepts is accessible from EL0 iff it lies in the first page of its region |
| `SpaceRecord.StackTopUnmapped` | kernel/sched/scheduler.c:126-148 | the bytes below the initial stack pointer are unmapped |
| `UserTables.UserPools.constructor` | kernel/memory/address_space.c:23-39 | the pools start unused, empty and zero |
| `UserTables.UserPools.AllocSlot` | kernel/memory/address_space.c:110-136 | the lowest unused slot is taken and wiped, the others stay; none when all are used |
| `UserTables.UserPools.FillShared` | kernel/memory/address_space.c:70-108 | the slot's level 1 and 2 tables become the shared kernel map, or empty without one |
| `UserTables.UserPools.Install` | kernel/memory/address_space.c:138-191 | the slot's five tables become the specified overlay and other slots stay |
| `UserTables.UserPools.InitUser` | kernel/memory/address_space.c:473-564 | the lowest free slot becomes used with overlay tables and zero pages, other slots untouched; without a free slot nothing changes; the record says which |
| `UserTables.UserPools.PutPage` | kernel/memory/address_space.c:566-639 | a page of a slot becomes the given bytes and no other byte changes |
| `UserTables.UserPools.Destroy` | kernel/memory/address_space.c:442-471 | the slot becomes unused, empty and zero, other slots untouched, and the record loses its flags; a space without a slot changes nothing |
| `Executable.ParseFile` | kernel/user/executable.c:16-62 | the chain of checks with the checksum loop accepts or rejects as specified |
| `Executable.ParseOfLayout` | kernel/user/executable.c:16-62 | every valid image laid out as a file is accepted and gives itself back |
| `Executable.ParseExactlyInverse` | kernel/user/executable.c:16-62 | the parser accepts a file with an image iff the image is valid and the file is exactly its layout |
| `Launch.TokensFit` | kernel/sched/scheduler.c:402-421 | tokens are non-empty and space-free, and their strings need at most one byte more than the argument |
| `Launch.TokensKeepEverything` | kernel/sched/scheduler.c:402-421 | tokenising keeps every non-space byte in order and nothing else |
| `Launch.TokensOfSpaced` | kernel/sched/scheduler.c:402-421 | tokenising tokens that were spaced out in any way gives the tokens back |
| `Launch.SpacedTokens` | kernel/sched/scheduler.c:402-421 | every argument is its tokens spaced out |
| `Launch.CountTokens` | kernel/sched/scheduler.c:402-421 | the counting pass finds the number of tokens, or stops above eight |
| `Launch.FindToken` | kernel/sched/scheduler.c:505-513 | the copying pass finds the same next token as the counting pass |
| `Launch.CopyArguments` | kernel/sched/scheduler.c:496-534 | the copying pass writes the NUL-terminated tokens and computes argv and lengths |
| `Launch.Store` | kernel/memory/address_space.c:617-639 | a write that fits changes exactly those bytes of the data page, any other is refused without a change |
| `Launch.LoadImage` | kernel/memory/address_space.c:566-615 | an image is loaded iff the space has mapped pages and the image is valid; both pages then hold it followed by zeros and the record has its entry, size and checksum, and otherwise all stay as they were |
| `Launch.ChecksumOfPage` | kernel/memory/address_space.c:57-68 | the loop computes the specified checksum |
| `Launch.ChecksumOfPrefix` | kernel/memory/address_space.c:57-68 | the padding of the page does not enter it |
| `Launch.CheckArgument` | kernel/sched/scheduler.c:390-429 | length, token count and room decide acceptance as specified |
| `Launch.WriteArguments` | kernel/sched/scheduler.c:494-556 | over a loaded page every write succeeds and the page ends as laid out |
| `Launch.WritesNeverFail` | kernel/sched/scheduler.c:517-556 | for every accepted argument each data-page write fits, so the failure branches are dead |
| `Launch.ArgvPointsAtTokens` | kernel/sched/scheduler.c:514-547 | argv[k] and lengths[k] on the final page give exactly the k-th token, NUL-terminated, above the tables |
| `Launch.WritesGiveFinalPage` | kernel/sched/scheduler.c:494-556 | the writes together give data, zero padding, argv, lengths, then the strings, overlapping nothing |
| `Launch.PrepareDataPage` | kernel/sched/scheduler.c:390-556 | for every argument the page ends as that layout, or the argument is refused and the page untouched |
| `ProgramStart.CreationIff` | kernel/sched/scheduler.c:368-561 | a task is created iff the file is the layout of a valid image, the argument fits behind its data, and a task slot and a page-table slot are free; otherwise no state, count or slot changes |
| `ProgramStart.CreateProgram` | kernel/sched/scheduler.c:368-561 | in place, task table and slots become what one creation followed by page writes makes of them in the joint machine, and the pages of the slot that a created task owns hold its code, its data with the arguments laid out, and zeros |
| `ProgramStart.LoadProgram` | kernel/memory/address_space.c:473-639 | the lowest free slot is filled, its pages hold the program, the record is the loaded one, and nothing else changes |
| `ProgramStart.CreationJoined` | kernel/sched/scheduler.c:368-561 | such a creation keeps the joint invariant |
| `ProgramStart.UnblockIsAdmission` | kernel/sched/scheduler.c:563-610 | on the record that creation left for a live task, it is made ready iff it is blocked and passes the admission tests |
| `ProgramStart.ReapProgram` | kernel/sched/scheduler.c:690-722 | in place, task table and slots become what a reap makes of them in the joint machine |
| `KeyboardRuns.InitialInv` | drivers/keyboard/keyboard.c:247-250 | after set-up all sixteen buffers are offered and the invariant holds |
| `KeyboardMeaning.ShiftIff` | drivers/keyboard/keyboard.c:459-463 | shift is on iff the last event of a shift key is no release |
| `KeyboardMeaning.ShiftIsHeldIff` | drivers/keyboard/keyboard.c:459-463 | shift is whether a shift key is held, except when one of two held keys was just released |
| `KeyboardMeaning.ShiftLostWitness` | drivers/keyboard/keyboard.c:459-463 | both pressed, one released: shift is off although the other is held |
| `KeyboardMeaning.TypedIff` | drivers/keyboard/keyboard.c:454-476 | a character is typed by pressing or repeating a key that has one, and by nothing else |
| `KeyboardMeaning.NextTyped` | drivers/keyboard/keyboard.c:431-480 | each such event adds its character by the shift state at that moment |
| `KeyboardMeaning.ShiftedLetter` | drivers/keyboard/keyboard.c:339-476 | after a shift press a letter key types upper case, after the release lower case |
| `KeyboardMeaning.NamedKeys` | drivers/keyboard/keyboard.c:368-421 | enter, tab, blank, backspace and the cursor keys type different control characters, with shift or without |
| `KeyboardMeaning.ShiftedKeys` | drivers/keyboard/keyboard.c:339-428 | every other key types a printable character of its own and, with shift, the one that belongs to it on the US layout, or nothing |
| `KeyboardMeaning.KeysDiffer` | drivers/keyboard/keyboard.c:339-428 | no two keys type the same character |
| `KeyboardRuns.ComparisonsExact` | drivers/keyboard/keyboard.c:431-480 | the 16-bit index comparisons decide what unbounded counters would, and avail.idx - last_used is 16 modulo 2^16 |
| `KeyboardRuns.StepKeeps` | drivers/keyboard/keyboard.c:157-480 | every driver or device step keeps the invariant |
| `KeyboardRuns.RunKeeps` | drivers/keyboard/keyboard.c:157-480 | every run of both keeps it |
| `KeyboardRuns.ProtocolSafe` | drivers/keyboard/keyboard.c:157-480 | for every interleaving each buffer is in exactly one of offered, held or used-but-unread, the output is the fold of the consumed events, none lost, repeated or reordered, and shift is on iff the last consumed event of a shift key is no release |
| `KeyboardRuns.CallReturnsNext` | drivers/keyboard/keyboard.c:431-480 | whatever device steps come between the turns of a call, it returns the next character of the published stream, or none after consuming all published by then |
| `KeyboardRuns.ReadCharReturnsNext` | drivers/keyboard/keyboard.c:431-480 | the same for a quiet device, where the call is a function of the state |
| `Keyboard.ReadCharStep` | drivers/keyboard/keyboard.c:431-480 | a call is the polling of one event followed by the rest of the call, and the backlog shrinks |
| `KeyboardDriver.VirtioKeyboard.constructor` | drivers/keyboard/keyboard.c:247-250 | the rings start with all buffers offered and every descriptor leading to its buffer |
| `KeyboardDriver.VirtioKeyboard.Offer` | drivers/keyboard/keyboard.c:157-171 | offering a buffer writes its descriptor, stores it in the ring, advances avail.idx modulo 2^16 and notifies the device |
| `KeyboardDriver.VirtioKeyboard.PollOnce` | drivers/keyboard/keyboard.c:436-476 | one turn of the loop computes the specified state and character |
| `KeyboardDriver.VirtioKeyboard.ReadNext` | drivers/keyboard/keyboard.c:431-480 | the loop computes the specified state and character |

## Left out

- The timer interrupt inside an entry point: every scheduler entry point is one atomic step, and the end of a program with `scheduler_exit_task` is one step.
- scheduler_tick: not on the live interrupt path, which calls `scheduler_preempt`.
- scheduler_run_user_task and EL0 sessions: a program run is abstracted to finishing with a code or failing.
- Calls of `scheduler_yield` before threads start, and an exit of the idle task: neither occurs, so runs exclude them.
- Task names, contexts, open files, accounting counters and dump functions: they never influence scheduling.
- TaskTable.KernelScheduler.UnblockUserPid: does not read the readiness flags of the address space, because ProgramStart.UnblockIsAdmission proves that for a live task they are set.
- TaskTable.KernelScheduler.AllocSlot: does not clear the tables and pages of the slot, because UserTables.UserPools.AllocSlot does.
- TaskTable.KernelScheduler.CreateUserFrom: takes the outcome of the checks and writes as parameters, because ProgramStart.CreateProgram computes them from file and argument.
- SchedulerRuns.CreateUserSucceedsIff: leaves acceptance a parameter, because ProgramStart.CreationIff says when it holds.
- Paths are character sequences up to their NUL; the bytes behind it in a node's path field are not modelled.
- Null pointer arguments, `vfs_file_data` and the syscall wrappers: thin lookups.
- Vfs and SaturnFsDriver.FileSystem.Write: the in-place device never fails; failing and interrupted I/O are in SaturnFsMap and SaturnFsFailures.
- The in-memory superblock copy of SaturnFS and its dump: constant while mounted.
- The virtio block driver, its polling and timeouts: the device is an array of sectors whose operations may fail.
- `kzalloc` and `heap_self_test`: easy additions.
- Heap payload alignment beyond 8 bytes: the code does not provide it.
- Range and permission scans over the kernel map, region names and reports in `vm.c`: they only read and print.
- VmTables.KernelTables.CheckTables: does not repeat the three alignment tests as statements, because the tables are aligned by declaration; the specification function VmValidate.ValidateTables contains them.
- `vm_regions` has two entries; VmTables.KernelTables.MapRegions and CheckTables treat them one after the other instead of in a loop.
- TLB maintenance, barriers, system registers and the MMU switch: hardware effects.
- UserTables.UserPools.InitUser: does not model names, planned ranges and counts in the record that are constants of every user space, nor the status codes that repeat its flags.
- UserTables.UserPools.Destroy: does not model the status codes that repeat the flags of the record.
- ProgramStart.LoadProgram: builds the code and data page in two buffers before they are copied into the slot, where the source writes into the slot's pages directly.
- HeapLedger.RunLedger: speaks of runs in which no request wraps; HeapRuns.KmallocCoversIff says what a request that wraps gets.
- KeyboardRuns.ReadCharReturnsNext: keeps the device quiet during the call, because KeyboardRuns.CallReturnsNext covers every interleaving.
- KeyboardDriver.VirtioKeyboard.ReadNext: keeps the device quiet during the call, because KeyboardRuns.CallReturnsNext covers every interleaving.
- Virtio MMIO probing and feature negotiation, and the UART fallback of the keyboard.
- UART, framebuffer, console, panic output and the shell.
