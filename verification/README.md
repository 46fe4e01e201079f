# Verified models of the axiomeOS kernel

Dafny models of the parts of axiomeOS where a mistake corrupts state silently: the scheduler, the
filesystem and its formatter, signals, pipes, the init program, the kernel heap, the xHCI rings, the
boot page tables, the frame allocator, the Internet checksum, the UDP socket table and the initial user
stack. `dafny verify dfyconfig.toml` checks everything.

The source is imperative C, and so are the models: a class or method per component updates the same
fields in the same order, and is proved to refine a specification on values. The properties are then
proved of the specification, over every run where the component is a state machine.

| component | specification and theorems | code |
|---|---|---|
| scheduler, waitpid | `SchedState`, `SchedRuns`, `SchedFairness`, `SchedWait`, `SchedCalls` | `SchedRing` |
| axiomefs | `Axfs`, `AxfsDir`, `AxfsInv`, `AxfsWrite`, `AxfsRuns`, `AxfsNames`, `AxfsFull`, `AxfsInFile`, `AxfsPath`, `AxfsLeaks`, `Paths` | `AxfsVolume`, `AxfsLookup`, `AxfsPath` |
| formatter | `Mkfs`, `MkfsImage`, `MkfsEntries`, `MkfsSpace` | `MkfsBuild` |
| signals | `Signals`, `SignalDelivery`, `SignalRuns`, `Memory` | `Signals` (class `Process`) |
| pipes, FIFOs, descriptors | `Pipes`, `PipeRuns`, `PipeCalls` | `PipeKernel` |
| init start-up | `InitUnits` | `InitStart` |
| kernel heap | `Slab`, `Links` | `SlabHeap` |
| xHCI rings | `CycleRing` | `XhciRings` |
| boot page tables | `BootTables` | `BootBuild` |
| frame allocator | `Bitmap` | `Pmm` |
| checksum | `Checksum`, `ChecksumStream`, `ChecksumReceive` | `Checksum`, `ChecksumStream` |
| UDP sockets | `Udp`, `Links` | `UdpSockets` |
| user stack | `UserStack`, `Memory` | `UserStackSetup` |

Pointers are integers with 0 for null, and linked structures are maps from pointers to pointers. Disk
blocks are values of a block datatype rather than raw bytes. User memory is bytes, with words stored
little-endian.

## Where the code falls short of a stated or expected property

Each names the lemmas that show it fail and say exactly when the property holds.

- A waitpid caller that names a pid blocks without any live child when it holds another zombie
  (`SchedWait.StuckWaiter`, `SchedWait.BlocksWithoutLiveChild`).
- A full directory of 160 blocks makes create succeed with an inode that no name leads to
  (`AxfsNames.CreateListsIff`, `AxfsFull.FullDirectoryReached`).
- Create does not look whether the resolved parent is a directory: under a regular file it writes the new entry
  among that file's bytes, where no lookup finds it; and a directory part of more than 255 characters is cut
  (`AxfsInFile.InFileCorrupts`, `AxfsPath.CreateThenLookup`).
- A read of no bytes at offset 0 of a non-empty file returns every block of it (`AxfsVolume.Volume.Read`).
- Main suspending while everything else is blocked dispatches the idle thread, which is on no ring
  (`SchedRuns.SuspendReachesIdle`).
- Create and write do not check the block allocator's 0, so on a full volume they overwrite the superblock
  (`AxfsRuns.CreateSoundIff`, `AxfsWrite.WriteSoundIff`).
- A write that starts beyond the first unallocated block stores its data where it will not be read
  (`AxfsWrite.ReadsBackIff`).
- Unique manifest paths are not enough for the formatter: a path with a leading slash, or a name like a dot
  entry, shadows another (`MkfsImage.SlashedTwin`, `MkfsImage.DotShadows`, `MkfsImage.LookupExact`).
- Sigreturn goes back through the system-call exit path, which skips the saved rax and pops neither rcx nor r11
  (kernel/arch/x86_64/syscall.S), and the signal frame holds neither of these two. A handled signal therefore
  leaves the program with rax 0 and with the kernel's values in rcx and r11. At the exit of a system call that
  returns 0 this is harmless, since the call itself had overwritten rcx and r11; in every other case some trip is
  noticed, and at an interrupt whatever rax was (`SignalRuns.AlwaysUnnoticedIff`, `SignalRuns.UnnoticedIff`,
  `SignalRuns.LoopCounterLost`, `SignalRuns.PrintErrorLost`).
- Lower signals go first, so one that is raised again before every delivery holds SIGKILL off for good
  (`SignalRuns.Starved`, `SignalRuns.KillIsBounded`).
- Any call made while one of descriptors 0 to 2 is closed resets all three without releasing pipe ends in
  the other two, which leaks the pipe for good (`PipeRuns.ExactIff`, `PipeRuns.LeakedForever`).
- kmalloc of one of the last 23 sizes before 2^64 returns a single page (`Slab.BigPagesEnough`).
- With 254 unread entries and the controller just before the link, the next push overwrites that link; up to
  253 unread entries are always safe (`XhciRings.FitsWhenFew`, `XhciRings.FillBeforeLink`, `XhciRings.PushPastFull`).
- inet_csum wraps when words add up to 2^32, which the streaming form does not (`ChecksumStream.LongOnesWrap`,
  `ChecksumStream.WrapExact`), and the streaming form needs even pieces (`ChecksumStream.LengthsExact`).
- Frame 0 can be freed, and is then handed out as address 0, which callers take for failure
  (`Pmm.FrameAllocator.FreeFrame`, `Pmm.FrameAllocator.AllocFrame`).
- More than 512 identity GiB make the directory pointers run over into the first directory
  (`BootBuild.BuildTables`).
- A framebuffer that ends above 60 GiB is not identity-mapped (`BootBuild.FramebufferCovered`).

## Model

| member | source | states |
|---|---|---|
| `SchedFairness.BoundedWaiting` | kernel/sched.c:429-499 | over every run, spawns included, a READY thread that is not dispatched has seen at most rank + spawns context switches, the rank being (ring distance from the head, ring distance from current) in lexicographic order |
| `SchedFairness.EventuallyDispatched` | kernel/sched.c:429-499 | no READY thread is passed over by (ring size + spawns) squared context switches |
| `SchedFairness.StepRank` | kernel/sched.c:429-499 | every yield, suspend or exit that does not pick the thread lowers its rank, and only a spawn can raise it, by one |
| `SchedFairness.ExitMovesCloser` | kernel/sched.c:456-499 | an exit, which jumps back to the head of the ring, moves a waiting thread towards the head or the search towards the thread |
| `SchedFairness.PickMovesCloser` | kernel/sched.c:429-454 | the search stops at a waiting thread or strictly before it |
| `SchedFairness.StillWaiting` | kernel/sched.c:429-499 | a READY thread stays READY and on the ring until it is dispatched, whatever the step |
| `SchedRuns.RunSafety` | kernel/sched.c:179-208 | after any run from boot: the ring is duplicate-free and headed by main, exactly the current thread is RUNNING and it is on the ring, zombies are exactly the zombie list and off the ring, the idle thread is never current |
| `SchedRuns.StepInv` | kernel/sched.c:220-719 | every enabled scheduler or waitpid step keeps the invariant behind scheduler safety |
| `SchedRuns.BootInv` | kernel/sched.c:179-208 | the state built by initialisation satisfies the invariant |
| `SchedRuns.SuspendReachesIdle` | kernel/sched.c:624-648 | suspending dispatches the idle thread if and only if main suspends while every other ring thread is blocked |
| `SchedRuns.PickIsReady` | kernel/sched.c:429-454 | the search returns a READY ring thread whenever one exists |
| `SchedRuns.ExitWakesParent` | kernel/sched.c:456-499 | a parent blocked when its child exits is READY or RUNNING afterwards |
| `SchedWait.NoLostExits` | kernel/syscall.c:189-204 | after any run from boot: every status waitpid returned is an exit of a child of that parent, no exit is returned twice, and an exit whose parent is alive is on the zombie list if and only if it has not been returned |
| `SchedWait.StepBooks` | kernel/sched.c:396-427 | every step keeps the account of exits: held by the zombie list, returned to the parent, or dropped because the parent is gone |
| `SchedWait.BlockedWaiter` | kernel/syscall.c:189-204 | in every reachable state a thread blocked in waitpid has no zombie child its filter admits, and a live child unless it named a pid and holds another zombie |
| `SchedWait.BlocksWithoutLiveChild` | kernel/sched.c:671-694 | waitpid blocks a caller without live children if and only if it named a pid, has a zombie child, and no zombie child has that pid |
| `SchedWait.StuckWaiter` | kernel/syscall.c:189-204 | a run from boot to a state in which waitpid blocks with no live child |
| `SchedCalls.WaitExact` | kernel/syscall.c:189-204 | for every state and filter: no child is reported if and only if no ring thread and no zombie is the caller's child; the caller waits if and only if it has one but no zombie child is admitted by the filter; a status is returned if and only if one is |
| `SchedCalls.ReapEffect` | kernel/sched.c:658-719 | the pid and status returned are those of the first admitted zombie on the list, and only that zombie goes |
| `SchedCalls.WaitEffect` | kernel/syscall.c:201-203 | a pass that finds no child changes nothing; one that waits leaves the caller BLOCKED, the nearest READY thread running, every other thread as it was |
| `SchedCalls.SuspendExact` | kernel/sched.c:624-648 | the caller ends BLOCKED with its other fields kept, the READY thread fewest ring places behind it runs with a full quantum, every other thread is unchanged |
| `SchedCalls.YieldExact` | kernel/sched.c:429-454 | the caller ends READY, the nearest READY thread runs, or the caller again when there is none, every other thread is unchanged |
| `SchedCalls.YieldReaps` | kernel/sched.c:396-427 | the zombies left are exactly those with a live parent, in their order; the control blocks of the others are gone |
| `SchedCalls.ExitExact` | kernel/sched.c:456-499 | main runs, the caller heads the zombie list with its status, its parent is READY if it was BLOCKED, every other thread is unchanged |
| `SchedCalls.TickExact` | kernel/sched.c:501-524 | for every thread: the current one loses one tick of quantum, a BLOCKED ring thread whose deadline is set and has come is READY with it cleared, any other is unchanged |
| `SchedCalls.SpawnExact` | kernel/sched.c:220-348 | the new thread is READY at the end of the ring under a pid above all others; a user thread is the child of its spawner and of nobody else, a kernel thread of nobody |
| `SchedCalls.StepWakes` | kernel/sched.c:429-656 | one step makes a BLOCKED thread READY if it is a wake of it, a tick at or past its deadline or the exit of its child, and otherwise leaves it exactly as it is, not current |
| `SchedCalls.BlockedUntilWoken` | kernel/sched.c:624-656 | over every run a BLOCKED thread is neither changed nor dispatched until such a step |
| `SchedCalls.SleepsUntilDeadline` | kernel/sched.c:501-532 | a thread asleep until d that nothing else woke is BLOCKED after a tick before d and READY after one at or past d, whatever ran in between |
| `SchedRing.Scheduler.constructor` | kernel/sched.c:179-208 | the linked ring of the main thread alone refines the boot state |
| `SchedRing.Scheduler.FindByPid` | kernel/sched.c:539-558 | walking the ring from the head finds the thread the specification finds, a zombie only while it is current |
| `SchedRing.Scheduler.Search` | kernel/sched.c:429-454 | following next pointers from current finds the first READY thread in ring order |
| `SchedRing.Scheduler.Suspend` | kernel/sched.c:624-648 | refines the suspend transition and keeps the ring linked |
| `SchedRing.Scheduler.Sleep` | kernel/sched.c:526-532 | sets the deadline and refines suspend |
| `SchedRing.Scheduler.Wake` | kernel/sched.c:650-656 | refines the wake transition |
| `SchedRing.Scheduler.Spawn` | kernel/sched.c:261-273 | insertion before the head refines appending to the ring; a failed allocation changes nothing |
| `SchedRing.Scheduler.Unlink` | kernel/sched.c:456-499 | pointer surgery refines removing the current thread from the ring, moving the head on if needed |
| `SchedRing.Scheduler.Bury` | kernel/sched.c:456-499 | off the ring and onto the front of the zombie list, with its status |
| `SchedRing.Scheduler.Exit` | kernel/sched.c:456-499 | refines the exit transition: bury, wake the parent, dispatch from the head |
| `SchedRing.Scheduler.DropZombie` | kernel/sched.c:396-427 | unlinking behind a trailing pointer refines removing that zombie |
| `SchedRing.Scheduler.ReapZombies` | kernel/sched.c:396-427 | one walk with a trailing pointer frees exactly the zombies whose parent is gone |
| `SchedRing.Scheduler.Yield` | kernel/sched.c:429-454 | refines reaping, putting the running thread down and dispatching the picked one |
| `SchedRing.Scheduler.Tick` | kernel/sched.c:501-524 | spends a tick of the running thread's quantum and wakes exactly the threads whose deadline passed |
| `SchedRing.Scheduler.ChildZombie` | kernel/sched.c:658-669 | the first zombie of the parent that the filter admits |
| `SchedRing.Scheduler.HasChild` | kernel/sched.c:671-694 | true if and only if a ring thread or a zombie has that parent |
| `SchedRing.Scheduler.ReapZombie` | kernel/sched.c:696-719 | refines removing the zombie and its record |
| `SchedRing.Scheduler.WaitPass` | kernel/syscall.c:189-204 | one pass of the waitpid loop refines reap, fail or block |
| `AxfsRuns.OwnershipOverRuns` | kernel/axiomefs.c:61-83 | after every run of create, write and remove: no block is held twice, every inode and every held block is marked used and is past the bitmap block, the superblock is intact |
| `AxfsRuns.RunSound` | kernel/axiomefs.c:113-197 | the volume invariant holds after every such run |
| `AxfsRuns.StepSound` | kernel/axiomefs.c:435-505 | every single operation keeps the volume invariant |
| `AxfsRuns.OtherFilesKept` | kernel/axiomefs.c:293-338 | an operation leaves the contents of every file other than its subject as they were |
| `AxfsRuns.CreateInv` | kernel/axiomefs.c:435-468 | creating an inode with its entry keeps the invariant when the blocks it needs are free |
| `AxfsRuns.CreateSoundIff` | kernel/axiomefs.c:435-468 | create keeps the volume sound if and only if one block is free, or two when the directory has to grow |
| `AxfsRuns.CreateOnFullVolume` | kernel/axiomefs.c:61-75 | with fewer free blocks create overwrites block 0 |
| `AxfsRuns.CreateShape` | kernel/axiomefs.c:113-168 | the disk after create in each of its three cases: free slot, grown directory, directory full |
| `AxfsRuns.RemoveInv` | kernel/axiomefs.c:470-505 | remove keeps the invariant, frees exactly the named child and leaves every other inode and block alone |
| `AxfsNames.CreateListsIff` | kernel/axiomefs.c:113-171 | with the needed blocks free, an absent name leads to its new inode after create if and only if the directory has a free slot or fewer than 160 blocks; in a full directory the inode stays live and unlisted; the inode is empty and of the kind asked for, and its entry says so; lookups of every other name are unchanged |
| `AxfsFull.FullDirectoryReached` | kernel/axiomefs.c:147-150 | a run of creates from a newly formatted volume fills the root; the next create, with blocks to spare, leaves a live inode that its name does not lead to |
| `AxfsPath.CreateThenLookup` | kernel/axiomefs.c:376-468 | create by path, then look up by path: the new inode is found if and only if the parent that was resolved is a directory with room and the whole directory part, not only its first 255 characters, leads to it |
| `AxfsPath.ParentDir` | kernel/axiomefs.c:376-433 | the last slash splits the path; the directory part, cut to 255 characters, leads to the parent |
| `AxfsPath.CreateByPath` | kernel/axiomefs.c:435-468 | refines create with the resolved parent, directory or regular file; fails exactly when there is no parent or no name |
| `AxfsPath.AddEntryToFile` | kernel/axiomefs.c:113-171 | refines adding an entry to a parent that is a regular file |
| `AxfsInFile.InFileInv` | kernel/axiomefs.c:113-171 | creating under a regular file keeps the volume invariant and every other inode and block; the new inode is live and empty |
| `AxfsInFile.InFileBytes` | kernel/axiomefs.c:136-144 | every byte of the file afterwards: those of the entry where it landed, and otherwise what was there |
| `AxfsInFile.InFileCorrupts` | kernel/axiomefs.c:407-424 | no file survives it: its contents change, or bytes past its size are no longer zero |
| `AxfsNames.RemoveKeepsOthers` | kernel/axiomefs.c:173-197 | removing a name leaves lookups of every other name as they were |
| `AxfsNames.RemoveUnlists` | kernel/axiomefs.c:470-505 | the name no longer leads to the inode it led to |
| `AxfsLeaks.UsedExactly` | kernel/axiomefs.c:61-83 | over every run of create, write and remove a block is marked used if and only if it is reserved, an inode in use, or held by one: no space is lost |
| `AxfsLeaks.RemoveFrees` | kernel/axiomefs.c:470-505 | the free count grows by the number of blocks the child held and one for its inode |
| `MkfsSpace.FormattedNeverLeaks` | tools/mkfs_axiomefs.c:210-345 | on a volume as formatted, after any such run, a block is marked used if and only if it is one of the first five, an inode, or held by one |
| `MkfsSpace.ImageNoLeaks` | tools/mkfs_axiomefs.c:242-243 | the formatter marks exactly its five reserved blocks, the inodes and their blocks |
| `AxfsInv.Ownership` | kernel/axiomefs.c:61-83 | the ledger invariant implies no sharing, and that all inodes and held blocks are marked used and past block 2 |
| `AxfsWrite.WriteSplices` | kernel/axiomefs.c:293-338 | a write behaves as overwriting a flat byte sequence at the offset, growing the size to the maximum, with every other file unchanged |
| `AxfsWrite.ReadSlices` | kernel/axiomefs.c:268-291 | a read returns the requested slice of the contents, cut at the size |
| `AxfsWrite.ReadBack` | kernel/axiomefs.c:268-338 | what was written reads back |
| `AxfsWrite.ReadsBackIff` | kernel/axiomefs.c:293-338 | what is written reads back if and only if the write starts no later than the block after the last one held |
| `AxfsWrite.GapLosesData` | kernel/axiomefs.c:293-338 | a write past that gap reads back short |
| `AxfsWrite.WriteSoundIff` | kernel/axiomefs.c:293-338 | a write keeps the volume sound if and only if the blocks it needs are free |
| `AxfsWrite.FullVolume` | kernel/axiomefs.c:61-75 | a write that needs more blocks than are free puts data into block 0 |
| `AxfsWrite.RoundSpec` | kernel/axiomefs.c:300-334 | one round of the loop keeps the invariant and stores exactly its piece |
| `Axfs.AllocFacts` | kernel/axiomefs.c:61-75 | the allocator hands out the first clear bit, sets only that bit, or returns 0 when none is clear |
| `AxfsVolume.Volume.AllocBlock` | kernel/axiomefs.c:61-75 | the bitmap loop refines taking the first free block |
| `AxfsVolume.Volume.FreeBlock` | kernel/axiomefs.c:77-83 | clears the bit of the block |
| `AxfsVolume.Volume.FindSlot` | kernel/axiomefs.c:113-197 | the nested loops find the first slot that hits, in block and slot order |
| `AxfsVolume.Volume.DirAddEntry` | kernel/axiomefs.c:113-168 | refines filling the first free slot or slot 0 of a new block |
| `AxfsVolume.Volume.DirRemoveEntry` | kernel/axiomefs.c:173-197 | refines emptying the first slot of that name |
| `AxfsVolume.Volume.Create` | kernel/axiomefs.c:435-468 | refines the create transition |
| `AxfsVolume.Volume.Remove` | kernel/axiomefs.c:470-505 | refines the remove transition |
| `AxfsVolume.Volume.Write` | kernel/axiomefs.c:293-338 | the loop with the inode kept in memory refines the write transition |
| `AxfsVolume.Volume.Read` | kernel/axiomefs.c:268-291 | the loop over logical blocks returns the specified bytes; asked for no bytes at offset 0 of a non-empty file it returns every block |
| `AxfsLookup.Lookup` | kernel/axiomefs.c:222-266 | splitting the path in place refines walking its components |
| `AxfsLookup.NextComponent` | kernel/axiomefs.c:222-266 | finds the next component between slashes |
| `AxfsLookup.Child` | kernel/axiomefs.c:222-266 | one directory level: the inode of the first entry of that name |
| `AxfsLookup.WalkConcat` | kernel/axiomefs.c:222-266 | walking two component lists in a row is walking their concatenation |
| `Paths.NextSegment` | kernel/axiomefs.c:222-266 | one more segment after a slash is one more component |
| `MkfsImage.FormatterAgrees` | tools/mkfs_axiomefs.c:210-345 | looking a manifest file up in the built image and reading it returns exactly its content |
| `MkfsImage.ImageSound` | tools/mkfs_axiomefs.c:210-345 | the image satisfies the kernel volume invariant |
| `MkfsImage.ImageContent` | tools/mkfs_axiomefs.c:332-342 | the contents the kernel sees are the declared ones, zero-padded blocks cut at the size |
| `MkfsImage.ChildOnce` | tools/mkfs_axiomefs.c:299-330 | every node occupies exactly one of its parent directory's slots across 15-slot blocks |
| `MkfsImage.LookupFinds` | tools/mkfs_axiomefs.c:290-331 | lookup of every manifest path finds its inode |
| `MkfsImage.LookupExact` | tools/mkfs_axiomefs.c:89-107 | all paths look up to their own nodes if and only if siblings have distinct names and none is named like a dot entry |
| `MkfsImage.DotShadows` | tools/mkfs_axiomefs.c:305-315 | a child named like a dot entry is shadowed by it |
| `MkfsImage.TwinsLost` | tools/mkfs_axiomefs.c:89-107 | of two siblings with one name, at most one is found under its path |
| `MkfsImage.SlashedTwin` | tools/mkfs_axiomefs.c:89-107 | a proper manifest with two different paths, with and without a leading slash, of which one is not found under its path |
| `MkfsEntries.DotsLead` | tools/mkfs_axiomefs.c:294-315 | in every directory "." leads to itself and ".." to its parent, at the root to the root |
| `MkfsEntries.UpAgain` | tools/mkfs_axiomefs.c:294-331 | looking up a directory's manifest path followed by ".." leads to its parent |
| `MkfsEntries.EntryKind` | tools/mkfs_axiomefs.c:316-329 | the entry a node is found by names its inode and its kind |
| `MkfsEntries.KindAndSize` | tools/mkfs_axiomefs.c:263-288 | an inode has its node's kind; the size is the content's length or that of the directory's blocks, and a file has no more blocks than it needs |
| `Mkfs.ChildrenAre` | tools/mkfs_axiomefs.c:316-329 | the child cursor visits exactly the nodes with that parent, in increasing order |
| `Mkfs.HolderIs` | tools/mkfs_axiomefs.c:216-240 | data blocks are handed out so that each belongs to exactly one node |
| `MkfsBuild.FindParent` | tools/mkfs_axiomefs.c:89-107 | the loop finds the first node whose path is the parent path |
| `MkfsBuild.ResolveParents` | tools/mkfs_axiomefs.c:199-205 | every node gets its parent index |
| `MkfsBuild.CountChildren` | tools/mkfs_axiomefs.c:223-225 | counts the nodes with that parent |
| `MkfsBuild.AssignBlocks` | tools/mkfs_axiomefs.c:216-240 | the running counter assigns the specified ranges |
| `MkfsBuild.MarkUsed` | tools/mkfs_axiomefs.c:242-243 | sets exactly the first bits of the bitmap |
| `MkfsBuild.FillDirBlock` | tools/mkfs_axiomefs.c:300-330 | one directory block holds its 15 entries of the listing |
| `MkfsBuild.FillFileBlock` | tools/mkfs_axiomefs.c:334-342 | one file block holds its piece of the content, zero-padded |
| `MkfsBuild.WriteFs` | tools/mkfs_axiomefs.c:210-345 | the whole formatter produces the specified image |
| `SignalRuns.Unwinds` | kernel/syscall.c:1412-1443 | for every run above a handler frame, returning from that frame restores all eighteen saved fields and the mask; the program resumes with 0 in rax and whatever the kernel left in rcx and r11 |
| `SignalRuns.UnnoticedIff` | kernel/syscall.c:1705-1750 | a trip goes unnoticed by the program if and only if, after an interrupt, rax was 0 and rcx and r11 happen to be left as they were, or, after a system call, the call returned 0 |
| `SignalRuns.AlwaysUnnoticedIff` | kernel/syscall.c:1705-1750 | a handled signal goes unnoticed on every trip if and only if it is delivered at the exit of a system call that returns 0; an interrupted program can never rely on it |
| `SignalRuns.LoopCounterLost` | kernel/arch/x86_64/syscall.S:58-71 | a loop counting in rcx with rax 0, interrupted by the timer, has a trip that loses its count |
| `SignalRuns.PrintErrorLost` | kernel/syscall.c:1705-1723 | a print of a bad pointer, interrupted on its way out, is seen to succeed |
| `SignalRuns.YieldResultKept` | kernel/syscall.c:1705-1723 | a yield interrupted on its way out is seen to return what it returned, though its number is not 0 |
| `SignalRuns.StraightTrip` | kernel/syscall.c:1412-1443 | every entered handler has a run that returns at once through the restorer |
| `Signals.ReturnRestores` | kernel/syscall.c:1412-1443 | sigreturn from the innermost frame succeeds and restores its context and mask |
| `SignalRuns.FramesDisjoint` | kernel/syscall.c:1678-1695 | live frames occupy disjoint, decreasing stack ranges |
| `SignalRuns.DepthBound` | kernel/syscall.c:1693-1697 | at most 29 handlers nest, because each masks a fresh signal and SIGKILL and SIGSTOP cannot be handled |
| `SignalRuns.RunBounds` | kernel/syscall.c:1652-1701 | over every run the depth is below NSIG and SIGKILL and SIGSTOP are never masked |
| `SignalRuns.KillIsBounded` | kernel/syscall.c:1652-1666 | over every run with SIGKILL pending, whatever handlers run and return, the process outlives at most eight deliveries and one more for each lower signal raised meanwhile |
| `SignalRuns.Starved` | kernel/syscall.c:1652-1666 | the raises are needed: an ignored signal raised again before every delivery holds SIGKILL off for any number of deliveries |
| `Signals.StepInv` | kernel/syscall.c:1328-1443 | kill, sigaction, mapping changes, delivery, sigreturn and user code outside frames keep the frame invariant |
| `Signals.EnterWrites` | kernel/syscall.c:1691-1701 | the frame written reads back, the handler returns into the restorer with the stack pointer at the frame, memory above the old stack pointer is untouched |
| `SignalDelivery.EntersHandler` | kernel/syscall.c:1678-1701 | the handler starts at the address installed for the lowest pending unmasked signal, with that signal in rdi, the stack pointer 160 bytes lower and the other fifteen fields as before; only that bit leaves the pending set, only that bit joins the mask, memory outside the 160 bytes is untouched |
| `SignalDelivery.OutcomeOf` | kernel/syscall.c:1663-1690 | what becomes of the lowest pending unmasked signal, by its action: exit 137 for SIGKILL, 128 plus the signal by default, dropped for SIGCHLD and SIGCONT by default, for an ignored one and without restorer, exit 139 without stack room, and otherwise its handler |
| `SignalDelivery.NothingIff` | kernel/syscall.c:1654-1661 | nothing is delivered if and only if every pending signal is masked |
| `SignalDelivery.RaisePends` | kernel/syscall.c:1369-1410 | raising a signal adds its bit to the pending set and changes nothing else |
| `SignalDelivery.BitIsDigit` | kernel/syscall.c:1654-1663 | bit i of a signal set is its binary digit of weight 2 to the i |
| `Signals.FrameBelowStack` | kernel/syscall.c:1678-1690 | an accepted frame does not wrap and ends at the old stack pointer |
| `Signals.FirstSignalLeast` | kernel/syscall.c:1654-1661 | the signal delivered is the lowest pending unmasked one |
| `SignalRuns.FreshInv` | kernel/sched.c:37-46 | a new process satisfies the invariant |
| `Signals.Process.PickSignal` | kernel/syscall.c:1657-1661 | the loop finds that signal |
| `Signals.Process.DeliverSignal` | kernel/syscall.c:1652-1701 | refines delivery: nothing, consumed, handler entered, or exit with 137, 128 + signal or 139 |
| `Signals.Process.SigReturnCall` | kernel/syscall.c:1412-1443 | refines sigreturn, with a fault when the frame is not readable |
| `Memory.PackRoundTrip` | kernel/signal.h:51-55 | words stored as bytes read back |
| `PipeRuns.RunSafe` | kernel/syscall.c:583-633 | over every run: what a slot names is alive, counters are at least the slots, a vnode or pipe with excess counts survives, ids are fresh |
| `PipeRuns.ExactIff` | kernel/syscall.c:1006-1020 | counters equal to the slots stay equal over a run if and only if no call resets standard slots while one holds a pipe end |
| `PipeRuns.SettledRun` | kernel/syscall.c:867-903 | if descriptors 0 to 2 are never closed, only replaced by dup2, counters stay equal to the slots |
| `PipeRuns.LifetimeExact` | kernel/syscall.c:583-633 | with exact counters a pipe is alive if and only if a slot or a FIFO refers to it |
| `PipeRuns.FreedOnce` | kernel/sched.c:93-139 | after any run a referred pipe is alive, and a freed pipe is never alive or referred to again |
| `PipeRuns.LeakedForever` | kernel/syscall.c:1006-1020 | a pipe whose counter exceeds its slots is never freed |
| `PipeRuns.CloseStandardLoses` | kernel/syscall.c:1006-1020 | closing one standard slot while another holds a pipe end makes the next call lose that end |
| `PipeRuns.StepInv` | kernel/syscall.c:504-633 | every call keeps the invariant, and exactness unless it loses a slot |
| `PipeRuns.CopyAllSlots` | kernel/sched.c:78-91 | after inheriting, the child's slots are the parent's |
| `PipeRuns.DetachInv` | kernel/vfs.c:382-393 | unlinking a FIFO keeps the invariant and the counters, and never frees a pipe that a slot is open on: it is dead and alive until the last close |
| `PipeRuns.DetachFrees` | kernel/vfs.c:382-393 | with exact counters, unlinking frees the pipe at once if and only if no slot is open on it |
| `PipeRuns.BootInv` | kernel/sched.c:26-40 | at boot the invariant holds, counters are exact |
| `PipeKernel.Tables.EnsureProc` | kernel/syscall.c:1006-1020 | refines resetting all three standard slots when any is unused |
| `PipeKernel.Tables.Allocate` | kernel/syscall.c:45-50 | the lowest unused slot, or -1 |
| `PipeKernel.Tables.CloseSlot` | kernel/syscall.c:591-618 | refines dropping one reference, freeing the vnode and the pipe with their last |
| `PipeKernel.Tables.CloseFd` | kernel/syscall.c:583-633 | refines close, failing exactly on an unused or out-of-range descriptor |
| `PipeKernel.Tables.CopySlot` | kernel/sched.c:60-76 | refines sharing a slot with its counts |
| `PipeKernel.Tables.Dup2Fd` | kernel/syscall.c:867-903 | refines dup2 with the implied close; returns the new descriptor, or -1 exactly when one is out of range or the old one unused; on success both hold what the old one held and every other slot of every thread is as it was |
| `PipeKernel.Tables.MakePipeFds` | kernel/syscall.c:905-944 | refines pipe creation; on success the first descriptor returned is the lowest unused one and holds the read end, the second the next lowest and holds the write end, of one new pipe that counts one of each, and every other slot is as it was but for the reset of the standard ones; it fails with -1 exactly when fewer than two are unused |
| `PipeKernel.Tables.OpenFifoEnd` | kernel/syscall.c:504-528 | refines opening one end of a FIFO; the lowest unused descriptor holds a new end of its pipe, a write end if so opened and else a read end, whose count alone grew by one; it fails exactly without FIFO or unused descriptor |
| `PipeKernel.Tables.UnlinkFifo` | kernel/vfs.c:382-393 | refines FIFO removal |
| `PipeKernel.Tables.Inherit` | kernel/sched.c:78-91 | refines copying all 32 slots to a child |
| `PipeKernel.Tables.CloseAll` | kernel/sched.c:93-139 | refines closing all 32 slots of an exiting thread |
| `PipeCalls.MakePipeExact` | kernel/syscall.c:905-944 | a pipe is made exactly when two descriptors are unused, with the ends placed as above |
| `PipeCalls.CloseExact` | kernel/syscall.c:583-633 | a close empties its slot and no other |
| `PipeCalls.ForkExact` | kernel/sched.c:78-139 | a forked child holds its parent's slots, an exited thread none, and the slots of every other thread are as they were |
| `PipeCalls.MakeFifoExact` | kernel/syscall.c:946-959 | a new FIFO gets a new pipe with no end open; an existing one is left as it is |
| `PipeCalls.OpenFileExact` | kernel/syscall.c:530-581 | a file takes the lowest unused descriptor |
| `InitStart.UnitTable.StartAll` | kernel/userspace/init.c:309-343 | terminates, in the outcome: a fixed point whose running units can be started one by one after their dependencies |
| `InitStart.UnitTable.Round` | kernel/userspace/init.c:312-334 | one round keeps the account, lowers the number of units that are down if it changes anything, and otherwise shows that none can change |
| `InitStart.UnitTable.DepsSatisfied` | kernel/userspace/init.c:244-271 | walking the dependency string gives 1, 0 or -1 as the listed units' states call for |
| `InitStart.UnitTable.UnitByName` | kernel/userspace/init.c:125-131 | the first unit of that name |
| `InitUnits.RunningIsLeast` | kernel/userspace/init.c:309-343 | the running units are in every set closed under starting: the least fixed point |
| `InitUnits.OutcomeUnique` | kernel/userspace/init.c:309-343 | there is only one outcome |
| `InitUnits.CyclesDisabled` | kernel/userspace/init.c:335-342 | units that depend on each other in a cycle, and what depends on them, end disabled |
| `InitUnits.MissingDisabled` | kernel/userspace/init.c:262-263 | a unit with a missing dependency ends disabled |
| `InitUnits.NamesOfList` | kernel/userspace/init.c:250-258 | plain names set apart by blanks, tabs and commas, however many and however mixed, are read back as exactly those names in that order |
| `InitUnits.ReadyExact` | kernel/userspace/init.c:244-271 | 1 if and only if every listed name is a unit, the first of that name, that runs or has exited; -1 if and only if one is no unit or a failed or disabled one |
| `InitUnits.OrderIndependent` | kernel/userspace/init.c:309-343 | with unique names a unit's final state does not depend on its place in the configuration |
| `Slab.BlocksDisjoint` | kernel/slab.c:96-135 | live blocks are pairwise disjoint |
| `Slab.HeadersDisjoint` | kernel/slab.c:10-28 | no live block overlaps a slab or page-run header |
| `Slab.SlotPage` | kernel/slab.c:143-146 | masking a slot's address finds its slab |
| `Slab.BigPagesEnough` | kernel/slab.c:105 | the page count holds header and request if and only if the 64-bit sum does not wrap |
| `SlabHeap.Allocator.SizeToIdx` | kernel/slab.c:34-42 | the smallest class that holds the size, -1 if none |
| `SlabHeap.Allocator.ThreadSlots` | kernel/slab.c:62-80 | the new free list holds exactly the slots of the page, once each, and its count |
| `SlabHeap.Allocator.SlabGrow` | kernel/slab.c:44-83 | keeps the heap invariant and every live block; with a mapped frame the class has a free slot afterwards, without one nothing changes |
| `SlabHeap.Allocator.Kmalloc` | kernel/slab.c:96-135 | fails if and only if the size is 0 or neither the current slab of its class has a free slot nor pages are to be had; a returned block is new, keeps every other block untouched, is a slot of the smallest class that fits, and has room for the request unless the size is one of the last 23 |
| `SlabHeap.Allocator.KmallocBig` | kernel/slab.c:102-121 | the same for whole-page requests |
| `SlabHeap.Allocator.Kfree` | kernel/slab.c:138-163 | the page mask finds the owning header; a slot becomes the head of its slab's free list, whole pages lose their header; exactly that block is no longer live, every other one is untouched |
| `CycleRing.PollExact` | kernel/xhci.c:196-203 | comparing the slot's cycle bit with the lap's tells exactly whether an unread entry is there, and it is the next one |
| `CycleRing.PutInv` | kernel/xhci.c:148-169 | writing the next entry keeps every unread one while one slot is not outstanding |
| `CycleRing.Overrun` | kernel/xhci.c:148-169 | with every slot outstanding one more write hides the unread entries |
| `XhciRings.TransferRing.Push` | kernel/xhci.c:148-169 | with room, appends exactly the entry to what was pushed and adds the link in slot 255; without room, stalls the controller; returns the entry's address |
| `XhciRings.TransferRing.Fetch` | kernel/xhci.c:148-169 | a consumer comparing cycle bits and toggling at the link gets exactly the pushed entries, in order, once each, and none when all are read |
| `XhciRings.FitsWhenFew` | kernel/xhci.c:148-169 | up to 253 unread entries always leave room to push |
| `XhciRings.LinkTakesASlot` | kernel/xhci.c:157-166 | with the consumer before the link and 254 unread entries there is no room |
| `XhciRings.FillBeforeLink` | kernel/xhci.c:136-169 | such a ring is reached from an empty one by pushes that fit and fetches |
| `XhciRings.PushPastFull` | kernel/xhci.c:148-169 | a push without that room stalls the consumer |
| `XhciRings.EventRing.Post` | kernel/xhci.c:196-215 | the controller side appends an event |
| `XhciRings.EventRing.Current` | kernel/xhci.c:196-203 | the oldest unhandled event, or none |
| `XhciRings.EventRing.Advance` | kernel/xhci.c:205-215 | moves on by one event, toggling the cycle at the wrap |
| `BootTables.WalkIsTarget` | bootloader/boot.c:25-86 | for every canonical address the walk is the identity below n GiB, the image at its physical address plus the kernel base, and unmapped everywhere else |
| `BootTables.AliasedIsImage` | bootloader/boot.c:66-83 | the aliased 2 MiB pages are exactly the image's pages below 1 GiB |
| `BootBuild.BuildTables` | bootloader/boot.c:11-86 | fails exactly below five pages; otherwise the loops fill exactly the specified entries if and only if there are at most 516 pages |
| `BootBuild.ZeroTables` | bootloader/boot.c:41-53 | all entries of all tables are zero |
| `BootBuild.FillIdentity` | bootloader/boot.c:55-63 | the identity directories and their pointers, nothing else |
| `BootBuild.FillAlias` | bootloader/boot.c:66-83 | exactly the aliased pages |
| `BootBuild.FramebufferCovered` | bootloader/main.c:186-201 | the identity map covers the framebuffer if and only if it ends by 60 GiB |
| `Pmm.FrameAllocator.AllocFrame` | kernel/pmm.c:99-114 | the first free frame from the hint round; while frame 0 is used, fails if and only if every frame is used; the free count stays the number of clear bits |
| `Pmm.FrameAllocator.AllocFrames` | kernel/pmm.c:116-148 | the lowest run of free frames, despite the skip-ahead search; while frame 0 is used, fails if and only if there is none |
| `Pmm.FrameAllocator.FreeFrame` | kernel/pmm.c:150-158 | clears a used frame in range and ignores any other; frame 0 stays used if and only if it is not the one freed |
| `Pmm.FrameAllocator.FreeFrames` | kernel/pmm.c:160-172 | the same for every frame of a range |
| `Pmm.AllocThenFree` | kernel/pmm.c:116-172 | freeing what was allocated restores the bitmap |
| `Pmm.ProbeIsRemainder` | kernel/pmm.c:103-112 | the k-th probe is the hint plus k, modulo the number of frames |
| `Bitmap.CountFlip` | kernel/pmm.c:17-30 | flipping one bit moves the count of clear bits by one |
| `ChecksumStream.BothWays` | kernel/net_util.h:18-58 | a chain slice checksummed by both codes: with all pieces but the last even, the streamed and the contiguous result agree if and only if the one-buffer sum does not wrap harmfully, and always up to 131074 bytes |
| `ChecksumStream.WrapExact` | kernel/net_util.h:18-26 | the 32-bit wrap goes unnoticed if and only if it does not happen or loses a multiple of 65535 and leaves a non-zero sum |
| `ChecksumStream.LongOnesWrap` | kernel/net_util.h:18-26 | 131076 bytes of 0xFF wrap, and the checksum shows it |
| `ChecksumStream.ShortNeverWraps` | kernel/net_util.h:18-26 | buffers up to 131074 bytes do not wrap |
| `ChecksumStream.LengthsExact` | kernel/net_buf.c:194-213 | non-empty pieces add up to the whole for all contents if and only if all but the last have even length |
| `ChecksumStream.OddPieceBreaks` | kernel/net_buf.c:194-213 | for any list of lengths with an odd one before the last, bytes for which the sums differ |
| `ChecksumStream.Copyout` | kernel/net_buf.c:171-192 | the slice of the flattened chain, as one buffer |
| `ChecksumStream.CsumFinish` | kernel/net_util.h:53-58 | the complement of the folded sum |
| `ChecksumReceive.Receive` | kernel/net_util.h:18-26 | for even-length data whose words sum to less than 2^32 - 65535, data and one more word check to 0 if and only if that word is the checksum of the data, or 65535 where the checksum is 0 |
| `ChecksumReceive.SendAndReceive` | kernel/net_util.h:18-26 | the receiver's law of RFC 1071: such data followed by its own checksum, low byte first, checks to 0 |
| `ChecksumReceive.StreamAndReceive` | kernel/net_util.h:32-58 | the same streamed: a chain of even segments, or of fewer than 2^20 of any lengths, followed by its streamed checksum in a segment of its own streams to 0 |
| `ChecksumReceive.ComplementExact` | kernel/net_util.h:53-58 | the finished sum is the word that completes a sum to a multiple of 65535, exactly |
| `Checksum.PiecesFlat` | kernel/net_buf.c:194-213 | the pieces of a chain slice put together are the slice of the flattened chain |
| `Checksum.EvenPiecesAddUp` | kernel/net_util.h:27-46 | even pieces add up to the sum over the whole |
| `Checksum.Fold` | kernel/net_util.h:47-51 | folding ends in the representative modulo 65535 |
| `Checksum.InetCsum` | kernel/net_util.h:18-26 | the complement of the folded 32-bit sum |
| `Checksum.CsumAcc` | kernel/net_util.h:32-46 | keeps the representative of start plus sum; does not overflow, and stays below 65538 over even pieces |
| `Checksum.MbufCsumAcc` | kernel/net_buf.c:194-213 | the representative of the sum of the pieces, without overflow when all but the last are even or the chain has at most a million segments |
| `UdpSockets.SocketTable.EphemeralPort` | kernel/udp.c:36-58 | never fails: returns a port from 49153 to 65535 that no socket uses |
| `Udp.ProbesDistinct` | kernel/udp.c:38-57 | 16383 consecutive probes visit distinct ports in range |
| `Udp.FewFailures` | kernel/udp.c:38-57 | at most as many probes fail as there are sockets |
| `UdpSockets.SocketTable.Socket` | kernel/udp.c:21-33 | the first unused slot, reset; -1 if and only if all are in use |
| `UdpSockets.SocketTable.Bind` | kernel/udp.c:60-80 | succeeds if and only if the socket is in use and no other socket has the port; ports stay distinct |
| `UdpSockets.SocketTable.SourcePort` | kernel/udp.c:90-96 | an unbound socket gets a free port from the ephemeral range |
| `UdpSockets.SocketTable.Rx` | kernel/udp.c:235-272 | the datagram joins the end of the queue of an in-use socket whose port it names, port 0 naming the unbound ones, or is dropped if there is none; no port, no in-use flag and no other socket changes |
| `UdpSockets.SocketTable.Recv` | kernel/udp.c:177-200 | fails on a socket not in use, waits on an empty queue, and otherwise takes the oldest datagram; the count stays the queue length, and no port, no in-use flag and no other socket changes |
| `UdpSockets.SocketTable.Close` | kernel/udp.c:216-233 | empties the queue and leaves every other socket alone |
| `UserStackSetup.SetupUserStack` | kernel/elf.c:457-520 | succeeds if and only if strings and vectors fit; then the entry pointer is 16-byte aligned, the entry code finds the same argc, argv and envp, strings and vectors do not overlap and nothing else is written |
| `UserStackSetup.CopyStrings` | kernel/elf.c:469-488 | strings with terminators lie one below the other, in order |
| `UserStackSetup.WriteVectors` | kernel/elf.c:500-517 | the words of both vectors and argc are in place, nothing else is written |
| `UserStack.FindsUnique` | kernel/userspace/libc/crt0.c:9-13 | what the entry arithmetic finds is determined: the same memory cannot show two argument lists |
| `UserStack.PlacedFinds` | kernel/userspace/libc/crt0.c:9-13 | argc at the stack pointer, argv behind it and envp behind its terminator are where the entry code looks |

## Left out

- Assembly, interrupt controllers, device bring-up and memory barriers: steps are atomic.
- The kernel's init respawn and the init program's supervision loop after start-up.
- Allocation failures inside the scheduler, FIFO and pipe paths; failing frame and mapping calls of the heap are parameters.
- Overflow of the 64-bit sleep deadline.
- Block metadata of axiomefs: checksums, transaction ids, owners, permissions and times; the crash-recovery and copy-on-write the header describes and the code does not do.
- axfs_list; remove starts from the resolved directory.
- AxfsPath.ParentDir: axfs_parent_dir does not check that the inodes it passes through are directories; a path that runs through a regular file ends here, where the code reads that file's bytes as entries. Only a regular file as the last parent is modelled.
- AxfsRuns.OtherFilesKept: creates and removes whose parent is a directory; a create under a regular file is the subject of AxfsInFile.
- AxfsVolume.Volume.Create: the same; AxfsPath.CreateByPath covers both kinds of parent.
- AxfsVolume.Volume.Remove: a parent that is a regular file.
- AxfsWrite.WriteSplices: writes within the 160 extents of an on-disk inode, and non-empty buffers; of an empty write at offset 0 the last block number wraps and the loop runs on past the buffer.
- AxfsVolume.Volume.Write: the same empty writes.
- AxfsLookup.Child: blocks are typed, so following a number that is no inode, or an inode whose blocks are no directory blocks, fails here, where the code would interpret whatever bytes are there.
- Removing entries named like a dot entry through axfs_remove.
- Reading the manifest and the 160-block cut of larger files in the formatter; manifests are assumed to declare every ancestor before use.
- Bytes written by a failing stack set-up: strings are copied before the size check, so a call that returns an error may have written below the stack.
- UserStackSetup.SetupUserStack: does not model the 64-bit wrap of the stack pointer for strings longer than the stack's own address.
- SignalRuns.Unwinds: user code is assumed to leave live frames alone and mapped, and to keep its stack pointer at or below the innermost frame.
- sys_kill's permission checks and sa_mask, which delivery does not read.
- Pipe contents, reader wake-ups and vnode reference counts of plain files.
- The command ring, which starts with a link of cycle 1 already in slot 255.
- XhciRings.TransferRing.Push: callers pass control words without the cycle bit and never push a link of their own, as every caller in the driver does.
- The free-page search of a mapped heap page beyond failure or success, and wrap-around of the virtual-address cursor.
- Slab.BlocksDisjoint: freeing a pointer that is not live is outside the model, as it is outside the allocator's contract.
- udp_recvfrom's wait loop is one look at the queue; yielding in between is the scheduler's.
- TCP, ARP, DHCP, DNS, FAT32, ELF loading, TTY and framebuffer code.
