# A model of the SlopOS kernel core, with proofs

SlopOS is a small x86-64 operating system. This project models the parts of it whose correctness is hard to see by
reading, and proves what they promise, for every input, every run and every interleaving:

- **The journal** (`Storage`, `Blocks`, `Journal`, `JournalCrash`, `JournalReorder`, `JournalSingle`, `JournalHistory`,
  `JournalReady`, `JournalEngine`). A disk is durable blocks plus writes not yet flushed; commit and recovery are lists of writes and
  flushes. What a disk *means* is what mounting it would leave. Commits of both kinds are all or nothing over any number
  of crashes, also crashes during recovery, when writes persist in issue order; when they may be reordered, the exact
  crash that loses data is named. For every crash it is stated exactly whether the disk can be mounted again, and for
  every lifetime whether the kernel can commit again.
- **The eBPF verifier and interpreter** (`BpfIsa`, `BpfVerifier`, `BpfExact`, `BpfRules`, `BpfMachine`, `BpfMeaning`,
  `BpfSound`, `BpfEngine`). The one-pass verifier computes exactly the registers initialised on every path; verified
  programs are memory-safe, end within their own length, and do not depend on registers they were not given. What is
  acceptable (`BpfRules`) and what each instruction does (`BpfMeaning`) are written down a second time, from opcode bytes,
  congruences, bits and bytes, and the verifier and the interpreter are proved to agree with that.
- **Frames, page tables and user copy** (`Frames`, `PageTables`, `KernelPaging`, `KernelInstall`, `UserSpace`,
  `UserMemory`, `SharedMemory`, `UserCopy`, `UserShared`). The processor's four-level walk of the tables the kernel
  builds, its agreement with the kernel's own record of a process's pages, and exactly how many free frames each
  operation needs to succeed.
- **Publications and wake-ups** (`ConfigBanks`, `WallpaperBanks`, `SurfaceBanks`, `PolicyMailbox`, `InputRing`,
  `Executor`). Each protocol is a state machine whose steps are single accesses to shared memory, in any order writers, readers
  and interrupts can bring about.
- **Wayland input** (`KeyBits`, `ClientMirror`). The server's record of a client is what the client can work out.
- **The scheduler** (`ProcessTable`, `UserRuntime`). State, pending call and registers of each process over whole runs.
- **File windows and the block cache** (`BlockCache`, `FileWindows`), **the virtqueue** (`VirtQueue`) and **ELF files**
  (`Elf`), read from the bytes of the file.

`Wrappers`, `Sizes`, `Arithmetic` and `Numerals` hold what the others share.

Where the kernel stops itself (`fatal`, `device.fail`), an operation here returns a failure, or, when the stop can be
shown never to happen, the condition is an assertion. Parts of the code turned out not to have a property one would
expect; the code is modelled as it is and the exact condition is proved:

- Clearing the journal records and retiring the journal share one flush window in the multi-block commit and in replay:
  a reordering disk can lose a block (`JournalReorder.MountReordered`, `CommitReordered`, `TornClearLoses`).
- Recovery halts for ever on a disk whose power was cut while the journal was active without its commit record, or while
  the records were being cleared (`JournalCrash.CommitAtomic`, `JournalHistory.HistoryMounts`, `JournalReorder.CommitReordered`).
- The single-block commit blanks its records after it clears the recovery flag: cut in between, the disk mounts, and the
  kernel refuses every later commit (`JournalReady.ReadyExactly`).
- The single-block commit accepts block 0 and the journal's own blocks and then overwrites them
  (`JournalSingle.SingleStores`, `SingleLosesSuperblock`).
- A failed request for several frames gives up every region that was too small (`Frames.FrameAllocator.AllocateContiguous`).
- The surface acknowledgement advances the generation before it records the active bank; a client running between the
  two would overwrite the bank on screen (`SurfaceBanks.RaceIsExact`, `RaceHappens`). The cooperative executor on its one
  processor never runs a client there, so the code relies on it.
- A configuration published when the 64-bit generation is exhausted goes unseen, and the next one overwrites the bank in
  use; exactly the runs with no more publications than that are safe (`ConfigBanks.SafeExactly`, `ExhaustedUnsafe`).
- An ELF segment whose ends are canonical may run across the non-canonical hole (`Elf.CanonicalThroughout`,
  `SpansTheHole`).
- Ring cells of consecutive requests collide at the index wrap for some queue sizes, none of them powers of two
  (`VirtQueue.CellsDistinct`).
- The policy word keeps only eight bits of the capabilities (`PolicyMailbox.PackRoundTrip`). Nothing is lost by it: a
  commit is checked beforehand to ask for exactly the required capabilities, which fit
  (crates/desktop-protocol/src/lib.rs:138).

## Model

| member | source | states |
|---|---|---|
| Storage.BlockDevice.Read | kernel/src/virtio.rs:222-233 | a read sees the medium with every issued write on top, flushed or not |
| Storage.BlockDevice.Write | kernel/src/virtio.rs:256-267 | a write is visible to later reads at once and changes no other block |
| Storage.BlockDevice.Flush | kernel/src/virtio.rs:269-282 | a flush makes everything issued so far durable, leaving nothing pending, and changes nothing that reads see |
| Storage.BlockDevice.CrashNow | kernel/src/virtio.rs:256-282 | losing power keeps the flushed requests and any chosen subset of those issued since |
| Caching.BlockCache.ReadBlock | kernel/src/fs.rs:4756-4789 | returns the cached copy or else the disk's block, caches it, and disturbs at most the block of the entry whose turn it is; on a miss the turn passes to the next entry; no block is ever cached twice |
| Caching.BlockCache.PrefetchPair | kernel/src/fs.rs:4791-4846 | refuses equal blocks, does nothing if either is cached, and otherwise caches both as on disk, dropping nothing but what the next two entries held, even though the second replacement follows the first |
| Caching.BlockCache.Invalidate | kernel/src/fs.rs:4848-4860 | dropping the first match leaves no copy of the block, because no block has two, and no other block is affected |
| Caching.ReplaceEffect | kernel/src/fs.rs:4756-4789 | overwriting a victim entry keeps every block cached at most once and loses only what the victim held |
| JournalCrash.MountTransparent | kernel/src/fs.rs:1874-2166 | on any disk whatever, recovery cut short after any number of its writes leaves a disk that mounts to the same file system; the later mount ends if and only if this one could and was not cut while clearing the records |
| JournalCrash.MountSettles | kernel/src/fs.rs:1874-2166 | a completed mount leaves a clean disk with the same meaning and a second mount does nothing; a mount that halts has written nothing, unless the sequence number cannot advance, and then it repeats itself |
| JournalCrash.ReplayResult | kernel/src/fs.rs:1907-2166 | replaying a complete transaction puts exactly the journaled homes in place, escapes undone |
| JournalCrash.UncommittedHalts | kernel/src/fs.rs:1989-2031 | an active journal without a commit record makes recovery halt before it writes |
| JournalCrash.ForeignHalts | kernel/src/fs.rs:1989-2031 | nor does it follow a descriptor or a commit record with another sequence number than the journal superblock's: it halts having written nothing |
| JournalCrash.MalformedHalts | kernel/src/fs.rs:1907-2031 | nor a journal superblock that counts from zero or points outside the records, nor a descriptor without tags or with a tag whose block is off the disk, in the journal or named twice |
| JournalCrash.RecordsTransparent | kernel/src/fs.rs:3680-3712 | every prefix of the flag, superblock, descriptor and data writes leaves the old file system, and recovery ends on it exactly until the journal is active |
| JournalCrash.DataUnmarked | crates/ext4/src/lib.rs:670-686 | in a committed transaction no data record carries the journal's magic, and each decodes to the block that was given |
| JournalCrash.CommittedReplays | kernel/src/fs.rs:3563-3862 | once the commit record is on disk, recovery would issue exactly the requests the commit goes on to issue, and the disk already means the new file system |
| JournalCrash.CommitAtomic | kernel/src/fs.rs:3563-3862 | a multi-block commit cut after any number of writes, in issue order, is all old or all new, switching at the commit record; recovery ends at exactly these cuts: before the journal is active, from the commit record to the flush of the homes, and once the journal is retired |
| JournalCrash.CommitCompletes | kernel/src/fs.rs:3563-3862 | a finished commit leaves an idle journal at the next sequence number, blank records, and the new content, so that the next commit is accepted |
| JournalHistory.ReturnedTookEffect | kernel/src/fs.rs:3563-3862 | a transaction of either kind that returns to its caller is durable |
| JournalHistory.UncutReturns | kernel/src/fs.rs:3563-3862 | a transaction that is accepted and not cut short returns unless its sequence number is the last, and a mount not cut short ends if the disk can be mounted |
| JournalHistory.StepAtomic | kernel/src/fs.rs:3563-3862 | one transaction, mount or power cut moves the disk's meaning by a whole transaction or not at all, and the disk stays mountable exactly if the cut is not one that strands it |
| JournalHistory.HistoryAtomic | kernel/src/fs.rs:1874-2166 | over any sequence of transactions of both kinds, mounts and power cuts, also in the middle of recovery, the disk means the effective transactions applied whole and in order |
| JournalHistory.HistoryMounts | kernel/src/fs.rs:1874-2166 | over any such sequence the disk can be mounted at the end if and only if it could at the start and no cut fell while a journal was active without its commit record or while records were being cleared |
| JournalReady.ReadyExactly | kernel/src/fs.rs:3602-3633 | over any such sequence from blank records, the running kernel accepts exactly the admissible commits at the disk's sequence number, unless a single-block commit was cut after retiring the journal and before blanking its records, and then none ever |
| JournalReady.MountTidy | kernel/src/fs.rs:1874-2166 | recovery cut anywhere leaves a disk that is ready, holds one complete transaction, or cannot be mounted |
| JournalReady.CommitTidy | kernel/src/fs.rs:3563-3862 | so does a multi-block commit cut anywhere |
| JournalReady.SingleTidy | kernel/src/fs.rs:4046-4072 | so does a single-block commit, except that a cut between retiring the journal and the last blank leaves its commit record behind |
| JournalReorder.MountReordered | kernel/src/fs.rs:2076-2130 | a crash in recovery that keeps an arbitrary subset of the unflushed writes preserves the meaning if and only if it is not a torn clear, and a later mount ends if and only if this one could and it is not a stuck clear |
| JournalReorder.CommitReordered | kernel/src/fs.rs:3563-3862 | the same for a commit: old until the commit record is kept, new afterwards if and only if the clear was not torn; and exactly after which crashes recovery ends |
| JournalReorder.TornClearLoses | kernel/src/fs.rs:3806-3820 | every transaction with a non-blank home outside block 0 has such a losing crash after its homes were flushed |
| JournalReorder.KeptLands | kernel/src/fs.rs:3806-3820 | writes to distinct blocks survive or are lost independently |
| JournalSingle.SingleReordered | kernel/src/fs.rs:3864-4093 | a single-block commit survives every reordering crash: old before the commit record is kept, new from then on, every other block unchanged; once the commit is flushed recovery always ends, and before that exactly while the journal is not active |
| JournalSingle.SingleAtomic | kernel/src/fs.rs:3864-4093 | the same with writes persisting in issue order: it takes effect with its commit record, and recovery ends unless the journal is active without it |
| JournalSingle.SingleTail | kernel/src/fs.rs:4046-4072 | what a cut after retiring the journal leaves in block 0 and the journal: its commit record stays until the last blank |
| JournalSingle.SingleStores | kernel/src/fs.rs:3864-4093 | an uninterrupted single-block commit stores the block if and only if the target is not block 0, the journal superblock or a record block, or happens to equal what is written over it |
| JournalSingle.SingleLosesSuperblock | kernel/src/fs.rs:3864-4093 | a new superblock given to the single-block commit is accepted and lost |
| JournalEngine.Mount | kernel/src/fs.rs:1874-1905 | the mount code issues exactly the requests of the recovery specification and keeps the cache coherent outside block 0 and the journal |
| JournalEngine.Replay | kernel/src/fs.rs:1907-2166 | so does replay, with every check in the order the code makes it |
| JournalEngine.CommitMulti | kernel/src/fs.rs:3563-3862 | the commit code writes nothing when a check fails and otherwise issues exactly the specified requests; its read-back checks cannot fail; the cache stays coherent |
| JournalEngine.CommitSingle | kernel/src/fs.rs:3864-4093 | the same for the single-block commit, with the read-backs of the active state, the records, the home block and the final state |
| JournalEngine.Checkpoint | kernel/src/fs.rs:3757-3836 | homes, clean-up and flag are written in the specified order, and every home is dropped from the cache |
| JournalEngine.Prepare | kernel/src/fs.rs:3680-3719 | the records are written with a flush between flag, superblock, records and commit |
| JournalEngine.CheckRecords | kernel/src/fs.rs:3720-3755 | the read-back of the active superblocks and of every record block always equals what was written, whatever the targets |
| JournalEngine.Prepared | kernel/src/fs.rs:3680-3719 | after preparing, block 0 carries the flag, the journal superblock names the transaction, and the record blocks hold descriptor, escaped data and commit record |
| JournalEngine.TargetsAreSafe | kernel/src/fs.rs:3590-3597 | accepts exactly distinct targets on the disk and outside the journal |
| JournalEngine.RecordsAreBlank | kernel/src/fs.rs:3623-3633 | accepts exactly an all-zero run of record blocks |
| JournalEngine.InvalidateHomes | kernel/src/fs.rs:3768-3799 | the read-back of every home succeeds and exactly those blocks leave the cache |
| BpfExact.VerifyExact | ebpf/src/lib.rs:101-261 | a program is accepted if and only if it is well formed: every reachable instruction is legal with its registers initialised on all paths, and an exit is reachable; an error names a reachable instruction that deserves it, an uninitialised register has a witness path, and a missing exit is missing on every path |
| BpfRules.VerdictIs | ebpf/src/lib.rs:101-261 | the verifier accepts exactly the programs described by opcode bytes and ways alone: on every way to an instruction each register it reads was given a value that no later call, which leaves r1 to r5 unknown, has taken away; accesses stay inside the frame, jumps land forward on whole instructions, helpers are allowed, and an exit is reached |
| BpfRules.RejectionExplained | ebpf/src/lib.rs:101-261 | whatever error is reported is so: of the encoding at the place named, or of an instruction reached on a way that is given, on which an uninitialised register is indeed not held |
| BpfRules.InitOnIs | ebpf/src/lib.rs:142-255 | a register is initialised on a path exactly if some step gives it a value and no call from there on clobbers it |
| BpfRules.KindIs | ebpf/src/lib.rs:552-604 | each of the 256 opcode bytes is sorted as its class, source and operation bits say |
| BpfRules.TransferIs | ebpf/src/lib.rs:146-255 | a register is held after an instruction exactly if it is written by it, or was held and is not among r1 to r5 at a call |
| BpfRules.SuccessorsIs | ebpf/src/lib.rs:412-472 | control may follow exactly to the next instruction, past a wide one, or to the target of a jump |
| BpfRules.LocalOkIs | ebpf/src/lib.rs:146-255 | what is asked of one instruction, by its opcode byte and fields |
| BpfRules.WellEncodedIs | ebpf/src/lib.rs:112-140 | which slots are second halves of wide immediates, and which instructions are well encoded |
| BpfExact.PassExact | ebpf/src/lib.rs:142-255 | from any point on, the single forward pass ends with the intersection over all control-flow paths of the registers they initialise |
| BpfExact.ScanSound | ebpf/src/lib.rs:112-140 | a scan that succeeds marks exactly the second halves of wide immediates |
| BpfExact.ScanComplete | ebpf/src/lib.rs:112-140 | every consistent marking is the one the scan finds |
| BpfExact.MissingPath | ebpf/src/lib.rs:412-453 | a register missing from the computed set is missing on some path, which is constructed |
| BpfVerifier.LocalCheckPasses | ebpf/src/lib.rs:146-255 | the checks of one instruction pass if and only if it is legal and reads initialised registers only |
| BpfVerifier.LocalCheckBlames | ebpf/src/lib.rs:363-410 | an uninitialised-register error names a register the instruction reads |
| BpfMachine.StackRoundTrip | ebpf/src/lib.rs:519-540 | a store then a load of the same slot returns the low bytes and no other stack byte changes |
| BpfMeaning.StepIs | ebpf/src/lib.rs:263-361 | for every opcode byte, what one step leaves in registers, stack and program counter is what the instruction means and nothing else is: wrapping arithmetic by congruence, division by quotient and remainder, logic bit by bit, shifts by powers of two, memory byte by byte, each branch by when it is taken |
| BpfMeaning.AluIs | ebpf/src/lib.rs:474-500 | the value of an operation is the one number that satisfies its meaning, and a division by zero is the only failure |
| BpfMeaning.CompareIs | ebpf/src/lib.rs:502-517 | a branch is taken exactly when the comparison its opcode byte stands for holds, signed ones on the numbers the words mean |
| BpfMeaning.OutcomeIs | ebpf/src/lib.rs:263-361 | the outcome of an accepted program is that of a sequence of states, from the context in r1 and the end of the stack in r10, each of which follows from the one before as its instruction means |
| BpfSound.StepSound | ebpf/src/lib.rs:263-361 | a checked instruction moves forward along an edge, keeps r10, stays in range, and fails only by division or a refused allowed helper |
| BpfSound.ExecSound | ebpf/src/lib.rs:263-361 | from any reachable point a well-formed program executes no more instructions than lie ahead |
| BpfSound.VerifiedRuns | ebpf/src/lib.rs:263-361 | every accepted program ends within its own length with a value, a division by zero or a refused allowed helper |
| BpfSound.StepAgrees | ebpf/src/lib.rs:263-361 | states that agree on the initialised registers step to states that agree, or to the same result |
| BpfSound.NonInterference | ebpf/src/lib.rs:263-361 | the outcome of an accepted program, value or error and its place, does not depend on any starting register but r1 and r10 |
| BpfSound.CallsMayClobber | ebpf/src/lib.rs:232-246 | if every helper call left arbitrary values in r1 to r5, the outcome of an accepted program would be the same |
| BpfSound.NoCalls | ebpf/src/lib.rs:263-361 | with an empty allow-list no helper is consulted |
| BpfEngine.Verify | ebpf/src/lib.rs:101-261 | the array-and-bitmask verifier returns exactly the specified verdict and error, which `VerdictIs` and `RejectionExplained` explain |
| BpfEngine.ScanWide | ebpf/src/lib.rs:112-140 | the in-place scan agrees with its specification |
| BpfEngine.ForwardPass | ebpf/src/lib.rs:142-261 | the in-place pass over sixteen-bit masks agrees with the pass over sets of registers |
| BpfEngine.CheckMask | ebpf/src/lib.rs:142-261 | testing bits of the mask, check by check up to the first that fails, gives the error the specification gives for the set of registers |
| BpfEngine.PropagateMasks | ebpf/src/lib.rs:412-453 | merging a mask into successors is intersection of register sets, the unreached mark being everything |
| BpfEngine.Execute | ebpf/src/lib.rs:263-361 | the interpreter on arrays returns the specified outcome, which `OutcomeIs` explains, and never indexes out of range |
| BpfEngine.ExecuteOne | ebpf/src/lib.rs:263-361 | one turn of the loop leaves in the arrays exactly what its instruction means, by opcode byte |
| BpfEngine.AluInPlace | ebpf/src/lib.rs:474-500 | arithmetic sets one register to the number the operation means, or reports the division at this place |
| BpfEngine.LoadBytes | ebpf/src/lib.rs:528-534 | the byte loop reads the little-endian value |
| BpfEngine.StoreBytes | ebpf/src/lib.rs:536-540 | the byte loop stores the little-endian value and nothing else |
| Frames.FrameAllocator.Initialize | kernel/src/memory.rs:109-150 | with usable descriptors that do not overlap, the allocator starts with disjoint regions, exactly those of the memory map in order, nothing in use, and the frame count reported is how many can be given |
| Frames.RegionCovers | kernel/src/memory.rs:125-142 | a page belongs to a region exactly when it is a whole usable page at or above 1 MiB |
| Frames.RegionsCover | kernel/src/memory.rs:115-142 | the regions of a whole memory map hold nothing but pages some usable descriptor covers, and all of those unless the table of regions is full |
| Frames.FrameAllocator.AllocateFrame | kernel/src/memory.rs:47-53 | gives a frame if and only if one can still be given: the most recently returned one if there is any, else the next page of the first region that has one; it was not in use, and one less is left |
| Frames.FrameAllocator.AllocateContiguous | kernel/src/memory.rs:55-71 | hands out pages none of which was in use, from the first remaining region that fits; regions that do not fit are given up for good |
| Frames.FrameAllocator.DeallocateFrame | kernel/src/memory.rs:73-88 | succeeds exactly on frames in use while the stack of returned frames has room |
| Frames.FrameAllocator.Partition | kernel/src/memory.rs:28-88 | in every state the frames handed out split exactly into those in use and those waiting, without overlap or repetition |
| Frames.BumpEffect | kernel/src/memory.rs:55-71 | bumping a region hands out exactly the pages in between, none of them out before in any region |
| PageTables.KernelWalk | kernel/src/paging.rs:44-105 | through tables of the kernel's shape the processor translates exactly the mapped 2 MiB pages, each to itself, supervisor-only |
| PageTables.PdptAdded | kernel/src/paging.rs:259-266 | linking a cleared table into the root keeps the shape |
| PageTables.DirectoryAdded | kernel/src/paging.rs:267-275 | linking a cleared directory keeps the shape |
| PageTables.LeafMapped | kernel/src/paging.rs:276-288 | writing an uncached leaf keeps the shape and maps just that page |
| KernelPaging.Memory.MapMmioRange | kernel/src/paging.rs:245-291 | maps every 2 MiB page the range touches, uncached, making just the tables needed; both counters are exact; it succeeds if and only if the range is in the lower half and the frames left are enough for the missing tables |
| KernelPaging.Memory.MapPage | kernel/src/paging.rs:255-290 | one page: missing tables are made from frames that were free, present ones reused; it fails only for want of exactly those frames |
| KernelPaging.Memory.TableFrame | kernel/src/paging.rs:293-303 | a table frame was not in use before and is cleared; there is one whenever a frame is left |
| KernelPaging.Memory.DataFrame | kernel/src/paging.rs:297-303 | a data frame was not in use before and is cleared; there is one whenever a frame is left |
| KernelInstall.Install | kernel/src/paging.rs:44-105 | the installed tables map exactly the first GiB and the device ranges, uncached exactly on the latter; the reported frame and page counts are exact; every frame taken is a table; it succeeds if and only if all ranges are in the lower half and the frames left are enough for the tables |
| KernelInstall.InstalledWalk | kernel/src/paging.rs:44-105 | for every lower-half address the processor's translation is the identity on those pages and a fault elsewhere |
| KernelInstall.DeviceByte | kernel/src/paging.rs:245-291 | every byte of an accepted device range is mapped to itself, uncached |
| UserSpace.UserWalk | kernel/src/paging.rs:107-195 | in the user's GiB the processor sees the process's pages and nothing else |
| UserSpace.KernelPart | kernel/src/paging.rs:118-138 | everywhere else it sees exactly the kernel's translations, out of the user's reach |
| UserSpace.UserReach | kernel/src/paging.rs:107-236 | the addresses a user can read are exactly the four code and three stack pages and the shared page once mapped; those it can write, the stack and shared pages |
| UserMemory.CreateUserAddressSpace | kernel/src/paging.rs:107-195 | builds such an address space from eleven frames that were free, the image in its code pages and zeros elsewhere, disturbing no other table or page; it succeeds if and only if the image fits, the kernel has its first table and does not map the user's GiB, and eleven frames are left |
| UserMemory.CopyImage | kernel/src/paging.rs:140-155 | the code pages hold the image, zero past its end |
| UserMemory.ReleaseAll | kernel/src/paging.rs:197-210 | releasing succeeds exactly when every frame is in use and there is room, and returns exactly those frames in order |
| UserMemory.ReapAddressSpace | kernel/src/process.rs:830-866 | reaping returns the eleven frames exactly when all are in use and there is room, and the reuse probe always gets the last stack page |
| UserMemory.CreateThenReap | kernel/src/process.rs:830-866 | creating succeeds under exactly that condition, and reaping a process just created always does: it returns exactly the eleven frames, the probe gets the last stack page, the frames in use are as before, and the allocator's stack is what creation left of it with those eleven on top |
| SharedMemory.RunCounts | kernel/src/shared_memory_service.rs:95-193 | over any run a handle resolves exactly while its creations and retentions outnumber its releases, and that difference is its reference count |
| SharedMemory.StaleForever | kernel/src/shared_memory_service.rs:71-193 | a handle whose object is gone never resolves again, however the slots are reused |
| SharedMemory.LastRelease | kernel/src/shared_memory_service.rs:175-193 | the last release makes a handle stale |
| SharedMemory.SharedMemoryTable.New | kernel/src/shared_memory_service.rs:95-121 | a new object gets the next generation of the first free slot, its owner, length zero, one reference and a cleared page of its own, distinct from every other object's, and no other slot changes; it succeeds exactly if a slot is free, its generation can advance and a frame is left; the counter overflow is reported exactly when the first free slot is exhausted |
| SharedMemory.SharedMemoryTable.SetLength | kernel/src/shared_memory_service.rs:147-163 | sets the length exactly for the owner of a live object and a length of at most a page; the error says which of the three was wrong |
| SharedMemory.SharedMemoryTable.AddReference | kernel/src/shared_memory_service.rs:165-173 | succeeds exactly on a live handle whose counter has room; the error says which was wrong |
| SharedMemory.SharedMemoryTable.DropReference | kernel/src/shared_memory_service.rs:175-193 | frees the page exactly with the last reference, reporting when the allocator cannot take it back |
| SharedMemory.SharedMemoryTable.Index | kernel/src/shared_memory_service.rs:71-78 | resolves exactly live handles |
| SharedMemory.SharedMemoryTable.FrameAndLength | kernel/src/shared_memory_service.rs:195-203 | yields the page and length of a live object whose length was set |
| UserCopy.TranslateAgrees | kernel/src/process.rs:2491-2536 | the kernel's own translation of a user byte is the processor's, with user access and with write access when asked, on exactly the reachable addresses less the tail of the last code page |
| UserCopy.ChunkAgrees | kernel/src/process.rs:2491-2536 | a chunk is a non-empty run of bytes of one page, each where it would be found alone |
| UserCopy.ValidateUserRange | kernel/src/process.rs:2460-2482 | accepts exactly the ranges every byte of which may be accessed |
| UserCopy.CopyFromUser | kernel/src/process.rs:2421-2438 | reads exactly the bytes the process sees, never failing part-way, or refuses and leaves the buffer alone |
| UserCopy.CopyToUser | kernel/src/process.rs:2440-2458 | writes exactly those bytes of physical memory and no other, or refuses and writes nothing |
| UserCopy.CopyRoundTrip | kernel/src/process.rs:2421-2458 | what was written to a range is what is read from it |
| UserCopy.TranslateInjective | kernel/src/process.rs:2491-2536 | different user addresses are different physical bytes |
| UserShared.MapUserSharedPage | kernel/src/paging.rs:212-236 | enters the page exactly when both frames are aligned and nothing is mapped there |
| UserShared.MapSharedMemory | kernel/src/process.rs:2539-2559 | succeeds exactly for a live object with a length, room in its counter and no earlier mapping; record and page tables agree afterwards, and a refusal changes nothing |
| UserShared.ReleaseExited | kernel/src/process.rs:830-866 | an exited process gives up its shared reference, the shared page with the last one, and its eleven frames, in that order; exactly when the kernel stops instead |
| UserShared.NewSpaceApart | kernel/src/paging.rs:107-195 | a new process's frames are none of the shared pages in use |
| UserShared.ObjectsStayApart | kernel/src/shared_memory_service.rs:95-193 | whatever is done with shared objects, their pages stay apart from a process's own, which is what makes user copies exact |
| ConfigBanks.BankSafety | kernel/src/desktop_config.rs:150-219 | in every interleaving with no more publications than the generation can count, the writer's open bank is out of the reader's reach, each acknowledgement is in turn, and a publication is at most one ahead of what was consumed |
| ConfigBanks.ReadsWhatWasPublished | kernel/src/desktop_config.rs:204-219 | in every such interleaving the configuration in use is byte for byte the one published under its generation, for as long as it is in use |
| ConfigBanks.TakenUp | kernel/src/desktop_config.rs:204-219 | in every such run a publication that awaits the reader is taken up whole by its next steps and acknowledged |
| ConfigBanks.Published | kernel/src/desktop_config.rs:150-202 | and with none awaiting, a writer at rest publishes its value |
| ConfigBanks.Cancelled | kernel/src/desktop_config.rs:156-158 | a writer that gives up leaves everything as it was and the way free for the next |
| ConfigBanks.SafeExactly | kernel/src/desktop_config.rs:150-219 | a run is safe all along, and after any further steps that publish nothing, if and only if it publishes no more than the 64-bit generation can count |
| ConfigBanks.ExhaustedUnsafe | kernel/src/desktop_config.rs:173-202 | there is a run from start-up, of that many publications each taken up and one more, after which the writer opens the bank in use |
| WallpaperBanks.BankSafety | kernel/src/wallpaper_file.rs:180-485 | in every interleaving the worker's open bank is out of the desktop's reach, the request slot is not filled while it is copied, no acknowledgement check fails, and requests, results and acknowledgements stay in step |
| WallpaperBanks.ShowsWhatWasPublished | kernel/src/wallpaper_file.rs:367-485 | the image on screen is the result it was shown for, unchanged since |
| WallpaperBanks.Asked | kernel/src/wallpaper_file.rs:180-202 | in every run a desktop at rest with no request open can make one |
| WallpaperBanks.Answered | kernel/src/wallpaper_file.rs:204-372 | a request on offer is answered by the worker's next steps, with its number and the image it stored |
| WallpaperBanks.PutOnScreen | kernel/src/wallpaper_file.rs:408-456 | the answer is put on the screen by the desktop's next steps |
| WallpaperBanks.Freed | kernel/src/wallpaper_file.rs:458-485 | acknowledging it pins the image on screen and frees the request |
| WallpaperBanks.Cleared | kernel/src/wallpaper_file.rs:408-485 | with the image taken off the screen no bank is held |
| SurfaceBanks.BankSafety | kernel/src/wayland_service.rs:600-749 | the same for surfaces, in every interleaving in which the client does not choose a bank between the two halves of an acknowledgement |
| SurfaceBanks.TakenUp | kernel/src/wayland_service.rs:712-749 | in every such run a surface that awaits the renderer is taken up whole by its next steps and acknowledged |
| SurfaceBanks.Published | kernel/src/wayland_service.rs:600-651 | and with none awaiting, a client at rest publishes its surface |
| SurfaceBanks.RaceIsExact | kernel/src/wayland_service.rs:732-749 | a step is safe if and only if it is not that race |
| SurfaceBanks.RaceHappens | kernel/src/wayland_service.rs:732-749 | the race has a run that brings it about |
| PolicyMailbox.AppliesWhatWasSubmitted | kernel/src/desktop_service.rs:36-113 | in every interleaving the desktop applies exactly the accepted policies, each once and in order and never a mixture, no acknowledgement is refused, and the generation never runs over |
| PolicyMailbox.OnlyTheService | kernel/src/desktop_service.rs:36-67 | in every interleaving each accepted policy was submitted by the service process, whoever else tries |
| PolicyMailbox.Delivers | kernel/src/desktop_service.rs:36-113 | in every run at rest a valid policy goes through, reaches the desktop, and the next is due |
| PolicyMailbox.PackRoundTrip | kernel/src/desktop_service.rs:50-82 | the policy word carries a policy faithfully if and only if its capabilities fit eight bits |
| InputRing.InputQueue.EnqueueInterruptByte | kernel/src/ps2.rs:293-304 | the byte joins the end of the queue unless 127 are waiting, and then it is counted as dropped |
| InputRing.InputQueue.NextByte | kernel/src/ps2.rs:348-357 | yields the oldest byte |
| InputRing.PushQueued | kernel/src/ps2.rs:293-304 | storing at the head appends to the queue across the wrap and leaves the oldest cell alone |
| InputRing.PopQueued | kernel/src/ps2.rs:348-357 | advancing the tail drops exactly the oldest byte, decoded as it was encoded |
| Executor.NoLostWakeUp | kernel/src/executor.rs:17-74 | in every interleaving with interrupts the processor halts only when the ring is empty and no publication awaits the desktop |
| Executor.NoLostBlockWakeUp | kernel/src/executor.rs:17-74 | and only when nothing the block task waits for has been posted and not taken, whether by the desktop task or by the disk, unless the disk's interrupt is pending |
| Executor.NoLostByte | kernel/src/ps2.rs:293-359 | delivered bytes followed by queued bytes are the accepted bytes in order, and arrivals are accepted plus dropped |
| Executor.InterruptResumes | kernel/src/executor.rs:23-74 | a halted processor has no wake-up pending, and an interrupt starts the loop again, with the desktop exactly if it is for the desktop |
| Executor.TakesOldest | kernel/src/ps2.rs:348-359 | in every run the desktop task, having found nothing published, takes the oldest byte of a ring that is not empty |
| Executor.TakesPosted | kernel/src/executor.rs:23-61 | in every run the block task takes up what it waits for and finds posted, and else goes on |
| KeyBits.SetKeys | kernel/src/wayland_service.rs:131-149 | setting or clearing a key's mask in the two words adds or removes exactly that key |
| ClientMirror.InputServer.SetKeyboardFocus | kernel/src/wayland_service.rs:223-279 | the record changes exactly when the client was told, and is always the client's view of the delivered events |
| ClientMirror.InputServer.PublishKeyboardKey | kernel/src/wayland_service.rs:281-325 | a key changes the record exactly when it was delivered; only a focused client, and a release only of a key it holds |
| ClientMirror.InputServer.PublishPointer | kernel/src/wayland_service.rs:327-423 | focus and the three buttons follow the report exactly when it was delivered; the place and the wheel reach the client as reported, each button under its own code, and what is said is closed by a frame; otherwise nothing is sent |
| ClientMirror.ButtonsSeen | kernel/src/wayland_service.rs:327-423 | the three bits of the record are the left, right and middle button as the client believes them from the events it got |
| ClientMirror.ReportSeen | kernel/src/wayland_service.rs:327-423 | where the client sees the pointer after a report, and how far the wheel has turned in all |
| ClientMirror.InputServer.NextSerial | kernel/src/wayland_service.rs:123-129 | serial numbers count up and skip zero at the wrap |
| ClientMirror.InputServer.SendBatch | kernel/src/wayland_service.rs:204-221 | a batch is delivered whole or not at all, and the ones dropped are counted, up to the largest count |
| ClientMirror.Extends | kernel/src/wayland_service.rs:223-423 | delivering a batch takes the client's view through it and keeps every release after its press |
| ClientMirror.ReleaseFollowsPress | kernel/src/wayland_service.rs:281-325 | every key release delivered answers a press of that key delivered earlier, with neither a release nor a change of focus in between |
| ClientMirror.ButtonReleaseFollowsPress | kernel/src/wayland_service.rs:327-423 | every button release delivered answers a press of that button delivered earlier, with neither a release nor a leave in between |
| ProcessTable.Table.NextSchedulableAfter | crates/process/src/lib.rs:413-437 | the cyclic scan: the next schedulable process, itself only if there is no other, none exactly when nothing is schedulable |
| ProcessTable.NextIsNearest | crates/process/src/lib.rs:413-437 | no schedulable process comes sooner in cyclic order than the one chosen |
| ProcessTable.Table.EnterUser | kernel/src/process.rs:609-651 | a schedulable process enters with the registers it is owed, zero in the result register after a yield; no consistency check fails |
| ProcessTable.Table.PreemptFromTimer | kernel/src/process.rs:734-794 | preempts exactly when another process could run, saving the interrupted registers |
| ProcessTable.Table.SuspendCall | kernel/src/process.rs:2337-2355 | a suspending call blocks the process on it, a yield leaves it runnable, and either keeps the registers of the call; no call is pending before |
| ProcessTable.Table.CompleteCall | kernel/src/process.rs:976-993 | completing a call makes its blocked process runnable with the registers kept and the result |
| UserRuntime.SchedulerConsistent | kernel/src/fs.rs:893-971 | in every run state and pending call of each process go together, no scheduler consistency check fails, and the loop parks only when nothing is schedulable, on the call its process is blocked on |
| UserRuntime.PreemptedResumes | kernel/src/process.rs:734-794 | a process interrupted by the timer next runs with exactly the registers it was interrupted with, whatever ran in between |
| UserRuntime.CallResumes | kernel/src/process.rs:2337-2355 | a process that makes a blocking call next runs with exactly the registers of the call and, as result, that of the action that completed it, whatever ran in between and also if the call was put aside and parked |
| UserRuntime.YieldedResumes | kernel/src/process.rs:609-651 | a process that yields next runs with the registers it yielded with and a zero result |
| UserRuntime.AnsweredAtOnce | kernel/src/process.rs:976-993 | every call but an accept, a poll, a wait for a configuration or for a child is answered at once, with the result it is handled with |
| UserRuntime.WokenAtOnce | kernel/src/process.rs:976-993 | a parked call is answered as soon as its request completes |
| UserRuntime.TickLeaves | kernel/src/process.rs:734-794 | a tick takes the processor from a process exactly when the other could run |
| UserRuntime.CallLeaves | kernel/src/process.rs:2337-2355 | a call that is not refused suspends its process, a yield lets it go on later |
| UserRuntime.GivesWay | kernel/src/fs.rs:893-971 | a process that yields or is preempted is followed by the other one if that can run, and else by itself |
| UserRuntime.AsideGivesWay | kernel/src/fs.rs:893-971 | an accept, a poll or a wait for a configuration leaves the processor to the other process if that can run, and parks otherwise |
| UserRuntime.NeverStuck | kernel/src/fs.rs:893-971 | in every run the loop finds a process to run or parks, and it parks only on an accept, a poll or an awaited configuration of the desktop service |
| FileWindows.ReadRange | kernel/src/fs.rs:1440-1474 | a windowed read returns exactly those bytes of the flat file, holes as zeros, across blocks and through the cache |
| FileWindows.WriteRange | kernel/src/fs.rs:1476-1514 | a windowed write changes exactly those bytes of the flat file and nothing outside it, stopping at the first block that is a hole or partial with exactly the beginning written; what was written is on the medium when it returns |
| FileWindows.OverwriteBlock | kernel/src/fs.rs:4284-4309 | overwrites exactly one block, accepted exactly for whole placed blocks, forces it to the medium, and leaves no stale copy |
| FileWindows.ReadFileBlock | kernel/src/fs.rs:4241-4263 | yields the part of a block inside the file, zeros for a hole |
| FileWindows.WriteRun | kernel/src/fs.rs:1476-1514 | merging a run into its block changes exactly those bytes of the file, because the block map is injective |
| VirtQueue.QueueSound | kernel/src/virtio.rs:221-434 | for any number of requests past any number of index wraps, the device takes the announced heads in order and carries out the announced requests, completion is seen only when nothing is in flight, and no slot is touched before |
| VirtQueue.QueueMoves | kernel/src/virtio.rs:221-434 | in every run the device can take the next request announced and carry out any it has taken, and the driver sees completion as soon as nothing is in flight |
| VirtQueue.Announces | kernel/src/virtio.rs:221-434 | an idle driver announces the requests it is given, in order, and then waits for them |
| VirtQueue.CellsDistinct | kernel/src/virtio.rs:411-434 | consecutive requests never share a ring cell if and only if the last index before the wrap is not in the first cell |
| VirtQueue.ChosenSizeFits | crates/virtio/src/lib.rs:48-54 | every queue size the kernel chooses meets that condition |
| VirtQueue.ChosenSize | crates/virtio/src/lib.rs:48-54 | the size chosen is the largest power of two within what the device offers and the limit, and there is none exactly if fewer than four fit |
| VirtQueue.PollQuiet | kernel/src/virtio.rs:478-486 | equality of the sixteen-bit used index means that every outstanding chain is used |
| Elf.Parse | crates/elf/src/lib.rs:114-177 | accepts exactly the files whose bytes lay out a well-made x86-64 executable: file header, program headers and flags at the offsets of chapters 4 and 5 of the System V ABI, segments sound; entry, table and the count of segments to load are those of the bytes, and whatever error is reported is so of the file |
| Elf.HeaderAtIs | crates/elf/src/lib.rs:276-297 | a program header has given values exactly if their little-endian bytes lie in the file in the order of the System V ABI |
| Elf.AcceptsExactly | crates/elf/src/lib.rs:114-177 | what is accepted, said of the bytes of the file alone |
| Elf.FlagBits | crates/elf/src/lib.rs:95-101 | execution and writing are bits 0 and 1 of the flags' first byte |
| Elf.ValidateLoadSegments | crates/elf/src/lib.rs:199-234 | accepts exactly when every segment is acceptable, no two overlap and the entry is in an executable one; overlap is reported only when there is one |
| Elf.ValidateLoadSegment | crates/elf/src/lib.rs:236-274 | accepts exactly the segments that fit the file and the address space, aligned, and not both writable and executable |
| Elf.OverlapShares | crates/elf/src/lib.rs:345-355 | the overlap test is true exactly of segments that share an address |
| Elf.SoundDisjoint | crates/elf/src/lib.rs:199-234 | in an accepted file no address belongs to two segments and each is read from inside the file |
| Elf.CanonicalThroughout | crates/elf/src/lib.rs:266-273 | an accepted segment is canonical throughout if and only if it does not start below and end above the hole |
| Elf.SpansTheHole | crates/elf/src/lib.rs:266-273 | a segment that spans the hole is accepted in every file |
| Elf.LoadSegments.Next | crates/elf/src/lib.rs:319-333 | yields exactly the segments to load in header order, each with the address, sizes, flags and file bytes its header gives, then nothing |
| Elf.LoadSegments.SizeHint | crates/elf/src/lib.rs:335-343 | the remaining length is exact at every step |
| Elf.LoadsExact | crates/elf/src/lib.rs:319-333 | that order leaves no segment out and repeats none |

## Left out

- Byte layouts, checksums, UUIDs and block counts of ext4 and JBD2 records: a block is a datatype value, so that a record
  is recognised by its form; extent trees are given as a block map.
- Ext4Mount.group0 and the allocation of inodes, blocks and directory entries that produce the transactions.
- JournalEngine.CheckRecords: blocks are compared as values of the block type, not as bytes.
- The boot-time probe routines and crash injection in `kernel/src/fs.rs`, which repeat the commits modelled here.
- The bits of page-table entries: an entry is a record of its flags and frame.
- KernelPaging.Memory.MapMmioRange: the wrap of a range end rounded up past the largest 64-bit address is not modelled; such a range fails at the lower-half limit.
- The user flags register saved and sanitised on entry: registers are the result register and one value for the rest.
- UserMemory.ReapAddressSpace: the shared mapping is released by `UserShared.ReleaseExited`; the exit status is not modelled.
- SharedMemory: `create_initialized`, `bytes` and `read_at`, which only combine the modelled operations.
- UserShared.MapSharedMemory: the branch that gives the reference back is left out, because entering the page is proved to succeed there.
- WallpaperBanks.BankSafety: the wrap of the 64-bit request counter is not modelled.
- Weak memory: atomics are sequentially consistent, as on the one processor the code runs on.
- Parsers of configuration and image formats, rendering, window layout and logging.
- The Wayland session's protocol legality, wire encoding of events, and the event published on presentation.
- The socket table: a send is accepted or refused as a whole, whichever the environment chooses.
- Immediate system calls, descriptors and exit-status checks: only suspending calls, ticks and exits move the scheduler.
- Device setup, interrupts' acknowledgement, ports, APIC, PCI, ACPI, the heap, the framebuffer and the UEFI loader.
- VirtQueue.QueueSound: descriptor contents beyond the slot they name, status bytes and device errors are not modelled.
