# HighPoint RAID driver: a verified model of the Linux shim

The RAID engine of this driver is linked in as binary objects. Around it stands a C shim
(`osm/linux`, `inc`) that gives the engine memory, time, deferred tasks and SCSI commands. This
project models the parts of the shim that hold state or arithmetic of their own, and proves what the
rest of the driver relies on. The engine (LDM and the host interface modules below it) appears only as
an environment that may do anything within the assumptions named here.

| file | what it models |
|---|---|
| `Words.dfy`, `Collections.dfy` | machine words, powers of two, division facts; options and sequences |
| `Div64.dfy` | 64-by-32-bit division: the MIPS32 loop, the three `do_div` forms, `__udivdi3`, `__umoddi3` |
| `ScatterGather.dfy` | the greedy descriptor merge of `os_buildsgl` |
| `SemaphoreWait.dfy`, `IoctlHandshake.dfy`, `FlushHandshake.dfy` | the two blocking calls, step by step, against a completer that holds the vbus lock and a timer that does not |
| `FreeLists.dfy` | intrusive free lists over an explicit memory, with command group reservations |
| `PoolLedger.dfy`, `Pools.dfy`, `PoolLife.dfy` | the memory of a vbus from `hpt_alloc_mem` to `hpt_free_mem`, and everything in between |
| `CommandLedger.dfy` | the life of a SCSI command: accepted, queued or rejected, mapped, completed |
| `AtaRegisters.dfy` | the registers of an ATA pass-through command, in its CDB and in the sense buffer |
| `BlockAddressing.dfy` | command descriptor blocks, sector scaling, READ CAPACITY |
| `TaskQueue.dfy` | deferred tasks |
| `ProcWindow.dfy` | the /proc window writer |
| `Timers.dfy` | timer expiry against the driver's clock, with wrap-around |
| `CircularList.dfy` | the circular doubly linked list |

## How the model reads the code

Code that works by updating state is a class or a method with loops, specified by functions and
predicates on values; the lemmas are about those. Protocols with several actors are state machines,
one step per access to shared state, and their theorems quantify over all reachable states or all
event sequences.

* Memory is a map from addresses to the two words that free-list code stores in a block. The kernel's
  allocators keep a ledger of what they gave out. Giving back something that is not in the ledger, or
  as something else than it was taken as, or touching memory that was given back, is a precondition
  violation; so double frees, leaks and uses after free are excluded by the proof, and not only by a
  final count. New memory has arbitrary content at an arbitrary free address.
* A block is at least as long as the words the lists write into it: 8 bytes for the link, and 8 more in
  a DMA block for its bus address. The source relies on this without checking it. `LinksInside` shows
  that these words then stay in the block's chunk and out of every other block, so a map from block
  addresses to whole word pairs loses nothing.
* The page size is 4096, the value of `DMAPOOL_PAGE_SIZE` (inc/linux/osm.h:17), which the code asserts
  to be `PAGE_SIZE`.
* `down`, `up`, `sema_init`, the vbus lock and the timer are single steps that interleave freely.
  `del_timer` is assumed to wait for a running handler (see "Left out"). LDM calls `done` at most once
  for a submission, from code that holds the lock.
* The devices and their transforms stay as they are while a flush runs; chains of transforms may be of any
  length.
* Integers are unbounded in Dafny; wherever the source's width matters it is written out: the registers
  of the division loop, the 32-bit size and 64-bit address sums of the merge, the 16-bit sector count,
  jiffies and the clock.

Where a property holds only under a condition, the condition is proved exact:

* the MIPS32 loop is right if and only if the upper word is below the divisor; cutting a 64-bit divisor
  to 32 bits is harmless for every dividend if and only if it fits them;
* a CDB is read as the standard means it if and only if READ(6) and its kin have clear upper bits in
  byte 1 and a non-zero length, and 16-byte commands have zero in bytes 10 and 11
  (section 5.5 of SBC-2: length 0 means 256 blocks, which the driver reads as 0);
* the shifted 16-bit sector count is exact if and only if it fits 16 bits;
* READ CAPACITY(10) answers 0xffffffff if and only if there are at least 2^32 blocks or none at all;
* `hpt_time_after` recognises a fired timer if and only if its lateness in microseconds, modulo 2^32, lies
  strictly between 0 and 2^31; a lateness below 2^31 always does. `LateTimers` has an instance of either
  answer for a timer that is later;
* the merge preserves the byte stream if and only if no join wraps its 32-bit sum, which holds of every
  request below 4 GiB and of every request without an element of 2 GiB; `WrappedSumLosesBytes` is an
  instance of the other case;
* merging a table again changes nothing if and only if no two neighbours in it pass the loop's own test,
  which holds for the same two kinds of requests. `RemergeLosesBytes` and `WrappedTableRejoins` are
  instances of the other case, after an exact first merge and after one that wrapped;
* result 0 of a flush means that every stage was flushed if and only if the device has one stage: for
  every device with more there is a run whose first stage fails and whose result is 0;
* the commands reserved for a flush cover the whole chain of transform targets if and only if they cover
  the device itself and the stages from the third on; `ThirdStageFallsShort` is a chain where they do not;
* the ATA return descriptor is read back as written if and only if the command had the extend bit or the
  sense buffer had that bit clear, since the driver sets the bit and never clears it.

## Model

| member | source | states |
|---|---|---|
| Div64.Mips32Loop | osm/linux/div64.c:15-49 | the 33-pass loop on wrapping registers with a carry yields exact quotient and remainder if and only if high < base |
| Div64.PassKeepsProgress | osm/linux/div64.c:27-46 | one full pass consumes one dividend bit and keeps quotient, remainder and rest recombining to the dividend |
| Div64.TrialResult | osm/linux/div64.c:34-44 | the wrapping subtraction under the carry flag equals the subtraction on the unwrapped remainder, also when that exceeds 32 bits |
| Div64.PassesDivide | osm/linux/div64.c:15-49 | from any mid-way state that satisfies the invariant the remaining passes end with n / base and n % base |
| Div64.ExactIffHighBelowBase | osm/linux/div64.c:15-49 | exactness of the 32 shifting passes is equivalent to high < base |
| Div64.DoDivMips32 | osm/linux/div64.c:51-74 | for every 64-bit n and base below 2^32, quotient and remainder are n / base and n % base |
| Div64.DoDivMips64 | osm/linux/div64.c:103-116 | the same for the 64-bit form |
| Div64.DivlFitsIff | osm/linux/div64.c:120-129 | divl does not trap if and only if the upper word is below the divisor |
| Div64.DoDivI386 | osm/linux/div64.c:120-131 | the two-step divide never traps and gives n / base and n % base |
| Div64.TwoDigits | osm/linux/div64.c:51-74 | long division by digits of 2^32: the two partial quotients recombine to n / base without overflow |
| Div64.DoDiv | osm/linux/div64.c:51-131 | all three forms agree on every input |
| Div64.Udivdi3 | osm/linux/div64.c:135-139 | n divided by the low 32 bits of the divisor, on every architecture |
| Div64.Umoddi3 | osm/linux/div64.c:141-144 | the remainder by the low 32 bits of the divisor |
| Div64.CutDivisorExactIff | osm/linux/div64.c:135-144 | truncating the divisor changes no quotient and no remainder if and only if it was below 2^32 |
| ScatterGather.BuildPhysicalSgl | osm/linux/osm_linux.c:779-798 | succeeds if and only if the mapped list is non-empty with all addresses and lengths even; the table is then the merge with the end mark on exactly the last entry, nothing behind it is written, and a controller that reads up to the end mark transfers the bytes of the list, unless a sum wrapped |
| ScatterGather.EngineReadsAll | osm/linux/osm_linux.c:797 | reading up to the first end mark covers every descriptor of the merge and nothing behind, whatever lies there |
| ScatterGather.PutParity | osm/linux/osm_linux.c:784-797 | parity survives wrapping sums, so checking addresses late and sizes after accumulation misses no odd element |
| ScatterGather.PutExact | osm/linux/osm_linux.c:784-795 | without wrap-around the loop's test is adjacency within limits, and joining is gluing two byte ranges |
| ScatterGather.MergePreservesBytes | osm/linux/osm_linux.c:779-798 | unless a sum wraps, the byte addresses covered by the table, in order, are those of the input; never more entries than elements |
| ScatterGather.MergeKeepsLimit | osm/linux/osm_linux.c:784-797 | inputs of at most 64 KiB give entries of at most 64 KiB; no entry gains a 4 GiB crossing or odd parity |
| ScatterGather.BytesKeptIff | osm/linux/osm_linux.c:779-798 | for elements inside the address space, the bytes are kept if and only if no join on the way wraps its 32-bit sum |
| ScatterGather.ModerateNeverOverflows | osm/linux/osm_linux.c:785-786 | no sum wraps when no element reaches 2 GiB, nor when the request is below 4 GiB, nor in merging the table again |
| ScatterGather.WrappedSumLosesBytes | osm/linux/osm_linux.c:785-786 | an instance of the failing case of BytesKeptIff: a sum wraps, looks small, and 4 GiB are lost |
| ScatterGather.GreedyIsGrouping | osm/linux/osm_linux.c:779-798 | the entries are exactly the runs of one legal order-preserving grouping of the input |
| ScatterGather.GreedyStaysAhead | osm/linux/osm_linux.c:779-798 | against any legal grouping the merge has fewer runs, or as many with a shorter open one |
| ScatterGather.MergeIsOptimal | osm/linux/osm_linux.c:779-798 | no legal grouping has fewer runs than the merge has entries, and the merge attains that number |
| ScatterGather.MergeLeavesApart | osm/linux/osm_linux.c:784-786 | no two neighbouring entries of the output could be joined |
| ScatterGather.FixedIffNoneMeet | osm/linux/osm_linux.c:779-798 | for every list of descriptors: merging it changes nothing if and only if no two neighbours pass the loop's test |
| ScatterGather.MergeIsIdempotentIff | osm/linux/osm_linux.c:779-798 | for every list of elements: merging its table again changes nothing if and only if no neighbours of the table pass the loop's test; after an exact first merge this says that no sum wraps the second time |
| ScatterGather.MergeIsIdempotent | osm/linux/osm_linux.c:779-798 | so for every request without an element of 2 GiB, and every one below 4 GiB |
| ScatterGather.RemergeLosesBytes | osm/linux/osm_linux.c:785-786 | an instance where the first merge is exact and a second one is not |
| ScatterGather.WrappedTableRejoins | osm/linux/osm_linux.c:785-786 | an instance where the first merge wraps and a second one joins what it left, without wrapping |
| IoctlHandshake.NextKeepsInv | osm/linux/osm_linux.c:1642-1703 | every step of caller, completer, timer and signal keeps the handshake invariant |
| IoctlHandshake.ReturnsOnlyAfterDone | osm/linux/osm_linux.c:1653-1703 | in every reachable state where the call has returned, hpt_ioctl_done ran exactly once and to its end, and at most one count is left over |
| IoctlHandshake.FrameStaysDead | osm/linux/osm_linux.c:1642-1703 | after the return no run touches the semaphore or the argument in the dead stack frame, and no timer is left |
| IoctlHandshake.NoLostWakeup | osm/linux/osm_linux.c:1668-1697 | once done ran, a caller before or at its wait finds the semaphore positive in spite of resets; a sleeper always has a count or a timer |
| IoctlHandshake.TimeoutResets | osm/linux/osm_linux.c:1691-1697 | in every reachable state where the caller finds the request pending, it next is inside LDM with the lock held and the count cleared, and there the request can complete |
| IoctlHandshake.WaitsFollowResets | osm/linux/osm_linux.c:1671-1697 | over any run every wait after the first is preceded by a reset of its own, and there is no other reset |
| IoctlHandshake.UnfinishedSleeps | osm/linux/osm_linux.c:1674-1686 | while the request is unfinished no stale count lets the caller pass without a sleep |
| IoctlHandshake.FinishedCallerMoves | osm/linux/osm_linux.c:1674-1703 | after completion a caller that does not wait for the lock is never stuck |
| IoctlHandshake.ReturnsWithinTenSteps | osm/linux/osm_linux.c:1674-1703 | after completion the caller takes at most ten more steps of its own, whatever else happens |
| FlushHandshake.CountCoversIff | osm/linux/osm_linux.c:1494-1501 | for a chain of any length: the reserved commands always cover the second stage, and they cover all stages if and only if they cover the device itself and the stages from the third on |
| FlushHandshake.UsualChains | osm/linux/osm_linux.c:1460-1468 | a device without transform and a transform target are flushed alone, a source together with its target |
| FlushHandshake.CountCoversStages | osm/linux/osm_linux.c:1494-1501 | for the source or target of a transform whose target is not transformed further: at most two stages, both covered |
| FlushHandshake.ThirdStageFallsShort | osm/linux/osm_linux.c:1494-1501 | an instance of three stages where the last is not covered |
| FlushHandshake.NextKeepsInv | osm/linux/osm_linux.c:1455-1549 | every step keeps the flush invariant |
| FlushHandshake.ReturnsAfterEveryStage | osm/linux/osm_linux.c:1455-1549 | for any topology: a call that was not refused returns only after the whole chain of targets was flushed in order and to its end, with one up(sem), and returns 0 if and only if the last stage succeeded |
| FlushHandshake.StagesInOrder | osm/linux/osm_linux.c:1455-1471 | in every reachable state the devices flushed are the first of the chain, and up(sem) is done exactly when all of them are |
| FlushHandshake.NoLostWakeup | osm/linux/osm_linux.c:1517-1536 | the single wake-up is found by a caller at its wait; before it, the command is with LDM or in its callback |
| FlushHandshake.TimeoutResets | osm/linux/osm_linux.c:1531-1537 | in every reachable state where the caller finds the command pending, it next is inside LDM with the lock held and the count cleared, and there the flush can finish |
| FlushHandshake.WaitsFollowResets | osm/linux/osm_linux.c:1514-1537 | over any run of a call that was not refused every wait after the first is preceded by a reset of its own, and there is no other reset |
| FlushHandshake.UnfinishedSleeps | osm/linux/osm_linux.c:1517-1529 | while stages are left no stale count lets the caller pass without a sleep |
| FlushHandshake.CommandIsFreed | osm/linux/osm_linux.c:1501-1544 | the command is freed when the call returns, and never while LDM or the callback has it |
| FlushHandshake.ReturnsWithinTenSteps | osm/linux/osm_linux.c:1517-1549 | after the last stage the caller returns within ten steps of its own |
| FlushHandshake.HonestIffOneStage | osm/linux/osm_linux.c:1455-1549 | for every device with a finite chain: result 0 means that every stage was flushed, in all reachable states, if and only if there is one stage |
| FlushHandshake.FailureIsHidden | osm/linux/osm_linux.c:1460-1468 | for a chain of two or more stages there is a run whose first flush fails and whose result is 0 |
| FreeLists.FreeList.constructor | osm/linux/os_linux.c:115-132 | a reserved list announces its count before any block exists |
| FreeLists.FreeList.Get | osm/linux/os_linux.c:134-145 | takes the first block of the chain, or nothing when the count is zero; the words still spell an acyclic chain of count + reserved blocks |
| FreeLists.FreeList.Put | osm/linux/os_linux.c:147-153 | the block becomes the head; only its link word is written |
| FreeLists.FreeList.GetDma | osm/linux/os_linux.c:175-183 | returns the block together with the bus address last stored with it |
| FreeLists.FreeList.PutDma | osm/linux/os_linux.c:185-192 | the block becomes the head and stores the bus address |
| FreeLists.FreeList.GroupGet | inc/ldm.h:445-452 | on a live reservation the chain is never empty and the count is as before |
| FreeLists.FreeList.GroupPut | inc/ldm.h:454-458 | the block goes back to the chain as a reservation, not as a counted block |
| FreeLists.LinkHead | osm/linux/os_linux.c:147-153 | writing the old head into a block outside the chain spells the longer chain |
| FreeLists.UnlinkHead | osm/linux/os_linux.c:134-145 | following the head's link spells the rest, with the same bus addresses |
| PoolLedger.ComputeOrder | osm/linux/osm_linux.c:132 | the doubling loop finds an order whose span holds the block, and for order > 0 less than two of them |
| PoolLedger.BigChunkHoldsOne | osm/linux/osm_linux.c:132-141 | a list that needs more than a page gets exactly one block from each chunk |
| PoolLedger.PerChunk | osm/linux/osm_linux.c:141 | the most blocks that fit a chunk |
| PoolLedger.FillsOneMore | osm/linux/osm_linux.c:138-147 | if all chunks so far are full, one more chunk leaves all of them full or reaches the count with the last |
| PoolLedger.NextCutFits | osm/linux/osm_linux.c:138-147 | the next block cut is aligned, inside the chunk, disjoint from all others, and page aligned only at the start of its page |
| PoolLedger.CutAdvances | osm/linux/osm_linux.c:141-146 | a cut of one block leaves the invariant of the cutting loop true for the rest of the chunk |
| PoolLedger.CarvedGrows | osm/linux/osm_linux.c:141-146 | adding such a block keeps all blocks of the list proper and pairwise disjoint |
| PoolLedger.ReleasedHead | osm/linux/osm_linux.c:202-203 | freeing a whole chunk from its one block takes memory from no block that is still linked |
| PoolLedger.PooledHead | osm/linux/osm_linux.c:204-209 | handing a page to the pool, with its first words overwritten, damages no linked block: these words lie outside every one of them |
| PoolLedger.LinksInside | osm/linux/osm_linux.c:142-143 | the words written into a block lie in its chunk and in no other block |
| PoolLedger.SkippedInterior | osm/linux/osm_linux.c:204-209 | a block that does not start its page can be dropped |
| PoolLedger.ListOkFrame | osm/linux/osm_linux.c:104-217 | a step on behalf of one list leaves every other list intact |
| Pools.Vbus.ReserveList | osm/linux/os_linux.c:115-173 | a list of the given size, alignment and count is put in front of the lists of its kind |
| Pools.Vbus.Push | osm/linux/osm_linux.c:142-144 | the block is threaded onto the list with its own bus address; the words written lie outside every other block |
| Pools.Vbus.AllocSlab | osm/linux/osm_linux.c:119-124 | fails if and only if a request was refused; otherwise as many blocks as announced, each its own chunk and no chunk more |
| Pools.Vbus.AllocDmaChunk | osm/linux/osm_linux.c:139-147 | one chunk is taken and cut into as many blocks as fit or are still wanted; every chunk of the list starts with a block of it |
| Pools.Vbus.AllocDma | osm/linux/osm_linux.c:127-148 | fails if and only if a request was refused; otherwise as many blocks as announced, aligned, disjoint and inside their chunks, from the least number of chunks that can hold them |
| Pools.Vbus.BuildPoolPage | osm/linux/osm_linux.c:152-157 | one more page is in the page pool |
| Pools.Vbus.AllocMem | osm/linux/osm_linux.c:104-165 | succeeds if and only if the kernel refused no request; then all lists, the cache pages and the flag array account for everything the kernel gave out, and no list owns more chunks than it needs |
| Pools.Vbus.GetBlock | osm/linux/os_linux.c:134-183 | while the driver runs, a get hands out a block of the list that nobody holds |
| Pools.Vbus.PutBlock | osm/linux/os_linux.c:147-192 | a returned block joins its list again and nothing else changes hands |
| Pools.Vbus.GroupGetBlock | inc/ldm.h:445-452 | a group with a reservation left always gets a command that nobody holds, in every state of a vbus |
| Pools.Vbus.GroupPutBlock | inc/ldm.h:454-458 | the command becomes a reservation again |
| Pools.Vbus.LendPage | inc/ldm.h:136 | LDM takes a page of the pool, unless it is empty; everything stays accounted for |
| Pools.Vbus.ReturnPage | inc/ldm.h:138 | a page LDM took goes back to the pool |
| Pools.Vbus.ScribblePage | inc/ldm.h:136-138 | arbitrary writes anywhere in a page LDM holds damage no list |
| Pools.Vbus.Scribble | osm/linux/osm_linux.c:141-146 | arbitrary writes anywhere in a block that is held damage no list |
| Pools.Vbus.EmptySlab | osm/linux/osm_linux.c:174-183 | each block of a plain list is freed as what it was allocated as, until the list owns nothing |
| Pools.Vbus.FreeCachePages | osm/linux/osm_linux.c:185-189 | the pool holds every cache page when they are taken, and is empty afterwards |
| Pools.Vbus.DealWith | osm/linux/osm_linux.c:201-210 | one block of a DMA list, of any position in its chunk, is dealt with while others may still be linked |
| Pools.Vbus.EmptyDma | osm/linux/osm_linux.c:191-211 | a DMA list in any order ends empty and owns nothing |
| Pools.Vbus.FreePool | osm/linux/osm_linux.c:213-214 | the pages of carved lists are freed when no block is linked any more |
| Pools.Vbus.FreeMem | osm/linux/osm_linux.c:167-217 | afterwards the kernel has every chunk back, each given back once with its original size or order |
| PoolLife.Life | osm/linux/osm_linux.c:104-217 | over any lists and any run of gets, puts in any order, group operations, pool pages taken and returned, and writes anywhere in held blocks and pages, returning everything and tearing down leaves the ledger empty, unless the kernel refused a request |
| PoolLife.GroupGetOne | inc/ldm.h:445-452 | at any moment of such a run a live reservation yields a command |
| CommandLedger.Host.QueueCommand | osm/linux/osm_linux.c:888-1423 | busy is returned exactly when a COMMAND is needed and none is to be had; which requests are queued, as what, out of how many commands, and each of them sensible by the standards; the call leaves no COMMAND behind that is neither queued nor freed |
| CommandLedger.QueuedIsSensible | osm/linux/osm_linux.c:926-1402 | a queued READ moves data in and a WRITE out, a pass-through command moves it as its T_DIR bit says, data has a DMA list, and only a plain stop has the callback that does not unmap |
| CommandLedger.TransfersAreQueued | osm/linux/osm_linux.c:967-1402 | no read, write, verify or flush of an online device is turned away while a COMMAND is to be had |
| CommandLedger.PassthroughIsQueuedIff | osm/linux/osm_linux.c:997-1122 | the exact reasons for which a pass-through command to a disk is refused |
| CommandLedger.AnsweredIffFits | osm/linux/osm_linux.c:1242-1305 | READ CAPACITY is answered exactly when its reply fits the buffer |
| CommandLedger.Host.StartStop | osm/linux/osm_linux.c:926-965 | only a plain stop of a disk is queued; a plain start resets the drive and is done at once, as anything is on an array; all else is a check condition |
| CommandLedger.Host.AtaPassthrough | osm/linux/osm_linux.c:997-1122 | accepted, with its direction, registers and sector count, exactly when the protocol, the direction bit and the command agree; a refusal after the allocation frees the COMMAND before scsi_done |
| CommandLedger.Host.CommandsPerRequest | osm/linux/osm_linux.c:1320-1328 | as many commands as the larger of source and target needs, or the device itself |
| CommandLedger.Host.AllocCmds | osm/linux/osm_linux.c:1016-1020 | a COMMAND that was handed out is open until it is queued or freed |
| CommandLedger.Host.FreeCmds | osm/linux/osm_linux.c:1117-1118 | the open COMMAND is freed |
| CommandLedger.Host.QueueToLdm | osm/linux/osm_linux.c:1396-1402 | the open COMMAND is in flight, its data not mapped |
| CommandLedger.Host.ReadWriteVerify | osm/linux/osm_linux.c:1310-1403 | queued with the decoded sector range scaled for arrays; data in exactly for code 0x08 of a group, out exactly for 0x0a |
| CommandLedger.ToldBlocksAreReached | osm/linux/osm_linux.c:1242-1391 | a plain read, write or verify up to the last block that READ CAPACITY told, taken at the length its group code gives, asks for exactly the sectors of its blocks, inside the device |
| CommandLedger.Host.ImmediateResult | osm/linux/osm_linux.c:1242-1308 | a READ CAPACITY that succeeds fits the buffer and tells the last block and the block length, exactly when these can be told |
| CommandLedger.Host.FinishNow | osm/linux/osm_linux.c:1419-1422 | one result and one scsi_done, which no open COMMAND may precede |
| CommandLedger.Host.MapForSgl | osm/linux/osm_linux.c:770-777 | however often LDM asks for the DMA list, the data is mapped once |
| CommandLedger.Host.OsCmdDone | osm/linux/osm_linux.c:608-694 | unmaps if mapped, describes the registers of a pass-through command in the sense buffer, frees the COMMAND, finishes with the result for its code |
| CommandLedger.Host.StartStopDoneCallback | osm/linux/osm_linux.c:868-886 | the stop branch frees and finishes without unmapping |
| CommandLedger.Host.LdmFinish | osm/linux/osm_linux.c:608-886 | the completion of any command in flight runs the callback it was queued with, once, and leaves every other SCSI command alone; success is reported for success only, and busy for the codes that ask for another try |
| CommandLedger.ResultTells | osm/linux/osm_linux.c:664-688 | each result is reported for its codes and for no others |
| CommandLedger.NextKeepsSound | osm/linux/osm_linux.c:608-694 | no two commands in flight share a SCSI command, and no command whose callback does not unmap is ever mapped |
| CommandLedger.NextKeepsBalance | osm/linux/osm_linux.c:608-1422 | every step keeps the three ledgers balanced: acceptance, COMMANDs, mappings |
| CommandLedger.BalancedOverRuns | osm/linux/osm_linux.c:608-1422 | the balance holds at every moment of every run with any number of commands in flight |
| CommandLedger.NothingLostAtRest | osm/linux/osm_linux.c:608-1422 | when nothing is in flight, every accepted command was finished once, every COMMAND freed once, every mapping undone once; no ending is ever early |
| CommandLedger.Host.StaysBalanced | osm/linux/osm_linux.c:608-1422 | the state of every adapter that the methods lead to is that of a run, and so balanced |
| AtaRegisters.CdbRoundTripIff | osm/linux/osm_linux.c:1010-1059 | multiple count, protocol, direction, length and registers encoded in a CDB arrive as they were meant, unless a form without the extend bit drops an upper half |
| AtaRegisters.WriteDescriptor | osm/linux/osm_linux.c:640-661 | the sense buffer afterwards, byte by byte |
| AtaRegisters.DescriptorExactIff | osm/linux/osm_linux.c:640-661 | an initiator reads back the registers the drive left if and only if the command had the extend bit or the buffer had it clear; the bytes outside the descriptor stay |
| BlockAddressing.WidthOf | osm/linux/osm_linux.c:1310-1372 | every opcode of the branch is decoded at the CDB length of its group code, and no READ or WRITE of these groups is left out |
| BlockAddressing.DecodeExactIff | osm/linux/osm_linux.c:1342-1372 | the decoding is the standard's meaning of the CDB if and only if the neglected bits are clear |
| BlockAddressing.DecodeEncode | osm/linux/osm_linux.c:1342-1372 | decoding an encoded request gives it back, for each width |
| BlockAddressing.ScaleExactIff | osm/linux/osm_linux.c:1388-1391 | for blocks of the device the sector range is inside the capacity, and exact if and only if the shifted count fits 16 bits |
| BlockAddressing.DisjointBlocksDisjointSectors | osm/linux/osm_linux.c:1388-1391 | disjoint block ranges become disjoint sector ranges |
| BlockAddressing.CdbReachesItsBlocks | osm/linux/osm_linux.c:1342-1391 | from the CDB to the disk: exactly the sectors of the blocks asked for |
| BlockAddressing.ReadCapacity10Reply | osm/linux/osm_linux.c:1242-1274 | the last block address, or 0xffffffff exactly for too many blocks or none; the block length is right exactly for shifts up to 6 |
| BlockAddressing.ReadCapacity16Reply | osm/linux/osm_linux.c:1276-1305 | the last block address exactly when there is one; the block length is right exactly for shifts up to 6 |
| BlockAddressing.BytesRoundTrip | osm/linux/osm_linux.c:1293-1300 | big-endian bytes read back as the value modulo 2^(8k) |
| TaskQueue.VbusExt.ScheduleTask | osm/linux/os_linux.c:591-607 | a task that is not pending joins the end of the list |
| TaskQueue.VbusExt.DrainStep | osm/linux/osm_linux.c:226-231 | one turn unlinks the head before it runs, and what its callback schedules goes to the new list |
| TaskQueue.VbusExt.RunBatch | osm/linux/osm_linux.c:226-231 | the whole batch runs, in order, and only the batch |
| TaskQueue.VbusExt.DoTasks | osm/linux/osm_linux.c:219-232 | a drain runs exactly what was scheduled before it; what callbacks schedule, themselves included, is pending afterwards in call order |
| TaskQueue.FifoOverRuns | osm/linux/os_linux.c:591-607 | over any run the i-th callback is the i-th scheduling, once each |
| TaskQueue.HistoriesGrow | osm/linux/osm_linux.c:219-232 | nothing that was scheduled or run is forgotten or reordered later |
| TaskQueue.RunsInTheNextDrain | osm/linux/osm_linux.c:219-232 | a scheduling runs in the first drain that begins after it, and not earlier |
| ProcWindow.GetInfo.CopyMemInfo | osm/linux/hptinfo.c:19-41 | the buffer holds the window of all text so far, filpos its total length, and nothing behind the window is written |
| ProcWindow.ProcGetInfo | osm/linux/hptinfo.c:237-311 | the bytes returned are the window of the concatenated text, however it was split into pieces |
| ProcWindow.WindowGrows | osm/linux/hptinfo.c:21-40 | the part of the new text that is copied is exactly what the window gains |
| ProcWindow.ReadsReassemble | osm/linux/hptinfo.c:246-250 | successive windows of any lengths make up the text exactly |
| ProcWindow.ReadOn | osm/linux/hptinfo.c:237-311 | successive calls, each from the offset reached so far, deliver the text exactly, however long the reads |
| ProcWindow.EmptyReadIffAtEnd | osm/linux/hptinfo.c:246-311 | a read of positive length is empty if and only if it starts at or behind the end |
| Timers.VbusTimer.RequestTimer | osm/linux/os_linux.c:624-635 | the timer is due exactly when more than interval / tick jiffies have gone, across wrap-around of jiffies; where a jiffy is a whole number of microseconds, exactly when more than the interval has passed |
| Timers.ReachedIffElapsed | osm/linux/os_linux.c:633 | the wrapped expiry is reached if and only if the true number of jiffies has elapsed |
| Timers.AfterIffElapsed | inc/ldm.h:42-43 | the wrapped clock readings compare like the true elapsed microseconds modulo 2^32 |
| Timers.Tick | osm/linux/os_linux.c:633-639 | the most whole microseconds of which HZ make no more than a second |
| Timers.ClockTellsMicroseconds | osm/linux/os_linux.c:637-640 | where a jiffy is a whole number of microseconds, the clock tells the microseconds since boot, modulo the width of a long |
| Timers.FiredTimerInTicks | osm/linux/os_linux.c:624-640 | for every HZ: when the timer fires more than the interval has passed on the driver's clock, and hpt_time_after says so if and only if the lateness there, modulo 2^32, lies strictly between 0 and 2^31 |
| Timers.FiredTimerIsAfter | osm/linux/os_linux.c:624-640 | the same in true microseconds for every HZ that divides 1000000 |
| Timers.FreshTimerIsAfter | osm/linux/os_linux.c:624-640 | so, for a lateness below 2^32, if and only if it is below 2^31 |
| Timers.LateTimers | inc/ldm.h:42-43 | an instance late by just over 2^31 that is missed, and one late by just over 2^32 that is not |
| CircularList.InsertBetween | inc/list.h:20-26 | a node linked between neighbours leaves a closed ring with next and prev inverse |
| CircularList.ListAdd | inc/list.h:28-31 | prepends to the sequence of the ring |
| CircularList.ListAddTail | inc/list.h:33-36 | appends |
| CircularList.ListDel | inc/list.h:38-47 | removes any one node, a node alone in its ring included; its own links stay |
| CircularList.ListDelInit | inc/list.h:49-53 | removes any one node, which becomes a ring of its own |
| CircularList.ListEmpty | inc/list.h:55-59 | true if and only if the ring is the head alone |
| CircularList.SpliceNonEmpty | inc/list.h:61-73 | the nodes of the first ring come in front of those of the second |
| CircularList.ListSplice | inc/list.h:75-79 | the same, also for an empty first ring |
| CircularList.ListSpliceInit | inc/list.h:81-87 | the same, and the first head becomes an empty ring |
| CircularList.ForEachSafe | inc/list.h:95-97 | a walk that deletes its current node visits every original node once, in order; exactly the nodes not deleted stay linked, in order |

## Left out

* LDM, the host interface modules and the RAID levels are binaries: they appear as environment steps,
  and no RAID behaviour is assumed.
* `os_buildsgl` for logical addresses and for kernels before 2.6.23, and the limit on the number of
  descriptors: the model takes the 2.6.23 path and a table that is long enough.
- ScatterGather.BytesKeptIff: assumes that no element wraps the 64-bit address space.
* `del_timer` may return while its handler still runs on another processor; the handshakes assume it
  does not, since the source keeps the semaphore on the stack of the caller.
- FlushHandshake.CountCoversIff: assumes that the source and the target of every transform are there; the
  source asserts it only of the target, and only at the redirect.
- Pools.Vbus.AllocMem: when it fails, promises only that a request was refused; the source gives nothing back then.
- Pools.Vbus.FreeMem: requires that every block and every pool page was returned; the source leaks the
  others. The bus
  address of a page is its address plus a fixed offset, and LDM's page pool is a set of pages whose
  writes stay in the first words of a page handed to it. The overflow of the `int` that holds the span
  (a block of more than 1 GiB) is not modelled.
- FreeLists.FreeList.ReserveForGroup: stands for what LDM does when a command group is made, and
  `ReleaseFromGroup` for when it is given up; only the effect on the count is modelled.
- TaskQueue.VbusExt.DoTasks: a callback is modelled by the tasks it schedules. A callback that itself
  drains the queue is not modelled, nor is the tasklet that triggers drains.
- TaskQueue.VbusExt.ScheduleTask: requires that the task is not pending. The source asserts only that
  its link is null, which a task at the end of the list also satisfies.
- CommandLedger.Host.QueueCommand: the drain of deferred tasks at its start is modelled in TaskQueue
  alone; the data of INQUIRY and MODE SENSE (their replies are empty here) and the sense data of refused
  requests are left out beyond key and code, and the result of MODE SENSE is an input.
* `hpt_reset`, ioctl packet checks and user-space copying, the loop of `hpt_do_ioctl` over all buses,
  hot plug, module set-up, PCI and port accessors.
- ProcWindow.ProcGetInfo: the text pieces are arbitrary; formatting, the 128-byte line buffer and
  overflow of the `int` positions are left out.
- Timers.AfterIffElapsed: `hpt_time_after` subtracts two values cast to `int`; the model takes the
  wrapping difference, as the kernel is compiled.
* A zero low half of the divisor in `__udivdi3` and `__umoddi3` divides by zero; that is a precondition.
