# Verified models of the kernel, file system, scheduler and network code

A Dafny 4.11 project that models eight components of the repository and proves what they promise.
Table sizes, sector counts, ring sizes and task counts are parameters throughout.

* **Message passing and process scheduling** (`25-osfs11/kernel/proc.c`, `clock.c`). `SendGraph.dfy` is
  the graph "p is blocked sending to d". `Ipc.dfy` states SEND, RECEIVE, interrupt and clock tick as
  functions on a system state; a failed assertion or detected deadlock is `Panic`, a scheduler loop
  without end is `Hang`. `IpcInvariant.dfy` proves what every step keeps over all runs, and exactly when
  the kernel panics. `IpcRendezvous.dfy` says what a step does to the processes that meet in it, from the
  message handed in to the buffer it reaches, and that it spares all others. `IpcDelivery.dfy` compares the kernel with ideal mailboxes. `IpcFairness.dfy` has
  the scheduler's guarantees. `Kernel.dfy` is the code itself: the process table and the linked queues
  as arrays updated in place, each method proved equal to the function of `Ipc.dfy`.
* **File system** (`25-osfs11/fs`). `Bits.dfy` and `SectorMap.dfy`: bytes, bits and the loops over the two
  bitmaps, sector by sector, in place. `Volume.dfy`: extents of live inodes over runs of create and
  unlink from mkfs. `Refs.dfy` and `FileTables.dfy`: descriptors, the inode cache and the inode array,
  with the counters. `ReadWrite.dfy`: the chunked transfer loop, and the inode record that it writes
  when a file grows. `Files.dfy`: a transfer against all other files and the metadata. `FileStore.dfy`
  and `FileSystem.dfy` put bitmaps, inode array and transfers together on one disk and prove, for any run
  of create, open, close, lseek, read, write and unlink, that it is a map of byte strings.
* **fork, exit and wait** (`25-osfs11/mm/forkexit.c`): `ForkExit.dfy`.
* **Weighted round-robin scheduler** (`23-fixes/cpu/task.c`): `TaskSched.dfy` (steps, invariant, frames),
  `TaskFairness.dfy` (starvation, shares), `TaskLife.dfy` (creation, turns, frames, the kill mark, the end),
  `Scheduler.dfy` (the table updated in place).
* **Receive path of the network card** (`23-fixes/net/ne2000.c`): `Ne2000.dfy`. The reader's function is
  cut into its memory accesses, and each keeps the invariant; a packet that arrives and a complete
  drain are steps of the same object, so any number of them may come between any two.
* **Internet checksum and IP headers** (`23-fixes/net/ip.c`): `Checksum.dfy`, `Ip.dfy`
  (section 1 of RFC 1071, section 3.1 of RFC 791).
* **Window stack** (`25-osfs11/kernel/wm.c`): `WindowManager.dfy`.
* **FAT12 floppy image** (`25-osfs11/scripts/desktop_image.py`): `Fat12.dfy` (section "FAT Type
  Determination" of the Microsoft FAT32 File System Specification 1.03).

`Prelude.dfy` holds the option type and a few facts about sequences, `LittleEndian.dfy` numbers as bytes.

## What the proofs found

Where the code does less than it seems to promise, the model follows the code, states the exact
condition, and gives an input.

* A process that names its sender in RECEIVE while an interrupt is pending fails the assertion at
  `25-osfs11/kernel/proc.c:483`, unless that sender is already blocked on it (`ReceivePanicsIff`). Two
  processes after boot and one interrupt are enough (`NamedReceivePanics`).
* `schedule()` loops for ever if nobody runnable has ticks or a positive priority (`SchedulableIff`,
  `HangLastsForever`): for instance when both of two processes receive from ANY (`AllReceivingHangs`).
* The assertion of `sys_sendrec()` lets ANY and INTERRUPT pass as the peer of a SEND, and `msg_send()`
  then indexes the table with them; this happens for exactly these calls (`SysSendrec`).
* `do_rdwt()` clamps the end position but its loop counts down the unclamped length, so a read past the
  end of the file enlarges it and a write past the extent leaves it (`ReadKeepsSizeIff`,
  `WriteStaysInsideIff`; inputs in `ReadEnlarges` and `WriteLeavesExtent`).
* `alloc_imap_bit()` answers 0 for a full first i-map sector instead of panicking (`AllocImapBit`,
  `FullSectorAnswersZero`), which on a volume means that every number of that sector is taken
  (`ImapFullIff`); `create_file()` then marks sectors for an inode that does not exist (`Volume.Create`).
* `alloc_smap_bit()` does not compare with the size of the partition. Creation keeps all extents on the
  device if and only if the run at the first free bit ends on it (`Volume.Create`). After mkfs it does
  (`FirstFileFits`), but on a partition of 264 sectors the third file lies behind the end (`RunsOffTheEnd`).
* Creation fails its assertion although a run of free sectors exists, if the first free bit starts a gap
  before the archive that is shorter than a file (`GapDefeats`, `GapPanics`).
* A refused `do_unlink()` keeps the reference it took; this is the only way in which `i_cnt` exceeds the
  number of `filp` entries plus the root's one (`FileTables.Unlink`, `CountsAre`, `ExactCounts`).
  `RefusedUnlinkLeaks` is a run after which no process has the file and its slot is still in use.
* `do_wait()` documents an error for a caller without children, but a freed entry still names its parent,
  so such a caller blocks (`WaitAnswersIff`, `WaitAfterReapBlocks`).
* `task_sleep()` rounds up in 32 bits: the sleep is as long as asked for if and only if `ms + 19` does not
  wrap (`SleepCovers`); the longest one, 2 to the 32 minus 1 ms, lasts one tick (`LongestSleepIsShort`).
* `ip_input()` never compares the total length with the header length, so it may accept a packet whose
  payload length has wrapped around; the payload lies within the packet if and only if the header does
  (`PayloadInsideIff`, `ShortTotalIsAccepted`).
* The floppy builder does not look whether the root directory has room: with more than 224 files the
  image is built, and the first file's bytes are overwritten (`FloppyImage`, `OverrunLosesFirst`,
  `OverfullFits`).

The round trip of the checksum holds for buffers of every length. The value itself is the one of RFC
1071 up to 131074 bytes, and beyond that under the condition of `WrapAgreesIff`; every caller in
`23-fixes/net/ip.c` stays below 1500 bytes.

## Model

| member | source | states |
|---|---|---|
| SendGraph.NewEdgeClosesCycle | 25-osfs11/kernel/proc.c:214-239 | in a graph without a circle of senders, adding the edge src to dest closes one if and only if dest is src or leads to src |
| SendGraph.RankingExists | 25-osfs11/kernel/proc.c:214-239 | without a circle there is a rank that falls along every edge: the measure that makes the walk end |
| SendGraph.RankedHasNoCycle | 25-osfs11/kernel/proc.c:214-239 | conversely a falling rank rules out circles |
| SendGraph.RankNewEdge | 25-osfs11/kernel/proc.c:291-309 | the rank can be repaired when a sender blocks on a process that does not lead back to it |
| SendGraph.RemovedEdgeClosesNoCycle | 25-osfs11/kernel/proc.c:434-462 | releasing a sender closes no circle |
| SendGraph.EveryChainEnds | 25-osfs11/kernel/proc.c:214-239 | without a circle the chain from any process ends at one that is not sending |
| Ipc.Best | 25-osfs11/kernel/proc.c:33-53 | the first runnable process with the most ticks, none exactly if all runnable ones are at 0 |
| IpcInvariant.HandOverKeeps | 25-osfs11/kernel/proc.c:267-289 | delivering to a waiting process keeps the whole invariant |
| IpcInvariant.EnqueueKeeps | 25-osfs11/kernel/proc.c:290-315 | blocking a sender keeps flags, queues, rendezvous and freedom from circles, given that dest does not lead to it |
| IpcInvariant.TakeKeeps | 25-osfs11/kernel/proc.c:434-462 | taking a message from a blocked sender keeps the invariant |
| IpcInvariant.AwaitKeeps | 25-osfs11/kernel/proc.c:463-486 | blocking a receiver keeps the invariant: what it waits for is not there |
| IpcInvariant.InformKeeps | 25-osfs11/kernel/proc.c:499-522 | an interrupt keeps the invariant |
| IpcInvariant.NextKeepsInv | 25-osfs11/kernel/proc.c:68-108 | every step that does not halt leads from a good state to a good state |
| IpcInvariant.RunKeepsInv | 25-osfs11/kernel/proc.c:214-522 | every state of every run is good: no circle of senders, p in the queue of d exactly once iff p sends to d, flags, p_msg and peers agree, nobody waits for what is there, the running process is runnable |
| IpcInvariant.InitialInv | 25-osfs11/kernel/proc.c:33-53 | the state after boot is good |
| IpcInvariant.ChainsEnd | 25-osfs11/kernel/proc.c:214-239 | in a good state the chain of blocked senders of any process ends at one that is not sending |
| IpcInvariant.SendPanicsIff | 25-osfs11/kernel/proc.c:255-265 | SEND is refused iff it is to oneself or would close a circle of senders |
| IpcInvariant.ReceivePanicsIff | 25-osfs11/kernel/proc.c:463-486 | RECEIVE from a valid peer fails an assertion iff it names a process that is not queued while an interrupt is pending |
| IpcInvariant.NamedReceivePanics | 25-osfs11/kernel/proc.c:463-486 | after boot, an interrupt followed by a RECEIVE from a named process fails that assertion |
| IpcInvariant.AllReceivingHangs | 25-osfs11/kernel/proc.c:33-53 | after boot, two processes that both receive from ANY leave schedule() in its loop |
| IpcInvariant.AvailableIsQueued | 25-osfs11/kernel/proc.c:375-432 | the sender that RECEIVE picks is in the caller's queue, as the assertions at 409 and 446 claim |
| IpcInvariant.RunningIsIdle | 25-osfs11/kernel/proc.c:365-368 | the running process has no flag, no message pointer and no peer, as asserted on every path that does not block it |
| IpcInvariant.SenderIsBlocked | 25-osfs11/kernel/proc.c:384-392 | whoever a message is taken from is sending only, has a message, waits for nobody and sends to the caller, whose queue is not empty (also 422-430) |
| IpcInvariant.SendAssertions | 25-osfs11/kernel/proc.c:267-314 | the assertions of msg_send() hold on every path that returns: both sides idle after a delivery, the sender SENDING to dest after a block |
| IpcInvariant.ReceiveAssertions | 25-osfs11/kernel/proc.c:365-482 | the assertions of msg_receive() hold on every path that returns: idle after an interrupt, both sides as asserted before a copy, RECEIVING after a block |
| IpcRendezvous.SendHandsIn | 25-osfs11/kernel/proc.c:255-318 | SEND hands in exactly the caller's message with the caller as source; a receiver that waits for it has it in its buffer at once and can run, else the caller keeps it and blocks |
| IpcRendezvous.ReceiveTakes | 25-osfs11/kernel/proc.c:335-489 | RECEIVE hands in nothing; it puts the sender's message into the caller's buffer and lets the sender go, or an interrupt, or delivers nothing |
| IpcRendezvous.NextArrives | 25-osfs11/kernel/proc.c:267-289 | after every step, whatever it delivered is in the buffer of the receiver |
| IpcRendezvous.ReceiveBlocksIff | 25-osfs11/kernel/proc.c:463-486 | RECEIVE blocks iff there is neither an interrupt nor a message for the caller |
| IpcRendezvous.BlockedAsAsked | 25-osfs11/kernel/proc.c:463-486 | blocked in RECEIVE from src, the caller waits for a process iff src is ANY or names it, and for an interrupt iff src is ANY or INTERRUPT |
| IpcRendezvous.WaiterIsReached | 25-osfs11/kernel/proc.c:255-289 | a SEND to a process that waits for it is never refused |
| IpcRendezvous.ReceiveThenSend | 25-osfs11/kernel/proc.c:267-315 | two steps: a SEND to the blocked caller by one it has asked for is handed over at once, any other is queued |
| IpcRendezvous.ReceiveThenInterrupt | 25-osfs11/kernel/proc.c:499-522 | two steps: an interrupt wakes the blocked caller iff it asked for it, else it is noted and the caller waits on |
| IpcRendezvous.NextKeepsWaiting | 25-osfs11/kernel/proc.c:255-522 | a blocked receiver is left as it is until one it waits for sends to it, with that message, or an interrupt comes that it waits for |
| IpcRendezvous.AnsweredAsAsked | 25-osfs11/kernel/proc.c:255-522 | over any run, a blocked RECEIVE ends with the message of a process it admits, as that one handed it in, or with an interrupt it admits |
| IpcRendezvous.NextSpares | 25-osfs11/kernel/proc.c:255-522 | no step changes a priority or frees an entry; a process that neither runs nor receives is not touched, unless the running one takes its message |
| IpcRendezvous.ClockSwitchesIff | 25-osfs11/kernel/clock.c:32-53 | the clock reschedules iff it is not nested and the last tick is used up; otherwise the same process goes on, charged one tick |
| IpcDelivery.PassThrough | 25-osfs11/kernel/proc.c:267-289 | accepting and delivering at once leaves every ideal mailbox as it was |
| IpcDelivery.NextKeepsMail | 25-osfs11/kernel/proc.c:255-522 | after every step each queue holds exactly the undelivered messages for that process, in order of acceptance, and nothing was delivered that was not pending |
| IpcDelivery.AnyTakesTheOldest | 25-osfs11/kernel/proc.c:375-394 | RECEIVE from ANY delivers the message that was accepted first among those pending |
| IpcDelivery.NamedTakesHisMessage | 25-osfs11/kernel/proc.c:395-462 | RECEIVE from a named process that is queued delivers exactly its message; the other pending ones stay, in their order |
| IpcDelivery.NextKeepsStreams | 25-osfs11/kernel/proc.c:255-489 | what d got from p is what p handed in for d, in that order, with p as source, but for the one message p is blocked with |
| IpcDelivery.RunDelivers | 25-osfs11/kernel/proc.c:255-522 | mailboxes and streams agree in every state of every run from boot, and every delivered message is in the buffer of its receiver: exactly-once delivery in order |
| IpcDelivery.NoInterruptIsLost | 25-osfs11/kernel/proc.c:499-522 | an interrupt, or a key for the TTY task, is noted or handed over at once; a note is dropped only by handing it over and made only by an interrupt |
| IpcFairness.SchedulableIff | 25-osfs11/kernel/proc.c:33-53 | the loop of schedule() ends if and only if some runnable process has ticks left or a positive priority |
| IpcFairness.HangLastsForever | 25-osfs11/kernel/proc.c:33-53 | otherwise no number of refills lets the search succeed |
| IpcFairness.RescheduleChooses | 25-osfs11/kernel/proc.c:33-53 | the choice is runnable with maximal ticks; ticks change, to the priority, only if nobody runnable had any |
| IpcFairness.StepSpares | 25-osfs11/kernel/clock.c:32-53 | while another process runs, a tick takes one tick off the others and no other step takes any; the waiting process keeps its own, and nobody gains any |
| IpcFairness.GetsTheProcessor | 25-osfs11/kernel/proc.c:33-53 | over runs: a process that stays runnable with ticks is chosen within the sum of all other ticks, and until then nobody's ticks rise: no refill comes before |
| IpcFairness.TickOnce | 25-osfs11/kernel/clock.c:32-53 | one tick with nobody blocking: the total falls by one, or it was 1 and everybody starts again with its priority |
| IpcFairness.EpochShares | 25-osfs11/kernel/clock.c:32-53 | with a fixed runnable set an epoch charges each process exactly what it had, and then everybody has its priority again |
| Kernel.AppendedLinks | 25-osfs11/kernel/proc.c:296-307 | hanging a sender on the last link, or on the head, represents the queue with it at the end |
| Kernel.UnlinkedLinks | 25-osfs11/kernel/proc.c:440-449 | unhooking an entry from head or predecessor represents the queue without it |
| Kernel.Kernel.constructor | 25-osfs11/kernel/proc.c:33-53 | boot: all lists empty, all idle, full ticks; the invariant holds |
| Kernel.Kernel.Search | 25-osfs11/kernel/proc.c:38-46 | the search loop finds the best process or leaves p_proc_ready alone |
| Kernel.Kernel.Schedule | 25-osfs11/kernel/proc.c:33-53 | schedule() ends for a schedulable table, with the prescribed choice and ticks |
| Kernel.Kernel.Refill | 25-osfs11/kernel/proc.c:48-51 | exactly the runnable entries get their priority as ticks |
| Kernel.Kernel.Deadlock | 25-osfs11/kernel/proc.c:214-239 | the walk ends and reports 1 iff dest leads to src, with the circle it prints |
| Kernel.Kernel.Chain | 25-osfs11/kernel/proc.c:214-239 | the printing loop ends at src and follows the edges |
| Kernel.Kernel.Append | 25-osfs11/kernel/proc.c:296-307 | the sender becomes the last of the list of dest; no other list changes |
| Kernel.Kernel.Unlink | 25-osfs11/kernel/proc.c:408-449 | only src leaves the list, the order of the others is kept |
| Kernel.Kernel.Block | 25-osfs11/kernel/proc.c:179-183 | scheduling after a block, or a hang |
| Kernel.Kernel.MsgSend | 25-osfs11/kernel/proc.c:255-318 | the in-place code does what the protocol prescribes and keeps the invariant; all assertions on sender and receiver hold, before and after the block |
| Kernel.Kernel.Accept | 25-osfs11/kernel/proc.c:434-462 | copy, unlink and release of a blocked sender, as prescribed; the assertions on both sides hold |
| Kernel.Kernel.MsgReceive | 25-osfs11/kernel/proc.c:335-489 | the in-place code does what the protocol prescribes and keeps the invariant; its assertions hold, but for the one on pending interrupts, which fails as prescribed |
| Kernel.Kernel.SysSendrec | 25-osfs11/kernel/proc.c:68-108 | the message is stamped with the caller's pid and dispatched as prescribed; an invalid peer or function panics; it goes astray exactly for SEND to ANY or INTERRUPT |
| Kernel.FunctionsDo | 25-osfs11/kernel/proc.c:93-108 | function 1 hands over or queues the stamped message, 2 takes a message or an interrupt or waits for whom it names, any other halts |
| Kernel.Kernel.Inform | 25-osfs11/kernel/proc.c:499-522 | the handler does what the protocol prescribes and keeps the invariant |
| Kernel.Kernel.ClockHandler | 25-osfs11/kernel/clock.c:32-53 | the clock counts modulo MAX_TICKS; tick accounting, keyboard notice and rescheduling as prescribed, none of the latter on a nested interrupt |
| Bits.SetThenClear | 25-osfs11/fs/link.c:109-149 | setting a clear range of bits and clearing it again restores every byte |
| Bits.ClearLowBits | 25-osfs11/fs/link.c:146-148 | the mask arithmetic tests and clears exactly the low bits |
| Bits.FirstClear | 25-osfs11/fs/open.c:298-344 | the first clear bit of a range: all before it are set |
| SectorMap.Disk.FirstZero | 25-osfs11/fs/open.c:318-324 | the skip loop stops at the first clear bit of a byte that is not full |
| SectorMap.Disk.AllocImapBit | 25-osfs11/fs/open.c:253-285 | marks exactly the first clear bit of the first i-map sector and answers its number; 0 and no change if the sector is full |
| SectorMap.FullSectorAnswersZero | 25-osfs11/fs/open.c:261-284 | on a partition with a full i-map, which mkfs gives one sector, the answer is 0 and nothing is written |
| SectorMap.Disk.MarkByte | 25-osfs11/fs/open.c:326-331 | the inner loop marks up to the end of the byte or of the wish, and its assertion holds iff these bits were clear |
| SectorMap.Disk.MarkSector | 25-osfs11/fs/open.c:316-332 | the search state moves across one sector, or the run does not fit |
| SectorMap.Disk.AllocSmapBit | 25-osfs11/fs/open.c:298-344 | succeeds iff the first free bit starts a run of n free bits; then sets exactly that run and answers b - 1 + n_1st_sect |
| SectorMap.Disk.FreeImapBit | 25-osfs11/fs/link.c:85-92 | its assertions hold iff the bit is a marked one of the first sector; then clears exactly it |
| SectorMap.Disk.ClearFirstByte | 25-osfs11/fs/link.c:118-125 | clears the part of the extent in its first byte; asserts hold iff those bits are set |
| SectorMap.Disk.ClearWholeBytes | 25-osfs11/fs/link.c:127-138 | clears whole bytes across sector boundaries; asserts hold iff all are set |
| SectorMap.Disk.ClearLastByte | 25-osfs11/fs/link.c:140-149 | clears the rest of the extent and nothing else of that byte; asserts hold iff set |
| SectorMap.Disk.FreeSmapBits | 25-osfs11/fs/link.c:109-149 | all assertions hold iff every bit of the extent is set; then exactly these are cleared |
| SectorMap.Disk.MkfsImap | 25-osfs11/fs/main.c:253-267 | the i-map has exactly the reserved bit, the root, the consoles and the archive set |
| SectorMap.Disk.MkfsSmap | 25-osfs11/fs/main.c:272-289 | the s-map has exactly the reserved bit and the root's sectors set, over all its sectors |
| SectorMap.Disk.MkfsArchive | 25-osfs11/fs/main.c:295-314 | exactly the bits of the archive are set in addition, across sectors |
| Volume.BlocksAreUniform | 25-osfs11/fs/open.c:298-344 | below the first reserved area every file-sized block is all set or all clear |
| Volume.FirstFreeStartsBlock | 25-osfs11/fs/open.c:298-344 | a first free bit below that area starts a whole free block |
| Volume.FreeBlockSuffices | 25-osfs11/fs/open.c:326-331 | while a free block remains there, the allocator's assertion cannot fail |
| Volume.CreateKeeps | 25-osfs11/fs/open.c:167-183 | marking the first free run for a new inode keeps extents disjoint, both maps exact and the grid |
| Volume.UnlinkKeepsMaps | 25-osfs11/fs/link.c:85-149 | clearing the marks of a live inode keeps all of that for the others |
| Volume.MkfsMapsOk | 25-osfs11/fs/main.c:253-314 | the maps that mkfs writes describe the files it creates |
| Volume.Volume.constructor | 25-osfs11/fs/main.c:253-314 | after mkfs, whose assertion keeps the archive off the last sectors, the invariant of the volume holds and all extents lie on the device |
| Volume.Volume.Create | 25-osfs11/fs/open.c:167-183 | fails an assertion iff no run is free at the first free bit; with a free i-map bit marks exactly one inode and that run, for a number and extent nobody has; without one still marks the run; keeps extents on the device iff the run ends on it |
| Volume.ImapFullIff | 25-osfs11/fs/open.c:253-285 | on a volume the first i-map sector is full iff every number from 1 on is taken |
| Volume.FirstFileFits | 25-osfs11/fs/main.c:293-294 | by that assertion the run found for the first file after mkfs, if any, lies on the device |
| Volume.RunsOffTheEnd | 25-osfs11/fs/open.c:298-344 | mkfs and three creations on 264 sectors, after which the third file lies in sector 264, behind the end |
| Volume.GapDefeats | 25-osfs11/fs/open.c:316-341 | if the first free bit starts a gap before a live extent that is shorter than a file, no run fits, whatever is free behind |
| Volume.GapPanics | 25-osfs11/fs/open.c:316-341 | mkfs on 270 sectors, with such a gap before the archive: the first creation fails its assertion, and nothing from sector 264 on is in use |
| Volume.Volume.Unlink | 25-osfs11/fs/link.c:85-149 | on every run none of its assertions can fail, and exactly the marks of the inode go |
| Volume.Volume.CreateThenUnlink | 25-osfs11/fs/link.c:85-149 | removing the file just created gives back every byte of the disk |
| Refs.ReachCountsEntries | 25-osfs11/fs/main.c:567-605 | counting filp entries one by one, or by descriptor with multiplicity, gives the same number of ways to an inode slot |
| Refs.AddRef | 25-osfs11/fs/main.c:567-579 | one more entry for a descriptor in use, both counters raised: the books stay right |
| Refs.DropRef | 25-osfs11/fs/open.c:193-202 | one entry less, both counters lowered, the descriptor freed with the last one: the books stay right |
| Refs.Connect | 25-osfs11/fs/open.c:115-124 | a held inode reference becomes an open file; the descriptor had no entry before |
| Refs.FreeMeansUnnamed | 25-osfs11/fs/open.c:68-73 | a descriptor or inode slot that counts as free is reached by no process |
| FileTables.FilesStay | 25-osfs11/fs/main.c:474-515 | changing slots that nobody uses, or only their counters, leaves every open file as it was |
| FileTables.ExactCounts | 25-osfs11/fs/link.c:65-78 | without a refused unlink i_cnt is the number of filp entries that reach the slot, plus one for the root |
| FileTables.CountsAre | 25-osfs11/fs/main.c:527-531 | on every run i_cnt is the number of filp entries that reach the slot, plus the references held elsewhere |
| FileTables.RefusedUnlinkLeaks | 25-osfs11/fs/link.c:65-78 | a run of create, refused unlink and close after which no entry is left and i_cnt is 1 |
| FileTables.FileTables.constructor | 25-osfs11/fs/main.c:139-179 | empty tables over a formatted inode array, all slots and descriptors free |
| FileTables.FileTables.FetchRoot | 25-osfs11/fs/main.c:139-179 | the root inode is held once, and no other slot changes |
| FileTables.FileTables.PutInode | 25-osfs11/fs/main.c:527-531 | fails iff the counter is 0, else lowers it |
| FileTables.FileTables.SyncInode | 25-osfs11/fs/main.c:542-557 | the record of this inode becomes the cached one; every other record, those of its sector included, stays |
| FileTables.FileTables.FindSlot | 25-osfs11/fs/main.c:479-497 | the slot that caches the inode, if any, else the first free one |
| FileTables.FileTables.GetInode | 25-osfs11/fs/main.c:474-515 | the slot returned holds the record on disk, once per inode, with one reference more; None iff all slots are in use |
| FileTables.FileTables.Install | 25-osfs11/fs/open.c:115-124 | the new entry is the file asked for; every other open file stays |
| FileTables.FileTables.Open | 25-osfs11/fs/open.c:41-151 | None iff filp, descriptors or inode slots are used up; else the first free entry is the file, through a fresh descriptor at position 0; the record is truncated iff asked; no other record and no other open file changes, the books stay right |
| FileTables.FileTables.DoOpen | 25-osfs11/fs/open.c:57-151 | panics, refuses or opens under the exact condition of each, by full tables, flags and whether the file exists; a refusal changes nothing; only O_TRUNC changes a record, only creation adds one |
| FileTables.FileTables.Create | 25-osfs11/fs/open.c:167-183 | None iff a table is full; else the new inode is recorded on disk and opened; no other record and no other open file changes |
| FileTables.FileTables.NewInode | 25-osfs11/fs/open.c:358-375 | the slot and the record on disk agree on the new inode, and the root's and all other records stay |
| FileTables.FileTables.Release | 25-osfs11/fs/main.c:590-605 | one entry is closed: both counters, the descriptor with the last, and no other file |
| FileTables.FileTables.Close | 25-osfs11/fs/open.c:193-202 | the entry is gone; all other open files stay, with mode and position of every descriptor |
| FileTables.FileTables.Lseek | 25-osfs11/fs/open.c:213-241 | the position moves iff the target lies within the file; nothing else changes |
| FileTables.FileTables.Transferred | 25-osfs11/fs/read_write.c:120-131 | after a transfer the position has moved, the size is max(old, position) in the cache and on disk, no other record or file changes, and the cache stays coherent |
| FileTables.FileTables.Exit | 25-osfs11/fs/main.c:590-605 | all entries of the process are gone, those of the others stay, the books stay right |
| FileTables.FileTables.Fork | 25-osfs11/fs/main.c:567-579 | the child shares every file of the parent through the same descriptors; both counters count the new entries, and nothing else of a descriptor changes |
| FileTables.FileTables.Unlink | 25-osfs11/fs/link.c:65-160 | removed, refused or panicked, with the exact condition of each; a refusal keeps one reference, a removal leaves nobody using the slot and clears one record |
| ReadWrite.InRangeMovesAll | 25-osfs11/fs/read_write.c:78-133 | in range exactly len bytes move |
| ReadWrite.ReadKeepsSizeIff | 25-osfs11/fs/read_write.c:91-133 | exactly when a read leaves i_size as it was |
| ReadWrite.ReadEnlarges | 25-osfs11/fs/read_write.c:91-131 | a read of 100 bytes makes a file of 10 bytes 105 bytes long |
| ReadWrite.WriteStaysInsideIff | 25-osfs11/fs/read_write.c:91-133 | exactly when a write stays inside the extent |
| ReadWrite.WriteLeavesExtent | 25-osfs11/fs/read_write.c:91-131 | a write of 600 bytes to a file of one sector writes 88 bytes behind it |
| ReadWrite.ReadPass | 25-osfs11/fs/read_write.c:98-118 | one round of a read hands out the bytes at the position |
| ReadWrite.WritePass | 25-osfs11/fs/read_write.c:98-118 | one round of a write changes these bytes only, though it rewrites whole sectors |
| ReadWrite.DoRdwt | 25-osfs11/fs/read_write.c:78-133 | consecutive bytes move between file and buffer; new position and size; the inode record is written iff the position passes the old size; nothing else on the disk changes |
| ReadWrite.SyncInode | 25-osfs11/fs/main.c:542-557 | the four fields of one record, at its place in the inode array, and no other byte of the disk |
| ReadWrite.RecordLayout | 25-osfs11/include/sys/fs.h:75-80 | mode, size, first sector and number of sectors stand in the record in this order, as the image builder reads them |
| ReadWrite.RecordRoundTrip | 25-osfs11/fs/main.c:499-514 | the fields that sync_inode() writes are those that get_inode() reads |
| ReadWrite.ReadInode | 25-osfs11/fs/main.c:503-514 | an inode that is not in the table is read from its record, at its place in the inode array |
| ReadWrite.SyncChangesTheSize | 25-osfs11/fs/read_write.c:126-131 | if cache and record agreed, writing the record changes the four bytes of the size only, and they agree again |
| ReadWrite.WriteSeekRead | 25-osfs11/fs/read_write.c:78-133 | write, seek back and read return what was written, from any position within the extent; size is max(old, pos + len) |
| ReadWrite.WriteIsLocal | 25-osfs11/fs/read_write.c:94-122 | a write in range changes no byte of any disjoint extent, and its own only at the position |
| Files.ExtentsApart | 25-osfs11/fs/open.c:298-344 | extents that are disjoint in the s-map are disjoint on the disk, behind the metadata |
| Files.WriteSparesTheRest | 25-osfs11/fs/read_write.c:78-133 | with all extents on the device, a write in range leaves boot sector, super block, bitmaps, the rest of the inode array and all other live files as they were; of its own record the size changes, to max(old, new position) |
| Files.ReadSparesTheDisk | 25-osfs11/fs/read_write.c:78-133 | a read, in range or not, leaves the disk as it was but for the size of a file it has passed |
| Files.OtherRecordsStay | 25-osfs11/fs/main.c:542-557 | the records of all other inodes, those of the same sector included, stay |
| FileStore.NextKeepsOk | 25-osfs11/fs/open.c:193-202 | every operation keeps i_cnt of each inode at least the number of descriptors that name it |
| FileStore.OthersUntouched | 25-osfs11/fs/open.c:193-241 | an operation changes one descriptor, one file and one count at most |
| FileStore.FilesStay | 25-osfs11/fs/link.c:65-78 | a file is removed only by unlink, iff it is regular and nobody holds it; modes and extents stay |
| FileStore.WriteMoves | 25-osfs11/fs/read_write.c:120-131 | a write puts its bytes at the position, moves the position behind them, and raises the size to it |
| FileStore.WritesAppend | 25-osfs11/fs/read_write.c:120-131 | writing a and then b is writing a + b: both behind one another, size max(old, pos + both lengths) |
| FileStore.ReadsAreConsecutive | 25-osfs11/fs/read_write.c:120-131 | two reads in a row hand out consecutive bytes, as one read of both lengths |
| FileStore.WriteThenRead | 25-osfs11/fs/open.c:213-241 | what is written is read after seeking back |
| FileStore.OpenStarts | 25-osfs11/fs/open.c:109-124 | an opened file is at position 0 and counted once more; its size is 0 iff truncated or empty, its bytes stay |
| FileStore.CreateStarts | 25-osfs11/fs/open.c:358-375 | a new file is regular, empty, at position 0 and counted once |
| FileStore.CloseUndoesOpen | 25-osfs11/fs/open.c:193-202 | opening and closing leaves everything as it was |
| FileStore.UnlinkUndoesCreate | 25-osfs11/fs/link.c:65-160 | so does creating, closing and unlinking |
| FileStore.SeekTargets | 25-osfs11/fs/open.c:213-241 | the three origins of lseek, and exactly which targets are refused |
| FileStore.SeekEndAppends | 25-osfs11/fs/open.c:213-241 | seeking by 0 from the end and writing appends |
| FileStore.BytesStay | 25-osfs11/fs/read_write.c:78-133 | over any run a byte of a file stays until it is overwritten or the file removed |
| FileStore.LastWriteStays | 25-osfs11/fs/read_write.c:78-133 | after any run a byte of a file is the one that the last write to it put there, whatever else was created, removed, truncated or written since |
| FileSystem.FileWritten | 25-osfs11/fs/read_write.c:78-133 | a write leaves a disk that keeps all files, this one with the bytes replaced at the position and the size raised |
| FileSystem.FileRead | 25-osfs11/fs/read_write.c:126-131 | so does a read, with the size raised if it ends behind it |
| FileSystem.FileAdded | 25-osfs11/fs/open.c:358-375 | marks and record of a new file leave all others as they were |
| FileSystem.FileRemoved | 25-osfs11/fs/link.c:80-160 | so do the cleared marks and the cleared record of a removed one |
| FileSystem.FileSystem.constructor | 25-osfs11/fs/main.c:139-179 | a volume mounted with the files on it and empty tables satisfies the invariant |
| FileSystem.FileSystem.GetInode | 25-osfs11/fs/main.c:474-515 | the inode in the table is that of the file, whether it was there or is read from the disk |
| FileSystem.FileSystem.Create | 25-osfs11/fs/open.c:167-183 | halts iff no descriptor is free or no run fits; else, unless the i-map is full, a new empty file with the sectors of the run and an open descriptor; the disk is in order again iff these sectors lie on it |
| FileSystem.FileSystem.Open | 25-osfs11/fs/open.c:57-151 | through the first free descriptor at position 0, truncated iff asked; none iff all are in use |
| FileSystem.FileSystem.Close | 25-osfs11/fs/open.c:193-202 | descriptor and reference are given up, nothing else changes |
| FileSystem.FileSystem.Lseek | 25-osfs11/fs/open.c:213-241 | the position moves iff the target lies within the current size of the file |
| FileSystem.FileSystem.Read | 25-osfs11/fs/read_write.c:78-133 | the bytes handed out are those of the file at the position; within the size all are moved and no byte of the disk changes |
| FileSystem.FileSystem.Write | 25-osfs11/fs/read_write.c:78-133 | exactly the bytes at the position of this file are replaced; no other file, record or bitmap changes |
| FileSystem.FileSystem.Unlink | 25-osfs11/fs/link.c:65-160 | refused iff the file is not regular or its inode in the table; else the extent that the record names is freed without a failed assertion, and all other files stay |
| ForkExit.ForkKeeps | 25-osfs11/mm/forkexit.c:34-132 | fork takes a free entry, with a live parent, and keeps the invariant |
| ForkExit.WaitKeeps | 25-osfs11/mm/forkexit.c:253-281 | wait keeps the invariant: a waiter has no zombie child |
| ForkExit.ExitKeeps | 25-osfs11/mm/forkexit.c:175-211 | exit keeps the invariant and leaves nobody with the ended process as parent |
| ForkExit.RunReportsOnce | 25-osfs11/mm/forkexit.c:175-281 | over runs: no lost wakeup, live parents, and each exit code is reported at most once, in order, the last one outstanding exactly while the entry hangs |
| ForkExit.ExitReports | 25-osfs11/mm/forkexit.c:175-232 | who is told what in the step of an exit, with the entry freed in that step |
| ForkExit.ForkMakes | 25-osfs11/mm/forkexit.c:34-56 | fork fails iff no entry is free; the child has the first free entry, can run, and names the caller as parent; all other entries stay |
| ForkExit.ForkWaitExit | 25-osfs11/mm/forkexit.c:34-281 | p forks c, p waits, c exits with a code: p is told of exactly that, waits no more, and the entry is free |
| ForkExit.ChildStays | 25-osfs11/mm/forkexit.c:199-210 | a live child keeps its parent until one of the two ends |
| ForkExit.ChildIsReported | 25-osfs11/mm/forkexit.c:175-211 | over any run after p forks c, until one ends: the exit of c is told to p at once if it waits, else c is a zombie with the code |
| ForkExit.ExitSpares | 25-osfs11/mm/forkexit.c:175-211 | an exit leaves the other entries alone: children go to INIT, waits end for parent and INIT only, and no status changes |
| ForkExit.WaitSpares | 25-osfs11/mm/forkexit.c:253-281 | wait touches the caller's flag, or the entry that it reports |
| ForkExit.WaitReports | 25-osfs11/mm/forkexit.c:260-268 | wait reports exactly the first zombie child, if any, frees its entry and does not block |
| ForkExit.WaitAnswersIff | 25-osfs11/mm/forkexit.c:253-281 | wait answers "no child" iff no entry at all, freed ones included, names the caller; it blocks iff some do and none is a zombie |
| ForkExit.WaitAfterReapBlocks | 25-osfs11/mm/forkexit.c:261-281 | a caller whose only child was reaped blocks: the documented error does not come |
| ForkExit.ProcTable.DoFork | 25-osfs11/mm/forkexit.c:34-132 | the scan for a free entry and the copy, as prescribed |
| ForkExit.ProcTable.CleanUp | 25-osfs11/mm/forkexit.c:223-232 | the parent is told and the entry freed |
| ForkExit.ProcTable.DoExit | 25-osfs11/mm/forkexit.c:175-211 | report or zombie, then the loop over the children, as prescribed |
| ForkExit.ProcTable.Orphans | 25-osfs11/mm/forkexit.c:200-210 | after the loop all children belong to INIT, and a waiting INIT was told of the first zombie among them only |
| ForkExit.ProcTable.DoWait | 25-osfs11/mm/forkexit.c:253-281 | the scan for a zombie child, as prescribed |
| TaskSched.FindMisses | 23-fixes/cpu/task.c:173-185 | a search of the ring that fails has missed nobody who may run |
| TaskSched.TickElects | 23-fixes/cpu/task.c:147-212 | after a tick exactly one task is RUNNING and it is current; slot 0 only if no other may run; the frame resumed is the one last saved, or the start frame |
| TaskSched.NobodyWakesEarly | 23-fixes/cpu/task.c:178-184 | a sleeper stops sleeping only by being chosen at or after its wake tick |
| TaskSched.SleepCovers | 23-fixes/cpu/task.c:218-229 | a sleep lasts at least one tick, less than one tick more than asked for, and as long as asked for iff ms + 19 stays within 32 bits |
| TaskSched.LongestSleepIsShort | 23-fixes/cpu/task.c:218-229 | a sleep of 2 to the 32 minus 1 ms ends with the next tick |
| TaskSched.CreateKeeps | 23-fixes/cpu/task.c:68-124 | creation keeps the invariant and disturbs no saved frame |
| TaskSched.NextKeepsInv | 23-fixes/cpu/task.c:31-229 | every step keeps the invariant |
| TaskSched.RunKeepsInv | 23-fixes/cpu/task.c:31-229 | so does every run: one RUNNING task, frames as last saved, weights and quanta in range |
| TaskFairness.FindStops | 23-fixes/cpu/task.c:173-185 | the search does not pass a slot that may run |
| TaskFairness.StepShortens | 23-fixes/cpu/task.c:158-211 | each scheduling shortens the wait of a task that is ready, or whose sleep is over, or chooses it; nothing else lengthens it |
| TaskFairness.NoStarvation | 23-fixes/cpu/task.c:147-212 | over runs with weights within an allowance: a task that is ready, or whose wake tick has come, is chosen within the rest of the quantum plus the weights ahead of it |
| TaskFairness.TurnLasts | 23-fixes/cpu/task.c:161-168 | the chosen task stays current for its whole quantum |
| TaskFairness.TurnEnds | 23-fixes/cpu/task.c:158-211 | a turn takes exactly weight ticks, and then the next member along the ring begins its own |
| TaskFairness.Sweep | 23-fixes/cpu/task.c:158-211 | from turn to turn along the ring every member on the way is granted exactly its weight |
| TaskFairness.RoundShares | 23-fixes/cpu/task.c:158-211 | with a stable ready set a full round takes the sum of all weights, and each member's slices grow by exactly its weight |
| TaskLife.CreateMakes | 23-fixes/cpu/task.c:68-124 | fails iff no slot is dead or the lowest has no stack and memory is out; else that slot is READY with the weight asked for (1 for 0) as weight and quantum, to start at the trampoline on its own stack, and all others stay |
| TaskLife.NextSpares | 23-fixes/cpu/task.c:31-229 | a live task keeps weight and stack through every step, its mark until it ends, its frame and wake tick unless it is interrupted or sleeps |
| TaskLife.KillMarks | 23-fixes/cpu/task.c:131-136 | a kill marks exactly a live task other than slot 0, and nothing else differs; otherwise nothing does |
| TaskLife.ChosenTurns | 23-fixes/cpu/task.c:206-211 | a task that the scheduler changes over to begins a turn with its whole weight |
| TaskLife.CreatedTurns | 23-fixes/cpu/task.c:107-211 | over any run from its creation until it ends, every turn of a task lasts as many ticks as the weight it was created with |
| TaskLife.ResumedAsInterrupted | 23-fixes/cpu/task.c:147-211 | over any run, a task that loses the processor is resumed with the frame it was interrupted with |
| TaskLife.DieEnds | 23-fixes/cpu/task.c:31-41 | the ended task is dead without a mark, and nothing else changes |
| TaskLife.DeadStays | 23-fixes/cpu/task.c:68-72 | over any run a dead slot stays dead with its stack until a creation takes it, is not current after the next tick, and is taken next if it is the lowest |
| Scheduler.RoundLooksAt | 23-fixes/cpu/task.c:173-185 | the index arithmetic of the search visits the slots in ring order, skipping slot 0 |
| Scheduler.Scheduler.constructor | 23-fixes/cpu/task.c:43-66 | the initial table satisfies the invariant |
| Scheduler.Scheduler.Search | 23-fixes/cpu/task.c:173-185 | the loop finds the first slot along the ring that may run |
| Scheduler.Scheduler.SaveContext | 23-fixes/cpu/task.c:152-169 | the context is saved, and whether the quantum goes on |
| Scheduler.Scheduler.HandOver | 23-fixes/cpu/task.c:171-211 | the hand-over to the search result or to slot 0 |
| Scheduler.Scheduler.Tick | 23-fixes/cpu/task.c:147-212 | the in-place code does what the model prescribes and keeps the invariant |
| Scheduler.Scheduler.CreatePrio | 23-fixes/cpu/task.c:68-124 | the lowest dead slot is used, and its stack again; -1 iff no slot or no stack |
| Scheduler.Scheduler.RequestKill | 23-fixes/cpu/task.c:131-136 | marks exactly a live task other than slot 0 and says so; the task runs on until it looks |
| Scheduler.Scheduler.Finish | 23-fixes/cpu/task.c:31-41 | the ended task gives up its slot, and the invariant holds while it idles |
| Scheduler.Scheduler.SleepUntil | 23-fixes/cpu/task.c:218-229 | the wake tick is at least one tick ahead, and as far as asked for iff ms + 19 does not wrap; slot 0 does not sleep |
| Ne2000.Push | 23-fixes/net/ne2000.c:179-191 | filling the slot at the head appends the frame to the queue if a second slot is free, and moves no other frame |
| Ne2000.ChainAppend | 23-fixes/net/ne2000.c:151-197 | the card stores a packet behind the others without touching an unread one |
| Ne2000.Nic.CardReceive | 23-fixes/net/ne2000.c:151-197 | a packet is stored iff CURR would not meet BNRY |
| Ne2000.Nic.EmptyIff | 23-fixes/net/ne2000.c:155-177 | BNRY + 1 wrapped names the oldest unread packet, and equals CURR iff there is none |
| Ne2000.Nic.Drain | 23-fixes/net/ne2000.c:151-197 | up to 32 packets leave in card order, the first ones queued as far as there is room, the rest dropped; the slot being copied is untouched |
| Ne2000.Nic.Interrupted | 23-fixes/net/ne2000.c:199-206 | any sequence of arrivals and drains keeps the invariant and leaves the reader's frame alone |
| Ne2000.Nic.TakeOne | 23-fixes/net/ne2000.c:179-195 | one packet is queued or dropped, and BNRY names the next one |
| Ne2000.Nic.Enqueue | 23-fixes/net/ne2000.c:179-191 | queued iff a slot is free, never over the reader's slot, one slot always empty |
| Ne2000.Nic.RecvCheck | 23-fixes/net/ne2000.c:305-307 | reports a frame iff the ring holds one |
| Ne2000.Nic.RecvByte | 23-fixes/net/ne2000.c:308-309 | each copied byte is that of the oldest frame, whatever was drained between |
| Ne2000.Nic.RecvAdvance | 23-fixes/net/ne2000.c:310-312 | what is returned is the oldest queued frame, complete, and it leaves the queue |
| Ne2000.Nic.Recv | 23-fixes/net/ne2000.c:305-312 | with any packets and drains before any of its steps, byte by byte, the call returns nothing iff the ring was empty when it looked, else exactly the frame that was the oldest then |
| Ne2000.Nic.PassThrough | 23-fixes/net/ne2000.c:151-312 | packets that find room in card and ring are returned whole and in order after an interrupt, and none is dropped |
| Ne2000.Nic.NothingLostUnseen | 23-fixes/net/ne2000.c:151-197 | in every reachable state: returned and queued frames are the kept ones in card order; taken = queued + dropped; occupancy at most SW_RING - 1 |
| Checksum.FoldIs | 23-fixes/net/ip.c:25-29 | folding ends and keeps the sum modulo 65535; only 0 folds to 0 |
| Checksum.FoldComplement | 23-fixes/net/ip.c:33-35 | sum plus complement folds to all ones |
| Checksum.OddTailIsPadded | 23-fixes/net/ip.c:23-24 | a zero byte after data of odd length leaves the sum as it is |
| Checksum.OneByteChanged | 23-fixes/net/ip.c:18-24 | changing any one byte changes the sum by its worth: 256 at even places, 1 at odd ones |
| Checksum.OneBadByteShows | 23-fixes/net/ip.c:15-31 | data that fold to all ones do not any more when any one byte is changed |
| Checksum.ExampleOfTheStandard | 23-fixes/net/ip.c:15-31 | the example of section 3 of RFC 1071 gives 0xddf2 |
| Checksum.Accumulate | 23-fixes/net/ip.c:15-24 | the loop computes the word sum modulo 2 to the 32, odd lengths included |
| Checksum.Compute | 23-fixes/net/ip.c:15-31 | the checksum is the folded word sum, exact up to 131074 bytes |
| Checksum.WrapAgreesIff | 23-fixes/net/ip.c:15-31 | on longer data the result is right iff the lost carries are a multiple of 65535 and no sum wraps to 0 |
| Checksum.LongDataGoesWrong | 23-fixes/net/ip.c:15-31 | 131076 bytes of 0xFF, more than any caller passes, give 0xFFFE |
| Checksum.Final | 23-fixes/net/ip.c:33-35 | the complement of that |
| Checksum.StoredChecksumVerifies | 23-fixes/net/ip.c:33-35 | data of any length, odd or even, with their complemented checksum stored in an aligned zero field sum to 0xFFFF |
| Ip.HeaderVerifies | 23-fixes/net/ip.c:51-73 | every header that is built verifies and carries length, protocol and both addresses |
| Ip.NetworkOrder | 23-fixes/net/ip.c:64-68 | an address is stored with its highest byte first |
| Ip.AcceptedIff | 23-fixes/net/ip.c:107-135 | accepted iff version 4, a header of at least 20 bytes that folds to all ones, 20 <= total <= len, and this host's address; protocol and sender are those of the header |
| Ip.DamagedIsRejected | 23-fixes/net/ip.c:121-122 | a built packet with any one header byte behind the first damaged is not accepted by any host |
| Ip.SentIsAccepted | 23-fixes/net/ip.c:107-135 | ip_input accepts every packet of ip_send at its destination and nowhere else, with protocol, sender and payload as sent |
| Ip.PayloadInsideIff | 23-fixes/net/ip.c:107-135 | the payload of an accepted packet lies within it iff its header does; else its length has wrapped |
| Ip.ShortTotalIsAccepted | 23-fixes/net/ip.c:107-135 | a packet of total length 20 with a header of 24 bytes is accepted, with a payload length of 65532 |
| Ip.Send | 23-fixes/net/ip.c:37-77 | sent iff the payload fits and the next hop is resolved; the buffer holds the header and the payload |
| Ip.EchoReply | 23-fixes/net/ip.c:79-105 | a reply iff it is an echo request of at least 8 bytes; same identifier, sequence and data, cut to 1480, and it verifies |
| WindowManager.RestackNumbersAll | 25-osfs11/kernel/wm.c:889-916 | from any heights, renumbering gives a permutation of 1..N with the front window at N |
| WindowManager.RestackKeepsOrder | 25-osfs11/kernel/wm.c:889-916 | from any heights, two other windows keep their relative order, equal heights by slot |
| WindowManager.EveryHeightTaken | 25-osfs11/kernel/wm.c:889-916 | distinct heights within 1..N leave no number out |
| WindowManager.OpeningAddsOnTop | 25-osfs11/kernel/wm.c:601-645 | opening gives the new window N + 1 and moves no other |
| WindowManager.RaisingRotates | 25-osfs11/kernel/wm.c:923-933 | raising lowers exactly the windows above, by one place |
| WindowManager.ClosingLowers | 25-osfs11/kernel/wm.c:652-671 | closing closes the gap and moves nothing below it |
| WindowManager.PlaceInOrder | 25-osfs11/kernel/wm.c:902-913 | the place in the sorted list is the number of windows below |
| WindowManager.HitIsVisible | 25-osfs11/kernel/wm.c:854-875 | with heights 1..N the highest window at a point is the last one drawn there |
| WindowManager.Desktop.constructor | 25-osfs11/kernel/wm.c:563-594 | an empty desktop satisfies the invariant |
| WindowManager.Desktop.Collect | 25-osfs11/kernel/wm.c:898-900 | lists exactly the open windows but the front one |
| WindowManager.Desktop.Insert | 25-osfs11/kernel/wm.c:903-909 | one round of the in-place insertion sort extends the sorted part, same members |
| WindowManager.Desktop.Sort | 25-osfs11/kernel/wm.c:902-910 | the list is sorted by height and, for equal heights, by slot, with the same members |
| WindowManager.Desktop.Restack | 25-osfs11/kernel/wm.c:889-916 | the sort and renumbering computes the counting specification, from any heights |
| WindowManager.Desktop.Create | 25-osfs11/kernel/wm.c:601-645 | -1 iff no slot is closed; else the lowest closed slot, at least minimum size, on the screen if it fits, on top, all others untouched |
| WindowManager.Desktop.Close | 25-osfs11/kernel/wm.c:652-671 | the window is closed, those above it move down one place, active window, terminal and explorer are let go |
| WindowManager.Desktop.Focus | 25-osfs11/kernel/wm.c:923-933 | the window is at N and active, those above it moved down one place; other ids do nothing |
| WindowManager.Desktop.PaintAll | 25-osfs11/kernel/wm.c:943-966 | every open window is drawn once, lowest first |
| WindowManager.Desktop.HitTest | 25-osfs11/kernel/wm.c:854-875 | at any point the answer is the last window that painting draws among those whose frame contains it; -1 iff none |
| WindowManager.Desktop.HandleClick | 25-osfs11/kernel/wm.c:973-979 | a click raises and activates exactly the window that is visible there |
| Fat12.EntryWritten | 25-osfs11/scripts/desktop_image.py:61-68 | writing one 12-bit entry sets it and preserves every other, whichever byte they share |
| Fat12.ThreeBytesTwoEntries | 25-osfs11/scripts/desktop_image.py:61-68 | three bytes hold an even and an odd entry of 12 bits, in the nibbles the format prescribes |
| Fat12.WalkFollows | 25-osfs11/scripts/desktop_image.py:59-68 | following a linked chain ends and visits exactly its clusters |
| Fat12.ChainsAreDisjoint | 25-osfs11/scripts/desktop_image.py:48-69 | chains of different files have no cluster in common |
| Fat12.StartsAreConsecutive | 25-osfs11/scripts/desktop_image.py:45-69 | the first file begins in cluster 2, sector 33, and each one behind the one before |
| Fat12.ClustersAreFilled | 25-osfs11/scripts/desktop_image.py:45-69 | every cluster before the end of the last file is in the chain of some file |
| Fat12.EntryReadsBack | 25-osfs11/scripts/desktop_image.py:53-56 | name, first cluster and size are read back from a directory entry |
| Fat12.ReadsBack | 25-osfs11/scripts/desktop_image.py:53-68 | a stored and linked file is read back byte for byte from its directory entry |
| Fat12.SetEntry | 25-osfs11/scripts/desktop_image.py:61-68 | the masks and shifts write the entry as specified |
| Fat12.Link | 25-osfs11/scripts/desktop_image.py:59-68 | the clusters of a file are chained; no other entry and none of the first three bytes changes |
| Fat12.Enter | 25-osfs11/scripts/desktop_image.py:53-56 | name, attribute, first cluster and size at their places in the entry, nothing else |
| Fat12.EnteredInSlot | 25-osfs11/scripts/desktop_image.py:53-56 | in an unused slot this is a whole directory entry of 32 bytes |
| Fat12.AddFile | 25-osfs11/scripts/desktop_image.py:48-69 | fails iff the file is empty or does not fit; else it is added and all earlier files stay, as long as the directory has room |
| Fat12.FloppyImage | 25-osfs11/scripts/desktop_image.py:33-73 | which error, exactly; else, for up to 224 files, an image from which every file is read back through either FAT, both equal, free clusters and unused slots zero; for more, the first data sector begins with a file name |
| Fat12.OverrunLosesFirst | 25-osfs11/scripts/desktop_image.py:53-58 | after that the first file does not read back, through neither FAT, if its first byte is not that of the name |
| Fat12.OverfullFits | 25-osfs11/scripts/desktop_image.py:48-52 | up to 2847 copies of a file of one byte pass the check for space |

## Left out

- IpcInvariant.AvailableIsQueued: for RECEIVE from INTERRUPT the code reads the entry at that negative index; the model takes it not to be sending.
- Ne2000.ChainAppend: it states the assumption about how the card stores packets; the source only reads them.
- TaskSched.NobodyWakesEarly: the tick counter is unbounded, so its wrap after 2 to the 32 ticks is not modelled.
- Files.WriteSparesTheRest: it takes extents on the device and a record that agrees with the volume; in FileSystem both are part of the invariant, on the device under the condition of FileSystem.Create.
- FileSystem.FileSystem.Write: the write ends within the extent and the sectors that the loop touches lie on the device; what happens otherwise is in ReadWrite.DoRdwt and WriteStaysInsideIff.
- FileSystem.FileSystem.Read: the same about the sectors touched, and the position stays below 2 to the 32.
- FileSystem.FileSystem.Create: with a full i-map the code goes on with inode 0 and no inode at all; the model ends there, as it does for sectors behind the device. The inode table does not fill up here; that is in FileTables.
- FileSystem.FileSystem.Open: one descriptor per entry; sharing after fork, modes and flags are in FileTables. Any file with an extent may be among the files, the root directory too; its permanent reference is in FileTables.
- FileTables.FileTables.Create: the directory entry is not written; inode number and extent are parameters, which FileSystem.Create takes from the bitmaps.
- FileTables.FileTables.DoOpen: path search has happened, and no message goes to the driver of a character device.
- IpcInvariant.InitialInv: the initial state stands for the table that the boot code fills; that code is not modelled.
- ForkExit.ProcTable.DoFork: memory allocation, copying of segments and the inherited IPC fields are not part of it; fork is one atomic step of its own model.
- FileTables.FileTables.Open: path search and flags are outside it; DoOpen has the flags, and no message goes to the driver of a character device.
- FileTables.FileTables.Unlink: the two bitmaps are in the model of the volume, the counters and the inode here.
- ReadWrite.DoRdwt: the sectors that the loop touches must lie on the device, because the code would go past its end; fd_mode and character devices are outside it; record fields are taken modulo 2 to the 32.
- Ip.SentIsAccepted: the receive buffer has at least 60 bytes, the longest header that ip_input may read.
- Ip.Send: the ARP cache and the choice of the next hop are one parameter that says whether the next hop is resolved.
- TaskSched.RunKeepsInv: the tick counter is unbounded; its wrap after 2 to the 32 ticks is not modelled.
- TaskFairness.NoStarvation: a yield with quantum left resumes the same task, as the code does, so it counts as a scheduling like a tick.
- TaskSched.CreateKeeps: creation by a dead task that is still current, in its own slot, is excluded.
- Ne2000.Nic.CardReceive: the card itself is an assumption: it stores whole packets behind one another and stops before BNRY; the 8-bit cast of ring positions is not modelled, the ring size being at most 256.
- Fat12.FloppyImage: names have 11 bytes, as the callers pass them; the script does not look, and another length would shift all that follows.
- Address translation, raw message pointers and the layout of MESSAGE: messages are values and copies are assignments.
- The flags WAITING and HANGING in the message system: a process that MM stops is not runnable there; the message model knows SENDING, RECEIVING and a free slot.
- Byte layout of the super block; one device. In the table model a sector of the inode array is sixteen typed records; the bytes of a record are in the transfer model.
- Directory contents, path names and fd_mode: files are keyed by inode number.
- Port I/O, register traffic, interrupt masking, the disk driver, assembly stubs and the frame buffer.
- Dragging windows, titles, terminal and explorer contents.
- The copy of the network code in 25-osfs11/net, and everything else in the repository.
