# Verified model of the San Jose Filesystem (sjfs)

sjfs keeps a disk in a user-space helper and talks to it from a kernel module over a netlink connector. This
project models the parts of it that carry hard obligations and proves them in Dafny:

1. the two-semaphore request/reply protocol, in the form the kernel module has it and in the form of plan A;
2. what a read returns, through protocol, helper and wire format;
3. the inode bitmap allocator with its write-through cache, and what a crash between block writes leaves behind;
4. the disk layout, the inode slots, and the five-byte form of a block address.

`dafny verify dfyconfig.toml` checks everything.

## How it is built

| file | what it holds |
|---|---|
| `Protocol.dfy` | the labelled transition system: calls with program counters, both semaphores, counter, channel, helper, callbacks, shared buffer |
| `Ledgers.dfy` | conservation laws that hold in every run: `cn_sem`, `cb_sem`; what a lost permit shuts for ever |
| `Progress.dfy` | the falling measure, no stuck state, the helper that never answers |
| `Replies.dfy` | own reply, linearizability, real-time order |
| `Scripts.dfy` | the order of operations of each call, in every run |
| `Histories.dfy` | what the history record means in terms of steps; runs in which nothing fails |
| `Traffic.dfy`, `Numbers.dfy` | which requests reach the wire and with what bytes; sequence numbers, and when two are equal |
| `Witnesses.dfy` | runs from every initial state that show why each assumption is there |
| `Store.dfy`, `Helper.dfy` | the helper's files, as functions and as the program that changes them |
| `BlockReads.dfy` | the kernel module's block read end to end |
| `Wire.dfy`, `Blocks.dfy`, `Layout.dfy` | address encoding, constants, layout and inode slots |
| `Bitmap.dfy`, `Inodes.dfy`, `FileSystem.dfy` | search and marking, create and unlink as a state machine with a log of block writes, the same in place on a cache array |
| `Format.dfy` | the image formatting loop |
| `Sums.dfy`, `Arith.dfy` | counting and arithmetic |

**The protocol.** A state holds any number of calls; a call that has not moved stands for one not made yet, so
runs cover every interleaving of any number of threads. One step is one semaphore operation, allocation, copy,
send or counter update. Failures are part of the labels: a failed allocation, a failed send (no caller looks
at the result of `cn_netlink_send`), a file that does not open (which to a reader is the same as a reply that could
not be sent), a message nobody asked for (a duplicate reply counts as one). Nothing is assumed about them in the
conservation laws; the other results say in their hypotheses which of them have not happened, in terms of a history
record that the model carries along and never consults, and that `HistoryExact` ties to the steps of the run. The key to `cb_sem` is that its permit travels: from the reader that took it,
into the request, the reply, the callback, and back. Counted that way permits are conserved, and everything else
follows: who may be in the critical section, that callbacks never overlap, that the buffer holds the right reply.

A run is *clean* if no stray message was handled while no permit was free, no plan-A callback lacked memory, no write
was lost to a file that did not open, and no kernel-module read whose allocation failed has done its final up
(`CleanExact`). From every start all calls can be finished in a clean run (`EveryStartFinishes`). Each of
the four is needed: `StrayMessageIsTakenForTheReply` and `SurplusPermitSkipsTheWait`, `VoidedReplyIsEmpty`,
`SkippedWriteIsMissed` and `ModuleFailureMixesReplies` each reach, from every initial state with enough calls, a state
that breaks just that one, with the bytes a read holds in it and the bytes of its answer both given in terms of the
initial state. `OneIntrusionBreaksOwnReply` draws the conclusion for the first.

**Where code and comments disagree.** Both are modelled and the exact agreement is proved:

- the search guard (`FindFree` against `FindFreeAsWritten`): as written it never finds a number;
- the bitmap byte `ino - ino % 8` against `ino / 8` (`MarkAsWrittenBits`, `CellsAsWritten`, `MarkAsWrittenReuses`);
- the inode offsets `ino * size` and `ino % blocksize` against `(ino * size) % blocksize` (`LoadAsWrittenBytes`,
  `SaveAsWrittenBytes`, `LoadAsWrittenInBounds`, `OffsetsAsWritten`, `RoundTripAsWritten`), for every inode size above 1;
- the inode size: the comment says 64 bytes, the declared fields of `inode_t` give 108 bytes with 4-byte longs and 184
  with 8-byte longs, or 116 and 200 with alignment. None divides 1024, so some slots straddle two blocks
  (`DeclaredInodeStraddles`). `SlotRoundTrip`, `Inodes` and `FileSystem` are about the sizes for which none does, the
  documented 64 among them;
- the root check on bit 7 (`RootCheckTestsInodeSeven`);
- the mount code's data-bitmap offset against the layout comment (`DocumentedOffset`);
- the inverted `copy_from_user` test (`WritesOnTheWire`, `FaultFreeWritesSent`, `RequestsSentExactly`,
  `WriteOutcomes`);
- the helper that truncates, seeks to the count, and gives up when the seek succeeds (`DoWorkAsWrittenExact`, and
  `DoWorkAgreement` for exactly when that does no harm), and is never called at all (`SilentHelperStarvesReaders`);
- the kernel module's write routine, whose comment says it writes and whose body sends nothing
  (`ModuleSendsNoWrites`, and `StubNeverWrites` for what becomes of the disk). The rest of `Inodes` and `FileSystem` use
  the documented meaning of it.

The documented search is the written one with `sizeof` removed, `||` turned into `&&` and `> 0` into `== 0`. Number
0 still doubles as "none", so a disk whose root bit is clear gets a search that starts at 8; the results say so
instead of assuming the root bit.

## Model

| member | source | states |
|---|---|---|
| Ledgers.CnPermitLaw | kernel_space_module/sjfs.c:35-78 | every run, any environment: `cn_sem` count plus holders is one plus the failed-allocation reads that did their final up; exactly one in plan A |
| Ledgers.PlanAMutualExclusion | backup_plans/a/sjfs.c:77-133 | every run, failures and stray messages included: at most one plan-A call is inside the lock |
| Ledgers.CbPermitLaw | kernel_space_module/sjfs.c:17-60 | every run, any environment: `cb_sem` permits, counted wherever they travel, plus lost reads plus discarded replies equal one plus intrusions |
| Ledgers.NothingDiscarded | kernel_space_module/sjfs.c:18-22 | without an intrusion no reply is ever dropped by the "nobody waits" branch |
| Ledgers.CallbacksNeverOverlap | kernel_space_module/sjfs.c:17-32 | without an intrusion two callbacks never run at once, although nothing in the model serialises them |
| Ledgers.NoiseFreeNeverIntrudes | kernel_space_module/sjfs.c:17-22 | a run without unsolicited messages has no intrusion |
| Ledgers.LossIsForever | backup_plans/a/sjfs.c:77-98 | after one lost read no read that has not taken its reply ever takes one, in any continuation without intrusion |
| Ledgers.LossClosesTheLock | backup_plans/a/sjfs.c:77-133 | plan A: while the reader of a lost reply holds the lock, no call waiting for the lock, reader or writer, ever gets it, in any continuation without intrusion |
| Progress.WorkFalls | backup_plans/a/sjfs.c:77-133 | every step of threads, helper and callback lowers the remaining work |
| Progress.RunLengthBound | backup_plans/a/sjfs.c:68-136 | every run without unsolicited messages has at most 17 steps per call |
| Progress.NeverStuck | kernel_space_module/sjfs.c:35-78 | while a permit exists and a call is unfinished, some step in which nothing fails is enabled |
| Progress.MaximalRunsFinish | kernel_space_module/sjfs.c:35-78 | with no lost read and no intrusion, a state without a good step has all calls finished, in both variants, kernel-module allocation failures included |
| Progress.SilentHelperStarvesReaders | backup_plans/a/sjfs_helper.c:184-194 | under a helper that never answers no allocated read returns, in any interleaving |
| Scripts.CallsFollowTheirScripts | kernel_space_module/sjfs.c:35-78 | every run, both variants: what a call has done is the beginning of the operation sequence of its source, with just the short cuts its own failed allocation or fetch takes; a finished call has done all of it, in order |
| Histories.HistoryExact | kernel_space_module/sjfs.c:17-67 | every run: lost reads, intrusions, discarded and voided replies and skipped writes are recorded exactly as often as such a step happened |
| Histories.MessagesInOrder | kernel_space_module/sjfs.c:17-32 | every run: messages to the callback, stray ones included, are handled in the order they came, none twice, none left out |
| Histories.CleanExact | backup_plans/a/sjfs.c:48-64 | a run is clean iff none of its steps is one of four, named by label and state |
| Histories.GoodRunsAreClean | kernel_space_module/sjfs.c:35-78 | every run in which nothing fails is clean, in every interleaving |
| Histories.EveryStartFinishes | backup_plans/a/sjfs.c:68-136 | from every start, any calls, both variants: some run without failures finishes all of them, and is clean |
| Histories.AnyCallsCanStart | kernel_space_module/sjfs.c:35-78 | there is a start for any requests, files, counter and buffer, module reads and buffer being whole blocks |
| Replies.OwnReply | kernel_space_module/sjfs.c:17-67 | every clean run: a locked read that copied the buffer holds the answer to its own request, as of the point it was sent; failed sends and allocations elsewhere included |
| Replies.ReadsAreLinearizable | backup_plans/a/sjfs.c:68-136 | every clean run: each byte a finished read returns is that of the last covering write sent before it, else the initial byte |
| Replies.RealTimeOrder | backup_plans/a/sjfs.c:77-133 | every run: a call finished before another is sent comes before it in the send order |
| Traffic.PlanASequenceNumbers | backup_plans/a/sjfs.c:77-131 | plan A, every run: numbers strictly rise in send order; equal 32-bit numbers mean the counter went round |
| Traffic.CounterLaw | backup_plans/a/sjfs.c:91-131 | every run, both variants: the counter moves by exactly one per call past its increment, failed or not |
| Traffic.WritesOnTheWire | backup_plans/a/sjfs.c:113-129 | every run: a sent write carries the caller's bytes with the intended copy test, only zeros with the test as written |
| Traffic.FaultFreeWritesSent | backup_plans/a/sjfs.c:122-127 | plan A without faults: a finished write was sent iff the test is the intended one or there was nothing to write |
| Traffic.RequestsSentExactly | backup_plans/a/sjfs.c:80-129 | every run, both variants: a request is in the log iff its own allocation and send succeeded and, for a write, its own fetch left 0 bytes uncopied with the intended test, all of them with the test as written |
| Numbers.EqualNumbers | kernel_space_module/sjfs.c:43-56 | every run, both variants, any two stamps: the numbers are equal iff nothing incremented the counter between them, and never fall |
| Numbers.NumbersExact | backup_plans/a/sjfs.c:83-91 | every run: any two messages of the log have their stamps in the run, and equal numbers iff no increment lies between these |
| Numbers.LoggedStamp | kernel_space_module/sjfs.c:43 | every run: a message carries in 32 bits the counter's value at its call's stamp, all of it below 2^32 |
| Numbers.PastIncrementIsSmaller | kernel_space_module/sjfs.c:43-56 | a call that has sent and incremented before another stamps has the strictly smaller number |
| Witnesses.PlanAFailureIsADeadlock | backup_plans/a/sjfs.c:77-98 | from every start with a reader: a failed allocation leads to a state in which nothing but a stray message can happen, with the call unfinished; in every continuation without intrusion it stays before its reply and all other calls, writers included, stay outside the lock |
| Witnesses.FailedSendIsADeadlock | kernel_space_module/sjfs.c:51-60 | the same for a failed send, both variants: the reader never gets past its wait, and in plan A nobody else gets in |
| Witnesses.UnopenedFileIsADeadlock | backup_plans/a/sjfs_helper.c:78-82 | the same for a read whose file the helper cannot open, with its request sent and served |
| Witnesses.WriteOutcomes | backup_plans/a/sjfs.c:113-135 | plan A, from every start with a writer and for every outcome of allocation, fetch and send: a run in which the write finishes, and the message then on the wire; as written, zeros if no byte could be fetched and nothing if one could |
| Witnesses.OverlappingCallbacksMakeAPermit | kernel_space_module/sjfs.c:19-22 | from every start: two overlapping callbacks of stray messages leave `cb_sem` at two |
| Witnesses.StrayMessageIsTakenForTheReply | kernel_space_module/sjfs.c:17-27 | from every start with a reader, both variants: a run with one intrusion in which it returns, byte by byte, the stray data and behind it, in the kernel module, the old buffer; its request is still in the channel |
| Witnesses.OneIntrusionBreaksOwnReply | kernel_space_module/sjfs.c:17-27 | from every start with a reader that asks for anything, both variants: a run with one intrusion in which its bytes differ from its answer |
| Witnesses.ExtraReplyMakesAPermit | kernel_space_module/sjfs.c:58-60 | from every start with a reader: an extra message handled between its second down and its up; after the read `cb_sem` is two, `cn_sem` one, nothing under way, and the buffer byte by byte the extra data over the reply |
| Witnesses.SurplusPermitSkipsTheWait | kernel_space_module/sjfs.c:48-64 | from every start with two readers, as one run: after one extra message the next read returns its bytes, in the kernel module over those of the first read's block, while its own request is unserved |
| Witnesses.VoidedReplyIsEmpty | backup_plans/a/sjfs.c:58-63 | plan A, from every start with a reader: a callback that cannot allocate makes it return nothing, which differs from its answer iff it asked for anything |
| Witnesses.SkippedWriteIsMissed | backup_plans/a/sjfs_helper.c:78-82 | plan A, from every start with a writer and a reader: a read sent after a finished write whose file did not open returns the bytes from before it |
| Witnesses.ModuleNumbersCollide | kernel_space_module/sjfs.c:43-56 | kernel module, from every start with two readers: a clean run with two requests under one number; `Numbers.NumbersExact` has the exact condition |
| Witnesses.FailedReadReturnsTheOldBuffer | kernel_space_module/sjfs.c:40-66 | kernel module, from every start with a reader: if its allocation fails it finishes without a message, returns what the buffer held and leaves `cn_sem` at two |
| Witnesses.ModuleFailureMixesReplies | kernel_space_module/sjfs.c:40-64 | kernel module, from every start with three readers: after one failed allocation a read returns another reader's block, not its answer, while that one is inside the lock |
| Store.ReplayCell | backup_plans/a/sjfs_helper.c:84-114 | the stored files after any requests show at each offset the byte of the last covering write |
| Store.DoWorkAsWrittenExact | backup_plans/a/sjfs_helper.c:78-121 | the shipped `do_work` answers exactly reads whose seek failed, with zeros, and empties every file it opens |
| Helper.DoWorkAgreement | backup_plans/a/sjfs_helper.c:78-121 | shipped and documented `do_work` leave the same contents everywhere and give the same reply iff the file does not open, or is empty and read after a failed seek, or is empty and nothing is written, or is overwritten whole from position 0 after a failed seek |
| Helper.Server.DoWork | backup_plans/a/sjfs_helper.c:68-122 | documented `do_work` in place: exactly the covered bytes become the data, the file grows exactly that far, an opened read and nothing else is answered, byte by byte from the old files |
| Helper.Server.Serve | backup_plans/a/sjfs_helper.c:154-195 | the receive loop, any files failing to open: every byte stored in the end and every byte of every reply is that of the last covering write among the requests whose file opened |
| Helper.AnswersAreLastWrites | backup_plans/a/sjfs_helper.c:89-114 | each byte of such a reply in terms of the requests alone |
| BlockReads.ModuleSendsNoWrites | kernel_space_module/sjfs.c:69-78 | every kernel-module run: only reads are ever on the wire |
| BlockReads.ReadsReturnWholeBlocks | kernel_space_module/sjfs.c:17-67 | every kernel-module run without intrusion, whatever else fails: a read that copied holds the first buffer or a whole image block some call asked for, never a mixture |
| BlockReads.BlockReadReturns | kernel_space_module/sjfs.c:35-67 | every clean run: a finished block read returns the 1024 image bytes from its five-byte address times 1024 on; that is the address asked for iff below 1000, and a three-digit one for every data-bitmap address |
| Wire.DecodeEncode | kernel_space_module/sjfs.c:37-46 | what arrives for every address: the opcode and the address without its excess low digits |
| Wire.EncodeBytes | kernel_space_module/sjfs.c:44 | the message byte by byte: opcode, at most three decimal digits from character 48 on, most significant first, and the terminating zero |
| Wire.FaithfulRange | kernel_space_module/sjfs.c:44-46 | encode then decode is the identity exactly below 1000, above it yields three digits |
| Layout.NoStraddle | include/blocks.h:24 | every inode slot lies in one block iff the inode size divides the block size, for all positive sizes |
| Layout.PlaceExact | kernel_space_module/sjfs.c:103-110 | block and offset of inode n are the one place n times the size into a table that starts with block 2, for all sizes |
| Layout.RegionsDisjoint | kernel_space_module/sjfs.c:406-411 | the inode table stays clear of superblock, bitmap and data bitmaps for all 8192 numbers iff an inode fits a block |
| Layout.DocumentedOffset | include/blocks.h:75-81 | the mount code's data-bitmap offset is the end of the documented inode table iff an inode is a whole block, for all sizes |
| Layout.DataBitmapReadsGoElsewhere | kernel_space_module/sjfs.c:410-412 | every data-bitmap address arrives as another, three-digit address |
| Layout.DataBitmapReadsHitTheInodeTable | kernel_space_module/sjfs.c:410-412 | all of them arrive inside the inode table iff an inode has at least 125 bytes; with the documented 64 they do not |
| Layout.DeclaredInodeStraddles | include/blocks.h:52-66 | the declared inode has 108, 116, 184 or 200 bytes by word size and alignment, and some inode of a bitmap block straddles two blocks |
| Layout.SlotRoundTrip | kernel_space_module/sjfs.c:98-144 | store then load gives the stored bytes; every other inode and block is unchanged, also within the block |
| Layout.LoadBytes | kernel_space_module/sjfs.c:98-117 | byte k of inode n is byte (n*S+k)%1024 of block 2+(n*S+k)/1024 |
| Layout.SaveBytes | kernel_space_module/sjfs.c:119-144 | storing inode n replaces exactly the table bytes from n*S to n*S+S, and leaves superblock and bitmap alone |
| Layout.LoadAsWrittenBytes | kernel_space_module/sjfs.c:110-114 | the written load stays in its buffer iff n*S+S is at most 1024 and reads block 2 from n*S on |
| Layout.SaveAsWrittenBytes | kernel_space_module/sjfs.c:131-143 | the written store stays in its buffer iff n%1024+S is at most 1024; it puts the inode at n%1024 of block 2+n*S/1024 and changes nothing else |
| Layout.LoadAsWrittenInBounds | kernel_space_module/sjfs.c:114 | the written load stays in its buffer iff the slot lies within the first table block, and is the documented load there |
| Layout.OffsetsAsWritten | kernel_space_module/sjfs.c:114 | load and store offsets agree iff the inode is 0, for all sizes above 1 |
| Layout.RoundTripAsWritten | kernel_space_module/sjfs.c:139-140 | the written store and load round-trip all bytes on all disks iff the inode is 0 and fits a block, for all sizes above 1 |
| Bitmap.FindFree | kernel_space_module/sjfs.c:208-216 | the search loop returns the specified free number |
| Bitmap.FreeNumberExact | kernel_space_module/sjfs.c:208-221 | that number is the only one meeting the specification: lowest clear bit from the search start, or 0 when there is none |
| Bitmap.SearchWithRoot | kernel_space_module/sjfs.c:208-221 | with the root bit set: the lowest clear bit, never 0, and none exactly when all bits are set |
| Bitmap.FindFreeAsWritten | kernel_space_module/sjfs.c:209-221 | the loop as written never finds a number: it reports no space iff the first four bytes offer none, else it reads past the cache |
| Bitmap.MarkBits | kernel_space_module/sjfs.c:231-234 | marking adds, unmarking removes exactly the one number |
| Bitmap.NumbersInBytes | kernel_space_module/sjfs.c:211-212 | number 8i+j is the bit of weight two to the j in byte i, and marking or unmarking it changes just that |
| Bitmap.CellsAsWritten | kernel_space_module/sjfs.c:260-263 | the written cell is one per number and undone by unlink, in bounds iff below the bitmap's byte count, and the searched cell iff below 8 |
| Bitmap.MarkAsWrittenBits | kernel_space_module/sjfs.c:232-263 | marking and unmarking as written change bit n%8 of byte n-n%8 and no other |
| Bitmap.MarkAsWrittenReuses | kernel_space_module/sjfs.c:232-234 | over written marking the number just given out is given out again iff it is 8 or more |
| Bitmap.RootCheckTestsInodeSeven | kernel_space_module/sjfs.c:417 | the root check of mount tests inode 7 and refuses a disk with just the root |
| Inodes.MountedAgrees | kernel_space_module/sjfs.c:198-276 | after any history over any mounted disk: cache, disk block 1 and directory agree, no two live files share a number, none has 0 |
| Inodes.StubNeverWrites | kernel_space_module/sjfs.c:69-78 | over the write routine as written, after any history and for any inode size: the disk is the mounted one, and the cache agrees with it iff no file is left |
| Inodes.StubLooksTheSame | kernel_space_module/sjfs.c:69-78 | cache and directory are nevertheless those of the documented routine, after any history |
| Inodes.CreateStep | kernel_space_module/sjfs.c:223-242 | a create that finds a number: the new directory entry, bit, block 1 and table bytes, nothing else on the disk, and the slot written before the bitmap |
| Inodes.UnlinkStep | kernel_space_module/sjfs.c:260-264 | an unlink writes block 1 and nothing else, once, with just the one bit cleared |
| Inodes.RefusedStep | kernel_space_module/sjfs.c:218-221 | a create without a free number or of a taken name, and an unlink of no name, change nothing |
| Inodes.LogIsTheDisk | kernel_space_module/sjfs.c:229-264 | after any history the disk is what the logged block writes make of the mounted one, slots written being those of numbers 1 to 8191 |
| Inodes.NothingElseChanges | kernel_space_module/sjfs.c:229-264 | cut any history after any block write: no byte outside block 1 and the table bytes of numbers 1 to 8191 has changed |
| Inodes.Population | kernel_space_module/sjfs.c:198-276 | the number of set bits changes by exactly one per success and by none otherwise |
| Inodes.CrashConsistent | kernel_space_module/sjfs.c:229-235 | cut any history, failed slot buffers included, after any block write: every non-root bit set by a create that had its buffer names a slot holding that create's inode, every other one is set iff its last create or unlink, or the mounted disk, says so, and an untouched one keeps its slot |
| Inodes.BitWithoutSlot | kernel_space_module/sjfs.c:229-235 | bit without slot write (swapped order, cut): durable iff the slot held the right bytes by chance |
| Inodes.UnbufferedCreate | kernel_space_module/sjfs.c:133-136 | a create whose slot buffer fails sets its bit over a slot that is right iff it was before, and leaves all else durable |
| FileSystem.Mount.constructor | kernel_space_module/sjfs.c:404-406 | mounting copies block 1 into the cache |
| FileSystem.Mount.SetDiskInode | kernel_space_module/sjfs.c:119-144 | read, overwrite the slot, write: the table bytes from n times the size on become the inode, everything else on the disk stays; without a buffer nothing |
| FileSystem.Mount.Create | kernel_space_module/sjfs.c:198-252 | the in-place create is the state machine's create, with its exact effect on directory, bit, block 1, table bytes and write order; error -28 exactly when there is no inode or no number, and then no effect |
| FileSystem.Mount.Unlink | kernel_space_module/sjfs.c:253-276 | the in-place unlink is the state machine's unlink: the name and its bit go, block 1 is the cache, every other block is untouched, one write |
| FileSystem.LoadDataBitmaps | kernel_space_module/sjfs.c:408-413 | after the loop bit b of the cache is bit b%8 of byte (b/8)%1024 of block 8194 + b/8192 as the read routine gave it |
| Format.FormatImage | user_space_application/main.c:79-100 | the image is exactly that many zero bytes for any size and write width |
| Format.ImageSize | user_space_application/main.c:89-100 | it is the least whole number of blocks covering the size iff each write is a whole block |

## Left out

- VFS glue, operation tables, dentry reference counts, timestamps, ownership, permissions: plain calls and copies.
- Socket setup, polling, netlink framing, pid-file locking, option parsing: the channel is an abstract FIFO.
- The helper's 128-byte send buffer (`backup_plans/a/sjfs_helper.c:45`), which a reply of more than some 80 bytes overruns: a reply is a byte sequence of any length.
- The pointer arithmetic of `do_work` (`backup_plans/a/sjfs_helper.c:79`, `103`, `106`): a path made by adding the number to a string pointer, and message parts placed a whole structure size too far per byte. `DoWorkAsWritten` follows its control flow, file mode, seek and tests, and takes path and message to be the intended ones.
- Memory is not freed in the model, and a null message buffer is an outcome of a label, not a pointer.
- Traffic.CounterLaw: the counter increment is one step, so two kernel-module increments outside the lock that lose one of them are not modelled.
- A buffer copy is one step, so a copy torn by an overlapping callback is not modelled; without an intrusion the
  two never overlap.
- More than 8192 inodes, indirect blocks and directory entries: declared in `include/blocks.h`, used by no code.
- Format.FormatImage: the loop counter of the formatting loop is unbounded, so the 32-bit overflow for sizes within one block of the largest int is not modelled.
- FileSystem.LoadDataBitmaps: takes the read routine as a function, so a read that fails is not modelled; the written routine never reports one.
- FileSystem.Mount.Create: the allocation of the inode's private data is taken to succeed, since the code does not test it.
- A directory survives only in memory, so the numbers a mounted disk has set belong to no name; they stay reserved.
- The dispatch in `user_space_application/main.c` is a stub after its seek; the model keeps its rule that a block
  address means that many blocks into the image, and takes the answering of reads from plan A's helper.
- `ramfs_test` and plan B: wrappers over generic kernel helpers with no algorithm of their own.
