# The traced storage stack, verified

AndroTrace traces the requests of an Android device's storage stack, with a kernel of its
own for each of two phones. This project models the parts of that stack where an error
would cost data, and the trace pipeline itself, and proves what they keep.

Code that changes state in place is a class with the source's fields and loops, and its
methods are proved against specification functions. Where threads interleave, each region
under a lock, and each I/O that a thread waits for, is one step of a state machine; the
class methods are proved to be steps (or uninterrupted runs) of that machine, and the
theorems are about every run of it.

| module | source | what is proved |
|---|---|---|
| Tid | include/linux/jbd2.h | 32-bit transaction ids that wrap, and when they compare correctly |
| LogSpace, LogArea | jbd2: journal.c, commit.c, checkpoint.c | the circular log never overwrites what is still needed, although the commit applies a tail it read long before |
| CommitProtocol, CommitRequests | jbd2: journal.c, commit.c; ext4: fsync.c | who asks for a commit gets it, and fsync gets its flush |
| CommitEncoding, CommitLog | jbd2: commit.c, journal.c | what a commit writes can be read back, exactly |
| CheckpointLists | jbd2: checkpoint.c, commit.c | three kinds of circular lists of objects; a finished transaction lives as long as it has buffers |
| BlkCore, RequestUpdate | both block/blk-core.c | the two kernels complete requests alike, by bytes and by vectors |
| RequestAccounts, RequestAlloc | g4 block/blk-core.c | counters of requests on all paths; a drained queue is empty for good |
| PlugFlush | both block/blk-core.c | a flushed plug loses no request and takes each lock once |
| PathResolution, PathWalk, PathMeaning | nexus5 fs/namei.c | the path walk terminates, and it is POSIX pathname resolution |
| RenameTree, Rename, RenameRuns | nexus5 fs/namei.c | the trap tests of rename are exactly the condition that keeps the tree a tree |
| InodeHash, InodeCache | nexus5 fs/inode.c | one live hashed inode for a key, whoever races |
| Units, HoleBlocks, HoleFate, PunchHole | ext4: inode.c | a hole reads as zeros, nothing else changes |
| DelayedAlloc | ext4: inode.c | the counter of dirty clusters is the sum of all reservations |
| TraceRecords, TraceFlow, TraceRing, TraceLogs | androtrace | the parser gets the records out of the files as they went into the ring |

## Findings

These properties hold only under a condition, which is stated and proved exact, with an
input or a run that shows the failure:

- fsync and transaction ids (`kernel/g4_f500s/fs/jbd2/journal.c:664-696` and `743-771`): an
  inode whose last transaction is 2^31 commits old looks like one that will still be
  committed to `jbd2_trans_will_send_data_barrier`, and like one that already is to
  `jbd2_complete_transaction`; its fsync returns without a flush.
  `CommitProtocol.FsyncDurableIff` gives the condition, `StaleTidLosesTheFlush` a run.
- Completing zero bytes with an error (`kernel/g4_f500s/block/blk-core.c:2474-2488`,
  `kernel/nexus5_3.4.0/block/blk-core.c:2290-2363`): the g4 kernel clears BIO_UPTODATE of
  the first bio and the nexus5 kernel does not. Otherwise they agree
  (`RequestUpdate.KernelsAgreeIff`, `ZeroBytesWithAnError`).
- Journals with checksums and 32-bit block numbers have tags of 10 bytes, but
  `write_tag_block` (`kernel/g4_f500s/fs/jbd2/commit.c:315-321`) goes by the size of the tag
  and writes a high word as for 64-bit block numbers, on which the next store falls. A
  reader that goes by the feature, as `Decode` here, is not affected; for one that goes by
  the size, `CommitEncoding.TenByteDescriptor` tells which descriptors it can read.
- The guard of the trace ring (`kernel/g4_f500s/androtrace/androtrace.c:22-49`) is a byte that
  wraps: it protects the buffer exactly for records whose size without the header is at
  most 235 (`TraceFlow.GuardIff`), which a long file name exceeds.
- The parser reads file names into an array of 100 bytes
  (`kernel/g4_f500s/androtrace/parser/trace_parser.c:23` and `59`), and the tracer writes longer
  ones: the files can be read back exactly while no name is longer
  (`TraceLogs.ParseLogs`, `TraceRecords.LongName`).
- A trace ring whose last free buffer has no room for a record
  (`kernel/g4_f500s/androtrace/androtrace.c:28-48`) marks that buffer full, refuses the record
  and leaves the hand there: the ring is full, but the hand is at the reader only if all
  buffers were full before (`TraceRing.Trace.AddIo`).

Contracts of the form `ensures var valid := Valid(); valid` say `Valid()`: with the let the
verifier proves the predicate as one and not conjunct by conjunct, which keeps the proofs
small and steady.

## Model

| member | source | states |
|---|---|---|
| Tid.Compare | kernel/g4_f500s/include/linux/jbd2.h:1273-1283 | wrapping 32-bit comparison orders serial numbers correctly whenever they are less than 2^31 apart |
| Tid.GtIff | kernel/g4_f500s/include/linux/jbd2.h:1273-1277 | at any distance: tid_gt is true exactly if the first is ahead by less than 2^31 (but for whole 2^32), or behind by more |
| LogSpace.StepKeepsInv | kernel/g4_f500s/fs/jbd2/commit.c:532-969 | every step of the commit thread, of checkpointers and of those who start transactions keeps the invariant: at least one block is free between head and tail; every tail read earlier and not yet applied is a transaction boundary with nothing that is needed before it; tails that go to disk are durable; a finished transaction is listed exactly while it has buffers |
| LogSpace.RunKeepsInv | kernel/g4_f500s/fs/jbd2/journal.c:778-946 | the same over every run, however the threads interleave |
| LogSpace.HandedOutBlockIsDead | kernel/g4_f500s/fs/jbd2/journal.c:778-792 | in every reachable state the block handed out next belongs to no committing transaction, to none on the checkpoint list, and to nothing that recovery would read from the superblock's tail on |
| LogSpace.NothingBeforeTail | kernel/g4_f500s/fs/jbd2/journal.c:866-893 | everything in the log and everything the superblock names is at or behind the tail in memory |
| LogSpace.DurableMeansFlushed | kernel/g4_f500s/fs/jbd2/commit.c:818-822 | the mark of what is durable only ever moves by a flush issued when no older transaction was in the log |
| LogSpace.DiskTailFollowsFlush | kernel/g4_f500s/fs/jbd2/journal.c:905-946 | with barriers the tail on disk passes a transaction only after a device flush that came when it was out of the log, all its buffers having been written back or committed again, in any run |
| LogSpace.OldestIsUsable | kernel/g4_f500s/fs/jbd2/journal.c:866-893 | the tail that is read is a boundary between transactions with nothing needed before it |
| LogSpace.OldestIsFirst | kernel/g4_f500s/fs/jbd2/journal.c:866-893 | the tail that is read is the mark of a transaction in the log that none of the listed and the committing ones comes before, or the head when the log is empty |
| LogSpace.CandidateIff | kernel/g4_f500s/fs/jbd2/journal.c:866-893 | there is nothing to free exactly while the tail is already there, also in the steps that the commit and the checkpointer take |
| LogSpace.TailUpdatedIsRun | kernel/g4_f500s/fs/jbd2/journal.c:905-946 | the class method's effect is a run of atomic steps of the state machine |
| LogSpace.CleanedIsRun | kernel/g4_f500s/fs/jbd2/checkpoint.c:441-466 | likewise for the checkpointer: read the tail, flush, move the tail |
| LogArea.DistanceIsExact | kernel/g4_f500s/fs/jbd2/journal.c:919-929 | the circular distance the code computes from two block numbers is the distance of the positions they stand for, within one lap |
| LogArea.MarksSpread | kernel/g4_f500s/fs/jbd2/commit.c:563-600 | every transaction takes up at least a block, so boundaries are as far apart in blocks as in serial numbers |
| LogArea.TailComparison | kernel/g4_f500s/fs/jbd2/journal.c:940-946 | the wrapping comparison of tids decides correctly between the current tail and any stale one still to be applied, in a log of less than 2^31 blocks |
| LogArea.PassedByLessThanALap | kernel/g4_f500s/fs/jbd2/commit.c:796-808 | a tail that moved past a mark read earlier did so by less than one lap of the log |
| LogArea.Journal.Reset | kernel/g4_f500s/fs/jbd2/journal.c:1297-1352 | an empty log of the superblock's extent, or an error exactly when it is too short |
| LogArea.Journal.FreeIsDistance | kernel/g4_f500s/fs/jbd2/journal.c:778-792 | j_free is the distance from the head on to the tail round the log |
| LogArea.Journal.NextLogBlock | kernel/g4_f500s/fs/jbd2/journal.c:778-792 | for a block of the log and for the commit record: the block is within the log and is the one at the head; the head wraps and free shrinks as in the state machine |
| LogArea.Journal.GetLogTail | kernel/g4_f500s/fs/jbd2/journal.c:866-893 | the first transaction on the checkpoint list, else the committing, else the running one, else the next at the head; the answer is yes exactly if its serial number is beyond that of the tail |
| LogArea.Journal.WorthFreeing | kernel/g4_f500s/fs/jbd2/commit.c:796-808 | an update is kept exactly if it would free a quarter of the log or more, across the end of the log too; when the tail has moved past the mark meanwhile the distance is the rest of a lap, and the mark is dropped later |
| LogArea.Journal.MoveLogTail | kernel/g4_f500s/fs/jbd2/journal.c:905-933 | tail and free move by the exact distance; free stays the circular free distance |
| LogArea.Journal.UpdateLogTail | kernel/g4_f500s/fs/jbd2/journal.c:940-946 | a tail read long before is applied, with superblock and free, unless the tail has moved past it, which the code finds out from wrapped tids; then nothing changes |
| LogArea.Journal.CleanupJournalTail | kernel/g4_f500s/fs/jbd2/checkpoint.c:441-466 | afterwards the tail is at the first of what is in the log and, unless it was there before, so is the superblock; nothing is done exactly if it was there before |
| CommitProtocol.StepKeepsRequest | kernel/g4_f500s/fs/jbd2/journal.c:170-265 | the requested tid is the last one committed, the committing or the running one; a commit only starts with a running transaction; the sequence grows by at most one |
| CommitProtocol.LetGoMeansCommitted | kernel/g4_f500s/fs/jbd2/journal.c:703-771 | whoever is let go, by either test and at any distance of the tids, has its transaction committed |
| CommitProtocol.WaitsForACommit | kernel/g4_f500s/fs/jbd2/journal.c:743-771 | whoever is made to wait waits for a transaction that is committed, being committed, or running and requested by then |
| CommitProtocol.CommitComes | kernel/g4_f500s/fs/jbd2/journal.c:170-265 | no wakeup is lost: from any state in which a transaction is on its way, steps of the commit thread alone lead to its commit |
| CommitProtocol.WillSendIff | kernel/g4_f500s/fs/jbd2/journal.c:664-696 | for a transaction less than 2^31 commits old, jbd2_trans_will_send_data_barrier says yes exactly if the flush of its commit is still to come |
| CommitProtocol.RunKeepsInv | kernel/g4_f500s/fs/jbd2/journal.c:520-580 | over every run: the request is one of the three tids, the sequence only grows, every call that left jbd2_complete_transaction has its transaction committed, and every call that waits has it committed, committing, or running and requested |
| CommitProtocol.PromiseKept | kernel/g4_f500s/fs/jbd2/commit.c:939-962 | a flush that was promised to a call is still promised after any step of any thread, or has come |
| CommitProtocol.FsyncDurableIff | kernel/g4_f500s/fs/jbd2/journal.c:664-696 | with barriers, every continuation that returns has a flush behind the write-out if and only if the tid was not stale when the barrier was decided, or a flush had already come |
| CommitProtocol.FsyncDurable | kernel/g4_f500s/fs/ext4/fsync.c:114-193 | in every run with fewer than 2^31 commits since the inode's transaction, an fsync that returned has had a flush issued after its data was written, and its transaction is committed |
| CommitProtocol.FsyncFlushes | kernel/g4_f500s/fs/ext4/fsync.c:114-193 | the same by events: between the write-out of the data and the return there is a step that issues a flush to the device |
| CommitProtocol.StaleReturnsAtOnce | kernel/g4_f500s/fs/jbd2/journal.c:743-771 | with a stale tid the next two steps of the call take it home without a flush |
| CommitProtocol.StaleTidLosesTheFlush | kernel/g4_f500s/fs/jbd2/journal.c:664-696 | a run from the initial state in which fsync returns with no flush since its data was written |
| CommitRequests.Journal.GetTransaction | kernel/g4_f500s/fs/jbd2/transaction.c:82-111 | the new running transaction has the next tid |
| CommitRequests.Journal.StartCommit | kernel/g4_f500s/fs/jbd2/journal.c:522-562 | if the running transaction has the tid its commit is requested afterwards; the answer is yes exactly if this call requested it, and otherwise nothing changes |
| CommitRequests.Journal.WillSendDataBarrier | kernel/g4_f500s/fs/jbd2/journal.c:664-696 | yes exactly if the transaction is not committed and its flush is still to come |
| CommitRequests.Journal.NeedsBarrier | kernel/g4_f500s/fs/ext4/fsync.c:169-172 | for every allocated transaction less than 2^31 commits old, fsync is to flush itself exactly if barriers are on and the flush of the commit is over or too far to wait for |
| CommitRequests.Journal.CheckTransaction | kernel/g4_f500s/fs/jbd2/journal.c:743-771 | whether the caller requests, waits or goes |
| CommitRequests.Journal.MustWait | kernel/g4_f500s/fs/jbd2/journal.c:703-731 | whoever is let go has its transaction committed; one less than 2^31 commits old waits exactly while it is not |
| CommitRequests.Journal.RequestsDiffer | kernel/g4_f500s/fs/jbd2/journal.c:170-265 | a true answer means there is a running transaction with the requested tid and none committing |
| CommitRequests.Journal.Expire | kernel/g4_f500s/fs/jbd2/journal.c:248-255 | the timer requests the running transaction |
| CommitRequests.Journal.LockTransaction | kernel/g4_f500s/fs/jbd2/commit.c:427-438 | T_LOCKED, for the requested transaction |
| CommitRequests.Journal.SwitchTransaction | kernel/g4_f500s/fs/jbd2/commit.c:532-537 | the running transaction becomes the committing one |
| CommitRequests.Journal.PublishCommit | kernel/g4_f500s/fs/jbd2/commit.c:1163-1166 | the committed tid becomes the sequence, and nothing is committing |
| CommitEncoding.EscapeIsSafe | kernel/g4_f500s/fs/jbd2/journal.c:399-452 | no logged data block starts with the magic number, and undoing the escape gives the contents back |
| CommitEncoding.EscapeBytes | kernel/g4_f500s/fs/jbd2/journal.c:399-452 | a block is escaped exactly if it begins with the bytes c0 3b 39 98, which become zeros, and no other byte changes |
| CommitEncoding.HeaderBytes | kernel/g4_f500s/fs/jbd2/commit.c:645-658 | the header of a descriptor, byte by byte: magic number, block type 1, tid, the highest byte first |
| CommitEncoding.FieldBytes | kernel/g4_f500s/fs/jbd2/commit.c:711-733 | the bytes of a tag: block number, checksum, the flags 1, 2 and 8, high word, and the UUID behind the first one, for all four sizes of tags |
| CommitEncoding.FieldAt | kernel/g4_f500s/fs/jbd2/commit.c:711-733 | the i-th tag of a descriptor is behind i tags and the UUID of the first |
| CommitEncoding.LogStarts | kernel/g4_f500s/fs/jbd2/commit.c:752-775 | a group in the log is its descriptor and then, in the order of its tags, the escaped data blocks |
| CommitEncoding.RoundTrip | kernel/g4_f500s/fs/jbd2/commit.c:602-777 | decoding the log of a commit gives exactly its buffers, in order, with block numbers and contents, for every legal block and tag size |
| CommitEncoding.MagicMarksDescriptors | kernel/g4_f500s/fs/jbd2/commit.c:645-658 | a block of the log starts with the magic number exactly if it is a descriptor of this transaction |
| CommitEncoding.TenByteTag | kernel/g4_f500s/fs/jbd2/commit.c:315-321 | a reader that goes by the size of the tag gets the entry of a tag of 10 bytes exactly if the two bytes behind the tag are zero |
| CommitEncoding.TenByteDescriptor | kernel/g4_f500s/fs/jbd2/commit.c:689-733 | such a reader gets all entries of a descriptor if and only if the UUID starts with two zero bytes, every block number from the third on is below 2^16, and two zero bytes follow the last tag |
| CommitEncoding.UuidHidesBlocks | kernel/g4_f500s/fs/jbd2/commit.c:315-321 | with an ordinary UUID it misreads every descriptor |
| CommitEncoding.TagIsField | kernel/g4_f500s/fs/jbd2/commit.c:714-733 | the stores for a tag, overlapping ones included, leave block number, checksum, flags and the UUID of the first tag where the decoder looks |
| CommitEncoding.Marked | kernel/g4_f500s/fs/jbd2/commit.c:748-748 | setting LAST_TAG in place changes nothing but that flag |
| CommitEncoding.Finished | kernel/g4_f500s/fs/jbd2/commit.c:323-339 | with the room that WriteTag keeps free, storing the checksum in the last bytes completes the descriptor and touches no tag |
| CommitLog.JournalHead.WriteMetadataBuffer | kernel/g4_f500s/fs/jbd2/journal.c:331-479 | what is written is the frozen copy if there is one and else the data, escaped, and frozen if escaped, so that the buffer itself keeps its own; it fails only for want of memory for a copy |
| CommitLog.JournalHead.RunningWrite | kernel/g4_f500s/fs/jbd2/transaction.c:645-858 | a write by the running transaction freezes the contents of the committing one, or leaves those already frozen |
| CommitLog.Commit.GetDescriptor | kernel/g4_f500s/fs/jbd2/commit.c:631-665 | a new descriptor has room for a tag and its block |
| CommitLog.Commit.WriteTag | kernel/g4_f500s/fs/jbd2/commit.c:711-733 | the descriptor holds the tags so far and this one, and room for the checksum stays free behind them |
| CommitLog.Commit.WriteBuffer | kernel/g4_f500s/fs/jbd2/commit.c:701-733 | what is written grows by exactly this buffer, or nothing changes when memory is short |
| CommitLog.Commit.CloseDescriptor | kernel/g4_f500s/fs/jbd2/commit.c:742-775 | the log grows by a complete group; no buffer is lost or repeated |
| CommitLog.Commit.DropBuffer | kernel/g4_f500s/fs/jbd2/commit.c:611-626 | an aborted journal gets rid of a buffer; with the last one all that is queued is submitted, as it is |
| CommitLog.Commit.LogBuffer | kernel/g4_f500s/fs/jbd2/commit.c:701-776 | one buffer more is written, or the journal is aborted after a fault and it is still on the list; the group is submitted exactly with the last buffer or when another tag or block would not fit |
| CommitLog.Commit.Run | kernel/g4_f500s/fs/jbd2/commit.c:602-777 | the loop terminates, aborted midway or not; the log decodes to the first buffers in order, and without an abort to all of them, with their frozen copies or data as of the start although the running transaction writes to them at any time; it is aborted only by a fault |
| CheckpointLists.Transaction.Unlink | kernel/g4_f500s/fs/jbd2/checkpoint.c:51-61 | the ring is the sequence without that element, and the heads follow |
| CheckpointLists.Transaction.UnlinkFirst | kernel/g4_f500s/fs/jbd2/checkpoint.c:33-44 | the ring without the element; a head that pointed to it points to the next one |
| CheckpointLists.Transaction.RelinkIo | kernel/g4_f500s/fs/jbd2/checkpoint.c:68-83 | from its place in one ring to the front of the other |
| CheckpointLists.Transaction.Insert | kernel/g4_f500s/fs/jbd2/checkpoint.c:649-669 | the buffer is in front of the others and owned by the transaction |
| CheckpointLists.Transaction.TryToFree | kernel/g4_f500s/fs/jbd2/checkpoint.c:92-110 | a buffer that is in no transaction, not locked, not dirty and without a write error leaves, any other stays; 2 exactly for the last one of a finished transaction |
| CheckpointLists.Transaction.CleanOneCpList | kernel/g4_f500s/fs/jbd2/checkpoint.c:482-515 | the buffers visited are the list in order, each once, all of them unless preempted; of those exactly the ones that cannot be freed stay, in order and in front of the rest, though nodes go under the walk; the number returned is that of the buffers gone |
| CheckpointLists.InStaying | kernel/g4_f500s/fs/jbd2/checkpoint.c:482-515 | who stays: an element of the list exactly if it is not to be freed |
| CheckpointLists.Journal.AddTransaction | kernel/g4_f500s/fs/jbd2/commit.c:1163-1195 | the committed transaction is last on the journal's list |
| CheckpointLists.Journal.FinishTransaction | kernel/g4_f500s/fs/jbd2/commit.c:1205-1214 | a finished transaction is freed exactly if it has no buffers, else it stays on the list |
| CheckpointLists.Journal.InsertCheckpoint | kernel/g4_f500s/fs/jbd2/checkpoint.c:649-669 | all lists stay well formed, and every owned buffer is on exactly one of its transaction's two lists |
| CheckpointLists.Journal.RelinkIo | kernel/g4_f500s/fs/jbd2/checkpoint.c:68-83 | the same for a buffer that goes to the other list |
| CheckpointLists.Journal.DropTransaction | kernel/g4_f500s/fs/jbd2/checkpoint.c:681-709 | the ring of transactions without this one |
| CheckpointLists.Journal.RemoveFrom | kernel/g4_f500s/fs/jbd2/checkpoint.c:585-639 | the buffer is on neither list; the transaction is freed exactly if it is finished and this was its last buffer, never early, twice or never |
| CheckpointLists.Journal.RemoveCheckpoint | kernel/g4_f500s/fs/jbd2/checkpoint.c:585-639 | the same for any buffer, also one of no transaction |
| CheckpointLists.Journal.CleanList | kernel/g4_f500s/fs/jbd2/checkpoint.c:482-515 | one list of a transaction is swept, every buffer once without preemption, and the transaction is freed exactly if nothing is left of it |
| CheckpointLists.Journal.CleanTransaction | kernel/g4_f500s/fs/jbd2/checkpoint.c:536-560 | both lists are swept; it stays on the journal's list exactly if not freed |
| CheckpointLists.Journal.CleanCheckpointList | kernel/g4_f500s/fs/jbd2/checkpoint.c:527-565 | the transactions visited are the list in order, each once, all of them unless preempted, though some are freed under the walk; then each has lost exactly its releasable buffers and the list is the old one without the freed ones; preempted or not, no buffer goes that cannot be released, and the number returned is that of the buffers released |
| BlkCore.Bio.Advance | kernel/g4_f500s/block/blk-core.c:159-175 | bio_advance takes that many bytes off the front of the remaining vectors |
| BlkCore.Bio.EndBytes | kernel/g4_f500s/block/blk-core.c:159-175 | the bio is advanced, and ended exactly when nothing is left of it and no flush is in progress |
| BlkCore.Bio.EndSize | kernel/nexus5_3.4.0/block/blk-core.c:159-185 | size and sector move, the vectors do not |
| BlkCore.Bio.EndPart | kernel/nexus5_3.4.0/block/blk-core.c:2358-2363 | the vector walk's end within a bio is the byte advance |
| BlkCore.CutVectors | kernel/nexus5_3.4.0/block/blk-core.c:2358-2363 | moving bi_idx and trimming one vector is advancing by the bytes walked over |
| BlkCore.Request.Shorten | kernel/g4_f500s/block/blk-core.c:2490-2526 | the length is what the chain still holds, and the repair for a botched request is never needed |
| BlkCore.Request.EndBios | kernel/g4_f500s/block/blk-core.c:2474-2488 | the loop completes exactly the first nr_bytes, bio by bio; during a flush sequence no bio is ended |
| BlkCore.Request.UpdateBytes | kernel/g4_f500s/block/blk-core.c:2412-2529 | the bios that nr_bytes cover are ended, each with its error, none of them during a flush sequence and no other; the rest, length, sector and return value are those of the specification |
| BlkCore.Request.WalkVectors | kernel/nexus5_3.4.0/block/blk-core.c:2290-2363 | the vector walk completes the same bytes, with the cut of the last bio left to do |
| BlkCore.Request.UpdateVectors | kernel/nexus5_3.4.0/block/blk-core.c:2237-2391 | the vector walk meets the same specification but for one flag, and ends the same bios |
| RequestUpdate.CompleteDropsBytes | kernel/g4_f500s/block/blk-core.c:2474-2488 | completing n bytes takes exactly the first n bytes off the transfer, whatever the boundaries of vectors and bios |
| RequestUpdate.CompleteEnds | kernel/g4_f500s/block/blk-core.c:2474-2488 | exactly the bios that n bytes cover are ended, each with its error; of the next one the covered bytes are gone and its sector and BIO_UPTODATE follow; the others are as before |
| RequestUpdate.UpdateMeans | kernel/g4_f500s/block/blk-core.c:2412-2529 | which errors the ended bios get; length and sector move by the bytes while bios are left, and at the end the length is zero and the sector stays |
| RequestUpdate.UpdateKeepsLength | kernel/g4_f500s/block/blk-core.c:2490-2529 | __data_len stays the number of bytes left, true is returned exactly while bios are left |
| RequestUpdate.KernelsAgreeIff | kernel/nexus5_3.4.0/block/blk-core.c:2237-2391 | the two kernels agree on every chain, error and count, except exactly for an error with zero bytes, where BIO_UPTODATE of the first bio is the difference |
| RequestUpdate.ZeroBytesWithAnError | kernel/nexus5_3.4.0/block/blk-core.c:2290-2363 | one bio, zero bytes and an error: the two kernels differ |
| RequestUpdate.UpdateTwice | kernel/g4_f500s/block/blk-core.c:2412-2529 | completing n1 (whole sectors), then n2, is completing their sum while data remains |
| RequestUpdate.UpdateTwiceToTheEnd | kernel/g4_f500s/block/blk-core.c:2490-2507 | when the second finishes the request, only the sector may differ |
| RequestAccounts.BeginCounts | kernel/g4_f500s/block/blk-core.c:922-1005 | the first region counts a request exactly if it goes on, never on a dying queue, and never above one and a half times nr_requests |
| RequestAccounts.BeginIs | kernel/g4_f500s/block/blk-core.c:922-1005 | when the region goes on, when the request is marked REQ_ELVPRIV (never while the queue is bypassed), and exactly how the full and starved flags change |
| RequestAccounts.FreedCounts | kernel/g4_f500s/block/blk-core.c:857-871 | class, list and elvpriv counters lose exactly this request |
| RequestAccounts.FreedIs | kernel/g4_f500s/block/blk-core.c:833-871 | a list with room again is not full any more, the other class only if it had starved; no other flag and no other list changes |
| RequestAccounts.StepKeepsInv | kernel/g4_f500s/block/blk-core.c:922-1083 | each region, on success and each failure path, keeps: nr_rqs is the sum of the lists' counts and the number of outstanding requests of the class, nr_rqs_elvpriv the number marked |
| RequestAccounts.RunKeepsInv | kernel/g4_f500s/block/blk-core.c:857-1083 | the same over every run, whose steps are enabled by the code's own tests alone |
| RequestAccounts.StartOk | kernel/g4_f500s/block/blk-core.c:573-660 | a new queue keeps the accounts |
| RequestAccounts.DrainedIsEmpty | kernel/g4_f500s/block/blk-core.c:429-447 | all counters are zero exactly if nothing is outstanding |
| RequestAccounts.DrainedForGood | kernel/g4_f500s/block/blk-core.c:523-557 | once a dying queue is drained, nothing ever becomes outstanding in any run |
| RequestAlloc.RequestQueue.FillList | kernel/g4_f500s/block/blk-core.c:940-969 | refused exactly if the list is filling, already full, and the caller neither batches nor must be served |
| RequestAlloc.RequestQueue.BeginGetRequest | kernel/g4_f500s/block/blk-core.c:922-1005 | the step of the state machine; counters, mark and outstanding requests change exactly if it goes on, and REQ_ELVPRIV is set exactly if the elevator is to be used and not bypassed |
| RequestAlloc.RequestQueue.FreedRequest | kernel/g4_f500s/block/blk-core.c:833-871 | counters and flags as specified; the starved flags stay |
| RequestAlloc.RequestQueue.FailAlloc | kernel/g4_f500s/block/blk-core.c:1061-1083 | an allocation that fails undoes its counts, and its class is starved if nothing of it is left in the list |
| RequestAlloc.RequestQueue.FailElvpriv | kernel/g4_f500s/block/blk-core.c:1043-1059 | a request without elevator data is no longer counted as having any |
| RequestAlloc.RequestQueue.PutRequest | kernel/g4_f500s/block/blk-core.c:1361-1390 | a request that is put away is counted nowhere any more |
| RequestAlloc.RequestQueue.DrainTurn | kernel/g4_f500s/block/blk-core.c:399-468 | when there is nothing to wait for, nothing is outstanding; it never waits for nothing |
| PlugFlush.SortSorts | kernel/g4_f500s/block/blk-core.c:3026-3033 | the list comes out with the same requests, ordered by queue, on g4 by position too |
| PlugFlush.SortIsStable | kernel/nexus5_3.4.0/block/blk-core.c:2895-2901 | sorting by queue does not reorder the requests of a queue |
| PlugFlush.VisitsGrow | kernel/nexus5_3.4.0/block/blk-core.c:2984-3019 | a visit to a higher queue keeps: each lock taken once, depth the number inserted, a dead queue gets nothing |
| PlugFlush.EachLockOnce | kernel/nexus5_3.4.0/block/blk-core.c:2984-3026 | under the lock of a queue, taken once, all its requests are inserted, or all ended if it is dead, and the depth reported is the number inserted |
| PlugFlush.Plug.Dispatch | kernel/nexus5_3.4.0/block/blk-core.c:3001-3016 | the request of a dead queue is ended, and any other inserted, never both |
| PlugFlush.Plug.DispatchAll | kernel/nexus5_3.4.0/block/blk-core.c:2984-3026 | every request is handled exactly once, in the order of the list and under the lock of its queue; each lock is taken and released once, one at a time |
| PlugFlush.Plug.Add | kernel/nexus5_3.4.0/block/blk-core.c:1489-1513 | should_sort is set as soon as a request is of another queue than the one before it, so that unset it means one queue; the plug is flushed first if it holds many |
| PlugFlush.Plug.Flush | kernel/nexus5_3.4.0/block/blk-core.c:2956-3027 | not sorting is safe: the flush still visits each queue once, and each gets its requests in the order they came |
| PlugFlush.Plug.FlushSorted | kernel/g4_f500s/block/blk-core.c:3096-3163 | the same for any list, by sorting: each queue once, its requests in the order of their positions |
| PathResolution.PosixAnyLimit | kernel/nexus5_3.4.0/fs/namei.c:631-678 | plain resolution, if it ends before its limit on links, ends the same for every higher limit |
| PathResolution.CompsJoin | kernel/nexus5_3.4.0/fs/namei.c:1520-1601 | splicing text splices components |
| PathResolution.ResolveIsPosix | kernel/nexus5_3.4.0/fs/namei.c:1340-1368 | resolution with nesting levels is plain resolution with the links that are left, or ELOOP |
| PathResolution.WalkIsPosix | kernel/nexus5_3.4.0/fs/namei.c:1715-1755 | a walk that does not end in ELOOP reaches the dentry, or the error, of section 4.13 of the Base Definitions of POSIX.1-2017; it does not end in ELOOP where plain resolution follows no more links than may nest; without the limit on nesting they agree on ELOOP too |
| PathMeaning.TextIsParsed | kernel/nexus5_3.4.0/fs/namei.c:1520-1601 | a name written of components, ".", ".." and names, with one or more slashes between them and any number in front, parses to these components |
| PathMeaning.ResolveFolds | kernel/nexus5_3.4.0/fs/namei.c:1296-1331 | where no link is to be followed, resolution is: stay for ".", the parent for "..", which of the root is the root, the entry for a name, and ENOENT or ENOTDIR at the first failure |
| PathMeaning.LookupOfText | kernel/nexus5_3.4.0/fs/namei.c:1715-1775 | path_lookupat on such a text ends where its components lead from the root or the working directory |
| PathMeaning.LinkIsItsBody | kernel/nexus5_3.4.0/fs/namei.c:580-678 | a link means its body in place of it, from the root if that is absolute and from the directory of the link if not; ELOOP when no more may be followed |
| PathWalk.Nameidata.WalkComponent | kernel/nexus5_3.4.0/fs/namei.c:1296-1331 | a step to the child, its parent or the link to follow |
| PathWalk.Nameidata.FollowLink | kernel/nexus5_3.4.0/fs/namei.c:580-678 | the walk of a link's body, up to its last component, means the body spliced in front of the rest; ELOOP at 40 links |
| PathWalk.Nameidata.NestedSymlink | kernel/nexus5_3.4.0/fs/namei.c:1340-1368 | links that a body ends in are followed until there is none; nesting is bounded, and link_count is restored on every path |
| PathWalk.Nameidata.WalkFirst | kernel/nexus5_3.4.0/fs/namei.c:1560-1598 | a component with more behind it is walked, and must be a directory |
| PathWalk.Nameidata.LinkPathWalk | kernel/nexus5_3.4.0/fs/namei.c:1520-1601 | terminates on every link graph, by the links left and then the name left; what remains to be resolved means the same as before |
| PathWalk.Nameidata.LookupLast | kernel/nexus5_3.4.0/fs/namei.c:1704-1712 | a slash behind the last name means: follow it, and it must be a directory |
| PathWalk.Nameidata.PathLookupat | kernel/nexus5_3.4.0/fs/namei.c:1715-1775 | the dentry or error of resolution with both limits, for every tree, links in cycles included |
| RenameTree.ReachesRoot | kernel/nexus5_3.4.0/fs/namei.c:2024-2052 | in a tree every dentry reaches the root |
| RenameTree.UnsafeMoveMakesCycle | kernel/nexus5_3.4.0/fs/namei.c:3301-3312 | a source above its new parent would end in a cycle |
| RenameTree.MoveIff | kernel/nexus5_3.4.0/fs/namei.c:3301-3312 | a move keeps the tree without cycles if and only if neither is above the other's parent |
| RenameTree.OneChildTowards | kernel/nexus5_3.4.0/fs/namei.c:2035-2047 | the trap is unique |
| RenameTree.NotBothWays | kernel/nexus5_3.4.0/fs/namei.c:2035-2047 | so the two ancestor searches cannot both succeed |
| RenameTree.TrapTestsIff | kernel/nexus5_3.4.0/fs/namei.c:3301-3312 | for any tree, parents, source and target, the two tests against the trap pass exactly if the move is safe |
| Rename.Dcache.Ancestor | kernel/nexus5_3.4.0/fs/namei.c:2035-2042 | the child of the one through which the other is reached, or none |
| Rename.Dcache.LockRename | kernel/nexus5_3.4.0/fs/namei.c:2024-2052 | the trap, and both directories locked once, an ancestor first |
| Rename.Dcache.RenameAt | kernel/nexus5_3.4.0/fs/namei.c:3283-3339 | it succeeds exactly for a safe move; an error says which one is above the other; the tree stays one |
| RenameRuns.RunKeepsTree | kernel/nexus5_3.4.0/fs/namei.c:2024-3339 | between locking and moving others create and remove; every dentry still reaches the root after any run |
| InodeHash.ScansFind | kernel/nexus5_3.4.0/fs/inode.c:811-837 | a scan finds nothing exactly if the chain has no inode of that key (a live one, for the other scan), and never returns a dying one |
| InodeHash.FirstDecides | kernel/nexus5_3.4.0/fs/inode.c:811-837 | the first inode of the key on the chain decides: it is used if it is alive, referenced or not, and waited for if it is being freed |
| InodeHash.FirstLiveDecides | kernel/nexus5_3.4.0/fs/inode.c:1268-1293 | the scan of insert_inode_locked passes over those that are being freed to the first live one |
| InodeHash.StepKeepsInv | kernel/nexus5_3.4.0/fs/inode.c:1057-1103 | each region of the creators, iput and eviction keeps: one live hashed inode for a key at most |
| InodeHash.RunKeepsInv | kernel/nexus5_3.4.0/fs/inode.c:1268-1408 | the same over every run, whose steps are enabled by the code's own tests alone, although inodes are allocated without the lock |
| InodeHash.StartOk | kernel/nexus5_3.4.0/fs/inode.c:811-837 | the empty hash is one to start from |
| InodeHash.SameForAll | kernel/nexus5_3.4.0/fs/inode.c:1057-1103 | all holders of hashed inodes of one key hold the same one |
| InodeCache.InodeTable.FindInodeFast | kernel/nexus5_3.4.0/fs/inode.c:811-837 | the loop finds what the specification says, or that it must wait |
| InodeCache.InodeTable.IgetLookup | kernel/nexus5_3.4.0/fs/inode.c:1057-1068 | a live hashed inode of the key gets one reference more; otherwise nothing changes, and nothing is found only if no inode of the key is hashed |
| InodeCache.InodeTable.IgetInsert | kernel/nexus5_3.4.0/fs/inode.c:1070-1103 | the second search decides: the new inode goes in, locked as new, exactly if nobody was faster |
| InodeCache.InodeTable.InsertInodeLocked | kernel/nexus5_3.4.0/fs/inode.c:1268-1308 | hashed exactly if no live inode of the key is, and otherwise that one gets a reference |
| InodeCache.InodeTable.PutInode | kernel/nexus5_3.4.0/fs/inode.c:1372-1427 | a reference less; with the last one the inode stays in the cache, is to be written first, or is freed, as decided |
| HoleBlocks.DiscardPart | kernel/g4_f500s/fs/ext4/inode.c:3497-3548 | a part of a block, whatever the states of its buffer, reads as zeros and the rest as before |
| HoleBlocks.DiscardWhole | kernel/g4_f500s/fs/ext4/inode.c:3484-3495 | a whole block's buffer is forgotten, so that the block reads as zeros once it is freed |
| HoleFate.WholeFate | kernel/g4_f500s/fs/ext4/inode.c:3624-3758 | a block within the hole reads as zeros without its disk block |
| HoleFate.PartFate | kernel/g4_f500s/fs/ext4/inode.c:3624-3758 | any other block keeps its disk block and loses just the bytes in the hole |
| HoleFate.TailFate | kernel/g4_f500s/fs/ext4/inode.c:3711-3727 | the discard from i_size on changes nothing below it |
| PunchHole.Inode.DiscardBlock | kernel/g4_f500s/fs/ext4/inode.c:3457-3553 | one buffer of the page, by its state |
| PunchHole.Inode.DiscardPartial | kernel/g4_f500s/fs/ext4/inode.c:3364-3556 | exactly the bytes from there to the end of the length or page are discarded, over all buffers of the page |
| PunchHole.Inode.DiscardEdges | kernel/g4_f500s/fs/ext4/inode.c:3668-3709 | the head and tail that page rounding leaves out are discarded, also when both are in one page |
| PunchHole.Inode.DiscardTail | kernel/g4_f500s/fs/ext4/inode.c:3711-3727 | the rest of the last page, if the hole ends in it |
| PunchHole.Inode.HoleEndBelow | kernel/g4_f500s/fs/ext4/inode.c:3624-3636 | clipping the hole to the page of i_size does not change what is punched below i_size |
| PunchHole.Inode.HoleEndIs | kernel/g4_f500s/fs/ext4/inode.c:3628-3636 | a hole across i_size ends at the first page boundary beyond i_size, any other where it was asked to |
| PunchHole.Inode.BlockFate | kernel/g4_f500s/fs/ext4/inode.c:3624-3758 | head, whole pages and tail cover every block of the hole, and nothing else |
| PunchHole.Inode.FreeBlocks | kernel/g4_f500s/fs/ext4/inode.c:3729-3753 | the block range that is removed is the blocks wholly within the hole |
| PunchHole.Inode.PunchLocked | kernel/g4_f500s/fs/ext4/inode.c:3624-3758 | for all offsets, lengths, i_size and block sizes up to a page: bytes in the hole are zero, others below i_size unchanged, exactly the blocks within are freed |
| PunchHole.Inode.Punch | kernel/g4_f500s/fs/ext4/inode.c:3580-3767 | the same for the whole call, byte by byte of the file; of the blocks on disk exactly those within the hole go |
| PunchHole.Inode.ReadByteIs | kernel/g4_f500s/fs/ext4/inode.c:3364-3556 | what is read is the page cache where it is up to date, else the disk, and zeros where there is no block |
| PunchHole.Inode.CleanIsOnDisk | kernel/g4_f500s/fs/ext4/inode.c:3540-3548 | what is not dirty in the cache reads the same from the disk, so nothing is lost with the cache |
| DelayedAlloc.StepConserves | kernel/g4_f500s/fs/ext4/inode.c:1270-1412 | reserve, release and update, clamping and ENOSPC included, keep the counter the sum of all reservations, and none negative |
| DelayedAlloc.TakesWhatThereIs | kernel/g4_f500s/fs/ext4/inode.c:343-389 | takes what is asked for or all there is; the last data block takes all metadata blocks with it |
| DelayedAlloc.RunConserves | kernel/g4_f500s/fs/ext4/inode.c:343-411 | the same over every run on any inodes |
| DelayedAlloc.AllUsedIsClean | kernel/g4_f500s/fs/ext4/inode.c:343-389 | the counter is zero exactly while nothing is reserved |
| DelayedAlloc.FileSystem.ReserveSpace | kernel/g4_f500s/fs/ext4/inode.c:1313-1363 | one data block, its metadata blocks and quota are reserved exactly if quota and space are there; a refused claim leaves no trace, in the quota and the calculation of metadata neither |
| DelayedAlloc.FileSystem.ReserveMetadata | kernel/g4_f500s/fs/ext4/inode.c:1270-1308 | likewise, for metadata alone |
| DelayedAlloc.FileSystem.ReleaseSpace | kernel/g4_f500s/fs/ext4/inode.c:1365-1412 | what is asked for or all there is goes from inode, counter and quota; with the last data block go the metadata blocks |
| DelayedAlloc.FileSystem.UpdateReserveSpace | kernel/g4_f500s/fs/ext4/inode.c:343-411 | likewise for blocks that were used, with the metadata blocks that were, and both clamps |
| TraceRecords.EncodeBoth | kernel/g4_f500s/androtrace/androtrace.c:299-328 | what two lists of records are written as is the one text behind the other |
| TraceRecords.RecordLayout | kernel/g4_f500s/androtrace/androtrace.c:299-328 | the bytes of a record, part by part and in order, with type, log_size and the length of each name in front of it |
| TraceRecords.ReadRecord | kernel/g4_f500s/androtrace/parser/trace_parser.c:47-119 | a record whose file name fits the array of 100 bytes is read back as it was written and the position is exactly behind it, whatever follows; any other is not |
| TraceRecords.IoParser | kernel/g4_f500s/androtrace/parser/trace_parser.c:12-162 | a file of records parses to those before the first file name that is too long for the array, and to all of them if and only if every name fits |
| TraceRecords.LongName | kernel/g4_f500s/androtrace/parser/trace_parser.c:58-59 | a file name of 150 bytes is within the limits of the tracer and not of the parser |
| TraceFlow.GuardIff | kernel/g4_f500s/androtrace/androtrace.c:22-64 | over all offsets that runs of accepted records leave a buffer open at, the byte-sized guard keeps a record within the buffer exactly if its log_size is at most 235 |
| TraceFlow.AddKeeps | kernel/g4_f500s/androtrace/androtrace.c:134-384 | an accepted record is behind all others, and no buffer is overrun |
| TraceFlow.AddedWhere | kernel/g4_f500s/androtrace/androtrace.c:22-64 | which buffer a record goes to, by 20 bytes over its log_size or 31, and which buffers are closed then |
| TraceFlow.DrainKeepsRecords | kernel/g4_f500s/androtrace/androtrace_daemon.c:55-73 | a drain appends exactly the oldest full buffer to what the files hold, and loses and reorders nothing |
| TraceFlow.RunKeepsOrder | kernel/g4_f500s/androtrace/androtrace.c:299-328 | files, full buffers and the writer's buffer hold the accepted records in order, and none outgrows its size, over every run in which no add is refused |
| TraceFlow.FilesHoldPrefix | kernel/g4_f500s/androtrace/androtrace_daemon.c:55-73 | the files in creation order hold exactly what the drains took; that is the accepted records up to what is still in the buffers; each file holds whole records and no more than IO_FILE_SIZE |
| TraceRing.Trace.constructor | kernel/g4_f500s/androtrace/androtrace_module.c:53-123 | an empty ring of any length |
| TraceRing.Trace.GetIoBufferLeft | kernel/g4_f500s/androtrace/androtrace.c:22-49 | room is found, once round the ring, exactly if a buffer has it; otherwise all buffers are full and the hand is where it was |
| TraceRing.Trace.AcceptsIff | kernel/g4_f500s/androtrace/androtrace.c:22-49 | a record is accepted exactly if some buffer that is not full has room for what the guard asks for |
| TraceRing.Trace.CheckIoBufferLeft | kernel/g4_f500s/androtrace/androtrace.c:51-64 | the buffer is closed when it is almost full |
| TraceRing.Trace.AddIo | kernel/g4_f500s/androtrace/androtrace.c:134-384 | an accepted record is in the ring, byte for byte, and the full buffers are the arc from the reader's to the writer's hand; when it is refused, all buffers are full |
| TraceRing.Trace.AddSuspend | kernel/g4_f500s/androtrace/androtrace.c:539-568 | the same for suspend records |
| TraceRing.Trace.Poll | kernel/g4_f500s/androtrace/androtrace_module.c:161-198 | ready exactly if a full buffer waits |
| TraceRing.Trace.Read | kernel/g4_f500s/androtrace/androtrace_module.c:129-159 | the oldest full buffer, as whole records; the arc shrinks by it |
| TraceRing.Trace.IoFileWrite | kernel/g4_f500s/androtrace/androtrace_daemon.c:55-73 | the buffer at the head goes behind the open file if it fits and to a new one otherwise, and is empty then; every file is the encoding of whole records |
| TraceLogs.ParseFiles | kernel/g4_f500s/androtrace/parser/parse.sh:15-21 | parsing file by file finds the records of all files up to the first name that is too long |
| TraceLogs.ParseLogs | kernel/g4_f500s/androtrace/parser/trace_parser.c:12-162 | from tracer to parser: after any run, parsing the closed files and the open one gives exactly the drained records in order, if and only if all their file names fit the parser's array |

## Left out

- Of the journal: aborts in the fsync property, external journals, data journalling, what the journal's checksums contain (they are arbitrary bytes here), revoke records, buffer triggers and recovery.
- CommitProtocol.FsyncDurable: says that a flush is issued after the write-out of the data, not that the device honours it; its bound of 2^31 commits is the code's own, see "Findings".
- LogSpace.RunKeepsInv: the log is taken to have room when a transaction is begun, as __jbd2_log_wait_for_space and the credits of handles provide; their code is not modelled.
- LogArea.TailComparison: for logs of less than 2^31 blocks; block numbers of the log's own inode are not mapped to the device.
- CommitLog.Commit.Run: of the running transaction its writes to the buffers are modelled, not its lists; whether memory and blocks may run out, or others abort the journal, is an input; I/O errors other than an abort are not followed, nor what becomes of the buffers after the loop.
- CommitEncoding.RoundTrip: the decoder is a specification written for this project; the repository's recovery code is not modelled.
- CheckpointLists.Journal.CleanCheckpointList: the sweep of one list and the drop of its transaction are two steps of the model, though the code drops the transaction when its last buffer goes; the caller cannot tell, since the sweep ends there in either case.
- CheckpointLists.Transaction.CleanOneCpList: which buffers can be freed is fixed during the sweep, as the list lock and buffer locks are not modelled; whether need_resched may say yes is an input.
- BlkCore.Request.UpdateVectors: requests of the file system only: no discard requests, no BIO_DONTFREE, no overflow of the byte count; error messages and statistics are left out.
- RequestAlloc.RequestQueue.BeginGetRequest: congestion flags of the backing device, io contexts and the waiting of get_request are left out.
- PlugFlush.Plug.FlushSorted: list_sort, which is not part of the repository, is modelled as an insertion sort; the order of requests of one queue at the same position, on g4, is not promised, since plug_rq_cmp calls each of them the greater. Callbacks of the plug, the request count that triggers a flush and which queues are dead are inputs.
- PathWalk.Nameidata.PathLookupat: reference walk only: no RCU walk, mounts, permissions, reference counts, LOOKUP_PARENT, or links without a path body; MAX_NESTED_LINKS is 8 as the comment in namei.c says, since the header that defines it is not in the repository. Names are looked up in a tree that does not change during the walk.
- RenameRuns.RunKeepsTree: what others may do meanwhile is creating and removing dentries without children; other renames are kept out by s_vfs_rename_mutex.
- Rename.Dcache.RenameAt: from the trap tests on; d_move exchanges the places of source and target as here, the file systems' own rename is not modelled, and neither is a target that is removed.
- InodeCache.InodeTable.PutInode: an inode that is referenced is not unhashed by its file system here; waiting for an inode is trying again later. Iget5 and the LRU lists are left out.
- PunchHole.Inode.Punch: runs without errors, extent-mapped files with one cluster a block; writers that race with the punch and the journal are left out.
- DelayedAlloc.StepConserves: one cluster is one block (no bigalloc); quota limits and free space are answers from outside.
- TraceRing.Trace.AddIo: an add and a read are atomic; order is stated for runs without a refusal. What becomes of the ring after a record with a log_size above 235, names too long for their length fields, and what a second producer might do are left out.
- TraceRecords.IoParser: files that the daemon wrote; the parser's extra iteration at the end of the file, what it does once a name has overrun its array, its handling of foreign input and the text it prints are left out.
- TraceRing.Trace.IoFileWrite: the names of log files and the trace of file lives are left out.
- Device I/O, memory, timers, wait queues, tracepoints, sysfs and proc are answers from outside, or not there.
