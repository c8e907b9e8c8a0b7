# Manticore Search: verified models of its hard cores

This project models parts of Manticore Search in Dafny and proves properties of the
models: the coroutine scheduler and the locks built on it, the write-ahead log (binlog) and
its crash recovery, the GROUP_CONCAT aggregate, blob rows and ALTER on them, duplicate
removal in transactions, the parallel split of alive rows, the early-rejecting top-N
sorter, the mixed-radix counter of the grouper, and the 64-bit arithmetic of the PHP
client.  `dafny verify dfyconfig.toml` checks everything.  Nothing was executed.

## How the code is modelled

**Concurrency.**  A critical section or a single atomic operation of the source is one
step of a transition system; a run is any sequence of enabled steps, by any number of
workers.  `Wakers` has the epoch-stamped wakers and the wait queues, `ReadWriteLock`,
`CoroMutex` and `TableLock` the locks, `Scheduler` the Running/Paused flags, `TimedWait` one
`SuspendAndWaitUntil` against notifiers and the timer thread, `Heartbeat` the reply stream.
The fields that methods of the source change in place are classes, whose methods are proved
to carry out the value-level steps that the theorems over runs speak of.

**Binlog.**  `BinlogReplay`, `BinlogRecovery`, `BinlogSafety` and `BinlogCrash` work on frames
and lead to the crash theorem; `BinlogRetention` says how long a file is kept, `BinlogRanges`
and `BinlogAttempts` follow the transaction id ranges of the files, and what failed commits do
to them, through whole runs.  `BinlogFormat` gives the bytes, with the checksum as an arbitrary
function of the bytes it covers.  `Binlog` has the writer and the log file group as classes,
byte for byte, with writes that fail after any number of bytes and with restarts, and shows
that they carry out the frame-level operations.  File bytes and table contents survive a
crash, the write buffer does not.

**GROUP_CONCAT.**  `GroupConcat` has the values and whole trees of merges,
`GroupConcatBytes` the packed form and the routines on it.

**Rows.**  `BlobRow` and `BlobAlter` have the blob row codec.  `Compaction`, `Columnar`,
`Dedup` and `Accumulator` have duplicate removal.  `RowSplit` has the work split, `MatchHeap`
and `ProxySorter` the top-N sorter and its proxy, `NextSet` the counter.

**PHP client.**  `Decimal` and `Pack64`.  A double operation is the exact real operation
followed by an arbitrary rounding that is exact on integers up to 2^53 and, for zero and for
values from 2 * 10^-10 to 2^64, has a relative error of at most 2^-53.  Nothing is assumed
about underflow and overflow outside that range.

## Where a promise does not hold

- A timed wait can return with its waker still queued: there is a run that stores a given
  history of shared time stamps and does so if and only if a stamp at or past the deadline is
  followed later by one before it (`TimedWait.StaysLinkedIff`).  Two threads that store their
  stamps in the wrong order are enough (`TimedWait.ReorderedStampsLeaveItLinked`).
- `UnlockRead` by a caller that was never granted a read is harmless if and only if no read
  is registered at that moment (`TableLock.StrayUnlockIff`).  FREEZE takes the read lock of a
  plain table (src/searchd.cpp, lines 12686-12690) and UNFREEZE gives it back (line 12748),
  so an UNFREEZE without a matching FREEZE is such a call.
- Publishing the right to resume a worker before it yields can leave the worker parked
  forever (`Scheduler.EarlyPublicationCanStrand`).
- GROUP_CONCAT keeps tags in order and texts under their own tags if and only if two plain
  texts of different chunks arrive highest tag first and an empty destination carries the
  tag of a plain source (`GroupConcat.UpdateIff`, `GroupConcat.OrderMatters`).
- A log file starts with its header if and only if the write that closed the file before it
  left nothing in the buffer (`Binlog.BinlogWriter.CloseAndOpen`).  When a flush drops the
  current file, the log therefore stays readable if and only if that write succeeds or has
  no older frame to leave behind (`Binlog.SingleBinlog.NotifyIndexFlush`).  A legal run with
  two failing writes breaks it (`Binlog.FlushFailedCommit`), and a commit that is reported as
  successful afterwards is never replayed (`Binlog.StaleBytes`).
- Replay recomputes the id ranges of the log files as the writer had them if and only if, in
  every tracked file, the first and the last commit each table tried since the file was opened
  and since the last restart succeeded (`BinlogAttempts.RangesRecomputedIff`).  A failed commit
  uses up a number that no frame carries (`BinlogRanges.FailedCommitLeavesGap`); between two
  successful ones it does no harm.
- The check for descending transaction ids in replay never fires
  (`BinlogReplay.FrameKeepsHealthy`).
- The comment on GROUP_CONCAT (src/aggregate.cpp, lines 650-689) shows blocks with ascending
  tags; the code keeps them descending, and the model follows the code.

## Model

| member | source | states |
|---|---|---|
| Wakers.AtMostOneSuccess | src/coroutine.cpp:488-505 | over any run of issuing and waking, a waker succeeds at most once, however many copies are used |
| Wakers.OnlyNewest | src/coroutine.cpp:488-505 | of all wakers ever issued for a worker only the newest can succeed |
| Wakers.StaleForever | src/coroutine.cpp:488-505 | a stale waker never becomes usable again |
| Wakers.UsableIff | src/coroutine.cpp:488-505 | a usable waker is still usable after a run exactly when it was not used and no later one was issued for its worker |
| Wakers.NotifyOneSkipsStale | src/coroutine.cpp:1041-1050 | NotifyOne drops the timed-out wakers in front, resumes the first live waiter and keeps the queue behind it; with no live waiter it empties the queue and resumes nobody |
| Wakers.NotifyAllResumesAll | src/coroutine.cpp:1052-1059 | NotifyAll empties a queue of live waiters, resumes each of them once in queue order and touches no other worker |
| Wakers.NotifyAllSkipsStale | src/coroutine.cpp:1052-1059 | with timed-out wakers in the queue exactly the workers with a live one are resumed, in queue order, and only their counters move |
| Wakers.Pool.CreateWaker | src/coroutine.cpp:501-505 | the new waker is the live one of its worker; nobody is resumed |
| Wakers.Pool.Wake | src/coroutine.cpp:488-499 | succeeds exactly for a live waker, and then restarts its worker once and makes the waker stale |
| Wakers.WaitQueue.Enqueue | src/coroutine.cpp:962-969 | the queueing half of SuspendAndWait: a fresh live waker at the end of the queue |
| Wakers.WaitQueue.NotifyOne | src/coroutine.cpp:1041-1050 | the loop does what the queue-level description says, on queue, counters and restarts |
| Wakers.WaitQueue.NotifyAll | src/coroutine.cpp:1052-1059 | likewise for NotifyAll |
| ReadWriteLock.LockSafety | src/coroutine.cpp:1115-1156 | in every state of every run the word is 1 exactly when one writer and no reader holds the lock, 2n exactly when n readers and no writer do, and a free lock with waiters has a resumed writer that will retry |
| ReadWriteLock.StepKeepsInv | src/coroutine.cpp:1115-1156 | every call, retry, unlock and foreign use of wakers keeps the lock's invariant |
| ReadWriteLock.ReadAdmission | src/coroutine.cpp:1115-1127 | a reader is let in exactly if no writer holds or waits, next to any number of readers, and is queued behind the other readers otherwise |
| ReadWriteLock.WriteAdmission | src/coroutine.cpp:1129-1140 | a writer is let in exactly if nobody holds the lock, and is queued behind the other writers otherwise |
| ReadWriteLock.UnlockTakesOne | src/coroutine.cpp:1142-1156 | a read unlock takes one hold away, and while holds are left resumes nobody |
| ReadWriteLock.WriterLeaves | src/coroutine.cpp:1142-1156 | a write unlock takes the only hold away |
| ReadWriteLock.AlwaysOpen | src/coroutine.cpp:1115-1156 | no call, retry or unlock of a worker in its turn is excluded |
| ReadWriteLock.ReadersShare | src/coroutine.cpp:1115-1127 | without a writer any number of readers hold the lock together |
| ReadWriteLock.ReleaseShape | src/coroutine.cpp:1142-1156 | a releasing Unlock resumes exactly the oldest waiting writer, or without writers exactly all waiting readers |
| ReadWriteLock.DrainStep | src/coroutine.cpp:1115-1156 | every retry and every unlock pays off owed work or parks one resumed worker |
| ReadWriteLock.DrainIsBounded | src/coroutine.cpp:1115-1156 | with no new calls, every schedule of retries and unlocks is finite, with an explicit bound |
| ReadWriteLock.DrainedMeansServed | src/coroutine.cpp:1115-1156 | a state in which nothing can retry or unlock has no holder and no waiter left |
| ReadWriteLock.RWLock.constructor | src/coroutine.cpp:1115-1156 | a new lock is free and its queues are empty |
| ReadWriteLock.RWLock.ReadLockPass | src/coroutine.cpp:1115-1127 | one pass of ReadLock: granted or queued exactly as the step says, queues and counters included |
| ReadWriteLock.RWLock.WriteLockPass | src/coroutine.cpp:1129-1140 | likewise for WriteLock |
| ReadWriteLock.RWLock.Unlock | src/coroutine.cpp:1142-1156 | likewise for Unlock, including the workers it restarts and their order |
| CoroMutex.MutexSafety | src/coroutine.cpp:1068-1092 | in every run at most one worker is inside and the owner field names it; an unowned mutex with waiters has a woken worker about to retry; no queued waker is stale |
| CoroMutex.StepKeepsInv | src/coroutine.cpp:1068-1092 | every step keeps the mutex invariant |
| CoroMutex.Admission | src/coroutine.cpp:1068-1082 | a worker gets in exactly if nobody is inside, and goes to the end of the queue otherwise |
| CoroMutex.AlwaysOpen | src/coroutine.cpp:1068-1092 | no call, retry or unlock of a worker in its turn is excluded |
| CoroMutex.UnlockShape | src/coroutine.cpp:1084-1092 | Unlock clears the owner and resumes exactly the oldest waiter |
| CoroMutex.DrainStep | src/coroutine.cpp:1068-1092 | every retry and unlock brings the mutex closer to being drained |
| CoroMutex.DrainIsBounded | src/coroutine.cpp:1068-1092 | with no new calls every schedule of retries and unlocks is finite, with an explicit bound |
| CoroMutex.DrainedMeansServed | src/coroutine.cpp:1068-1092 | when nothing can retry or unlock, nobody waits and nobody is inside |
| CoroMutex.CoroMutex.TryLockPass | src/coroutine.cpp:1068-1082 | one pass of Lock: owner set, or a live waker queued |
| CoroMutex.CoroMutex.Release | src/coroutine.cpp:1084-1092 | Unlock on the fields, with the worker it restarts |
| TableLock.TableLockSafety | src/coroutine.cpp:1169-1249 | in every state of balanced use a granted reader means no write in flight, write-allow-readers excludes readers, DML writers and freeze transitions, a queued reader means writes in flight, and no reader suspends twice |
| TableLock.StepKeepsInv | src/coroutine.cpp:1169-1249 | every operation of the four modes keeps the table lock's invariant |
| TableLock.WriteAdmission | src/coroutine.cpp:1182-1198 | a write starts exactly without any reader, a DML write also only without write-allow-readers; a refusal changes nothing |
| TableLock.ExclusiveAdmission | src/coroutine.cpp:1200-1216 | write-allow-readers starts exactly in a table without readers, writes and the two exclusive modes, a freeze transition exactly without those two modes |
| TableLock.ReadAdmission | src/coroutine.cpp:1169-1180 | a reader is refused exactly during write-allow-readers, granted exactly without writes in flight, and queued at the end otherwise |
| TableLock.ReadReturns | src/coroutine.cpp:1169-1249 | a resumed reader is granted, and an unlock gives one grant back |
| TableLock.AlwaysOpen | src/coroutine.cpp:1169-1249 | everything may be tried at any time and whatever was started may be finished |
| TableLock.WritesCannotRise | src/coroutine.cpp:1169-1249 | once a read is registered no step raises the number of writes |
| TableLock.LastWriteResumes | src/coroutine.cpp:1218-1224 | the last write in flight resumes exactly the queued readers |
| TableLock.EndWriteShape | src/coroutine.cpp:1218-1224 | what the end of any write changes, and what it leaves alone |
| TableLock.StrayUnlockIff | src/searchd.cpp:12748 | an UnlockRead without a grant can lead to a granted reader next to a write exactly when a read was registered |
| TableLock.DeficitCanViolate | src/coroutine.cpp:1240-1249 | with more readers than the counter knows of, balanced calls alone lead to that violation |
| TableLock.SafeStaysSafe | src/coroutine.cpp:1169-1249 | from a state that meets the invariant, balanced calls never do |
| TableLock.ReadTableLock.RegisterRead | src/coroutine.cpp:1169-1180 | WaitRead up to its first suspension: refused, granted or queued, on the fields |
| TableLock.ReadTableLock.TryWrite | src/coroutine.cpp:1182-1189 | granted exactly when the mode table allows it; one more write in flight and nothing else |
| TableLock.ReadTableLock.TryDmlWrite | src/coroutine.cpp:1191-1198 | likewise for DML writes |
| TableLock.ReadTableLock.TryWriteAllowReaders | src/coroutine.cpp:1200-1207 | likewise for write-allow-readers |
| TableLock.ReadTableLock.TryFreezeTransition | src/coroutine.cpp:1209-1216 | likewise for freeze transitions |
| TableLock.ReadTableLock.FinishWrite | src/coroutine.cpp:1218-1224 | one write less; the last one restarts all queued readers |
| TableLock.ReadTableLock.UnlockRead | src/coroutine.cpp:1240-1249 | false exactly when no read is registered, which then changes nothing |
| Scheduler.ScheduledExactlyOnce | src/coroutine.cpp:291-318 | if the right to resume is given away only inside the yield handler: the worker is queued or executing at most once, exactly while Running is set, no Restart is lost, and a live worker can always go on |
| Scheduler.StepKeepsCustody | src/coroutine.cpp:143-164 | every atomic step keeps exactly one party responsible for the worker |
| Scheduler.ResumedAsAsked | src/coroutine.cpp:291-318 | over every disciplined run the worker is resumed once for its start, once per Restart and once per Reschedule, up to what is still due, and every yield gives away exactly one right |
| Scheduler.AlwaysOpen | src/coroutine.cpp:291-318 | running code may yield, reschedule or finish, a queued worker may be taken, and whoever has the right may restart it |
| Scheduler.Sole | src/coroutine.cpp:291-305 | a thread that carries the worker is alone with it: no queue entry, no right given away |
| Scheduler.EarlyPublicationCanStrand | src/coroutine.cpp:379-413 | giving the right away before yielding has a run in which the Restart is ignored and nobody can resume the worker |
| TimedWait.RunKeepsProtocol | src/coroutine.cpp:974-1033 | the protocol invariant of a timed wait over every interleaving with notifiers and timer |
| TimedWait.ReturnedIsDisarmed | src/coroutine.cpp:1008-1033 | a wait that returned has its timer out of the queue and cancelled, its waker stale, and is never resumed through it again |
| TimedWait.RunKeepsExpiry | src/coroutine.cpp:1008-1033 | a timer that fired is still seen as expired by the waiter, as long as no stamp falls back behind the deadline |
| TimedWait.SignalledInTime | src/coroutine.cpp:1008-1033 | a wait that ends before its deadline reports a signal, and a notifier resumed it |
| TimedWait.TimedOutTooLate | src/coroutine.cpp:1008-1033 | a wait that starts behind its deadline reports a timeout and takes its waker out |
| TimedWait.Wakes | src/coroutine.cpp:974-1007 | a notification, and a due timer, resume a suspended waiter |
| TimedWait.Waits | src/coroutine.cpp:974-1007 | the timer gets armed, the waiter can be notified from then on, and the timer can be taken when it is due |
| TimedWait.GoesOn | src/coroutine.cpp:1008-1033 | a resumed waiter is never stuck |
| TimedWait.ReachedEarly | src/mini_timer.h:22-26 | the deadline counts as reached a millisecond early and not more |
| TimedWait.ReturnedIsUnlinked | src/coroutine.cpp:1008-1033 | unless a stored stamp falls back behind the deadline, a wait returns with its waker unlinked and reports a signal only if a notifier resumed it |
| TimedWait.StaysLinkedIff | src/coroutine.cpp:1008-1033 | some run with a given stamp history returns with the waker still queued if and only if that history has a stamp past the deadline followed by one before it |
| TimedWait.GrowingStampsNeverFallBack | src/mini_timer.h:22-26 | stamps stored in order meet the harmless condition |
| TimedWait.ReorderedStampsLeaveItLinked | src/mini_timer.h:22-26 | two stamps stored in the wrong order do not |
| Heartbeat.HandoffSafety | src/api_reply_stream.cpp:55-119 | in every interleaving the output is whole heartbeat frames followed by at most one terminal reply, the handoff returns true exactly when no flush failed before it, and the reply is sent only then |
| Heartbeat.RoundWritesFrame | src/api_reply_stream.cpp:93-119 | a round that finds no stop flag writes exactly one whole frame and goes back to the loop |
| Heartbeat.FailedRoundEnds | src/api_reply_stream.cpp:93-119 | a round whose flush fails writes its frame, records the failure, sets the stop flag and ends |
| Heartbeat.HandoffReturns | src/api_reply_stream.cpp:73-91 | a caller that finds the lock free gets through the handoff and learns whether a flush failed |
| Heartbeat.PartiesStart | src/api_reply_stream.cpp:55-91 | the timer starts the coroutine unless it is to stop, and a clean handoff may reply |
| Heartbeat.NoHeartbeatAfterHandoff | src/api_reply_stream.cpp:73-119 | after StopAndHandoff returned only the terminal reply is written, however the run goes on |
| Heartbeat.QuietAfterHandoff | src/api_reply_stream.cpp:73-91 | after the handoff its verdict and the failure count do not change any more |
| Heartbeat.StepKeepsInv | src/api_reply_stream.cpp:55-119 | every step of timer, coroutine and caller keeps lock, flags, failures and output in agreement |
| Bytes.FromLEofLE | src/binlog.cpp:355-359 | a fixed-width integer reads back as written if it fits its width |
| Bytes.LEAt | src/binlog.cpp:355-359 | byte i of a fixed-width integer is its digit i to the base 256 |
| Bytes.ZipAt | src/std/zip_impl.h:33-43 | the bytes of a variable-length integer are its digits to the base 128, highest first without leading zeros, all but the last with the continuation bit |
| Bytes.UnzipZip | src/std/zip_impl.h:33-43 | a variable-length integer reads back as written, whatever follows it |
| Bytes.UnzipHigh | src/std/zip_impl.h:100-125 | the reader accumulates exactly the high septets the writer put in front |
| BinlogFormat.ParseEncoded | src/binlog.cpp:1658-1804 | a written frame parses back to itself and leaves exactly the bytes behind it |
| BinlogFormat.AcceptedIsChecked | src/binlog.cpp:1658-1804 | only a frame whose stored checksum is that of exactly its body is accepted |
| BinlogFormat.DamagedShape | src/binlog.cpp:1955-1964 | a damaged transaction applies nothing, rejects the file, and changes its entry exactly if the table would have skipped it |
| BinlogFormat.HeaderIsNeeded | src/binlog.cpp:1672-1698 | a file without the header of this version is rejected unread, an empty one is accepted |
| BinlogFormat.ReplayEncoded | src/binlog.cpp:1658-1804 | bytes written as frames replay as those frames; what follows them is read only if none was rejected |
| BinlogFormat.ReplayFileBytes | src/binlog.cpp:1658-1804 | a written log file replays as its frames |
| BinlogFormat.TornTail | src/binlog.cpp:1658-1804 | a tail that does not parse, also one with a damaged payload or checksum, rejects the file and applies nothing: the tables end as after the frames in front of it |
| BinlogFormat.ReplayBinlog | src/binlog.cpp:1658-1804 | the reader loop computes the replay of the file's bytes, rejections and the entry of a damaged skipped transaction included |
| BinlogReplay.ReplayIsExact | src/binlog.cpp:1940-2012 | a table gains exactly those of its logged transactions, up to the first rejected frame, that are above everything applied before, each once and in order |
| BinlogReplay.TxnIsExact | src/binlog.cpp:1940-2012 | the same for one transaction frame: applied, skipped, or somebody else's |
| BinlogReplay.CaughtUp | src/binlog.cpp:1940-2012 | onto tables that already have everything a replay applies nothing and accepts the same frames |
| BinlogReplay.FrameKeepsHealthy | src/binlog.cpp:2019-2033 | per-table ranges never run ahead of the table, so the descending-id rejection cannot fire |
| BinlogReplay.TidsOnlyGrow | src/binlog.cpp:1940-2012 | no replay lowers a table's transaction id or changes which tables exist |
| BinlogReplay.AscendingIsIncreasing | src/binlog.cpp:1940-2012 | what is applied has strictly increasing ids above the table's own |
| BinlogRecovery.ReplayOrderIsMetaOrder | src/binlog.cpp:1461-1519 | loading the meta list back to front and consuming it from its end replays files in meta order |
| BinlogRecovery.FilesCaughtUp | src/binlog.cpp:1586-1655 | tables that have reached what a list of files leads to gain nothing from any of the files |
| BinlogRecovery.ReplayFilesTwice | src/binlog.cpp:1586-1655 | replaying the whole list of files again changes no table |
| BinlogRecovery.AdoptShape | src/binlog.cpp:1611-1617 | what replay keeps starts with the first file that has a table |
| BinlogRecovery.ReopenShape | src/binlog.cpp:762-798 | writing goes on in an empty file, in the last one again exactly if it has no frame, and every file with frames stays |
| BinlogRecovery.Concat | src/binlog.cpp:850-885 | well-formedness, table ids and logged transactions of frames written in two parts |
| BinlogSafety.CommitFrames | src/binlog.cpp:616-646 | a commit's frames keep the file well formed, its ids resolve to the names the writer used, and it logs exactly its transaction for exactly its table |
| BinlogSafety.CommitLogs | src/binlog.cpp:616-646 | over commit, failure and rotation: the logged transactions grow by the committed one, and by nothing on failure |
| BinlogSafety.CommitKeepsInv | src/binlog.cpp:616-646 | a commit, successful or not, rotating or not, keeps the invariant of log and tables |
| BinlogSafety.UnusedIsFlushed | src/binlog.cpp:649-725 | a file that is dropped holds only transactions the tables have saved |
| BinlogSafety.KeepRetains | src/binlog.cpp:649-725 | dropping files loses no transaction above its table's saved id |
| BinlogSafety.NotifyKeepsInv | src/binlog.cpp:649-725 | a flush notification keeps the invariant, also when it drops the current file |
| BinlogSafety.SaveKeepsInv | src/binlog.cpp:649-725 | so does saving a table's own files |
| BinlogRetention.MarkShape | src/binlog.cpp:664-691 | a notification raises the flushed id of its own table only, and a file is not needed exactly if every entry is flushed up to its last id |
| BinlogRetention.KeepIff | src/binlog.cpp:664-706 | kept are exactly the files with an entry that is not flushed |
| BinlogRetention.NotifyIff | src/binlog.cpp:649-725 | after a notification every closed file is needed, and the current one is replaced exactly if it is not |
| BinlogRetention.RunBelow | src/binlog.cpp:850-885 | over every run no entry's last id is ahead of its table |
| BinlogRetention.NeededAfterRestart | src/binlog.cpp:1940-2012 | after a restart a file is needed exactly if some table's last id in it is not in the table's own files |
| BinlogRetention.FlushedLogIsEmpty | src/binlog.cpp:649-725 | after any run, if every table has saved its current id and is reported as flushed, in any order, no file and no frame is left |
| BinlogCrash.CommittedAfter | src/binlog.cpp:616-646 | a commit takes the table's next id and is kept exactly if it succeeded; no other table changes |
| BinlogCrash.SavedAfter | src/binlog.cpp:649-725 | a save moves the saved id of its table and nothing else |
| BinlogCrash.RecoveredAfter | src/binlog.cpp:1586-1655 | a crash takes a table back to its last saved or logged id and changes nothing else of it |
| BinlogCrash.AlwaysOpen | src/binlog.cpp:616-725 | commits with any outcome, saves, notifications and crashes are possible at any time |
| BinlogCrash.RecoveryIsExact | src/binlog.cpp:1586-1655 | replaying the tracked files onto the saved tables gives every table exactly its committed transactions |
| BinlogCrash.RecoverKeepsInv | src/binlog.cpp:728-798 | recovery re-establishes the invariant, so crashes can repeat |
| BinlogCrash.StepKeepsInv | src/binlog.cpp:616-725 | every action keeps the invariant |
| BinlogCrash.CommittedIsRetained | src/binlog.cpp:649-725 | after any run of commits (also failed ones), rotations, saves, notifications and crashes, the transactions above a table's saved id are in the tracked files if and only if they were committed |
| BinlogCrash.CrashSafety | src/binlog.cpp:1586-1655 | after any such run, recovery in meta order yields exactly the committed transactions of every table |
| BinlogCrash.ReplayedEntry | src/binlog.cpp:1940-2012 | the entry replay recomputes for a table covers its transactions exactly, and its flushed id is the last of them that the table's own files have, or what the table had reached before |
| BinlogRanges.CommitKeepsExact | src/binlog.cpp:850-885 | a successful commit, with or without rotation, keeps the id ranges of all files exact |
| BinlogRanges.NotifyKeepsExact | src/binlog.cpp:649-725 | so does a flush notification |
| BinlogRanges.RecoverKeepsExact | src/binlog.cpp:1586-1655 | and a crash with its recovery |
| BinlogRanges.FilesRecomputed | src/binlog.cpp:1940-2012 | replay leaves every file with the tables and ranges of its frames, and so changes no range exactly if the writer's were those already |
| BinlogRanges.FailedCommitLeavesGap | src/binlog.cpp:616-646 | after a failed first commit and a successful one the two ranges differ |
| BinlogAttempts.SettledIffClean | src/binlog.cpp:850-885 | a file's entries are those of its frames if and only if the first and the last attempt of each of its tables succeeded |
| BinlogAttempts.CommitKeeps | src/binlog.cpp:616-646 | a commit, failed or not, rotating or not, leaves entries that reach from the first to the last id tried, and frames of exactly the successful attempts |
| BinlogAttempts.NotifyKeeps | src/binlog.cpp:649-725 | a flush notification keeps that, also when it starts a new file |
| BinlogAttempts.RecoverKeeps | src/binlog.cpp:1586-1655 | a restart settles every file and forgets the attempts |
| BinlogAttempts.RangesRecomputedIff | src/binlog.cpp:1940-2012 | after any run, failed commits included, replay recomputes the writer's ranges if and only if the first and last attempts of every table on every tracked file succeeded |
| BinlogAttempts.RangesRecomputed | src/binlog.cpp:1940-2012 | so after any run without a failed commit, where every range is exact |
| Binlog.BinlogWriter.StartTransaction | src/binlog.cpp:489-493 | the marker goes into the buffer and the transaction's start is remembered |
| Binlog.BinlogWriter.EndTransaction | src/binlog.cpp:496-505 | the checksum of everything since the marker is appended |
| Binlog.BinlogWriter.PutIndex | src/binlog.cpp:876-881 | appends exactly the encoded frame that introduces a table |
| Binlog.BinlogWriter.PutTxn | src/binlog.cpp:624-635 | appends exactly the encoded transaction frame |
| Binlog.BinlogWriter.PatchSize | src/binlog.cpp:341-365 | the size field, patched in afterwards, is the length of the payload |
| Binlog.BinlogWriter.Write | src/binlog.cpp:371-397 | success moves the whole buffer to the file; failure after any number of bytes leaves the file as it was and takes the last transaction out of the buffer |
| Binlog.BinlogWriter.CloseAndOpen | src/binlog.cpp:451-465 | the new file's buffer is exactly its header if and only if the closing write left nothing behind |
| Binlog.SingleBinlog.constructor | src/binlog.cpp:762-798 | a new log group with one empty file |
| Binlog.SingleBinlog.GetWriteIndexID | src/binlog.cpp:850-885 | the table's id in the current file; ranges and introducing frame as the frame level says |
| Binlog.SingleBinlog.PutCommit | src/binlog.cpp:616-646 | file plus buffer are the header and whole frames, and cutting the buffer back removes exactly the new transaction |
| Binlog.SingleBinlog.BinlogCommit | src/binlog.cpp:616-646 | the bytes carry out the frame-level commit, also behind stale bytes; a failed one is in neither file nor buffer; the file is rotated exactly when it is past the restart size |
| Binlog.SingleBinlog.CheckDoRestart | src/binlog.cpp:914-938 | rotation happens exactly past the restart size and moves the file's bytes to the closed files |
| Binlog.SingleBinlog.OpenNewLog | src/binlog.cpp:762-798 | the next file number, an empty descriptor, and a buffer that holds what the closing write left and the header; just the header if and only if it left nothing |
| Binlog.SingleBinlog.MarkInfos | src/binlog.cpp:649-725 | raises the flushed id of exactly that table and tells whether some entry is not flushed |
| Binlog.SingleBinlog.DropFlushed | src/binlog.cpp:649-725 | the loop keeps exactly the files still needed, removes exactly the others from disk, and tells whether the current one was among them |
| Binlog.SingleBinlog.NotifyIndexFlush | src/binlog.cpp:649-725 | descriptors, disk and writer carry out the frame-level flush notification, whether the closing write succeeds or fails; what that leaves in the buffer is stale in the new file, and the log stays valid if and only if it leaves nothing |
| Binlog.FlushFailedCommit | src/binlog.cpp:649-725 | a legal run after which they do not: stale frames in front of the header |
| Binlog.StaleBytes | src/binlog.cpp:616-646 | the next commit of that run returns success and is applied by no replay of the file |
| Binlog.SingleBinlog.Recover | src/binlog.cpp:1586-1655 | reading the disk images back is the frame-level replay, tables and recomputed entries |
| Binlog.RecoverAfterRun | src/binlog.cpp:1586-1655 | after any run the bytes on disk give every table exactly its committed transactions |
| Binlog.SingleBinlog.AdoptFiles | src/binlog.cpp:1611-1617 | leading files without tables are removed, and the bytes of the others stay |
| Binlog.SingleBinlog.NextFile | src/binlog.cpp:762-798 | writing goes on in the last file if it has no frame, else under the next number |
| Binlog.SingleBinlog.Reopened | src/binlog.cpp:1586-1655 | the log group after replay holds the adopted files and an empty one, and meets its invariant |
| Binlog.Restart | src/binlog.cpp:1586-1655 | a crash and the next start on the bytes lead to the log of the frame-level recovery, so runs with crashes are runs of these objects |
| GroupConcat.MergeMeaning | src/aggregate.cpp:896-944 | merging ordered blocks gives an ordered block with, for every tag, the destination's text and then the source's |
| GroupConcat.InsertMeaning | src/aggregate.cpp:947-1000 | the same for a plain text among tagged ones, on either side |
| GroupConcat.UpdateKeeps | src/aggregate.cpp:835-864 | all cases of Update agree with that one description |
| GroupConcat.UpdateIff | src/aggregate.cpp:835-864 | the exact condition under which an update keeps tags ordered and texts under their own tags |
| GroupConcat.EvalMeaning | src/aggregate.cpp:835-864 | in any tree of such merges every tag's text is the join of that chunk's texts in merge order |
| GroupConcat.FinalAnswer | src/aggregate.cpp:799-833 | the final string joins the chunks' texts, every contributing chunk once, highest tag first |
| GroupConcat.SameAnswer | src/aggregate.cpp:799-864 | two merge trees in which every chunk contributes the same texts in the same order give the same final string, however the chunks were spread over sorters |
| GroupConcat.UpdateParts | src/aggregate.cpp:835-1000 | every update, whatever the tags, keeps all texts of both sides and adds none |
| GroupConcat.NothingLost | src/aggregate.cpp:799-1000 | for every tree of merges the final string joins all non-empty texts, each exactly once, in some order; so its length is fixed |
| GroupConcat.EmptyIsNeutral | src/aggregate.cpp:835-848 | a side without a value leaves the other side's string alone |
| GroupConcat.Unique | src/aggregate.cpp:799-833 | an ordered block is determined by its texts per tag |
| GroupConcat.OrderMatters | src/aggregate.cpp:872-884 | without the condition two merge orders of the same texts give different strings |
| GroupConcatBytes.PackInjective | src/aggregate.cpp:695-779 | two blocks with the same bytes and count are equal |
| GroupConcatBytes.ReadEntry | src/aggregate.cpp:738-779 | reading gives the first packed entry and leaves the packed rest |
| GroupConcatBytes.AppendEntry | src/aggregate.cpp:695-722 | appending tag, length and text packs one more entry |
| GroupConcatBytes.WriteCount | src/aggregate.cpp:886-893 | patches the count and nothing else |
| GroupConcatBytes.AggrConcat.AppendStringToString | src/aggregate.cpp:872-884 | produces the packed result of merging two plain texts |
| GroupConcatBytes.AggrConcat.AppendBlobToString | src/aggregate.cpp:947-1000 | produces the packed result of inserting a text into a block, stored count included |
| GroupConcatBytes.AggrConcat.AppendBlobToBlob | src/aggregate.cpp:896-944 | produces the packed merge of two blocks, stored count included |
| GroupConcatBytes.AggrConcat.Finalize | src/aggregate.cpp:799-833 | produces the final text from the packed value |
| GroupConcatBytes.Update | src/aggregate.cpp:835-864 | changes the destination's packed value to that of the merge, and nothing else |
| BlobRow.CalcFlags | src/attribute.cpp:51-75 | the chosen width can hold every cumulative length of a row up to 2^31-1 bytes |
| BlobRow.NarrowestFlags | src/attribute.cpp:51-75 | the chosen width is the narrowest in which the total length is not the all-ones value |
| BlobRow.LenReads | src/attribute.cpp:702-739 | a length field reads as the number of value bytes up to and including its value |
| BlobRow.ReadsAttr | src/attribute.cpp:590-644 | reading attribute i returns its bytes, at all three widths and whatever follows the row |
| BlobRow.TotalIsLength | src/attribute.cpp:734-755 | the computed total length is the number of bytes written |
| BlobRow.RowDetermines | src/attribute.cpp:590-644 | a row determines its attribute list |
| BlobRow.BlobRowBuilder.FlushFile | src/attribute.cpp:298-336 | the file builder appends exactly the row and returns its offset and length |
| BlobRow.BlobRowBuilder.FlushMem | src/attribute.cpp:423-467 | the memory builder appends the same bytes |
| BlobRow.BlobRowBuilder.CopyRow | src/attribute.cpp:758-767 | a copied row decodes to the same list and rows already in the pool stay in place |
| BlobAlter.AddNoData | src/attribute.cpp:770-784 | the result is the row of the old list with an empty value behind it |
| BlobAlter.AddWithData | src/attribute.cpp:787-852 | the result is the row of the old list with the data behind it, also when the length fields get wider |
| BlobAlter.AddFirst | src/attribute.cpp:855-880 | the result is the row of just the data |
| BlobAlter.Remove | src/attribute.cpp:898-979 | the result decodes to the list without attribute k and fits the buffer sized with the old width; removing the only attribute leaves no row |
| BlobAlter.AddKeepsOthers | src/attribute.cpp:883-895 | after adding, every old attribute reads as before and the new one as given |
| BlobAlter.RemoveKeepsOthers | src/attribute.cpp:898-979 | after removing, every other attribute reads as before, under its new number |
| BlobAlter.AddThenRemove | src/attribute.cpp:787-979 | adding an attribute and removing it again: every attribute reads as at the start |
| BlobAlter.AddNoDataThenRemove | src/attribute.cpp:770-979 | the same for an attribute added without a value |
| Compaction.OneRowPerDocument | src/accumulator.cpp:1047-1059 | of every document id exactly one row survives, the last one in replace mode and the first one in insert mode |
| Compaction.WordsFollowRows | src/accumulator.cpp:1066-1085 | a survivor keeps the words and positions of its hits, in order |
| Compaction.IdsAfter | src/accumulator.cpp:1047-1064 | the ids left are distinct and no id is lost |
| Compaction.CompactAt | src/accumulator.cpp:1061-1064 | a survivor ends at its rank among the survivors |
| Compaction.HitsFollowRows | src/accumulator.cpp:1066-1085 | a survivor keeps all its hits under its new row number |
| Compaction.CountsStayExact | src/accumulator.cpp:1066-1119 | per-row hit counts that were right stay right |
| Columnar.AddDocReads | src/columnarrt.cpp:250-255 | a row added to a column reads as stored and earlier rows read as before |
| Columnar.StoredMeaning | src/columnarrt.cpp:127 | an integer that fits the column's bits is stored as it is, any other one modulo them |
| Columnar.StoredAgain | src/columnarrt.cpp:127 | a value read from a column is stored unchanged, the bit mask included |
| Columnar.ColumnarBuilder.RemoveDuplicates | src/columnarrt.cpp:627-653 | the rebuilt columns hold exactly the surviving rows' values |
| Dedup.SortDocs | src/accumulator.cpp:1029-1032 | every row is listed once, by id and then by row |
| Dedup.NextTells | src/accumulator.cpp:1047-1052 | in replace mode a row survives exactly when its successor in the sorted list has another id |
| Dedup.PreviousTells | src/accumulator.cpp:1053-1059 | in insert mode, exactly when its predecessor has |
| Dedup.AnyRepeated | src/accumulator.cpp:1034-1040 | the early exit is taken only when every row survives |
| Dedup.BuildRowMap | src/accumulator.cpp:1042-1064 | the row map gives every survivor its rank and marks all others |
| Dedup.CopyStep | src/accumulator.cpp:1089-1112 | copying a survivor down keeps the survivors so far in front and the rest untouched |
| Dedup.SwapStep | src/docstore.cpp:1396-1401 | so does swapping rows |
| Dedup.CopyFlatIsUpdate | src/accumulator.cpp:1096-1099 | the memcpy within the flat vector replaces exactly one row |
| Accumulator.DocIdReads | src/attribute.h:183-189 | a row that stores a signed 64-bit id has that id |
| Accumulator.DocIdInjective | src/attribute.h:183-189 | rows have the same id exactly if they agree in both words |
| Accumulator.ColumnIdReads | src/accumulator.cpp:1000-1027 | an id column gives back the signed 64-bit id |
| Accumulator.ColumnIdInjective | src/accumulator.cpp:1000-1027 | column values have the same id exactly if they are equal |
| Accumulator.KeysStay | src/accumulator.cpp:1000-1064 | every pair of id words still has a row afterwards, and exactly one |
| Accumulator.KeepersStay | src/accumulator.cpp:1047-1059 | the last row of every pair of id words is kept, in insert mode the first |
| Accumulator.RtAccum.ReadIds | src/accumulator.cpp:1000-1027 | document ids from the rows or from the id column |
| Accumulator.RtAccum.CompactHits | src/accumulator.cpp:1066-1085 | hits become exactly the survivors' hits, renumbered and in order |
| Accumulator.SwapAll | src/knnmisc.cpp:86-94 | swapping in every attribute carries the compaction one row further |
| Accumulator.RtAccum.CompactRow | src/accumulator.cpp:1089-1112 | one row of the compaction loop, all storages at once |
| Accumulator.RtAccum.CompactRows | src/accumulator.cpp:1089-1121 | rows, counts, stored documents and embeddings all end as the same survivors |
| Accumulator.RtAccum.IdsSurvive | src/accumulator.cpp:1000-1064 | the ids read after the compaction are the survivors' ids |
| Accumulator.RtAccum.CleanupDuplicates | src/accumulator.cpp:986-1121 | every storage holds exactly the surviving rows in their old order, hits included, for both modes and both places of the id; afterwards every id, and every pair of id words, occurs once, none is lost, the last row (in insert mode the first) is the one kept, and exact hit counts stay exact |
| RowSplit.InputStarts | src/attrindex_merge.cpp:500-506 | prefix sums of the alive counts |
| RowSplit.StartsAreOffsets | src/attrindex_merge.cpp:500-506 | an input's alive rows start at its prefix sum |
| RowSplit.FindInput | src/attrindex_merge.cpp:402-403 | the upper bound finds the input that holds a rank, also next to inputs without alive rows |
| RowSplit.SkipAlive | src/attrindex_merge.cpp:424-431 | the scan position behind the rows of earlier workers |
| RowSplit.FindAlive | src/attrindex_merge.cpp:445-459 | the next alive row across inputs; the last input is never left while a row remains |
| RowSplit.RunWorker | src/attrindex_merge.cpp:391-479 | the worker visits exactly the alive rows of its ranks, in order, up to the point where it is told to stop |
| RowSplit.EachRankOnce | src/knnmisc.cpp:1527-1542 | for any number of workers every rank is in exactly one range |
| RowSplit.RangesBalanced | src/knnmisc.cpp:1527-1542 | no range has more than its rounded-up share of the rows |
| RowSplit.AllStoredOnce | src/knnmisc.cpp:1512-1557 | the rows in rank order are exactly the alive rows of all inputs, none twice |
| RowSplit.StoreAll | src/knnmisc.cpp:1512-1557 | together the workers store every alive row of every input exactly once, at its mapped place, and nothing else |
| MatchHeap.NotLessTrans | src/columnarsort.cpp:28-50 | the comparators are transitive in "not less", for any number of ascending and descending keys |
| MatchHeap.OrderMeaning | src/columnarsort.cpp:28-50 | not being worse means to come first: the first differing key is larger for a descending and smaller for an ascending key, and with equal keys the row decides |
| MatchHeap.FirstKeyOrder | src/columnarsort.cpp:28-50 | the first key never gets better along the order |
| MatchHeap.Asymmetric | src/columnarsort.cpp:28-50 | and asymmetric |
| MatchHeap.SiftUpOk | src/sphinxsort.cpp:256-267 | sifting up restores the heap and keeps its matches |
| MatchHeap.SiftDownOk | src/sphinxsort.cpp:292-317 | sifting down restores the heap and keeps its matches |
| MatchHeap.RootIsWorst | src/sphinxsort.cpp:222-225 | nothing in the heap is worse than its root |
| ProxySorter.HoldsTopN | src/sphinxsort.cpp:228-269 | after any pushes the sorter holds the best N of everything received |
| ProxySorter.RootRises | src/sphinxsort.cpp:228-269 | the worst match of a full sorter never gets worse |
| ProxySorter.EarlyRejectIsExact | src/columnarsort.cpp:576-619 | dropping what is worse than the worst match at the start of the batch leaves heap and total exactly as pushing everything would |
| ProxySorter.EarlyRejectKeepsTop | src/columnarsort.cpp:576-619 | for any sorter: leaving out what is worse than a match that N received ones are at least as good as changes no choice of the best N |
| ProxySorter.HeapIsTop | src/sphinxsort.cpp:228-269 | the heap is such a choice, and its root such a match once it is full |
| ProxySorter.HandedOverMarks | src/columnarsort.cpp:576-619 | once enough matches went through, exactly those that rank behind the sorter's worst are marked |
| ProxySorter.FlushIsExact | src/columnarsort.cpp:528-542 | so does every flush, for any batch boundaries |
| ProxySorter.MatchQueue.PushOne | src/sphinxsort.cpp:228-269 | the push on the heap, loop by loop |
| ProxySorter.MatchQueue.PushBatch | src/sphinxsort.cpp:105-112 | a batch push; marked matches are only counted |
| ProxySorter.MatchQueue.Pop | src/sphinxsort.cpp:271-318 | removes the root |
| ProxySorter.MatchQueue.Flatten | src/sphinxsort.cpp:117-137 | returns the matches, best first |
| ProxySorter.ColumnarProxySorter.FetchValues | src/columnarsort.cpp:576-619 | fetches the keys of the batch and marks exactly the matches worse than the sorter's worst, once enough went through, and counts the others |
| ProxySorter.ColumnarProxySorter.PushCollectedToSorter | src/columnarsort.cpp:528-542 | the sorter is in the state plain pushing would give |
| ProxySorter.ColumnarProxySorter.PushMatch | src/columnarsort.cpp:473-489 | collects a match and flushes a full buffer |
| ProxySorter.ColumnarProxySorter.SetColumnar | src/columnarsort.cpp:450-461 | switching to another columnar storage changes no match received before, keys included |
| ProxySorter.ColumnarProxySorter.Result | src/columnarsort.cpp:500-505 | the result is the best N of everything pushed, in the order of the keys and their directions, and nothing dropped ranks before it |
| NextSet.NextIsSuccessor | src/columnargrouper.cpp:30-46 | a step goes to the next combination; exactly behind the last one it returns false and leaves all zeros |
| NextSet.RankInjective | src/columnargrouper.cpp:30-46 | combinations and their places correspond one to one |
| NextSet.RankBounds | src/columnargrouper.cpp:30-46 | places run up to the product of the non-empty dimensions |
| NextSet.Advance | src/columnargrouper.cpp:30-46 | the carry loop on the array does one step |
| NextSet.VisitAll | src/columnargrouper.cpp:293-305 | the walk visits every combination exactly once, in order, and ends at zero |
| Decimal.Cut | api/sphinxapi.php:177-179 | a decimal string can be cut at any digit into a number and a zero-padded rest |
| Pack64.SplitIsByTen13 | api/sphinxapi.php:177-179 | cutting the string in front of its last 13 characters is the division by 10^13, also with a sign |
| Pack64.FloorByTen7 | api/sphinxapi.php:310-313 | the floor of a rounded quotient below 2^53 is the integer quotient |
| Pack64.FloatWordsExact | api/sphinxapi.php:181-184 | the double arithmetic gives exactly the two 32-bit words; no intermediate reaches 2^53 |
| Pack64.PackUnsignedExact | api/sphinxapi.php:200-256 | packing a decimal string gives the words of the number, with and without 64-bit integers |
| Pack64.PackSignedExact | api/sphinxapi.php:151-197 | packing gives two's complement words, negative numbers and -2^63 included |
| Pack64.PackIntExact | api/sphinxapi.php:155-164 | sign extension of small integers agrees with shift and mask |
| Pack64.FloatDigitsExact | api/sphinxapi.php:307-315 | the double arithmetic gives exactly the quotient and remainder by 10^7 |
| Pack64.UnpackUnsignedExact | api/sphinxapi.php:259-322 | unpacking without 64-bit integers gives the number's decimal form |
| Pack64.DigitsX64Exact | api/sphinxapi.php:276-285 | the carry test that leaves out equality is enough |
| Pack64.UnpackUnsignedX64Exact | api/sphinxapi.php:263-289 | unpacking with 64-bit integers gives the decimal form, beyond the signed range as well |
| Pack64.UnpackSignedExact | api/sphinxapi.php:325-391 | unpacking gives the signed number's decimal form in all branches |
| Pack64.UnsignedRoundTrip | api/sphinxapi.php:200-322 | unpack after pack returns the number, for every unsigned 64-bit number and both platforms on either side |
| Pack64.SignedRoundTrip | api/sphinxapi.php:151-391 | the same for every signed 64-bit number |

## Left out

- Event_c, memory order, context switching and CPU timers of the coroutine library.
- Suspension inside Lock, ReadLock, WriteLock and WaitRead is a step of the transition systems; the class methods cover one pass of each loop.
- Scheduler, TimedWait and Heartbeat are transition systems only; their in-place fields are not classes.
- Wrap-around of the 64-bit epoch counter and of the table lock's counters.
- Binlog flush mode 0 with its write on buffer overflow, fsync, the ADD_CACHE record, DropTable, shutdown, several log groups at a time, and process death inside an operation.
- A restart that keeps no file opens the next one with the first commit; the model opens it during recovery.
- A transaction frame whose id, number or size is cut off by the end of the file is taken as rejected without a change to its table's entry.
- Binlog.SingleBinlog.BinlogCommit: rotating a file that has stale bytes is described by the frame-level log and the archived bytes; the byte-level invariant does not go on from there.
- Table contents are lists of applied transactions; what a transaction does inside a table is not modelled.
- GROUP_CONCAT values that start with a zero byte (the code takes them for blocks), tags equal to INT_MIN (the code's end marker), and results beyond 2^31-1 bytes.
- BlobRow.ReadsAttr: rows above 2^31-1 bytes, whose lengths the readers return as negative numbers, are excluded.
- Packing of JSON, MVA and float vectors into blob values; in-place updates of rows.
- BlobAlter.Remove: the unused bytes behind the new row are not described.
- Boolean columns, and saving and loading of columns.
- The index indirection of the match heap, float keys that are not numbers, string keys, MoveTo and the K-buffer sorter.
- A failing store of a single row in the parallel row split, beyond stopping the worker.
- The bcmath branches of the PHP client, the byte order of its packed words, and numbers passed as floats.
