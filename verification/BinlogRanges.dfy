module BinlogRanges {

  /** The TID ranges kept per table and file: what the writer records, what replay recomputes,
      and that both are exact over every run without a failed commit. */

  import opened Bytes
  import opened BinlogReplay
  import opened BinlogRecovery
  import opened BinlogSafety
  import opened BinlogCrash

  /** The writer's entries give exactly the range of what is on disk. */
  predicate RangesExact(f: LogFile)
  {
    forall i | 0 <= i < |f.infos| :: RangeExact(f.infos[i], Accepted(f.frames, [], f.infos[i].name))
  }

  predicate RangeExact(info: Info, txns: seq<Txn>)
  {
    txns != [] && info.minTid == txns[0].tid && info.maxTid == txns[|txns| - 1].tid
  }

  lemma RangeAfterCommit(l: Log, tables: map<Name, Table>, n: Name, txn: Txn, i: nat)
    requires CurrentOk(l.current, l.buf, tables) && n in tables && 0 < txn.tid == tables[n].tid + 1
    requires RangesExact(l.current) && forall x <- Accepted(l.current.frames, [], n) :: x.tid <= tables[n].tid
    requires i < |CommitLog(l, n, txn, true, false).current.infos|
    ensures var c' := CommitLog(l, n, txn, true, false).current;
            RangeExact(c'.infos[i], Accepted(c'.frames, [], c'.infos[i].name))
  {
    var c := l.current;
    CommitFrames(c.frames, l.buf, c.infos, n, txn);
    var k := Find(c.infos, n);
    if i == k && k == |c.infos| {
      NamesTouch(c.infos, n, txn.tid);
      NewNameHasNoTxns(c, l.buf, tables, n);
    } else if i != k {
      OtherInfosKeepName(c, l.buf, tables, n, i);
      assert Accepted(c.frames, [], c.infos[i].name) + [] == Accepted(c.frames, [], c.infos[i].name);
    } else {
      var txns := Accepted(c.frames, [], n);
      assert txns[|txns| - 1] in txns;
    }
  }

  predicate AllExact(files: seq<LogFile>)
  {
    forall f <- files :: RangesExact(f)
  }

  predicate NoFailedCommit(run: seq<Action>)
  {
    forall a <- run :: a.Commit? ==> a.ok
  }

  function Commits(run: seq<Action>): nat
  {
    if run == [] then 0 else (if run[0].Commit? then 1 else 0) + Commits(run[1..])
  }

  /** Nothing waits in the buffer, ranges are exact, and at most `k` commits were made. */
  ghost predicate Exact(db: DB, k: nat)
  {
    db.log.buf == [] && AllExact(Files(db.log)) && forall n <- db.tables :: db.tables[n].tid <= k
  }

  // ---------------------------------------------------------------------
  // Commit and flush notification
  // ---------------------------------------------------------------------

  lemma CommitKeepsCurrent(l: Log, tables: map<Name, Table>, n: Name, txn: Txn)
    requires CurrentOk(l.current, l.buf, tables) && n in tables && 0 < txn.tid == tables[n].tid + 1
    requires RangesExact(l.current) && forall x <- Accepted(l.current.frames, [], n) :: x.tid <= tables[n].tid
    ensures RangesExact(WriteOk(Append(l, n, txn)).current)
  {
    var c := WriteOk(Append(l, n, txn)).current;
    forall i | 0 <= i < |c.infos| ensures RangeExact(c.infos[i], Accepted(c.frames, [], c.infos[i].name))
    {
      RangeAfterCommit(l, tables, n, txn, i);
    }
  }

  lemma CurrentTids(db: DB, n: Name)
    requires Inv(db) && n in db.tables
    ensures db.tables[n].tid >= 0 && forall x <- Accepted(db.log.current.frames, [], n) :: x.tid <= db.tables[n].tid
  {
    assert TableOk(db.tables[n], Logged(Files(db.log), n));
    LoggedSplit(db.log, n);
    forall x | x in Accepted(db.log.current.frames, [], n) ensures x.tid <= db.tables[n].tid
    {
      assert x in Logged(Files(db.log), n);
    }
  }

  lemma CommitKeepsExact(db: DB, n: Name, payload: seq<byte>, rotate: bool, k: nat)
    requires Inv(db) && Exact(db, k) && n in db.tables
    ensures Exact(Committed(db, n, payload, true, rotate), k + 1)
  {
    var l, txn := db.log, Txn(db.tables[n].tid + 1, payload);
    assert l.current in Files(l);
    CurrentTids(db, n);
    CommitKeepsCurrent(l, db.tables, n, txn);
    AppendExact(l.closed, WriteOk(Append(l, n, txn)).current, l.nextExt);
  }

  lemma AppendExact(closed: seq<LogFile>, current: LogFile, ext: nat)
    requires (forall f <- closed :: RangesExact(f)) && RangesExact(current)
    ensures AllExact(closed + [current]) && AllExact((closed + [current]) + [NewFile(ext)])
  {
  }

  lemma MarkKeepsExact(f: LogFile, n: Name, tid: int)
    requires RangesExact(f)
    ensures RangesExact(Mark(f, n, tid))
  {
  }

  lemma {:induction false} KeepKeepsExact(files: seq<LogFile>, n: Name, tid: int)
    requires AllExact(files)
    ensures AllExact(Keep(files, n, tid))
  {
    if files != [] {
      MarkKeepsExact(files[0], n, tid);
      KeepKeepsExact(files[1..], n, tid);
    }
  }

  lemma NotifyKeepsExact(l: Log, n: Name, tid: int)
    requires l.buf == [] && AllExact(Files(l))
    ensures NotifyFlush(l, n, tid).buf == [] && AllExact(Files(NotifyFlush(l, n, tid)))
  {
    assert forall f <- l.closed :: f in Files(l);
    assert l.current in Files(l);
    KeepKeepsExact(l.closed, n, tid);
    MarkKeepsExact(l.current, n, tid);
    var closed := Keep(l.closed, n, tid);
    var current := NotifyFlush(l, n, tid).current;
    AppendExact(closed, current, 0);
  }

  // ---------------------------------------------------------------------
  // Recovery
  // ---------------------------------------------------------------------

  /** Same tables with the same ranges, in the same order. */
  predicate SameRanges(a: LogFile, b: LogFile)
  {
    && a.frames == b.frames && |a.infos| == |b.infos|
    && forall i | 0 <= i < |a.infos| ::
         a.infos[i].name == b.infos[i].name && a.infos[i].minTid == b.infos[i].minTid && a.infos[i].maxTid == b.infos[i].maxTid
  }

  predicate AllSameRanges(a: seq<LogFile>, b: seq<LogFile>)
  {
    |a| == |b| && forall i | 0 <= i < |a| :: SameRanges(a[i], b[i])
  }

  /** The range replay gives an entry: that of the table's transactions in the file, and the
      initial values if it has none. */
  predicate RangeOf(info: Info, txns: seq<Txn>)
  {
    if txns == [] then info.minTid == INT64_MAX && info.maxTid == 0 else RangeExact(info, txns)
  }

  /** Tables and ranges are those of the frames on disk. */
  predicate Settled(f: LogFile)
  {
    && NamesAfter(f.frames, []) == NamesOf(f.infos)
    && forall i | 0 <= i < |f.infos| :: RangeOf(f.infos[i], Accepted(f.frames, [], f.infos[i].name))
  }

  predicate AllSettled(files: seq<LogFile>)
  {
    forall f <- files :: Settled(f)
  }

  /** The frames determine tables and ranges. */
  lemma SettledSame(a: LogFile, b: LogFile)
    requires a.frames == b.frames && Settled(a)
    ensures SameRanges(a, b) <==> Settled(b)
  {
    assert |NamesOf(a.infos)| == |a.infos| && |NamesOf(b.infos)| == |b.infos|;
    assert forall i | 0 <= i < |a.infos| :: NamesOf(a.infos)[i] == a.infos[i].name;
    assert forall i | 0 <= i < |b.infos| :: NamesOf(b.infos)[i] == b.infos[i].name;
    if SameRanges(a, b) {
      assert NamesOf(b.infos) == NamesOf(a.infos);
    }
  }

  /** No logged TID is beyond 64 bits. */
  ghost predicate TidsFit(files: seq<LogFile>)
  {
    forall n: Name :: forall x <- Logged(files, n) :: x.tid <= INT64_MAX
  }

  /** Whatever the writer had recorded, a replayed file is settled. */
  lemma FileReplaysSettled(doneFiles: seq<LogFile>, files: seq<LogFile>, served: Served, tables: map<Name, Table>, r: Replay)
    requires Between(doneFiles, files, served, tables) && files != [] && TidsFit(files)
    requires r == ReplayFrames(StartFile(served), files[0].frames)
    ensures Settled(files[0].(infos := r.infos))
  {
    var f := files[0];
    assert f in files;
    BetweenTids(doneFiles, files, served, tables);
    assert NamesOf([]) == [];
    WellFormedReplays(StartFile(served), f.frames);
    forall i | 0 <= i < |r.infos| ensures RangeOf(r.infos[i], Accepted(f.frames, [], r.infos[i].name))
    {
      assert NamesOf(r.infos)[i] == r.infos[i].name;
      EntryOfFile(doneFiles, files, served, tables, r, i);
    }
  }

  lemma EntryOfFile(doneFiles: seq<LogFile>, files: seq<LogFile>, served: Served, tables: map<Name, Table>, r: Replay, i: nat)
    requires Between(doneFiles, files, served, tables) && files != [] && TidsFit(files)
    requires r == ReplayFrames(StartFile(served), files[0].frames) && i < |r.infos|
    requires WellFormed(files[0].frames, []) && r.infos[i].name in tables
    ensures RangeOf(r.infos[i], Accepted(files[0].frames, [], r.infos[i].name))
  {
    var m := r.infos[i].name;
    var acc := Accepted(files[0].frames, [], m);
    BetweenTids(doneFiles, files, served, tables);
    TableNext(doneFiles, files, served, tables[m].diskTid, m);
    ReplayedEntry(served, files[0].frames, m, tables[m].diskTid, Logged(doneFiles, m), i);
    if acc != [] {
      assert acc[0] in acc;
    }
  }

  /** Replay gives every file the ranges its writer had if and only if they were settled. */
  lemma {:induction false} FilesRecomputed(doneFiles: seq<LogFile>, files: seq<LogFile>, served: Served, tables: map<Name, Table>)
    requires Between(doneFiles, files, served, tables) && TidsFit(files)
    ensures AllSettled(ReplayFiles(files, served).files)
    ensures AllSameRanges(ReplayFiles(files, served).files, files) <==> AllSettled(files)
    decreases |files|
  {
    if files != [] {
      var r1 := ReplayFrames(StartFile(served), files[0].frames);
      var f := files[0].(infos := r1.infos);
      FileReplaysSettled(doneFiles, files, served, tables, r1);
      SettledSame(f, files[0]);
      BetweenNext(doneFiles, files, served, tables);
      forall n: Name ensures forall x <- Logged(files[1..], n) :: x.tid <= INT64_MAX
      {
        assert forall x <- Logged(files[1..], n) :: x in Logged(files, n);
      }
      FilesRecomputed(doneFiles + [files[0]], files[1..], r1.served, tables);
      HeadAndRest(f, ReplayFiles(files[1..], r1.served).files, files);
    }
  }

  lemma HeadAndRest(f: LogFile, rest: seq<LogFile>, files: seq<LogFile>)
    requires files != []
    ensures AllSettled([f] + rest) <==> Settled(f) && AllSettled(rest)
    ensures AllSettled(files) <==> Settled(files[0]) && AllSettled(files[1..])
    ensures AllSameRanges([f] + rest, files) <==> SameRanges(f, files[0]) && AllSameRanges(rest, files[1..])
  {
    assert files == [files[0]] + files[1..];
    var all := [f] + rest;
    assert all[0] == f && forall i | 0 <= i < |rest| :: all[i + 1] == rest[i];
    if AllSameRanges(all, files) {
      forall i | 0 <= i < |rest| ensures SameRanges(rest[i], files[1..][i])
      {
        assert SameRanges(all[i + 1], files[i + 1]);
      }
    }
  }

  lemma SameRangesExact(a: LogFile, b: LogFile)
    requires SameRanges(a, b) && RangesExact(b)
    ensures RangesExact(a)
  {
  }

  /** Recovery settles every file, and changes no range exactly if all were settled. */
  lemma RecoveryRecomputes(db: DB, k: nat)
    requires Inv(db) && (forall m <- db.tables :: db.tables[m].tid <= k) && k <= INT64_MAX
    ensures AllSettled(ReplayFiles(Files(db.log), OnDisk(db.tables)).files)
    ensures AllSameRanges(ReplayFiles(Files(db.log), OnDisk(db.tables)).files, Files(db.log)) <==> AllSettled(Files(db.log))
  {
    var files := Files(db.log);
    RecoveryStarts(db);
    forall n: Name ensures forall x <- Logged(files, n) :: x.tid <= INT64_MAX
    {
      LoggedFits(db, n, k);
    }
    FilesRecomputed([], files, OnDisk(db.tables), db.tables);
  }

  /** Exact ranges are settled. */
  lemma ExactIsSettled(db: DB)
    requires Inv(db) && db.log.buf == [] && AllExact(Files(db.log))
    ensures AllSettled(Files(db.log))
  {
    forall f | f in Files(db.log) ensures Settled(f)
    {
      assert FileOk(f, [], db.tables) && RangesExact(f);
      assert f.frames + [] == f.frames;
    }
  }

  lemma LoggedFits(db: DB, n: Name, k: nat)
    requires Inv(db) && (forall m <- db.tables :: db.tables[m].tid <= k)
    ensures forall x <- Logged(Files(db.log), n) :: x.tid <= k
  {
    if n in db.tables {
      assert TableOk(db.tables[n], Logged(Files(db.log), n));
    } else {
      FilesStart(db);
      UnknownHasNothing(Files(db.log), db.tables, n);
    }
  }

  lemma {:induction false} UnknownHasNothing(files: seq<LogFile>, tables: map<Name, Table>, n: Name)
    requires forall f <- files :: WellFormed(f.frames, []) && forall m <- NamesAfter(f.frames, []) :: m in tables
    requires n !in tables
    ensures Logged(files, n) == []
  {
    if files != [] {
      assert files[0] in files;
      AcceptedOnlyKnown(files[0].frames, [], n);
      UnknownHasNothing(files[1..], tables, n);
    }
  }

  lemma {:induction false} AdoptKeepsExact(files: seq<LogFile>)
    requires AllExact(files)
    ensures AllExact(Adopt(files))
  {
    if files != [] && files[0].infos == [] {
      AdoptKeepsExact(files[1..]);
    }
  }

  lemma ReopenKeepsExact(files: seq<LogFile>)
    requires AllExact(files)
    ensures Reopen(files).buf == [] && AllExact(Files(Reopen(files)))
  {
    var l := Reopen(files);
    assert forall f <- l.closed :: f in files;
    AppendExact(l.closed, l.current, 0);
  }

  lemma TopBelow(t: Table, logged: seq<Txn>)
    requires TableOk(t, logged)
    ensures Top(t.diskTid, logged) <= t.tid
  {
    if logged != [] {
      assert logged[|logged| - 1] in logged;
    }
  }

  lemma RecoverKeepsExact(db: DB, k: nat)
    requires Inv(db) && Exact(db, k) && k <= INT64_MAX
    ensures Exact(Recover(db), k)
  {
    var files := Files(db.log);
    var r := ReplayFiles(files, OnDisk(db.tables));
    ExactIsSettled(db);
    RecoveryRecomputes(db, k);
    forall f | f in r.files ensures RangesExact(f)
    {
      var i :| 0 <= i < |r.files| && r.files[i] == f;
      assert files[i] in files;
      SameRangesExact(f, files[i]);
    }
    AdoptKeepsExact(r.files);
    ReopenKeepsExact(Adopt(r.files));
    forall n | n in db.tables ensures Recover(db).tables[n].tid <= k
    {
      RecoveryIsExact(db, n);
      TopBelow(db.tables[n], Logged(files, n));
    }
  }

  // ---------------------------------------------------------------------
  // Over runs
  // ---------------------------------------------------------------------

  lemma StepKeepsExact(db: DB, a: Action, k: nat)
    requires Inv(db) && Enabled(db, a) && Exact(db, k) && k <= INT64_MAX && (a.Commit? ==> a.ok)
    ensures Exact(Apply(db, a), if a.Commit? then k + 1 else k)
  {
    match a
    case Commit(n, payload, ok, rotate) => CommitKeepsExact(db, n, payload, rotate, k);
    case SaveTable(n, tid) =>
    case Notify(n, tid) => NotifyKeepsExact(db.log, n, tid);
    case CrashAndRecover => RecoverKeepsExact(db, k);
  }

  lemma {:induction false} RunKeepsExact(db: DB, run: seq<Action>, k: nat)
    requires Inv(db) && Legal(db, run) && NoFailedCommit(run) && Exact(db, k) && k + Commits(run) <= INT64_MAX
    ensures Exact(After(db, run), k + Commits(run))
    decreases |run|
  {
    if run != [] {
      assert run[0] in run;
      StepKeepsInv(db, run[0]);
      StepKeepsExact(db, run[0], k);
      assert forall a <- run[1..] :: a in run;
      RunKeepsExact(Apply(db, run[0]), run[1..], if run[0].Commit? then k + 1 else k);
    }
  }

  // ---------------------------------------------------------------------
  // A failed commit
  // ---------------------------------------------------------------------

  function GapRun(n: Name, lost: seq<byte>, kept: seq<byte>): seq<Action>
  {
    [Commit(n, lost, false, false), Commit(n, kept, true, false)]
  }

  function GapFile(n: Name, kept: seq<byte>): LogFile
  {
    LogFile(0, [Info(n, 1, 2, 0)], [AddIndex(0, n), AddTxn(0, 2, kept)])
  }

  lemma GapCommits(n: Name, lost: seq<byte>, kept: seq<byte>)
    ensures var failed := CommitLog(Log([], NewFile(0), [], 1), n, Txn(1, lost), false, false);
            CommitLog(failed, n, Txn(2, kept), true, false) == Log([], GapFile(n, kept), [], 1)
  {
    var failed := CommitLog(Log([], NewFile(0), [], 1), n, Txn(1, lost), false, false);
    assert failed == Log([], LogFile(0, [Info(n, 1, 1, 0)], []), [AddIndex(0, n)], 1);
  }

  lemma GapRunEnds(n: Name, lost: seq<byte>, kept: seq<byte>)
    ensures Legal(Fresh({n}), GapRun(n, lost, kept))
    ensures var db := After(Fresh({n}), GapRun(n, lost, kept));
            db.log == Log([], GapFile(n, kept), [], 1) && n in db.tables && db.tables[n] == Table(2, [Txn(2, kept)], 0)
  {
    var db, run := Fresh({n}), GapRun(n, lost, kept);
    var db1 := Apply(db, run[0]);
    assert db1.tables[n] == Table(1, [], 0);
    var db2 := Apply(db1, run[1]);
    assert db2.tables[n] == Table(2, [] + [Txn(2, kept)], 0) && [] + [Txn(2, kept)] == [Txn(2, kept)];
    GapCommits(n, lost, kept);
    assert run[1..] == [run[1]] && run[1..][1..] == [];
    assert Legal(db2, []) && After(db2, []) == db2;
    assert Legal(db1, run[1..]) && After(db1, run[1..]) == db2;
  }

  lemma GapReplays(n: Name, kept: seq<byte>, served: Served)
    requires n in served && served[n] == Live(0, [])
    ensures ReplayFrames(StartFile(served), GapFile(n, kept).frames).infos == [Info(n, 2, 2, 0)]
  {
    var frames := GapFile(n, kept).frames;
    assert frames[1..] == [AddTxn(0, 2, kept)] && frames[1..][1..] == [];
    var r1 := ReplayFrame(StartFile(served), frames[0]);
    assert NamesOf([]) == [];
    assert r1.ok && |r1.infos| == 1 && r1.infos[0].name == n;
    var r2 := ReplayFrame(r1, frames[1]);
    assert ReplayFrames(r1, frames[1..]) == ReplayFrames(r2, []) == r2;
  }

  /** A failed commit uses up a transaction id that no frame carries: the writer's range
      starts with it, the one replay recomputes does not. */
  lemma FailedCommitLeavesGap(n: Name, lost: seq<byte>, kept: seq<byte>)
    ensures Legal(Fresh({n}), GapRun(n, lost, kept))
    ensures var db := After(Fresh({n}), GapRun(n, lost, kept));
            !AllSameRanges(ReplayFiles(Files(db.log), OnDisk(db.tables)).files, Files(db.log))
  {
    GapRunEnds(n, lost, kept);
    var db := After(Fresh({n}), GapRun(n, lost, kept));
    var f, served := GapFile(n, kept), OnDisk(db.tables);
    assert Files(db.log) == [f];
    assert served[n] == Live(0, UpTo(0, [Txn(2, kept)])) && UpTo(0, [Txn(2, kept)]) == UpTo(0, []) == [];
    GapReplays(n, kept, served);
    var replayed := ReplayFiles([f], served).files;
    assert replayed[0].infos[0].minTid == 2 && f.infos[0].minTid == 1;
    assert !SameRanges(replayed[0], f);
  }
}
