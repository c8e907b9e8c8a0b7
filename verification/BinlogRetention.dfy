module BinlogRetention {

  /** How long a log file is kept: exactly as long as some table in it has a transaction id
      that is not flushed.  So a flush of every table at its current id leaves nothing. */

  import opened Bytes
  import opened BinlogReplay
  import opened BinlogRecovery
  import opened BinlogSafety
  import opened BinlogCrash

  // ---------------------------------------------------------------------
  // One notification
  // ---------------------------------------------------------------------

  /** The flushed id of an entry after a notification. */
  function FlushedBy(info: Info, name: Name, tid: int): int
  {
    if info.name == name && info.flushedTid < tid then tid else info.flushedTid
  }

  /** Every entry is flushed up to its last id once the notification is in. */
  predicate AllFlushed(infos: seq<Info>, name: Name, tid: int)
  {
    forall i | 0 <= i < |infos| :: FlushedBy(infos[i], name, tid) >= infos[i].maxTid
  }

  /** Some entry has an id that is not flushed. */
  predicate Unflushed(infos: seq<Info>)
  {
    exists i | 0 <= i < |infos| :: infos[i].flushedTid < infos[i].maxTid
  }

  /** A notification raises the flushed id of its own table and changes nothing else, and a
      file is not needed any more exactly if every entry is flushed up to its last id. */
  lemma MarkShape(f: LogFile, name: Name, tid: int)
    ensures var g := Mark(f, name, tid);
            && g.ext == f.ext && g.frames == f.frames && |g.infos| == |f.infos|
            && (forall i | 0 <= i < |f.infos| ::
                  g.infos[i] == Info(f.infos[i].name, f.infos[i].minTid, f.infos[i].maxTid, FlushedBy(f.infos[i], name, tid)))
    ensures !Used(Mark(f, name, tid)) <==> AllFlushed(f.infos, name, tid)
  {
  }

  /** What is kept, in order, is every file with an entry that is not flushed. */
  lemma {:induction false} KeepIff(files: seq<LogFile>, name: Name, tid: int)
    ensures forall g <- Keep(files, name, tid) :: Unflushed(g.infos)
    ensures forall f <- files :: AllFlushed(f.infos, name, tid) || Mark(f, name, tid) in Keep(files, name, tid)
    ensures forall g <- Keep(files, name, tid) :: exists f <- files :: g == Mark(f, name, tid)
    ensures |Keep(files, name, tid)| <= |files|
  {
    if files != [] {
      var f, g := files[0], Mark(files[0], name, tid);
      MarkShape(f, name, tid);
      KeepIff(files[1..], name, tid);
      var rest := Keep(files[1..], name, tid);
      forall x | x in Keep(files, name, tid) ensures exists y <- files :: x == Mark(y, name, tid)
      {
        if x in rest {
          var y :| y in files[1..] && x == Mark(y, name, tid);
          assert y in files;
        } else {
          assert x == g && f in files;
        }
      }
    }
  }

  /** After a flush every closed file is needed, and the current one is replaced by a new
      file exactly if it is not needed. */
  lemma NotifyIff(l: Log, name: Name, tid: int)
    ensures var l' := NotifyFlush(l, name, tid);
            && (forall g <- l'.closed :: Unflushed(g.infos))
            && if AllFlushed(l.current.infos, name, tid) then
                 l'.current.infos == [] && l'.current.frames == [] && l'.buf == [] && (l'.closed == [] ==> l'.current.ext == 0)
               else
                 l'.current == Mark(l.current, name, tid) && l'.buf == l.buf
  {
    KeepIff(l.closed, name, tid);
    MarkShape(l.current, name, tid);
  }

  // ---------------------------------------------------------------------
  // No entry runs ahead of its table
  // ---------------------------------------------------------------------

  predicate EntriesBelow(f: LogFile, tables: map<Name, Table>)
  {
    forall i | 0 <= i < |f.infos| :: f.infos[i].name in tables && f.infos[i].maxTid <= tables[f.infos[i].name].tid
  }

  predicate AllBelow(files: seq<LogFile>, tables: map<Name, Table>)
  {
    forall f <- files :: EntriesBelow(f, tables)
  }

  predicate Rises(tables: map<Name, Table>, after: map<Name, Table>)
  {
    forall n <- tables :: n in after && tables[n].tid <= after[n].tid
  }

  lemma AppendBelow(closed: seq<LogFile>, f: LogFile, ext: nat, tables: map<Name, Table>)
    requires AllBelow(closed, tables) && EntriesBelow(f, tables)
    ensures AllBelow(closed + [f], tables) && AllBelow((closed + [f]) + [NewFile(ext)], tables)
  {
  }

  lemma CommitBelow(l: Log, tables: map<Name, Table>, n: Name, txn: Txn, ok: bool, rotate: bool, after: map<Name, Table>)
    requires AllBelow(Files(l), tables) && Rises(tables, after) && n in after && txn.tid <= after[n].tid
    ensures AllBelow(Files(CommitLog(l, n, txn, ok, rotate)), after)
  {
    assert forall f <- l.closed :: f in Files(l);
    assert l.current in Files(l);
    var c := CommitLog(l, n, txn, ok, false).current;
    assert c.infos == Touch(l.current.infos, n, txn.tid);
    AppendBelow(l.closed, c, l.nextExt, after);
  }

  lemma CommitStepBelow(db: DB, n: Name, payload: seq<byte>, ok: bool, rotate: bool)
    requires n in db.tables && AllBelow(Files(db.log), db.tables)
    ensures var db' := Apply(db, Commit(n, payload, ok, rotate)); AllBelow(Files(db'.log), db'.tables)
  {
    CommitApplied(db, n, payload, ok, rotate);
    CommitBelow(db.log, db.tables, n, Txn(db.tables[n].tid + 1, payload), ok, rotate, CommittedTables(db.tables, n, payload, ok));
  }

  lemma {:induction false} KeepBelow(files: seq<LogFile>, n: Name, tid: int, tables: map<Name, Table>)
    requires AllBelow(files, tables)
    ensures AllBelow(Keep(files, n, tid), tables)
  {
    if files != [] {
      assert files[0] in files;
      KeepBelow(files[1..], n, tid, tables);
    }
  }

  lemma NotifyBelow(l: Log, tables: map<Name, Table>, n: Name, tid: int)
    requires AllBelow(Files(l), tables)
    ensures AllBelow(Files(NotifyFlush(l, n, tid)), tables)
  {
    assert forall f <- l.closed :: f in Files(l);
    assert l.current in Files(l);
    KeepBelow(l.closed, n, tid, tables);
    AppendBelow(Keep(l.closed, n, tid), NotifyFlush(l, n, tid).current, 0, tables);
  }

  /** The last id replay enters for a table is that of its last transaction in the file. */
  predicate EndsWith(info: Info, txns: seq<Txn>)
  {
    info.maxTid == if txns == [] then 0 else txns[|txns| - 1].tid
  }

  predicate LastLogged(f: LogFile)
  {
    forall i | 0 <= i < |f.infos| :: EndsWith(f.infos[i], Accepted(f.frames, [], f.infos[i].name))
  }

  lemma FileLastLogged(doneFiles: seq<LogFile>, files: seq<LogFile>, served: Served, tables: map<Name, Table>, r: Replay)
    requires Between(doneFiles, files, served, tables) && files != [] && r == ReplayFrames(StartFile(served), files[0].frames)
    ensures LastLogged(files[0].(infos := r.infos)) && forall i | 0 <= i < |r.infos| :: r.infos[i].name in tables
  {
    var f := files[0];
    assert f in files;
    BetweenTids(doneFiles, files, served, tables);
    assert NamesOf([]) == [];
    WellFormedReplays(StartFile(served), f.frames);
    forall i | 0 <= i < |r.infos|
      ensures r.infos[i].name in tables && EndsWith(r.infos[i], Accepted(f.frames, [], r.infos[i].name))
    {
      assert NamesOf(r.infos)[i] == r.infos[i].name;
      EntryLastLogged(doneFiles, files, served, tables, r, i);
    }
  }

  lemma EntryLastLogged(doneFiles: seq<LogFile>, files: seq<LogFile>, served: Served, tables: map<Name, Table>, r: Replay, i: nat)
    requires Between(doneFiles, files, served, tables) && files != [] && r == ReplayFrames(StartFile(served), files[0].frames)
    requires WellFormed(files[0].frames, []) && i < |r.infos| && r.infos[i].name in tables
    ensures EndsWith(r.infos[i], Accepted(files[0].frames, [], r.infos[i].name))
  {
    var m := r.infos[i].name;
    BetweenTids(doneFiles, files, served, tables);
    TableNext(doneFiles, files, served, tables[m].diskTid, m);
    ReplayedEntry(served, files[0].frames, m, tables[m].diskTid, Logged(doneFiles, m), i);
  }

  lemma {:induction false} FilesLastLogged(doneFiles: seq<LogFile>, files: seq<LogFile>, served: Served, tables: map<Name, Table>)
    requires Between(doneFiles, files, served, tables)
    ensures forall f <- ReplayFiles(files, served).files :: LastLogged(f) && forall i | 0 <= i < |f.infos| :: f.infos[i].name in tables
    decreases |files|
  {
    if files != [] {
      var r := ReplayFrames(StartFile(served), files[0].frames);
      FileLastLogged(doneFiles, files, served, tables, r);
      BetweenNext(doneFiles, files, served, tables);
      FilesLastLogged(doneFiles + [files[0]], files[1..], r.served, tables);
    }
  }

  lemma {:induction false} AcceptedIsLogged(files: seq<LogFile>, f: LogFile, n: Name)
    requires f in files
    ensures forall x <- Accepted(f.frames, [], n) :: x in Logged(files, n)
  {
    if files[0] != f {
      AcceptedIsLogged(files[1..], f, n);
    }
  }

  lemma BelowTop(d: int, txns: seq<Txn>, x: Txn)
    requires Increasing(txns) && x in txns
    ensures x.tid <= Top(d, txns)
  {
    var k :| 0 <= k < |txns| && txns[k] == x;
    assert k == |txns| - 1 || txns[k].tid < txns[|txns| - 1].tid;
  }

  lemma {:induction false} AdoptBelow(files: seq<LogFile>, tables: map<Name, Table>)
    requires AllBelow(files, tables)
    ensures AllBelow(Adopt(files), tables)
  {
    if files != [] && files[0].infos == [] {
      AdoptBelow(files[1..], tables);
    }
  }

  lemma ReplayedBelow(db: DB, f: LogFile)
    requires Inv(db) && f in ReplayFiles(Files(db.log), OnDisk(db.tables)).files
    ensures EntriesBelow(f, Recover(db).tables)
  {
    var files, r := Files(db.log), ReplayFiles(Files(db.log), OnDisk(db.tables));
    RecoveryStarts(db);
    FilesLastLogged([], files, OnDisk(db.tables), db.tables);
    forall i | 0 <= i < |f.infos| ensures f.infos[i].maxTid <= Recover(db).tables[f.infos[i].name].tid
    {
      var n := f.infos[i].name;
      RecoveryIsExact(db, n);
      assert TableOk(db.tables[n], Logged(files, n));
      ReplayedLogs(db, n);
      EntryBelowTop(r.files, f, f.infos[i], db.tables[n].diskTid);
    }
  }

  lemma EntryBelowTop(files: seq<LogFile>, f: LogFile, info: Info, d: int)
    requires f in files && EndsWith(info, Accepted(f.frames, [], info.name)) && Increasing(Logged(files, info.name)) && d >= 0
    ensures info.maxTid <= Top(d, Logged(files, info.name))
  {
    var acc := Accepted(f.frames, [], info.name);
    AcceptedIsLogged(files, f, info.name);
    if acc != [] {
      assert acc[|acc| - 1] in acc;
      BelowTop(d, Logged(files, info.name), acc[|acc| - 1]);
    }
  }

  lemma ReplayedLogs(db: DB, n: Name)
    requires Inv(db)
    ensures Logged(ReplayFiles(Files(db.log), OnDisk(db.tables)).files, n) == Logged(Files(db.log), n)
  {
    RecoveredFiles(db, ReplayFiles(Files(db.log), OnDisk(db.tables)));
  }

  lemma RecoverBelow(db: DB)
    requires Inv(db)
    ensures AllBelow(Files(Recover(db).log), Recover(db).tables)
  {
    var files := ReplayFiles(Files(db.log), OnDisk(db.tables)).files;
    forall f | f in files ensures EntriesBelow(f, Recover(db).tables)
    {
      ReplayedBelow(db, f);
    }
    AdoptBelow(files, Recover(db).tables);
    var l := Reopen(Adopt(files));
    assert forall f <- l.closed :: f in Adopt(files);
    AppendBelow(l.closed, l.current, 0, Recover(db).tables);
  }

  lemma StepBelow(db: DB, a: Action)
    requires Inv(db) && Enabled(db, a) && AllBelow(Files(db.log), db.tables)
    ensures AllBelow(Files(Apply(db, a).log), Apply(db, a).tables)
  {
    match a
    case Commit(n, payload, ok, rotate) => CommitStepBelow(db, n, payload, ok, rotate);
    case SaveTable(n, tid) =>
    case Notify(n, tid) => NotifyBelow(db.log, db.tables, n, tid);
    case CrashAndRecover => RecoverBelow(db);
  }

  lemma {:induction false} RunBelow(db: DB, run: seq<Action>)
    requires Inv(db) && Legal(db, run) && AllBelow(Files(db.log), db.tables)
    ensures AllBelow(Files(After(db, run).log), After(db, run).tables)
    decreases |run|
  {
    if run != [] {
      StepKeepsInv(db, run[0]);
      StepBelow(db, run[0]);
      RunBelow(Apply(db, run[0]), run[1..]);
    }
  }

  // ---------------------------------------------------------------------
  // After a restart
  // ---------------------------------------------------------------------

  lemma SavedToTheEnd(before: int, d: int, txns: seq<Txn>)
    requires txns != [] && txns[|txns| - 1].tid <= d
    ensures LastSaved(before, d, txns) == txns[|txns| - 1].tid
  {
  }

  /** A replayed entry counts as flushed exactly if its last id is in the table's own files. */
  lemma EntryFlushedIff(doneFiles: seq<LogFile>, files: seq<LogFile>, served: Served, tables: map<Name, Table>, r: Replay, i: nat)
    requires Between(doneFiles, files, served, tables) && files != [] && r == ReplayFrames(StartFile(served), files[0].frames)
    requires WellFormed(files[0].frames, []) && i < |r.infos| && r.infos[i].name in tables
    ensures r.infos[i].flushedTid >= r.infos[i].maxTid <==> r.infos[i].maxTid <= tables[r.infos[i].name].diskTid
  {
    var m := r.infos[i].name;
    var acc, d := Accepted(files[0].frames, [], m), tables[m].diskTid;
    BetweenTids(doneFiles, files, served, tables);
    TableNext(doneFiles, files, served, d, m);
    ReplayedEntry(served, files[0].frames, m, d, Logged(doneFiles, m), i);
    if acc != [] {
      assert acc[|acc| - 1] in acc;
      if acc[|acc| - 1].tid <= d {
        SavedToTheEnd(served[m].tid, d, acc);
      }
    }
  }

  predicate FlushedIfSaved(f: LogFile, tables: map<Name, Table>)
  {
    forall i | 0 <= i < |f.infos| ::
      f.infos[i].name in tables && (f.infos[i].flushedTid >= f.infos[i].maxTid <==> f.infos[i].maxTid <= tables[f.infos[i].name].diskTid)
  }

  lemma {:induction false} ReplayFlushes(doneFiles: seq<LogFile>, files: seq<LogFile>, served: Served, tables: map<Name, Table>)
    requires Between(doneFiles, files, served, tables)
    ensures forall f <- ReplayFiles(files, served).files :: FlushedIfSaved(f, tables)
    decreases |files|
  {
    if files != [] {
      var r := ReplayFrames(StartFile(served), files[0].frames);
      assert files[0] in files;
      FileLastLogged(doneFiles, files, served, tables, r);
      forall i | 0 <= i < |r.infos|
        ensures r.infos[i].flushedTid >= r.infos[i].maxTid <==> r.infos[i].maxTid <= tables[r.infos[i].name].diskTid
      {
        EntryFlushedIff(doneFiles, files, served, tables, r, i);
      }
      BetweenNext(doneFiles, files, served, tables);
      ReplayFlushes(doneFiles + [files[0]], files[1..], r.served, tables);
    }
  }

  /** After a restart a file is needed exactly if some table's last id in it is not saved. */
  lemma NeededAfterRestart(db: DB, f: LogFile)
    requires Inv(db) && f in ReplayFiles(Files(db.log), OnDisk(db.tables)).files
    ensures Used(f) <==> exists i | 0 <= i < |f.infos| :: f.infos[i].name in db.tables && f.infos[i].maxTid > db.tables[f.infos[i].name].diskTid
  {
    RecoveryStarts(db);
    ReplayFlushes([], Files(db.log), OnDisk(db.tables), db.tables);
    NeededIff(f, db.tables);
  }

  lemma NeededIff(f: LogFile, tables: map<Name, Table>)
    requires FlushedIfSaved(f, tables)
    ensures Used(f) <==> exists i | 0 <= i < |f.infos| :: f.infos[i].name in tables && f.infos[i].maxTid > tables[f.infos[i].name].diskTid
  {
    if Used(f) {
      var i :| 0 <= i < |f.infos| && f.infos[i].flushedTid < f.infos[i].maxTid;
      assert f.infos[i].name in tables && f.infos[i].maxTid > tables[f.infos[i].name].diskTid;
    }
  }

  // ---------------------------------------------------------------------
  // Everything flushed
  // ---------------------------------------------------------------------

  /** Entries of these tables are flushed up to their last id. */
  predicate FlushedFor(files: seq<LogFile>, names: set<Name>)
  {
    forall f <- files :: forall i | 0 <= i < |f.infos| && f.infos[i].name in names :: f.infos[i].flushedTid >= f.infos[i].maxTid
  }

  function NotifyAll(order: seq<Name>, tables: map<Name, Table>): seq<Action>
    requires forall n <- order :: n in tables
  {
    if order == [] then [] else [Notify(order[0], tables[order[0]].tid)] + NotifyAll(order[1..], tables)
  }

  lemma {:induction false} KeepFlushes(files: seq<LogFile>, tables: map<Name, Table>, n: Name, done: set<Name>)
    requires AllBelow(files, tables) && n in tables && FlushedFor(files, done)
    ensures FlushedFor(Keep(files, n, tables[n].tid), done + {n})
  {
    if files != [] {
      assert files[0] in files;
      KeepFlushes(files[1..], tables, n, done);
    }
  }

  lemma NotifyFlushes(l: Log, tables: map<Name, Table>, n: Name, done: set<Name>)
    requires AllBelow(Files(l), tables) && n in tables && FlushedFor(Files(l), done)
    ensures FlushedFor(Files(NotifyFlush(l, n, tables[n].tid)), done + {n})
  {
    assert forall f <- l.closed :: f in Files(l);
    assert l.current in Files(l);
    KeepFlushes(l.closed, tables, n, done);
  }

  lemma LastIsFlushed(f: LogFile, tables: map<Name, Table>, n: Name, done: set<Name>)
    requires EntriesBelow(f, tables) && n in tables && done + {n} == tables.Keys
    requires forall i | 0 <= i < |f.infos| && f.infos[i].name in done :: f.infos[i].flushedTid >= f.infos[i].maxTid
    ensures !Used(Mark(f, n, tables[n].tid))
  {
    MarkShape(f, n, tables[n].tid);
    forall i | 0 <= i < |f.infos| ensures FlushedBy(f.infos[i], n, tables[n].tid) >= f.infos[i].maxTid
    {
      assert f.infos[i].name in tables.Keys;
    }
    assert AllFlushed(f.infos, n, tables[n].tid);
  }

  lemma {:induction false} KeepNone(files: seq<LogFile>, tables: map<Name, Table>, n: Name, done: set<Name>)
    requires AllBelow(files, tables) && n in tables && FlushedFor(files, done) && done + {n} == tables.Keys
    ensures Keep(files, n, tables[n].tid) == []
  {
    if files != [] {
      assert files[0] in files;
      LastIsFlushed(files[0], tables, n, done);
      KeepNone(files[1..], tables, n, done);
    }
  }

  /** A notification that leaves no entry unflushed leaves an empty log. */
  lemma LastNotifyEmpties(l: Log, tables: map<Name, Table>, n: Name, done: set<Name>)
    requires AllBelow(Files(l), tables) && n in tables && FlushedFor(Files(l), done) && done + {n} == tables.Keys
    ensures NotifyFlush(l, n, tables[n].tid) == Log([], NewFile(0), [], 1)
  {
    assert forall f <- l.closed :: f in Files(l);
    assert l.current in Files(l);
    KeepNone(l.closed, tables, n, done);
    LastIsFlushed(l.current, tables, n, done);
  }

  lemma Prepended(db: DB, a: Action, rest: seq<Action>)
    requires Enabled(db, a) && Legal(Apply(db, a), rest)
    ensures Legal(db, [a] + rest) && After(db, [a] + rest) == After(Apply(db, a), rest)
  {
    assert ([a] + rest)[1..] == rest;
  }

  lemma {:induction false} NotifyAllEmpties(db: DB, order: seq<Name>, done: set<Name>)
    requires AllBelow(Files(db.log), db.tables) && FlushedFor(Files(db.log), done)
    requires order != [] && (forall n <- order :: n in db.tables) && done + (set n | n in order) == db.tables.Keys
    requires forall n <- db.tables :: db.tables[n].diskTid == db.tables[n].tid
    ensures Legal(db, NotifyAll(order, db.tables))
    ensures After(db, NotifyAll(order, db.tables)).log == Log([], NewFile(0), [], 1)
    decreases |order|
  {
    var n, rest := order[0], order[1..];
    var a := Notify(n, db.tables[n].tid);
    assert (set m | m in order) == {n} + (set m | m in rest);
    if rest == [] {
      LastNotifyEmpties(db.log, db.tables, n, done);
    } else {
      NotifyFlushes(db.log, db.tables, n, done);
      NotifyBelow(db.log, db.tables, n, db.tables[n].tid);
      NotifyAllEmpties(Apply(db, a), rest, done + {n});
    }
    Prepended(db, a, NotifyAll(rest, db.tables));
  }

  lemma {:induction false} RunKeepsTables(db: DB, run: seq<Action>)
    requires Legal(db, run)
    ensures After(db, run).tables.Keys == db.tables.Keys
    decreases |run|
  {
    if run != [] {
      RunKeepsTables(Apply(db, run[0]), run[1..]);
    }
  }

  /** Retention is tight: after any run, if every table has saved its current id and the log
      is told about each of them, in any order, no file and no frame is left. */
  lemma FlushedLogIsEmpty(names: set<Name>, run: seq<Action>, order: seq<Name>)
    requires Legal(Fresh(names), run) && order != [] && (set n | n in order) == names
    requires var db := After(Fresh(names), run); forall n <- db.tables :: db.tables[n].diskTid == db.tables[n].tid
    ensures var db := After(Fresh(names), run);
            && (forall n <- order :: n in db.tables) && Legal(db, NotifyAll(order, db.tables))
            && After(db, NotifyAll(order, db.tables)).log == Log([], NewFile(0), [], 1)
  {
    FreshOk(names);
    RunKeepsInv(Fresh(names), run);
    RunBelow(Fresh(names), run);
    RunKeepsTables(Fresh(names), run);
    var db := After(Fresh(names), run);
    assert {} + (set n | n in order) == db.tables.Keys;
    NotifyAllEmpties(db, order, {});
  }
}
