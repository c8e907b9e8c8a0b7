module BinlogSafety {

  /** Crash recovery of the binlog: what is retained is enough, and replay rebuilds exactly
      the committed state, over every run of commits, failed commits, rotations, flushes and
      any number of crashes. */

  import opened Bytes
  import opened BinlogReplay
  import opened BinlogRecovery

  // ---------------------------------------------------------------------
  // The invariant
  // ---------------------------------------------------------------------

  /** A table's entry in a log file: its range covers what is logged, and a logged
      transaction at or below the entry's flushed TID is in the table's own files. */
  predicate InfoOk(info: Info, txns: seq<Txn>, t: Table)
  {
    && info.flushedTid <= t.tid
    && forall x <- txns ::
         && info.minTid <= x.tid <= info.maxTid
         && (x.tid <= info.flushedTid ==> x.tid <= t.diskTid)
  }

  predicate FileOk(f: LogFile, extra: seq<Frame>, tables: map<Name, Table>)
  {
    && WellFormed(f.frames + extra, [])
    && NamesAfter(f.frames + extra, []) == NamesOf(f.infos)
    && forall i | 0 <= i < |f.infos| ::
         f.infos[i].name in tables && InfoOk(f.infos[i], Accepted(f.frames, [], f.infos[i].name), tables[f.infos[i].name])
  }

  /** File numbers increase, starting at `low` and staying below `high`. */
  predicate Exts(files: seq<LogFile>, low: nat, high: nat)
  {
    files == [] || (low <= files[0].ext < high && Exts(files[1..], files[0].ext + 1, high))
  }

  predicate ExtsOk(l: Log)
  {
    Exts(l.closed, 0, l.current.ext) && l.current.ext < l.nextExt
  }

  predicate AllOk(files: seq<LogFile>, tables: map<Name, Table>)
  {
    forall f <- files :: FileOk(f, [], tables)
  }

  predicate LogOk(l: Log, tables: map<Name, Table>)
  {
    ExtsOk(l) && AllOk(l.closed, tables) && CurrentOk(l.current, l.buf, tables)
  }

  predicate TableOk(t: Table, logged: seq<Txn>)
  {
    && 0 <= t.diskTid <= t.tid
    && Increasing(t.committed) && Increasing(logged)
    && (forall x <- t.committed :: 1 <= x.tid <= t.tid)
    && (forall x <- logged :: 1 <= x.tid <= t.tid)
    && Above(t.diskTid, logged) == Above(t.diskTid, t.committed)
  }

  predicate Inv(db: DB)
  {
    LogOk(db.log, db.tables) && AllTablesOk(db.log, db.tables)
  }

  predicate AllTablesOk(l: Log, tables: map<Name, Table>)
  {
    forall n <- tables :: TableOk(tables[n], Logged(Files(l), n))
  }

  lemma IncreasingConcat(a: seq<Txn>, b: seq<Txn>)
    ensures Increasing(a + b) <==>
            Increasing(a) && Increasing(b) && forall x, y | x in a && y in b :: x.tid < y.tid
  {
    if Increasing(a + b) {
      forall i, j | 0 <= i < j < |a| ensures a[i].tid < a[j].tid
      {
        assert (a + b)[i] == a[i] && (a + b)[j] == a[j];
      }
      forall i, j | 0 <= i < j < |b| ensures b[i].tid < b[j].tid
      {
        assert (a + b)[|a| + i] == b[i] && (a + b)[|a| + j] == b[j];
      }
      forall x, y | x in a && y in b ensures x.tid < y.tid
      {
        var i :| 0 <= i < |a| && a[i] == x;
        var j :| 0 <= j < |b| && b[j] == y;
        assert (a + b)[i] == x && (a + b)[|a| + j] == y;
      }
    }
  }

  lemma TxnsAssoc(a: seq<Txn>, b: seq<Txn>, c: seq<Txn>)
    ensures a + (b + c) == (a + b) + c && a + [] == a && (a + b) + [] == a + b
  {
  }

  lemma LoggedSplit(l: Log, n: Name)
    ensures Logged(Files(l), n) == Logged(l.closed, n) + Accepted(l.current.frames, [], n)
  {
    LoggedConcat(l.closed, [l.current], n);
    assert [l.current][1..] == [];
    assert Logged([l.current], n) == Accepted(l.current.frames, [], n) + [];
  }

  // ---------------------------------------------------------------------
  // Commit
  // ---------------------------------------------------------------------

  lemma NamesTouch(infos: seq<Info>, name: Name, tid: int)
    ensures NamesOf(Touch(infos, name, tid)) == NamesOf(infos) + (if Find(infos, name) < |infos| then [] else [name])
    ensures Find(infos, name) == |infos| ==> name !in NamesOf(infos)
    ensures Find(infos, name) < |Touch(infos, name, tid)| && Touch(infos, name, tid)[Find(infos, name)].name == name
  {
    var i := Find(infos, name);
    if i < |infos| {
      NamesUpdate(infos, i, Touch(infos, name, tid)[i]);
    } else {
      NamesAppend(infos, Info(name, tid, tid, 0));
    }
  }

  /** The frames of one commit, behind a well-formed file. */
  lemma CommitFrames(frames: seq<Frame>, buf: seq<Frame>, infos: seq<Info>, name: Name, txn: Txn)
    requires WellFormed(frames + buf, []) && NamesAfter(frames + buf, []) == NamesOf(infos) && OnlyIntros(buf)
    ensures var intro := Intro(infos, name);
            var add := [AddTxn(Find(infos, name), txn.tid, txn.payload)];
            var names := NamesOf(Touch(infos, name, txn.tid));
            && WellFormed(frames + (buf + intro), []) && NamesAfter(frames + (buf + intro), []) == names
            && WellFormed(frames + (buf + intro + add), []) && NamesAfter(frames + (buf + intro + add), []) == names
            && forall m :: Accepted(frames + (buf + intro + add), [], m) ==
                           Accepted(frames, [], m) + (if m == name then [txn] else [])
  {
    var intro := Intro(infos, name);
    IntroFrames(frames, buf, infos, name, txn.tid);
    AddFrame(frames, buf + intro, NamesOf(Touch(infos, name, txn.tid)), Find(infos, name), name, txn, infos);
  }

  lemma IntroFrames(frames: seq<Frame>, buf: seq<Frame>, infos: seq<Info>, name: Name, tid: int)
    requires WellFormed(frames + buf, []) && NamesAfter(frames + buf, []) == NamesOf(infos) && OnlyIntros(buf)
    ensures var more := buf + Intro(infos, name);
            && WellFormed(frames + more, []) && NamesAfter(frames + more, []) == NamesOf(Touch(infos, name, tid))
            && OnlyIntros(more)
  {
    var intro := Intro(infos, name);
    NamesTouch(infos, name, tid);
    assert frames + (buf + intro) == (frames + buf) + intro;
    Concat(frames + buf, intro, []);
    if intro != [] {
      assert intro[1..] == [];
    }
  }

  lemma AddFrame(frames: seq<Frame>, intros: seq<Frame>, names: seq<Name>, id: nat, name: Name, txn: Txn, infos: seq<Info>)
    requires WellFormed(frames + intros, []) && NamesAfter(frames + intros, []) == names && OnlyIntros(intros)
    requires names == NamesOf(Touch(infos, name, txn.tid)) && id == Find(infos, name)
    ensures var add := [AddTxn(id, txn.tid, txn.payload)];
            && WellFormed(frames + (intros + add), []) && NamesAfter(frames + (intros + add), []) == names
            && forall m :: Accepted(frames + (intros + add), [], m) == Accepted(frames, [], m) + (if m == name then [txn] else [])
  {
    var add := [AddTxn(id, txn.tid, txn.payload)];
    NamesTouch(infos, name, txn.tid);
    assert id < |names| && names[id] == name;
    assert frames + (intros + add) == (frames + intros) + add;
    Concat(frames + intros, add, []);
    assert add[1..] == [];
    Concat(frames, intros, []);
    forall m ensures Accepted(frames + (intros + add), [], m) == Accepted(frames, [], m) + (if m == name then [txn] else [])
    {
      IntrosHoldNothing(intros, NamesAfter(frames, []), m);
      assert Accepted(add, names, m) == (if m == name then [txn] else []) + [];
    }
  }

  lemma InfoOkLater(info: Info, txns: seq<Txn>, t: Table, t': Table)
    requires InfoOk(info, txns, t) && t.tid <= t'.tid && t.diskTid <= t'.diskTid
    ensures InfoOk(info, txns, t')
  {
  }

  lemma FileOkLater(f: LogFile, extra: seq<Frame>, tables: map<Name, Table>, n: Name, t': Table)
    requires FileOk(f, extra, tables) && n in tables && tables[n].tid <= t'.tid && tables[n].diskTid <= t'.diskTid
    ensures FileOk(f, extra, tables[n := t'])
  {
  }

  predicate CurrentOk(c: LogFile, buf: seq<Frame>, tables: map<Name, Table>)
  {
    && OnlyIntros(buf) && FileOk(c, buf, tables)
    && (forall i | 0 <= i < |c.infos| :: c.infos[i].minTid <= tables[c.infos[i].name].tid)
  }

  lemma NewFileOk(ext: nat, tables: map<Name, Table>)
    ensures CurrentOk(NewFile(ext), [], tables)
  {
    assert NamesOf([]) == [];
  }

  /** A table the file has not introduced has no transaction in it. */
  lemma NewNameHasNoTxns(c: LogFile, buf: seq<Frame>, tables: map<Name, Table>, n: Name)
    requires FileOk(c, buf, tables) && n !in NamesOf(c.infos)
    ensures Accepted(c.frames, [], n) == []
  {
    Concat(c.frames, buf, []);
    if n in NamesAfter(c.frames, []) {
      NamesGrow(buf, NamesAfter(c.frames, []), n);
    }
    AcceptedOnlyKnown(c.frames, [], n);
  }

  lemma OtherInfosKeepName(c: LogFile, buf: seq<Frame>, tables: map<Name, Table>, n: Name, i: nat)
    requires FileOk(c, buf, tables) && i < |c.infos| && i != Find(c.infos, n)
    ensures c.infos[i].name != n
  {
    var k := Find(c.infos, n);
    DistinctNames(c.frames + buf, []);
    assert NamesOf(c.infos)[i] == c.infos[i].name;
    if k < |c.infos| {
      assert NamesOf(c.infos)[k] == n;
    }
  }

  /** One entry of the current file after a commit of `txn` to table `n`. */
  lemma InfoAfterCommit(c: LogFile, buf: seq<Frame>, tables: map<Name, Table>, n: Name, txn: Txn, i: nat, ok: bool)
    requires CurrentOk(c, buf, tables) && n in tables && 0 < txn.tid == tables[n].tid + 1
    requires i < |Touch(c.infos, n, txn.tid)|
    ensures var info := Touch(c.infos, n, txn.tid)[i];
            var m := info.name;
            && m in tables
            && info.minTid <= tables[n := tables[n].(tid := txn.tid)][m].tid
            && InfoOk(info, Accepted(c.frames, [], m) + (if ok && m == n then [txn] else []),
                      tables[n := tables[n].(tid := txn.tid)][m])
  {
    var k := Find(c.infos, n);
    NamesTouch(c.infos, n, txn.tid);
    if i == k && k == |c.infos| {
      NewNameHasNoTxns(c, buf, tables, n);
    } else if i != k {
      OtherInfosKeepName(c, buf, tables, n, i);
      var txns := Accepted(c.frames, [], c.infos[i].name);
      assert txns + [] == txns;
    } else {
      assert InfoOk(c.infos[k], Accepted(c.frames, [], n), tables[n]);
    }
  }

  lemma {:induction false} NamesGrow(frames: seq<Frame>, names: seq<Name>, n: Name)
    requires n in names
    ensures n in NamesAfter(frames, names)
    decreases |frames|
  {
    if frames != [] {
      NamesGrow(frames[1..], if frames[0].AddIndex? then names + [frames[0].name] else names, n);
    }
  }

  predicate Distinct(names: seq<Name>)
  {
    forall i, j | 0 <= i < j < |names| :: names[i] != names[j]
  }

  lemma {:induction false} DistinctNames(frames: seq<Frame>, names: seq<Name>)
    requires WellFormed(frames, names) && Distinct(names)
    ensures Distinct(NamesAfter(frames, names))
    decreases |frames|
  {
    if frames != [] {
      DistinctNames(frames[1..], if frames[0].AddIndex? then names + [frames[0].name] else names);
    }
  }

  lemma ClosedLater(files: seq<LogFile>, tables: map<Name, Table>, n: Name, t': Table)
    requires AllOk(files, tables)
    requires n in tables && tables[n].tid <= t'.tid && tables[n].diskTid <= t'.diskTid
    ensures AllOk(files, tables[n := t'])
  {
    forall f | f in files ensures FileOk(f, [], tables[n := t'])
    {
      FileOkLater(f, [], tables, n, t');
    }
  }

  lemma {:induction false} ExtsAppend(files: seq<LogFile>, f: LogFile, low: nat)
    requires Exts(files, low, f.ext) && low <= f.ext
    ensures Exts(files + [f], low, f.ext + 1)
  {
    if files == [] {
      assert ([f])[1..] == [];
    } else {
      assert (files + [f])[1..] == files[1..] + [f];
      ExtsAppend(files[1..], f, files[0].ext + 1);
    }
  }

  lemma {:induction false} ExtsWiden(files: seq<LogFile>, low: nat, low': nat, high: nat, high': nat)
    requires Exts(files, low, high) && low' <= low && high <= high'
    ensures Exts(files, low', high')
  {
    if files != [] {
      ExtsWiden(files[1..], files[0].ext + 1, files[0].ext + 1, high, high');
    }
  }

  /** The current file after a successful and after a failed commit. */
  lemma CurrentAfterCommit(l: Log, tables: map<Name, Table>, n: Name, txn: Txn)
    requires CurrentOk(l.current, l.buf, tables) && n in tables && 0 < txn.tid == tables[n].tid + 1
    ensures var a := Append(l, n, txn);
            var tables' := tables[n := tables[n].(tid := txn.tid)];
            CurrentOk(WriteOk(a).current, [], tables') && CurrentOk(WriteFailed(a).current, WriteFailed(a).buf, tables')
  {
    var c := l.current;
    var tables' := tables[n := tables[n].(tid := txn.tid)];
    CommitFrames(c.frames, l.buf, c.infos, n, txn);
    var w, f := WriteOk(Append(l, n, txn)), WriteFailed(Append(l, n, txn));
    assert f.buf == l.buf + Intro(c.infos, n);
    assert w.current.frames + [] == w.current.frames;
    var infos := Touch(c.infos, n, txn.tid);
    forall i | 0 <= i < |infos|
      ensures infos[i].name in tables' && infos[i].minTid <= tables'[infos[i].name].tid
      ensures InfoOk(infos[i], Accepted(w.current.frames, [], infos[i].name), tables'[infos[i].name])
      ensures InfoOk(infos[i], Accepted(c.frames, [], infos[i].name), tables'[infos[i].name])
    {
      InfoAfterCommit(c, l.buf, tables, n, txn, i, true);
      InfoAfterCommit(c, l.buf, tables, n, txn, i, false);
      assert Accepted(c.frames, [], infos[i].name) + [] == Accepted(c.frames, [], infos[i].name);
    }
  }

  lemma CurrentOkSameTids(c: LogFile, buf: seq<Frame>, tables: map<Name, Table>, n: Name, t: Table)
    requires CurrentOk(c, buf, tables) && n in tables && t.tid == tables[n].tid && t.diskTid == tables[n].diskTid
    ensures CurrentOk(c, buf, tables[n := t])
  {
    FileOkLater(c, buf, tables, n, t);
  }

  lemma CommitKeepsLog(l: Log, tables: map<Name, Table>, n: Name, txn: Txn, ok: bool, rotate: bool)
    requires LogOk(l, tables) && n in tables && 0 < txn.tid == tables[n].tid + 1
    ensures LogOk(CommitLog(l, n, txn, ok, rotate), tables[n := tables[n].(tid := txn.tid)])
  {
    CurrentAfterCommit(l, tables, n, txn);
    ClosedLater(l.closed, tables, n, tables[n].(tid := txn.tid));
    if ok && rotate {
      var w := WriteOk(Append(l, n, txn));
      ExtsAppend(l.closed, w.current, 0);
      ExtsWiden(l.closed + [w.current], 0, 0, l.current.ext + 1, l.nextExt);
    }
  }

  lemma CommitLogs(l: Log, tables: map<Name, Table>, n: Name, txn: Txn, ok: bool, rotate: bool, m: Name)
    requires CurrentOk(l.current, l.buf, tables)
    ensures Logged(Files(CommitLog(l, n, txn, ok, rotate)), m) ==
            Logged(Files(l), m) + (if ok && m == n then [txn] else [])
  {
    var grown := if ok && m == n then [txn] else [];
    LoggedSplit(l, m);
    LoggedSplit(CommitLog(l, n, txn, ok, rotate), m);
    TxnsAssoc(Logged(l.closed, m), Accepted(l.current.frames, [], m), grown);
    if ok {
      CommitFrames(l.current.frames, l.buf, l.current.infos, n, txn);
      LoggedSplit(WriteOk(Append(l, n, txn)), m);
    }
  }

  lemma TableAfterCommit(t: Table, logged: seq<Txn>, payload: seq<byte>)
    requires TableOk(t, logged)
    ensures var txn := Txn(t.tid + 1, payload);
            TableOk(t.(tid := txn.tid, committed := t.committed + [txn]), logged + [txn])
    ensures TableOk(t.(tid := t.tid + 1), logged)
  {
    var txn := Txn(t.tid + 1, payload);
    AboveConcat(t.diskTid, logged, [txn]);
    AboveConcat(t.diskTid, t.committed, [txn]);
    IncreasingConcat(logged, [txn]);
    IncreasingConcat(t.committed, [txn]);
  }

  /** What a commit does to the tables. */
  function CommittedTables(tables: map<Name, Table>, n: Name, payload: seq<byte>, ok: bool): map<Name, Table>
    requires n in tables
  {
    var t, txn := tables[n], Txn(tables[n].tid + 1, payload);
    tables[n := t.(tid := txn.tid, committed := if ok then t.committed + [txn] else t.committed)]
  }

  function Committed(db: DB, n: Name, payload: seq<byte>, ok: bool, rotate: bool): (r: DB)
    requires n in db.tables
    ensures r == Apply(db, Commit(n, payload, ok, rotate))
  {
    DB(CommitLog(db.log, n, Txn(db.tables[n].tid + 1, payload), ok, rotate), CommittedTables(db.tables, n, payload, ok))
  }

  lemma CommittedTable(tables: map<Name, Table>, n: Name, payload: seq<byte>, ok: bool, m: Name, logged: seq<Txn>, after: seq<Txn>)
    requires n in tables && m in tables && TableOk(tables[m], logged)
    requires after == logged + (if ok && m == n then [Txn(tables[n].tid + 1, payload)] else [])
    ensures TableOk(CommittedTables(tables, n, payload, ok)[m], after)
  {
    assert logged + [] == logged;
    if m == n {
      TableAfterCommit(tables[n], logged, payload);
    }
  }

  lemma CommitKeepsTable(l: Log, tables: map<Name, Table>, n: Name, payload: seq<byte>, ok: bool, rotate: bool, m: Name, l': Log)
    requires CurrentOk(l.current, l.buf, tables) && n in tables && m in tables && TableOk(tables[m], Logged(Files(l), m))
    requires l' == CommitLog(l, n, Txn(tables[n].tid + 1, payload), ok, rotate)
    ensures TableOk(CommittedTables(tables, n, payload, ok)[m], Logged(Files(l'), m))
  {
    CommitLogs(l, tables, n, Txn(tables[n].tid + 1, payload), ok, rotate, m);
    CommittedTable(tables, n, payload, ok, m, Logged(Files(l), m), Logged(Files(l'), m));
  }

  lemma CommitKeepsTables(l: Log, tables: map<Name, Table>, n: Name, payload: seq<byte>, ok: bool, rotate: bool, l': Log)
    requires CurrentOk(l.current, l.buf, tables) && n in tables && AllTablesOk(l, tables)
    requires l' == CommitLog(l, n, Txn(tables[n].tid + 1, payload), ok, rotate)
    ensures AllTablesOk(l', CommittedTables(tables, n, payload, ok))
  {
    forall m | m in tables ensures TableOk(CommittedTables(tables, n, payload, ok)[m], Logged(Files(l'), m))
    {
      CommitKeepsTable(l, tables, n, payload, ok, rotate, m, l');
    }
  }

  lemma LogOkSameTids(l: Log, tables: map<Name, Table>, n: Name, t: Table)
    requires LogOk(l, tables) && n in tables && t.tid == tables[n].tid && t.diskTid == tables[n].diskTid
    ensures LogOk(l, tables[n := t])
  {
    ClosedLater(l.closed, tables, n, t);
    CurrentOkSameTids(l.current, l.buf, tables, n, t);
  }

  lemma CommitKeepsLogOk(l: Log, tables: map<Name, Table>, n: Name, payload: seq<byte>, ok: bool, rotate: bool)
    requires LogOk(l, tables) && n in tables && tables[n].tid >= 0
    ensures LogOk(CommitLog(l, n, Txn(tables[n].tid + 1, payload), ok, rotate), CommittedTables(tables, n, payload, ok))
  {
    var t := tables[n];
    var txn := Txn(t.tid + 1, payload);
    var between := tables[n := t.(tid := txn.tid)];
    CommitKeepsLog(l, tables, n, txn, ok, rotate);
    var t' := t.(tid := txn.tid, committed := if ok then t.committed + [txn] else t.committed);
    LogOkSameTids(CommitLog(l, n, txn, ok, rotate), between, n, t');
    assert between[n := t'] == tables[n := t'];
  }

  lemma CommitKeepsAll(l: Log, tables: map<Name, Table>, n: Name, payload: seq<byte>, ok: bool, rotate: bool, l': Log, tables': map<Name, Table>)
    requires LogOk(l, tables) && AllTablesOk(l, tables) && n in tables
    requires l' == CommitLog(l, n, Txn(tables[n].tid + 1, payload), ok, rotate) && tables' == CommittedTables(tables, n, payload, ok)
    ensures LogOk(l', tables') && AllTablesOk(l', tables')
  {
    assert TableOk(tables[n], Logged(Files(l), n));
    CommitKeepsLogOk(l, tables, n, payload, ok, rotate);
    CommitKeepsTables(l, tables, n, payload, ok, rotate, l');
  }

  lemma CommitApplied(db: DB, n: Name, payload: seq<byte>, ok: bool, rotate: bool)
    requires n in db.tables
    ensures var r := Apply(db, Commit(n, payload, ok, rotate));
            r.log == CommitLog(db.log, n, Txn(db.tables[n].tid + 1, payload), ok, rotate) && r.tables == CommittedTables(db.tables, n, payload, ok)
  {
  }

  lemma CommitKeepsInv(db: DB, n: Name, payload: seq<byte>, ok: bool, rotate: bool, r: DB)
    requires Inv(db) && n in db.tables
    requires r.log == CommitLog(db.log, n, Txn(db.tables[n].tid + 1, payload), ok, rotate) && r.tables == CommittedTables(db.tables, n, payload, ok)
    ensures Inv(r)
  {
    CommitKeepsAll(db.log, db.tables, n, payload, ok, rotate, r.log, r.tables);
  }

  // ---------------------------------------------------------------------
  // Flush notification
  // ---------------------------------------------------------------------

  lemma MarkOk(f: LogFile, extra: seq<Frame>, tables: map<Name, Table>, n: Name, tid: int)
    requires FileOk(f, extra, tables) && n in tables && tid <= tables[n].diskTid <= tables[n].tid
    ensures FileOk(Mark(f, n, tid), extra, tables)
    ensures Mark(f, n, tid).frames == f.frames && Mark(f, n, tid).ext == f.ext
    ensures |Mark(f, n, tid).infos| == |f.infos|
    ensures forall i | 0 <= i < |f.infos| :: Mark(f, n, tid).infos[i].minTid == f.infos[i].minTid && Mark(f, n, tid).infos[i].name == f.infos[i].name
  {
    assert NamesOf(Mark(f, n, tid).infos) == NamesOf(f.infos);
  }

  /** A file that is not needed any more holds only transactions the tables have saved. */
  lemma UnusedIsFlushed(f: LogFile, extra: seq<Frame>, tables: map<Name, Table>, m: Name)
    requires FileOk(f, extra, tables) && !Used(f) && m in tables
    ensures Above(tables[m].diskTid, Accepted(f.frames, [], m)) == []
  {
    Concat(f.frames, extra, []);
    if m in NamesAfter(f.frames, []) {
      NamesGrow(extra, NamesAfter(f.frames, []), m);
      assert m in NamesOf(f.infos);
      var i :| 0 <= i < |f.infos| && NamesOf(f.infos)[i] == m;
      assert f.infos[i].name == m;
      forall x | x in Accepted(f.frames, [], m) ensures x.tid <= tables[m].diskTid
      {
      }
      AboveEmpty(tables[m].diskTid, Accepted(f.frames, [], m));
    } else {
      AcceptedOnlyKnown(f.frames, [], m);
    }
  }

  lemma {:induction false} KeepOk(files: seq<LogFile>, tables: map<Name, Table>, n: Name, tid: int)
    requires AllOk(files, tables) && n in tables && tid <= tables[n].diskTid <= tables[n].tid
    ensures AllOk(Keep(files, n, tid), tables)
  {
    if files != [] {
      assert files[0] in files;
      MarkOk(files[0], [], tables, n, tid);
      KeepOk(files[1..], tables, n, tid);
    }
  }

  lemma {:induction false} KeepExts(files: seq<LogFile>, n: Name, tid: int, low: nat, high: nat)
    requires Exts(files, low, high)
    ensures Exts(Keep(files, n, tid), low, high)
  {
    if files != [] {
      KeepExts(files[1..], n, tid, files[0].ext + 1, high);
      var rest := Keep(files[1..], n, tid);
      var f := Mark(files[0], n, tid);
      assert ([f] + rest)[1..] == rest && [] + rest == rest;
      ExtsWiden(rest, files[0].ext + 1, low, high, high);
    }
  }

  /** Dropping unneeded files loses nothing that is above the saved TID. */
  lemma {:induction false} KeepRetains(files: seq<LogFile>, tables: map<Name, Table>, n: Name, tid: int, m: Name)
    requires AllOk(files, tables)
    requires n in tables && m in tables && tid <= tables[n].diskTid <= tables[n].tid
    requires Increasing(Logged(files, m))
    ensures var k := Logged(Keep(files, n, tid), m);
            && Above(tables[m].diskTid, k) == Above(tables[m].diskTid, Logged(files, m))
            && Increasing(k) && forall x <- k :: x in Logged(files, m)
  {
    if files != [] {
      var f := Mark(files[0], n, tid);
      var d := tables[m].diskTid;
      assert files[0] in files;
      MarkOk(files[0], [], tables, n, tid);
      var head := Accepted(f.frames, [], m);
      var tail := Logged(files[1..], m);
      IncreasingConcat(head, tail);
      KeepRetains(files[1..], tables, n, tid, m);
      var kept := Logged(Keep(files[1..], n, tid), m);
      AboveConcat(d, head, tail);
      if Used(f) {
        assert ([f] + Keep(files[1..], n, tid))[1..] == Keep(files[1..], n, tid);
        AboveConcat(d, head, kept);
        IncreasingConcat(head, kept);
      } else {
        UnusedIsFlushed(f, [], tables, m);
        assert [] + Keep(files[1..], n, tid) == Keep(files[1..], n, tid);
      }
    }
  }

  lemma NotifyKeepsLog(db: DB, n: Name, tid: int)
    requires Inv(db) && Enabled(db, Notify(n, tid))
    ensures LogOk(NotifyFlush(db.log, n, tid), db.tables)
  {
    var l := db.log;
    assert TableOk(db.tables[n], Logged(Files(l), n));
    KeepOk(l.closed, db.tables, n, tid);
    KeepExts(l.closed, n, tid, 0, l.current.ext);
    MarkOk(l.current, l.buf, db.tables, n, tid);
    var l' := NotifyFlush(l, n, tid);
    if !Used(Mark(l.current, n, tid)) {
      if l'.closed != [] {
        ExtsWiden(l'.closed, 0, 0, l.current.ext, l'.current.ext);
      }
      NewFileOk(l'.current.ext, db.tables);
    }
  }

  lemma NotifyKeepsInv(db: DB, n: Name, tid: int)
    requires Inv(db) && Enabled(db, Notify(n, tid))
    ensures Inv(Apply(db, Notify(n, tid)))
  {
    NotifyKeepsLog(db, n, tid);
    var l, l' := db.log, NotifyFlush(db.log, n, tid);
    assert TableOk(db.tables[n], Logged(Files(l), n));
    MarkOk(l.current, l.buf, db.tables, n, tid);
    forall m | m in db.tables ensures TableOk(db.tables[m], Logged(Files(l'), m))
    {
      var d := db.tables[m].diskTid;
      var before, cur := Logged(l.closed, m), Accepted(l.current.frames, [], m);
      LoggedSplit(l, m);
      LoggedSplit(l', m);
      IncreasingConcat(before, cur);
      KeepRetains(l.closed, db.tables, n, tid, m);
      var kept := Logged(l'.closed, m);
      var cur' := Accepted(l'.current.frames, [], m);
      if !Used(Mark(l.current, n, tid)) {
        UnusedIsFlushed(Mark(l.current, n, tid), l.buf, db.tables, m);
      }
      AboveConcat(d, before, cur);
      AboveConcat(d, kept, cur');
      IncreasingConcat(kept, cur');
    }
  }

  lemma SaveKeepsInv(db: DB, n: Name, tid: int)
    requires Inv(db) && Enabled(db, SaveTable(n, tid))
    ensures Inv(Apply(db, SaveTable(n, tid)))
  {
    var t := db.tables[n];
    var t' := t.(diskTid := tid);
    ClosedLater(db.log.closed, db.tables, n, t');
    FileOkLater(db.log.current, db.log.buf, db.tables, n, t');
    var logged := Logged(Files(db.log), n);
    assert TableOk(t, logged);
    AboveAbove(t.diskTid, tid, logged);
    AboveAbove(t.diskTid, tid, t.committed);
  }
}
