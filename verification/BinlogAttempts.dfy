module BinlogAttempts {

  /** Failed commits and the TID ranges of the log files: for every run, replay recomputes the
      writer's ranges if and only if, in every tracked file, the first and the last commit
      each table tried since the file was opened have succeeded.  A restart recomputes all
      ranges, so only what was tried after it counts. */

  import opened Bytes
  import opened BinlogReplay
  import opened BinlogRecovery
  import opened BinlogSafety
  import opened BinlogCrash
  import opened BinlogRanges

  datatype Attempt = Attempt(name: Name, txn: Txn, ok: bool)

  /** What was tried on each file, by file number. */
  type History = map<nat, seq<Attempt>>

  function Tried(h: History, ext: nat): seq<Attempt>
  {
    if ext in h then h[ext] else []
  }

  function Recorded(db: DB, a: Action, h: History): History
    requires Enabled(db, a)
  {
    match a
    case Commit(n, payload, ok, rotate) =>
      var ext := db.log.current.ext;
      var more := h[ext := Tried(h, ext) + [Attempt(n, Txn(db.tables[n].tid + 1, payload), ok)]];
      if ok && rotate then more[db.log.nextExt := []] else more
    case SaveTable(_, _) => h
    case Notify(n, tid) =>
      if Used(Mark(db.log.current, n, tid)) then h else h[NotifyFlush(db.log, n, tid).current.ext := []]
    case CrashAndRecover => map[]
  }

  function HistoryOf(db: DB, run: seq<Action>, h: History): History
    requires Legal(db, run)
    decreases |run|
  {
    if run == [] then h else HistoryOf(Apply(db, run[0]), run[1..], Recorded(db, run[0], h))
  }

  /** The attempts of one table. */
  function Own(att: seq<Attempt>, n: Name): seq<Attempt>
  {
    if att == [] then []
    else
      var last := att[|att| - 1];
      Own(att[..|att| - 1], n) + if last.name == n then [last] else []
  }

  /** The first and the last attempt of every table succeeded. */
  ghost predicate Clean(att: seq<Attempt>)
  {
    forall n: Name :: var own := Own(att, n); own != [] ==> own[0].ok && own[|own| - 1].ok
  }

  // ---------------------------------------------------------------------
  // One table
  // ---------------------------------------------------------------------

  /** The transactions of the attempts that succeeded. */
  function Applied(own: seq<Attempt>): seq<Txn>
  {
    if own == [] then []
    else
      var last := own[|own| - 1];
      Applied(own[..|own| - 1]) + if last.ok then [last.txn] else []
  }

  lemma OwnSnoc(att: seq<Attempt>, x: Attempt, n: Name)
    ensures Own(att + [x], n) == Own(att, n) + if x.name == n then [x] else []
  {
    assert (att + [x])[..|att|] == att;
  }

  lemma AppliedSnoc(own: seq<Attempt>, x: Attempt)
    ensures Applied(own + [x]) == Applied(own) + if x.ok then [x.txn] else []
  {
    assert (own + [x])[..|own|] == own;
  }

  lemma {:induction false} OwnAreTried(att: seq<Attempt>, n: Name)
    ensures forall x <- Own(att, n) :: x in att && x.name == n
  {
    if att != [] {
      OwnAreTried(att[..|att| - 1], n);
    }
  }

  predicate Rising(own: seq<Attempt>)
  {
    forall i, j | 0 <= i < j < |own| :: own[i].txn.tid < own[j].txn.tid
  }

  lemma {:induction false} AppliedWereTried(own: seq<Attempt>, bound: int)
    requires forall x <- own :: x.txn.tid < bound
    ensures forall t <- Applied(own) :: t.tid < bound
  {
    if own != [] {
      AppliedWereTried(own[..|own| - 1], bound);
      assert own[|own| - 1] in own;
    }
  }

  /** The attempts and what was applied start, and end, with the same id exactly if the
      first, and the last, succeeded. */
  lemma {:induction false} AppliedEnds(own: seq<Attempt>)
    requires own != [] && Rising(own)
    ensures own[0].ok <==> Applied(own) != [] && Applied(own)[0].tid == own[0].txn.tid
    ensures own[|own| - 1].ok <==> Applied(own) != [] && Applied(own)[|Applied(own)| - 1].tid == own[|own| - 1].txn.tid
  {
    var before, last := own[..|own| - 1], own[|own| - 1];
    forall x | x in before ensures x.txn.tid < last.txn.tid
    {
      var i :| 0 <= i < |before| && before[i] == x;
      assert own[i] == x;
    }
    AppliedWereTried(before, last.txn.tid);
    if before != [] {
      AppliedEnds(before);
    }
  }

  // ---------------------------------------------------------------------
  // One file
  // ---------------------------------------------------------------------

  /** An entry as the writer keeps it: from the first to the last id that was tried. */
  predicate EntryReflects(info: Info, own: seq<Attempt>, txns: seq<Txn>)
  {
    && own != [] && Rising(own) && own[0].txn.tid >= 1 && txns == Applied(own)
    && info.minTid == own[0].txn.tid && info.maxTid == own[|own| - 1].txn.tid
  }

  ghost predicate Reflects(f: LogFile, att: seq<Attempt>)
  {
    && (forall n: Name :: Own(att, n) != [] ==> n in NamesOf(f.infos))
    && forall i | 0 <= i < |f.infos| ::
         EntryReflects(f.infos[i], Own(att, f.infos[i].name), Accepted(f.frames, [], f.infos[i].name))
  }

  /** If every table of a file has a transaction in it, all introductions are on disk. */
  lemma NamesComplete(f: LogFile, extra: seq<Frame>, tables: map<Name, Table>)
    requires FileOk(f, extra, tables) && OnlyIntros(extra)
    requires forall i | 0 <= i < |f.infos| :: Accepted(f.frames, [], f.infos[i].name) != []
    ensures NamesAfter(f.frames, []) == NamesOf(f.infos)
  {
    var names := NamesAfter(f.frames, []);
    Concat(f.frames, extra, []);
    if extra != [] {
      var n := extra[0].name;
      assert extra[0] in extra;
      NamesGrow(extra[1..], names + [n], n);
      assert n in NamesOf(f.infos);
      var i :| 0 <= i < |f.infos| && NamesOf(f.infos)[i] == n;
      assert f.infos[i].name == n;
      AcceptedOnlyKnown(f.frames, [], n);
    }
  }

  lemma SettledIsClean(f: LogFile, att: seq<Attempt>, n: Name)
    requires Reflects(f, att) && Settled(f) && Own(att, n) != []
    ensures var own := Own(att, n); own[0].ok && own[|own| - 1].ok
  {
    assert n in NamesOf(f.infos);
    var i :| 0 <= i < |f.infos| && NamesOf(f.infos)[i] == n;
    assert f.infos[i].name == n;
    EntryEnds(f.infos[i], Own(att, n), Accepted(f.frames, [], n));
  }

  /** An entry has the range of its transactions exactly if the first and the last attempt
      succeeded. */
  lemma EntryEnds(info: Info, own: seq<Attempt>, txns: seq<Txn>)
    requires EntryReflects(info, own, txns)
    ensures RangeOf(info, txns) <==> own[0].ok && own[|own| - 1].ok
    ensures RangeOf(info, txns) ==> RangeExact(info, txns)
  {
    assert |own| == 1 || own[0].txn.tid < own[|own| - 1].txn.tid;
    AppliedEnds(own);
  }

  lemma CleanEntry(f: LogFile, att: seq<Attempt>, i: nat)
    requires Reflects(f, att) && Clean(att) && i < |f.infos|
    ensures RangeExact(f.infos[i], Accepted(f.frames, [], f.infos[i].name))
  {
    EntryEnds(f.infos[i], Own(att, f.infos[i].name), Accepted(f.frames, [], f.infos[i].name));
  }

  lemma SettledIffClean(f: LogFile, extra: seq<Frame>, tables: map<Name, Table>, att: seq<Attempt>)
    requires FileOk(f, extra, tables) && OnlyIntros(extra) && Reflects(f, att)
    ensures Settled(f) <==> Clean(att)
  {
    if Settled(f) {
      forall n: Name | Own(att, n) != [] ensures var own := Own(att, n); own[0].ok && own[|own| - 1].ok
      {
        SettledIsClean(f, att, n);
      }
    }
    if Clean(att) {
      forall i | 0 <= i < |f.infos| ensures RangeExact(f.infos[i], Accepted(f.frames, [], f.infos[i].name))
      {
        CleanEntry(f, att, i);
      }
      NamesComplete(f, extra, tables);
    }
  }

  // ---------------------------------------------------------------------
  // The log
  // ---------------------------------------------------------------------

  /** A closed file: as the writer left it, or recomputed by a restart. */
  ghost predicate Remembers(f: LogFile, att: seq<Attempt>)
  {
    if att == [] then Settled(f) else Reflects(f, att)
  }

  predicate Below(att: seq<Attempt>, tables: map<Name, Table>)
  {
    forall x <- att :: x.name in tables && x.txn.tid <= tables[x.name].tid
  }

  ghost predicate AllRemember(closed: seq<LogFile>, h: History)
  {
    forall f <- closed :: Remembers(f, Tried(h, f.ext))
  }

  ghost predicate LogKept(l: Log, tables: map<Name, Table>, h: History)
  {
    AllRemember(l.closed, h) && Reflects(l.current, Tried(h, l.current.ext)) && Below(Tried(h, l.current.ext), tables)
  }

  ghost predicate Kept(db: DB, h: History, k: nat)
  {
    LogKept(db.log, db.tables, h) && forall n <- db.tables :: db.tables[n].tid <= k
  }

  /** In such a state replay recomputes the ranges exactly if every history is clean. */
  lemma SameIffClean(db: DB, h: History, k: nat)
    requires Inv(db) && Kept(db, h, k) && k <= INT64_MAX
    ensures AllSameRanges(ReplayFiles(Files(db.log), OnDisk(db.tables)).files, Files(db.log)) <==>
            forall f <- Files(db.log) :: Clean(Tried(h, f.ext))
  {
    var l := db.log;
    RecoveryRecomputes(db, k);
    forall f | f in Files(l) ensures Settled(f) <==> Clean(Tried(h, f.ext))
    {
      if f == l.current {
        SettledIffClean(f, l.buf, db.tables, Tried(h, f.ext));
      } else {
        assert f in l.closed;
        ClosedIffClean(f, db.tables, Tried(h, f.ext));
      }
    }
  }

  lemma ClosedIffClean(f: LogFile, tables: map<Name, Table>, att: seq<Attempt>)
    requires FileOk(f, [], tables) && Remembers(f, att)
    ensures Settled(f) <==> Clean(att)
  {
    if att == [] {
      assert forall n: Name :: Own(att, n) == [];
    } else {
      SettledIffClean(f, [], tables, att);
    }
  }

  lemma {:induction false} ExtsDiffer(files: seq<LogFile>, low: nat, high: nat)
    requires Exts(files, low, high)
    ensures forall f <- files :: low <= f.ext < high
  {
    if files != [] {
      ExtsDiffer(files[1..], files[0].ext + 1, high);
      assert files == [files[0]] + files[1..];
    }
  }

  // ---------------------------------------------------------------------
  // Commit
  // ---------------------------------------------------------------------

  lemma RisingSnoc(own: seq<Attempt>, x: Attempt)
    requires Rising(own) && forall y <- own :: y.txn.tid < x.txn.tid
    ensures Rising(own + [x])
  {
    assert forall i | 0 <= i < |own| :: own[i] in own;
  }

  /** One more attempt of a table that has an entry. */
  lemma EntryTriedAgain(info: Info, own: seq<Attempt>, txns: seq<Txn>, x: Attempt)
    requires EntryReflects(info, own, txns) && forall y <- own :: y.txn.tid < x.txn.tid
    ensures EntryReflects(info.(maxTid := Max(info.maxTid, x.txn.tid)), own + [x], txns + if x.ok then [x.txn] else [])
  {
    RisingSnoc(own, x);
    AppliedSnoc(own, x);
    assert own[|own| - 1] in own;
  }

  lemma EntryTriedFirst(n: Name, x: Attempt)
    requires x.txn.tid >= 1
    ensures EntryReflects(Info(n, x.txn.tid, x.txn.tid, 0), [] + [x], [] + if x.ok then [x.txn] else [])
  {
    AppliedSnoc([], x);
  }

  /** The transactions of a table in the current file, after an attempt. */
  lemma FramesAfterAttempt(l: Log, tables: map<Name, Table>, n: Name, txn: Txn, ok: bool, m: Name)
    requires CurrentOk(l.current, l.buf, tables)
    ensures Accepted(CommitLog(l, n, txn, ok, false).current.frames, [], m) ==
            Accepted(l.current.frames, [], m) + if m == n && ok then [txn] else []
  {
    CommitFrames(l.current.frames, l.buf, l.current.infos, n, txn);
    var acc := Accepted(l.current.frames, [], m);
    assert acc + [] == acc;
  }

  lemma AttemptsBelow(att: seq<Attempt>, tables: map<Name, Table>, n: Name)
    requires Below(att, tables) && n in tables
    ensures forall y <- Own(att, n) :: y.txn.tid <= tables[n].tid
  {
    OwnAreTried(att, n);
  }

  lemma EntryAfterAttempt(l: Log, tables: map<Name, Table>, n: Name, txn: Txn, ok: bool, att: seq<Attempt>, i: nat)
    requires CurrentOk(l.current, l.buf, tables) && n in tables && 0 < txn.tid == tables[n].tid + 1
    requires Reflects(l.current, att) && Below(att, tables) && i < |Touch(l.current.infos, n, txn.tid)|
    ensures var info := Touch(l.current.infos, n, txn.tid)[i];
            EntryReflects(info, Own(att + [Attempt(n, txn, ok)], info.name),
                          Accepted(CommitLog(l, n, txn, ok, false).current.frames, [], info.name))
  {
    var c, x := l.current, Attempt(n, txn, ok);
    var k, info := Find(c.infos, n), Touch(c.infos, n, txn.tid)[i];
    NamesTouch(c.infos, n, txn.tid);
    OwnSnoc(att, x, info.name);
    FramesAfterAttempt(l, tables, n, txn, ok, info.name);
    AttemptsBelow(att, tables, n);
    if i != k {
      OtherInfosKeepName(c, l.buf, tables, n, i);
      Unchanged(Own(att, info.name), Accepted(c.frames, [], info.name));
    } else if k < |c.infos| {
      EntryTriedAgain(c.infos[k], Own(att, n), Accepted(c.frames, [], n), x);
    } else {
      NewNameHasNoTxns(c, l.buf, tables, n);
      assert Own(att, n) == [];
      EntryTriedFirst(n, x);
    }
  }

  lemma Unchanged(own: seq<Attempt>, txns: seq<Txn>)
    ensures own + [] == own && txns + [] == txns
  {
  }

  lemma CommitReflects(l: Log, tables: map<Name, Table>, n: Name, txn: Txn, ok: bool, att: seq<Attempt>)
    requires CurrentOk(l.current, l.buf, tables) && n in tables && 0 < txn.tid == tables[n].tid + 1
    requires Reflects(l.current, att) && Below(att, tables)
    ensures Reflects(CommitLog(l, n, txn, ok, false).current, att + [Attempt(n, txn, ok)])
  {
    var c, x := CommitLog(l, n, txn, ok, false).current, Attempt(n, txn, ok);
    assert c.infos == Touch(l.current.infos, n, txn.tid);
    forall i | 0 <= i < |c.infos|
      ensures EntryReflects(c.infos[i], Own(att + [x], c.infos[i].name), Accepted(c.frames, [], c.infos[i].name))
    {
      EntryAfterAttempt(l, tables, n, txn, ok, att, i);
    }
    forall m: Name | Own(att + [x], m) != [] ensures m in NamesOf(c.infos)
    {
      TriedIsEntered(l.current.infos, att, x, m);
    }
  }

  /** Every table that was tried has an entry. */
  lemma TriedIsEntered(infos: seq<Info>, att: seq<Attempt>, x: Attempt, m: Name)
    requires Own(att, m) != [] ==> m in NamesOf(infos)
    requires Own(att + [x], m) != []
    ensures m in NamesOf(Touch(infos, x.name, x.txn.tid))
  {
    OwnSnoc(att, x, m);
    NamesTouch(infos, x.name, x.txn.tid);
    if m == x.name {
      assert NamesOf(Touch(infos, x.name, x.txn.tid))[Find(infos, x.name)] == m;
    }
  }

  lemma NewReflects(ext: nat)
    ensures Reflects(NewFile(ext), [])
  {
    assert forall n: Name :: Own([], n) == [];
  }

  lemma RecordElsewhere(closed: seq<LogFile>, h: History, ext: nat, att: seq<Attempt>)
    requires AllRemember(closed, h) && forall f <- closed :: f.ext != ext
    ensures AllRemember(closed, h[ext := att])
  {
  }

  lemma CloseRemembers(closed: seq<LogFile>, f: LogFile, h: History, next: nat)
    requires AllRemember(closed, h) && Reflects(f, Tried(h, f.ext)) && Tried(h, f.ext) != []
    requires f.ext < next && forall g <- closed :: g.ext < next
    ensures AllRemember(closed + [f], h[next := []])
  {
    assert AllRemember(closed + [f], h);
    RecordElsewhere(closed + [f], h, next, []);
  }

  lemma BelowNext(att: seq<Attempt>, tables: map<Name, Table>, x: Attempt, after: map<Name, Table>)
    requires Below(att, tables) && x.name in after && x.txn.tid <= after[x.name].tid
    requires forall n <- tables :: n in after && tables[n].tid <= after[n].tid
    ensures Below(att + [x], after)
  {
  }

  /** The log after an attempt that does not rotate. */
  lemma AttemptKept(l: Log, tables: map<Name, Table>, n: Name, x: Attempt, h: History, after: map<Name, Table>, h': History)
    requires ExtsOk(l) && CurrentOk(l.current, l.buf, tables) && LogKept(l, tables, h)
    requires n == x.name && n in tables && 0 < x.txn.tid == tables[n].tid + 1
    requires n in after && x.txn.tid <= after[n].tid && forall m <- tables :: m in after && tables[m].tid <= after[m].tid
    requires h' == h[l.current.ext := Tried(h, l.current.ext) + [x]]
    ensures LogKept(CommitLog(l, n, x.txn, x.ok, false), after, h')
  {
    CommitReflects(l, tables, n, x.txn, x.ok, Tried(h, l.current.ext));
    ExtsDiffer(l.closed, 0, l.current.ext);
    RecordElsewhere(l.closed, h, l.current.ext, Tried(h', l.current.ext));
    BelowNext(Tried(h, l.current.ext), tables, x, after);
  }

  lemma RotateKept(l: Log, tables: map<Name, Table>, h: History)
    requires ExtsOk(l) && LogKept(l, tables, h) && Tried(h, l.current.ext) != []
    ensures LogKept(Rotate(l), tables, h[l.nextExt := []])
  {
    ExtsDiffer(l.closed, 0, l.current.ext);
    CloseRemembers(l.closed, l.current, h, l.nextExt);
    NewReflects(l.nextExt);
  }

  lemma CommittedTids(tables: map<Name, Table>, n: Name, payload: seq<byte>, ok: bool, k: nat)
    requires n in tables && forall m <- tables :: tables[m].tid <= k
    ensures var after := CommittedTables(tables, n, payload, ok);
            && n in after && after[n].tid == tables[n].tid + 1
            && (forall m <- tables :: m in after && tables[m].tid <= after[m].tid)
            && forall m <- after :: after[m].tid <= k + 1
  {
  }

  /** A commit, successful or not, rotating or not, is recorded as the writer's entries say. */
  lemma CommitKeeps(db: DB, n: Name, payload: seq<byte>, ok: bool, rotate: bool, h: History, k: nat)
    requires Inv(db) && n in db.tables && Kept(db, h, k)
    ensures Kept(Committed(db, n, payload, ok, rotate), Recorded(db, Commit(n, payload, ok, rotate), h), k + 1)
  {
    var x := Attempt(n, Txn(db.tables[n].tid + 1, payload), ok);
    CommittedTids(db.tables, n, payload, ok, k);
    CurrentTids(db, n);
    CommitLogKept(db.log, db.tables, n, x, rotate, h, CommittedTables(db.tables, n, payload, ok));
  }

  lemma CommitLogKept(l: Log, tables: map<Name, Table>, n: Name, x: Attempt, rotate: bool, h: History, after: map<Name, Table>)
    requires LogOk(l, tables) && LogKept(l, tables, h)
    requires n == x.name && n in tables && 0 < x.txn.tid == tables[n].tid + 1
    requires n in after && x.txn.tid <= after[n].tid && forall m <- tables :: m in after && tables[m].tid <= after[m].tid
    ensures var tried := h[l.current.ext := Tried(h, l.current.ext) + [x]];
            LogKept(CommitLog(l, n, x.txn, x.ok, rotate), after, if x.ok && rotate then tried[l.nextExt := []] else tried)
  {
    var tried := h[l.current.ext := Tried(h, l.current.ext) + [x]];
    AttemptKept(l, tables, n, x, h, after, tried);
    if x.ok && rotate {
      RotateKept(CommitLog(l, n, x.txn, x.ok, false), after, tried);
    }
  }

  // ---------------------------------------------------------------------
  // Flush notification and recovery
  // ---------------------------------------------------------------------

  lemma MarkRemembers(f: LogFile, n: Name, tid: int, att: seq<Attempt>)
    ensures Reflects(f, att) ==> Reflects(Mark(f, n, tid), att)
    ensures Settled(f) ==> Settled(Mark(f, n, tid))
  {
    assert NamesOf(Mark(f, n, tid).infos) == NamesOf(f.infos);
  }

  lemma {:induction false} KeepRemembers(files: seq<LogFile>, n: Name, tid: int, h: History)
    requires AllRemember(files, h)
    ensures AllRemember(Keep(files, n, tid), h)
  {
    if files != [] {
      assert files[0] in files;
      MarkRemembers(files[0], n, tid, Tried(h, files[0].ext));
      KeepRemembers(files[1..], n, tid, h);
    }
  }

  lemma NotifyKeeps(db: DB, n: Name, tid: int, h: History, k: nat)
    requires Inv(db) && Enabled(db, Notify(n, tid)) && Kept(db, h, k)
    ensures Kept(Apply(db, Notify(n, tid)), Recorded(db, Notify(n, tid), h), k)
  {
    var l := db.log;
    KeepRemembers(l.closed, n, tid, h);
    MarkRemembers(l.current, n, tid, Tried(h, l.current.ext));
    if !Used(Mark(l.current, n, tid)) {
      var ext := NotifyFlush(l, n, tid).current.ext;
      KeepExts(l.closed, n, tid, 0, l.current.ext);
      ExtsDiffer(Keep(l.closed, n, tid), 0, l.current.ext);
      RecordElsewhere(Keep(l.closed, n, tid), h, ext, []);
      NewReflects(ext);
    }
  }

  lemma {:induction false} AdoptedAmong(files: seq<LogFile>)
    ensures forall f <- Adopt(files) :: f in files
  {
    if files != [] && files[0].infos == [] {
      AdoptedAmong(files[1..]);
    }
  }

  lemma RecoverKeeps(db: DB, k: nat)
    requires Inv(db) && (forall n <- db.tables :: db.tables[n].tid <= k) && k <= INT64_MAX
    ensures Kept(Recover(db), map[], k)
  {
    var files := ReplayFiles(Files(db.log), OnDisk(db.tables)).files;
    RecoveryRecomputes(db, k);
    AdoptedAmong(files);
    var l := Reopen(Adopt(files));
    assert forall f <- l.closed :: f in Adopt(files);
    NewReflects(l.current.ext);
    forall n | n in db.tables ensures Recover(db).tables[n].tid <= k
    {
      RecoveryIsExact(db, n);
      TopBelow(db.tables[n], Logged(Files(db.log), n));
    }
  }

  // ---------------------------------------------------------------------
  // Over runs
  // ---------------------------------------------------------------------

  lemma StepKeeps(db: DB, a: Action, h: History, k: nat)
    requires Inv(db) && Enabled(db, a) && Kept(db, h, k) && k <= INT64_MAX
    ensures Kept(Apply(db, a), Recorded(db, a, h), if a.Commit? then k + 1 else k)
  {
    match a
    case Commit(n, payload, ok, rotate) => CommitKeeps(db, n, payload, ok, rotate, h, k);
    case SaveTable(n, tid) =>
    case Notify(n, tid) => NotifyKeeps(db, n, tid, h, k);
    case CrashAndRecover => RecoverKeeps(db, k);
  }

  lemma {:induction false} RunKeeps(db: DB, run: seq<Action>, h: History, k: nat)
    requires Inv(db) && Legal(db, run) && Kept(db, h, k) && k + Commits(run) <= INT64_MAX
    ensures Kept(After(db, run), HistoryOf(db, run, h), k + Commits(run))
    decreases |run|
  {
    if run != [] {
      StepKeepsInv(db, run[0]);
      StepKeeps(db, run[0], h, k);
      RunKeeps(Apply(db, run[0]), run[1..], Recorded(db, run[0], h), if run[0].Commit? then k + 1 else k);
    }
  }

  /** After any run, failed commits included, replay recomputes the writer's ranges if and
      only if in every tracked file the first and the last attempt of each table since the
      file was opened, and since the last restart, succeeded. */
  lemma RangesRecomputedIff(names: set<Name>, run: seq<Action>)
    requires Legal(Fresh(names), run) && Commits(run) <= INT64_MAX
    ensures var db, h := After(Fresh(names), run), HistoryOf(Fresh(names), run, map[]);
            AllSameRanges(ReplayFiles(Files(db.log), OnDisk(db.tables)).files, Files(db.log)) <==>
            forall f <- Files(db.log) :: Clean(Tried(h, f.ext))
  {
    FreshOk(names);
    NewReflects(0);
    RunKeepsInv(Fresh(names), run);
    RunKeeps(Fresh(names), run, map[], 0);
    SameIffClean(After(Fresh(names), run), HistoryOf(Fresh(names), run, map[]), Commits(run));
  }

  // ---------------------------------------------------------------------
  // Runs without a failed commit
  // ---------------------------------------------------------------------

  predicate NoFailure(h: History)
  {
    forall ext <- h :: forall x <- h[ext] :: x.ok
  }

  lemma {:induction false} RunWithoutFailure(db: DB, run: seq<Action>, h: History)
    requires Legal(db, run) && NoFailedCommit(run) && NoFailure(h)
    ensures NoFailure(HistoryOf(db, run, h))
    decreases |run|
  {
    if run != [] {
      assert run[0] in run && forall a <- run[1..] :: a in run;
      RunWithoutFailure(Apply(db, run[0]), run[1..], Recorded(db, run[0], h));
    }
  }

  lemma NoFailureIsClean(h: History, ext: nat)
    requires NoFailure(h)
    ensures Clean(Tried(h, ext))
  {
    var att := Tried(h, ext);
    forall n: Name | Own(att, n) != [] ensures var own := Own(att, n); own[0].ok && own[|own| - 1].ok
    {
      OwnAreTried(att, n);
    }
  }

  /** After any run without a failed commit (rotations, flushes and crashes included), the
      writer's ranges are exact in every tracked file, and replay recomputes them. */
  lemma RangesRecomputed(names: set<Name>, run: seq<Action>)
    requires Legal(Fresh(names), run) && NoFailedCommit(run) && Commits(run) <= INT64_MAX
    ensures var db := After(Fresh(names), run);
            && AllExact(Files(db.log))
            && AllSameRanges(ReplayFiles(Files(db.log), OnDisk(db.tables)).files, Files(db.log))
  {
    FreshOk(names);
    RunKeepsExact(Fresh(names), run, 0);
    RunWithoutFailure(Fresh(names), run, map[]);
    forall f <- Files(After(Fresh(names), run).log) ensures Clean(Tried(HistoryOf(Fresh(names), run, map[]), f.ext))
    {
      NoFailureIsClean(HistoryOf(Fresh(names), run, map[]), f.ext);
    }
    RangesRecomputedIff(names, run);
  }
}
