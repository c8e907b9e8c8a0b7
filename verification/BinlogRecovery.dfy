module BinlogRecovery {

  /** The life of one binlog: commits, failed commits, rotation, index flushes and the
      removal of log files they allow, crashes and recoveries.

      The disk is modelled as the frames each tracked file holds; the write buffer is lost
      in a crash.  Flush modes are the write-through ones, so a commit that returned true
      is on disk. */

  import opened Bytes
  import opened BinlogReplay

  /** A tracked log file: its number, what is known about its tables, what is on disk. */
  datatype LogFile = LogFile(ext: nat, infos: seq<Info>, frames: seq<Frame>)

  /** The tracked files, the one being written, and the frames still in the buffer. */
  datatype Log = Log(closed: seq<LogFile>, current: LogFile, buf: seq<Frame>, nextExt: nat)

  // ---------------------------------------------------------------------
  // Operations on the log
  // ---------------------------------------------------------------------

  function NewFile(ext: nat): LogFile
  {
    LogFile(ext, [], [])
  }

  function Find(infos: seq<Info>, name: Name): (i: nat)
    ensures i <= |infos|
    ensures i < |infos| ==> infos[i].name == name
    ensures forall j | 0 <= j < i :: infos[j].name != name
  {
    if infos == [] then 0
    else if infos[0].name == name then 0
    else 1 + Find(infos[1..], name)
  }

  /** GetWriteIndexID: raise the range of a known table or enter a new one. */
  function Touch(infos: seq<Info>, name: Name, tid: int): seq<Info>
  {
    var i := Find(infos, name);
    if i < |infos| then infos[i := infos[i].(maxTid := Max(infos[i].maxTid, tid))]
    else infos + [Info(name, tid, tid, 0)]
  }

  function Intro(infos: seq<Info>, name: Name): seq<Frame>
  {
    var i := Find(infos, name);
    if i < |infos| then [] else [AddIndex(i, name)]
  }

  /** Put the frames of one transaction into the buffer. */
  function Append(l: Log, name: Name, txn: Txn): Log
  {
    l.(current := l.current.(infos := Touch(l.current.infos, name, txn.tid)),
       buf := l.buf + Intro(l.current.infos, name) + [AddTxn(Find(l.current.infos, name), txn.tid, txn.payload)])
  }

  /** A write of the whole buffer that succeeds. */
  function WriteOk(l: Log): Log
  {
    l.(current := l.current.(frames := l.current.frames + l.buf), buf := [])
  }

  /** A write that fails: the file is cut back, the last transaction leaves the buffer. */
  function WriteFailed(l: Log): Log
  {
    if l.buf == [] then l else l.(buf := l.buf[..|l.buf| - 1])
  }

  function Rotate(l: Log): Log
  {
    Log(l.closed + [l.current], NewFile(l.nextExt), [], l.nextExt + 1)
  }

  function CommitLog(l: Log, name: Name, txn: Txn, ok: bool, rotate: bool): Log
  {
    var a := Append(l, name, txn);
    if !ok then WriteFailed(a)
    else if rotate then Rotate(WriteOk(a))
    else WriteOk(a)
  }

  function Mark(f: LogFile, name: Name, tid: int): LogFile
  {
    f.(infos := seq(|f.infos|, i requires 0 <= i < |f.infos| =>
      if f.infos[i].name == name then f.infos[i].(flushedTid := Max(f.infos[i].flushedTid, tid)) else f.infos[i]))
  }

  /** A file still holds recovery data if some table's last TID in it is not flushed. */
  predicate Used(f: LogFile)
  {
    exists i | 0 <= i < |f.infos| :: f.infos[i].flushedTid < f.infos[i].maxTid
  }

  function Keep(files: seq<LogFile>, name: Name, tid: int): seq<LogFile>
  {
    if files == [] then []
    else
      var f := Mark(files[0], name, tid);
      (if Used(f) then [f] else []) + Keep(files[1..], name, tid)
  }

  /** NotifyIndexFlush: drop every file that is no longer needed; when that includes the
      current one, start a new one, from number 0 if nothing is left. */
  function NotifyFlush(l: Log, name: Name, tid: int): Log
  {
    var closed := Keep(l.closed, name, tid);
    var current := Mark(l.current, name, tid);
    if Used(current) then l.(closed := closed, current := current)
    else
      var ext := if closed == [] then 0 else l.nextExt;
      Log(closed, NewFile(ext), [], ext + 1)
  }

  /** All tracked files in the order in which the meta file lists them. */
  function Files(l: Log): seq<LogFile>
  {
    l.closed + [l.current]
  }

  // ---------------------------------------------------------------------
  // Crash and recovery
  // ---------------------------------------------------------------------

  /** The meta list is loaded back to front and consumed from its end. */
  function LoadedBackwards<T>(meta: seq<T>): seq<T>
  {
    if meta == [] then [] else LoadedBackwards(meta[1..]) + [meta[0]]
  }

  function ConsumedFromEnd<T>(saved: seq<T>): seq<T>
  {
    if saved == [] then [] else [saved[|saved| - 1]] + ConsumedFromEnd(saved[..|saved| - 1])
  }

  /** So files are replayed in the order in which the meta file lists them. */
  lemma {:induction false} ReplayOrderIsMetaOrder<T>(meta: seq<T>)
    ensures ConsumedFromEnd(LoadedBackwards(meta)) == meta
  {
    if meta != [] {
      var tail := LoadedBackwards(meta[1..]);
      assert LoadedBackwards(meta)[..|LoadedBackwards(meta)| - 1] == tail;
      ReplayOrderIsMetaOrder(meta[1..]);
    }
  }

  datatype Recovered = Recovered(files: seq<LogFile>, served: Served)

  /** Replay the files one after the other; each file's table infos are recomputed. */
  function ReplayFiles(files: seq<LogFile>, served: Served): Recovered
  {
    if files == [] then Recovered([], served)
    else
      var r := ReplayFrames(StartFile(served), files[0].frames);
      var rest := ReplayFiles(files[1..], r.served);
      Recovered([files[0].(infos := r.infos)] + rest.files, rest.served)
  }

  lemma {:induction false} FilesOnlyGrow(files: seq<LogFile>, served: Served)
    requires forall m <- served :: served[m].tid >= -1
    ensures var s := ReplayFiles(files, served).served;
            && s.Keys == served.Keys
            && (forall m <- served :: s[m].tid >= served[m].tid && (served[m].tid == -1 ==> s[m].tid == -1))
  {
    if files != [] {
      TidsOnlyGrow(StartFile(served), files[0].frames);
      FilesOnlyGrow(files[1..], ReplayFrames(StartFile(served), files[0].frames).served);
    }
  }

  /** Tables that have everything the files lead to gain nothing from any of the files. */
  lemma {:induction false} FilesCaughtUp(files: seq<LogFile>, a: Served, b: Served)
    requires a.Keys == b.Keys && forall m <- a :: a[m].tid >= -1 && (a[m].tid == -1 ==> b[m].tid == -1)
    requires forall m <- a :: m in ReplayFiles(files, a).served ==> ReplayFiles(files, a).served[m].tid <= b[m].tid
    ensures ReplayFiles(files, b).served == b
  {
    if files != [] {
      var a1 := ReplayFrames(StartFile(a), files[0].frames).served;
      TidsOnlyGrow(StartFile(a), files[0].frames);
      FilesOnlyGrow(files[1..], a1);
      CaughtUp(StartFile(a), StartFile(b), files[0].frames);
      FilesCaughtUp(files[1..], a1, b);
    }
  }

  /** Replaying the tracked files again changes no table. */
  lemma ReplayFilesTwice(files: seq<LogFile>, served: Served)
    requires forall m <- served :: served[m].tid >= -1
    ensures var once := ReplayFiles(files, served).served;
            ReplayFiles(files, once).served == once
  {
    FilesOnlyGrow(files, served);
    FilesCaughtUp(files, served, ReplayFiles(files, served).served);
  }

  /** Leading files without any table are removed; later ones are kept. */
  function Adopt(files: seq<LogFile>): seq<LogFile>
  {
    if files == [] then []
    else if files[0].infos == [] then Adopt(files[1..])
    else files
  }

  /** What is left starts with the first file that has a table. */
  lemma {:induction false} AdoptShape(files: seq<LogFile>) returns (k: nat)
    ensures k <= |files| && Adopt(files) == files[k..] && (forall i | 0 <= i < k :: files[i].infos == [])
    ensures k < |files| ==> files[k].infos != []
  {
    if files != [] && files[0].infos == [] {
      k := AdoptShape(files[1..]);
      assert files[1..][k..] == files[k + 1..];
      k := k + 1;
    } else {
      k := 0;
    }
  }

  function Reopen(files: seq<LogFile>): Log
  {
    if files == [] then Log([], NewFile(0), [], 1)
    else
      var last := files[|files| - 1];
      if last.frames == [] then Log(files[..|files| - 1], NewFile(last.ext), [], last.ext + 1)
      else Log(files, NewFile(last.ext + 1), [], last.ext + 2)
  }

  /** Writing goes on in an empty file with the next free number; every recovered file with
      frames stays, and an empty one at the end is used again. */
  lemma ReopenShape(files: seq<LogFile>)
    ensures var l := Reopen(files);
            && l.current.infos == [] && l.current.frames == [] && l.buf == [] && l.nextExt == l.current.ext + 1
            && (forall f <- files :: f in l.closed || (f == files[|files| - 1] && f.frames == [] && f.ext == l.current.ext))
            && (forall f <- l.closed :: f in files)
            && (files == [] ==> l.current.ext == 0)
            && (files != [] && files[|files| - 1].frames != [] ==> l.closed == files && l.current.ext == files[|files| - 1].ext + 1)
            && (files != [] && files[|files| - 1].frames == [] ==> |l.closed| == |files| - 1 && l.current.ext == files[|files| - 1].ext)
  {
    if files != [] {
      assert files == files[..|files| - 1] + [files[|files| - 1]];
    }
  }

  // ---------------------------------------------------------------------
  // The log together with the tables
  // ---------------------------------------------------------------------

  /** A table: its current TID, every committed transaction, and the TID up to which its
      own files on disk are complete. */
  datatype Table = Table(tid: int, committed: seq<Txn>, diskTid: int)

  datatype DB = DB(log: Log, tables: map<Name, Table>)

  datatype Action =
    | Commit(name: Name, payload: seq<byte>, ok: bool, rotate: bool)
    | SaveTable(name: Name, tid: int)     // the table's own files now cover this TID
    | Notify(name: Name, tid: int)        // the binlog is told about it
    | CrashAndRecover

  function Above(d: int, txns: seq<Txn>): seq<Txn>
  {
    if txns == [] then []
    else (if txns[0].tid > d then [txns[0]] else []) + Above(d, txns[1..])
  }

  function UpTo(d: int, txns: seq<Txn>): seq<Txn>
  {
    if txns == [] then []
    else (if txns[0].tid <= d then [txns[0]] else []) + UpTo(d, txns[1..])
  }

  /** What a restarted daemon finds in the table's own files. */
  function OnDisk(tables: map<Name, Table>): Served
  {
    map n | n in tables :: Live(tables[n].diskTid, UpTo(tables[n].diskTid, tables[n].committed))
  }

  predicate Enabled(db: DB, a: Action)
  {
    match a
    case Commit(n, _, _, _) => n in db.tables
    case SaveTable(n, tid) => n in db.tables && db.tables[n].diskTid <= tid <= db.tables[n].tid
    case Notify(n, tid) => n in db.tables && tid <= db.tables[n].diskTid
    case CrashAndRecover => true
  }

  function Recover(db: DB): DB
  {
    var r := ReplayFiles(Files(db.log), OnDisk(db.tables));
    DB(Reopen(Adopt(r.files)),
       map n | n in db.tables ::
         if n in r.served then db.tables[n].(tid := r.served[n].tid) else db.tables[n])
  }

  function Apply(db: DB, a: Action): DB
    requires Enabled(db, a)
  {
    match a
    case Commit(n, payload, ok, rotate) =>
      var t := db.tables[n];
      var txn := Txn(t.tid + 1, payload);
      DB(CommitLog(db.log, n, txn, ok, rotate),
         db.tables[n := t.(tid := txn.tid, committed := if ok then t.committed + [txn] else t.committed)])
    case SaveTable(n, tid) => db.(tables := db.tables[n := db.tables[n].(diskTid := tid)])
    case Notify(n, tid) => db.(log := NotifyFlush(db.log, n, tid))
    case CrashAndRecover => Recover(db)
  }

  function Fresh(names: set<Name>): DB
  {
    DB(Log([], NewFile(0), [], 1), map n | n in names :: Table(0, [], 0))
  }

  // ---------------------------------------------------------------------
  // Well-formed files
  // ---------------------------------------------------------------------

  /** Every ADD_INDEX introduces the next id under a new name, every ADD_TXN refers to an
      id introduced before it. */
  predicate WellFormed(frames: seq<Frame>, names: seq<Name>)
    decreases |frames|
  {
    frames == [] ||
    match frames[0]
    case AddIndex(id, name) => id == |names| && name !in names && WellFormed(frames[1..], names + [name])
    case AddTxn(id, _, _) => id < |names| && WellFormed(frames[1..], names)
  }

  function NamesAfter(frames: seq<Frame>, names: seq<Name>): seq<Name>
    decreases |frames|
  {
    if frames == [] then names
    else NamesAfter(frames[1..], if frames[0].AddIndex? then names + [frames[0].name] else names)
  }

  lemma {:induction false} Concat(a: seq<Frame>, b: seq<Frame>, names: seq<Name>)
    ensures WellFormed(a + b, names) <==> WellFormed(a, names) && WellFormed(b, NamesAfter(a, names))
    ensures NamesAfter(a + b, names) == NamesAfter(b, NamesAfter(a, names))
    ensures WellFormed(a, names) ==>
              forall n :: Accepted(a + b, names, n) == Accepted(a, names, n) + Accepted(b, NamesAfter(a, names), n)
    decreases |a|
  {
    if a == [] {
      assert a + b == b;
    } else {
      assert (a + b)[1..] == a[1..] + b;
      match a[0] {
        case AddIndex(id, name) => Concat(a[1..], b, names + [name]);
        case AddTxn(id, tid, payload) => Concat(a[1..], b, names);
      }
    }
  }

  predicate OnlyIntros(frames: seq<Frame>)
  {
    forall f <- frames :: f.AddIndex?
  }

  lemma {:induction false} IntrosHoldNothing(frames: seq<Frame>, names: seq<Name>, n: Name)
    requires OnlyIntros(frames)
    ensures Accepted(frames, names, n) == []
    decreases |frames|
  {
    if frames != [] {
      assert frames[0] in frames;
      IntrosHoldNothing(frames[1..], names + [frames[0].name], n);
    }
  }

  lemma {:induction false} NoNameNoFrames(frames: seq<Frame>, names: seq<Name>)
    requires WellFormed(frames, names)
    ensures |NamesAfter(frames, names)| >= |names|
    ensures NamesAfter(frames, []) == [] && names == [] ==> frames == []
    decreases |frames|
  {
    if frames != [] && frames[0].AddIndex? {
      NoNameNoFrames(frames[1..], names + [frames[0].name]);
    } else if frames != [] {
      NoNameNoFrames(frames[1..], names);
    }
  }

  lemma {:induction false} AcceptedOnlyKnown(frames: seq<Frame>, names: seq<Name>, n: Name)
    requires WellFormed(frames, names) && n !in NamesAfter(frames, names)
    ensures Accepted(frames, names, n) == [] && n !in names
    decreases |frames|
  {
    if frames != [] {
      match frames[0] {
        case AddIndex(id, name) => AcceptedOnlyKnown(frames[1..], names + [name], n);
        case AddTxn(id, tid, payload) => AcceptedOnlyKnown(frames[1..], names, n);
      }
    }
  }

  /** The transactions of table `n` in the given files, in log order. */
  function Logged(files: seq<LogFile>, n: Name): seq<Txn>
  {
    if files == [] then [] else Accepted(files[0].frames, [], n) + Logged(files[1..], n)
  }

  lemma {:induction false} LoggedConcat(a: seq<LogFile>, b: seq<LogFile>, n: Name)
    ensures Logged(a + b, n) == Logged(a, n) + Logged(b, n)
  {
    if a == [] {
      assert a + b == b;
    } else {
      assert (a + b)[1..] == a[1..] + b;
      LoggedConcat(a[1..], b, n);
    }
  }

  lemma {:induction false} AboveConcat(d: int, a: seq<Txn>, b: seq<Txn>)
    ensures Above(d, a + b) == Above(d, a) + Above(d, b)
  {
    if a == [] {
      assert a + b == b;
    } else {
      assert (a + b)[1..] == a[1..] + b;
      AboveConcat(d, a[1..], b);
    }
  }

  lemma {:induction false} AboveEmpty(d: int, a: seq<Txn>)
    requires forall x <- a :: x.tid <= d
    ensures Above(d, a) == []
  {
    if a != [] {
      AboveEmpty(d, a[1..]);
    }
  }

  lemma {:induction false} AboveAbove(d: int, e: int, a: seq<Txn>)
    requires d <= e
    ensures Above(e, Above(d, a)) == Above(e, a)
  {
    if a != [] {
      AboveAbove(d, e, a[1..]);
      var rest := Above(d, a[1..]);
      if a[0].tid > d {
        assert ([a[0]] + rest)[1..] == rest;
      } else {
        assert [] + rest == rest;
      }
    }
  }

  lemma IncreasingTail(a: seq<Txn>)
    requires Increasing(a) && a != []
    ensures Increasing(a[1..]) && forall x <- a[1..] :: x.tid > a[0].tid
  {
    forall x | x in a[1..] ensures x.tid > a[0].tid
    {
      var i :| 0 <= i < |a[1..]| && a[1..][i] == x;
      assert a[i + 1] == x;
    }
  }

  lemma {:induction false} SplitAt(d: int, a: seq<Txn>)
    requires Increasing(a)
    ensures UpTo(d, a) + Above(d, a) == a
  {
    if a != [] {
      var rest := a[1..];
      IncreasingTail(a);
      assert a == [a[0]] + rest;
      if a[0].tid > d {
        UpToEmpty(d, rest);
      } else {
        SplitAt(d, rest);
        assert [a[0]] + UpTo(d, rest) + Above(d, rest) == [a[0]] + (UpTo(d, rest) + Above(d, rest));
      }
    }
  }

  lemma {:induction false} UpToEmpty(d: int, a: seq<Txn>)
    requires forall x <- a :: x.tid > d
    ensures UpTo(d, a) == [] && Above(d, a) == a
  {
    if a != [] {
      UpToEmpty(d, a[1..]);
    }
  }
}
