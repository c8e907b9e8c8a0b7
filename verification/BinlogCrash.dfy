module BinlogCrash {

  /** Recovery after a crash, and the main theorem about the binlog. */

  import opened Bytes
  import opened BinlogReplay
  import opened BinlogRecovery
  import opened BinlogSafety

  // ---------------------------------------------------------------------
  // What replay leaves in a table
  // ---------------------------------------------------------------------

  /** TID of a table saved up to `d` after the increasing transactions `txns`. */
  function Top(d: int, txns: seq<Txn>): int
  {
    if txns == [] then d else Max(d, txns[|txns| - 1].tid)
  }

  /** On increasing logs, the transactions replay applies are those above the saved TID. */
  lemma {:induction false} AscendingAbove(d: int, prev: seq<Txn>, acc: seq<Txn>)
    requires Increasing(prev + acc)
    ensures Ascending(Top(d, prev), acc) == Above(d, acc)
    ensures LastTid(Top(d, prev), Above(d, acc)) == Top(d, prev + acc)
    decreases |acc|
  {
    if acc == [] {
      assert prev + acc == prev;
    } else {
      var x, rest := acc[0], acc[1..];
      assert (prev + [x]) + rest == prev + acc;
      assert (prev + acc)[|prev|] == x;
      if prev != [] {
        assert (prev + acc)[|prev| - 1] == prev[|prev| - 1];
      }
      assert (prev + [x])[|prev + [x]| - 1] == x;
      AscendingAbove(d, prev + [x], rest);
    }
  }

  lemma ReplayFileTrack(served: Served, frames: seq<Frame>, n: Name, d: int, base: seq<Txn>, prev: seq<Txn>)
    requires (forall m <- served :: served[m].tid >= 0) && n in served
    requires served[n] == Live(Top(d, prev), base + Above(d, prev))
    requires Increasing(prev + Accepted(frames, [], n))
    ensures var acc := Accepted(frames, [], n);
            var s := ReplayFrames(StartFile(served), frames).served;
            && s.Keys == served.Keys && (forall m <- s :: s[m].tid >= served[m].tid)
            && s[n] == Live(Top(d, prev + acc), base + Above(d, prev + acc))
  {
    var acc := Accepted(frames, [], n);
    assert NamesOf([]) == [];
    TidsOnlyGrow(StartFile(served), frames);
    ReplayIsExact(StartFile(served), frames, n);
    AscendingAbove(d, prev, acc);
    AboveConcat(d, prev, acc);
    TxnsAssoc(base, Above(d, prev), Above(d, acc));
  }

  lemma {:induction false} ReplayFilesTrack(files: seq<LogFile>, served: Served, n: Name, d: int, base: seq<Txn>, prev: seq<Txn>)
    requires (forall m <- served :: served[m].tid >= 0) && n in served
    requires served[n] == Live(Top(d, prev), base + Above(d, prev))
    requires Increasing(prev + Logged(files, n))
    ensures var s := ReplayFiles(files, served).served;
            && s.Keys == served.Keys && (forall m <- s :: s[m].tid >= served[m].tid)
            && s[n] == Live(Top(d, prev + Logged(files, n)), base + Above(d, prev + Logged(files, n)))
  {
    if files == [] {
      assert prev + [] == prev;
    } else {
      var acc, rest := Accepted(files[0].frames, [], n), Logged(files[1..], n);
      assert prev + (acc + rest) == (prev + acc) + rest;
      IncreasingConcat(prev + acc, rest);
      ReplayFileTrack(served, files[0].frames, n, d, base, prev);
      ReplayFilesTrack(files[1..], ReplayFrames(StartFile(served), files[0].frames).served, n, d, base, prev + acc);
    }
  }

  lemma StartsFromDisk(tables: map<Name, Table>, n: Name)
    requires n in tables && forall m <- tables :: tables[m].diskTid >= 0
    ensures var served, t := OnDisk(tables), tables[n];
            && served.Keys == tables.Keys && (forall m <- served :: served[m].tid >= 0)
            && served[n] == Live(t.diskTid, UpTo(t.diskTid, t.committed))
  {
  }

  lemma ReplayFromDisk(files: seq<LogFile>, served: Served, n: Name, d: int, base: seq<Txn>)
    requires (forall m <- served :: served[m].tid >= 0) && n in served
    requires served[n] == Live(d, base) && Increasing(Logged(files, n))
    ensures var s := ReplayFiles(files, served).served;
            s.Keys == served.Keys && s[n] == Live(Top(d, Logged(files, n)), base + Above(d, Logged(files, n)))
  {
    assert [] + Logged(files, n) == Logged(files, n) && base + [] == base;
    ReplayFilesTrack(files, served, n, d, base, []);
  }

  lemma RecoveryOfTable(files: seq<LogFile>, tables: map<Name, Table>, n: Name)
    requires (forall m <- tables :: tables[m].diskTid >= 0) && n in tables && TableOk(tables[n], Logged(files, n))
    ensures var s := ReplayFiles(files, OnDisk(tables)).served;
            && s.Keys == tables.Keys
            && s[n].content == tables[n].committed
            && s[n].tid == Top(tables[n].diskTid, Logged(files, n))
  {
    var t := tables[n];
    StartsFromDisk(tables, n);
    ReplayFromDisk(files, OnDisk(tables), n, t.diskTid, UpTo(t.diskTid, t.committed));
    SplitAt(t.diskTid, t.committed);
  }

  lemma TablesOk(db: DB)
    requires Inv(db)
    ensures forall m <- db.tables :: db.tables[m].diskTid >= 0
  {
    forall m | m in db.tables ensures db.tables[m].diskTid >= 0
    {
      assert TableOk(db.tables[m], Logged(Files(db.log), m));
    }
  }

  /** Recovery rebuilds exactly the committed state of every table. */
  lemma RecoveryIsExact(db: DB, n: Name)
    requires Inv(db) && n in db.tables
    ensures var s := ReplayFiles(Files(db.log), OnDisk(db.tables)).served;
            && s.Keys == db.tables.Keys
            && s[n].content == db.tables[n].committed
            && s[n].tid == Top(db.tables[n].diskTid, Logged(Files(db.log), n))
  {
    TablesOk(db);
    RecoveryOfTable(Files(db.log), db.tables, n);
  }

  // ---------------------------------------------------------------------
  // What replay recomputes about the files
  // ---------------------------------------------------------------------

  lemma {:induction false} WellFormedReplays(r: Replay, frames: seq<Frame>)
    requires r.ok && Healthy(r) && WellFormed(frames, NamesOf(r.infos))
    requires forall m <- r.served :: r.served[m].tid >= 0
    ensures var r' := ReplayFrames(r, frames);
            r'.ok && NamesOf(r'.infos) == NamesAfter(frames, NamesOf(r.infos))
    decreases |frames|
  {
    if frames != [] {
      FrameKeepsHealthy(r, frames[0]);
      var r1 := ReplayFrame(r, frames[0]);
      match frames[0] {
        case AddIndex(id, name) =>
          NamesAppend(r.infos, r1.infos[|r.infos|]);
        case AddTxn(id, tid, payload) =>
          TxnKeepsNames(r, id, Txn(tid, payload));
      }
      WellFormedReplays(r1, frames[1..]);
    }
  }

  /** The last transaction that is in the table's own files; without one, what the table had
      reached before. */
  function LastSaved(before: int, d: int, txns: seq<Txn>): int
  {
    if txns == [] then before
    else if txns[|txns| - 1].tid <= d then txns[|txns| - 1].tid
    else LastSaved(before, d, txns[..|txns| - 1])
  }

  /** The entry of table `n` after `done` was replayed, with `rest` still to come. */
  predicate EntryTracks(info: Info, tid: int, before: int, d: int, done: seq<Txn>, rest: seq<Txn>)
  {
    Covers(info, tid, d, done, rest) && info.flushedTid == LastSaved(before, d, done)
  }

  predicate Covers(info: Info, tid: int, d: int, done: seq<Txn>, rest: seq<Txn>)
  {
    && info.flushedTid <= tid
    && info.minTid == (if done == [] then INT64_MAX else Min(INT64_MAX, done[0].tid))
    && info.maxTid == (if done == [] then 0 else done[|done| - 1].tid)
    && (forall x <- done :: x.tid <= info.flushedTid ==> x.tid <= d)
    && (forall x <- rest :: x.tid <= info.flushedTid ==> x.tid <= d)
  }

  predicate Tracks(r: Replay, n: Name, before: int, d: int, done: seq<Txn>, rest: seq<Txn>)
  {
    && n in r.served
    && (n !in NamesOf(r.infos) ==> done == [])
    && (forall j | 0 <= j < |r.infos| && r.infos[j].name == n :: EntryTracks(r.infos[j], r.served[n].tid, before, d, done, rest))
  }

  lemma LastSavedNext(before: int, d: int, done: seq<Txn>, x: Txn)
    ensures LastSaved(before, d, done + [x]) == if x.tid <= d then x.tid else LastSaved(before, d, done)
  {
    assert (done + [x])[..|done|] == done;
  }

  /** One more transaction of the table itself. */
  lemma EntryStep(info: Info, d: int, prev: seq<Txn>, done: seq<Txn>, x: Txn, rest: seq<Txn>)
    requires Increasing(prev + done + ([x] + rest)) && x.tid >= 1
    requires forall y <- done :: y.tid >= 1
    requires EntryTracks(info, Top(d, prev + done), Top(d, prev), d, done, [x] + rest)
    ensures x.tid >= info.maxTid
    ensures x.tid <= Top(d, prev + done) <==> x.tid <= d
    ensures var high := Max(info.maxTid, x.tid);
            var low := Min(info.minTid, x.tid);
            && (x.tid <= d ==> EntryTracks(Info(info.name, low, high, high), Top(d, prev + done), Top(d, prev), d, done + [x], rest)
                               && Top(d, prev + done) == d)
            && (x.tid > d ==> EntryTracks(Info(info.name, low, high, info.flushedTid), x.tid, Top(d, prev), d, done + [x], rest))
  {
    CoverStep(info, d, prev, done, x, rest);
    LastSavedNext(Top(d, prev), d, done, x);
  }

  lemma CoverStep(info: Info, d: int, prev: seq<Txn>, done: seq<Txn>, x: Txn, rest: seq<Txn>)
    requires Increasing(prev + done + ([x] + rest)) && x.tid >= 1
    requires forall y <- done :: y.tid >= 1
    requires Covers(info, Top(d, prev + done), d, done, [x] + rest)
    ensures x.tid >= info.maxTid
    ensures x.tid <= Top(d, prev + done) <==> x.tid <= d
    ensures var high := Max(info.maxTid, x.tid);
            var low := Min(info.minTid, x.tid);
            && (x.tid <= d ==> Covers(Info(info.name, low, high, high), Top(d, prev + done), d, done + [x], rest)
                               && Top(d, prev + done) == d)
            && (x.tid > d ==> Covers(Info(info.name, low, high, info.flushedTid), x.tid, d, done + [x], rest))
  {
    var p := prev + done;
    IncreasingConcat(p, [x] + rest);
    IncreasingConcat([x], rest);
    IncreasingConcat(prev, done);
    assert x in [x] + rest;
    if p != [] {
      assert p[|p| - 1] in p;
    }
    if done != [] {
      assert done[|done| - 1] in p && done[0] in p;
      assert (done + [x])[0] == done[0];
    }
    forall y | y in rest ensures y in [x] + rest && x.tid < y.tid
    {
      assert x in [x];
    }
  }

  lemma OneMoves(prev: seq<Txn>, done: seq<Txn>, x: Txn, rest: seq<Txn>)
    ensures done + ([x] + rest) == (done + [x]) + rest
    ensures prev + done + ([x] + rest) == prev + (done + [x]) + rest
  {
  }

  lemma {:induction false} InfoReplay(r: Replay, frames: seq<Frame>, n: Name, d: int, prev: seq<Txn>, done: seq<Txn>)
    requires r.ok && Healthy(r) && WellFormed(frames, NamesOf(r.infos)) && Distinct(NamesOf(r.infos))
    requires forall m <- r.served :: r.served[m].tid >= 0
    requires n in r.served && r.served[n].tid == Top(d, prev + done)
    requires Increasing(prev + done + Accepted(frames, NamesOf(r.infos), n))
    requires forall x <- done + Accepted(frames, NamesOf(r.infos), n) :: x.tid >= 1
    requires Tracks(r, n, Top(d, prev), d, done, Accepted(frames, NamesOf(r.infos), n))
    ensures Tracks(ReplayFrames(r, frames), n, Top(d, prev), d, done + Accepted(frames, NamesOf(r.infos), n), [])
    decreases |frames|
  {
    var acc := Accepted(frames, NamesOf(r.infos), n);
    if frames == [] {
      assert done + [] == done;
    } else {
      FrameKeepsHealthy(r, frames[0]);
      match frames[0] {
        case AddIndex(id, name) =>
          InfoReplayIntro(r, id, name, n, d, prev, done, acc);
          InfoReplay(ReplayIndexAdd(r, id, name), frames[1..], n, d, prev, done);
        case AddTxn(id, tid, payload) =>
          var x := Txn(tid, payload);
          var rest := Accepted(frames[1..], NamesOf(r.infos), n);
          TxnKeepsNames(r, id, x);
          if r.infos[id].name == n {
            InfoReplayOwn(r, id, x, n, d, prev, done, rest);
            OneMoves(prev, done, x, rest);
            InfoReplay(ReplayTxn(r, id, x), frames[1..], n, d, prev, done + [x]);
          } else {
            assert acc == rest;
            InfoReplay(ReplayTxn(r, id, x), frames[1..], n, d, prev, done);
          }
      }
    }
  }

  lemma InfoReplayIntro(r: Replay, id: nat, name: Name, n: Name, d: int, prev: seq<Txn>, done: seq<Txn>, acc: seq<Txn>)
    requires r.ok && id == |r.infos| && name !in NamesOf(r.infos) && Distinct(NamesOf(r.infos))
    requires n in r.served && r.served[n].tid == Top(d, prev + done)
    requires Increasing(prev + done + acc) && Tracks(r, n, Top(d, prev), d, done, acc)
    ensures var r1 := ReplayIndexAdd(r, id, name);
            Tracks(r1, n, Top(d, prev), d, done, acc) && NamesOf(r1.infos) == NamesOf(r.infos) + [name] && Distinct(NamesOf(r1.infos))
  {
    var r1 := ReplayIndexAdd(r, id, name);
    NamesAppend(r.infos, r1.infos[id]);
    if name == n {
      assert prev + done == prev;
      IncreasingConcat(prev, acc);
      forall j | 0 <= j < |r.infos| ensures r.infos[j].name != n
      {
        assert NamesOf(r.infos)[j] == r.infos[j].name;
      }
      if prev != [] {
        assert prev[|prev| - 1] in prev;
      }
    }
  }

  lemma InfoReplayOwn(r: Replay, id: nat, x: Txn, n: Name, d: int, prev: seq<Txn>, done: seq<Txn>, rest: seq<Txn>)
    requires r.ok && id < |r.infos| && r.infos[id].name == n && Distinct(NamesOf(r.infos))
    requires n in r.served && r.served[n].tid == Top(d, prev + done) && r.served[n].tid >= 0
    requires Increasing(prev + done + ([x] + rest)) && (forall y <- done + ([x] + rest) :: y.tid >= 1)
    requires Tracks(r, n, Top(d, prev), d, done, [x] + rest)
    ensures var r1 := ReplayTxn(r, id, x);
            r1.ok && Tracks(r1, n, Top(d, prev), d, done + [x], rest) && r1.served[n].tid == Top(d, prev + (done + [x]))
  {
    var info := r.infos[id];
    assert x in done + ([x] + rest) && forall y <- done :: y in done + ([x] + rest);
    EntryStep(info, d, prev, done, x, rest);
    var r1 := ReplayTxn(r, id, x);
    TxnKeepsNames(r, id, x);
    assert NamesOf(r.infos)[id] == n;
    forall j | 0 <= j < |r1.infos| && r1.infos[j].name == n ensures j == id
    {
      assert NamesOf(r1.infos)[j] == n;
    }
    assert prev + (done + [x]) == (prev + done) + [x];
  }

  // ---------------------------------------------------------------------
  // Recovery keeps the invariant, so it can be repeated
  // ---------------------------------------------------------------------

  function TidsFrom(tables: map<Name, Table>, served: Served): map<Name, Table>
  {
    map n | n in tables :: if n in served then tables[n].(tid := served[n].tid) else tables[n]
  }

  /** Tables and files as they stand between two files of the replay. */
  predicate Between(doneFiles: seq<LogFile>, files: seq<LogFile>, served: Served, tables: map<Name, Table>)
  {
    && served.Keys == tables.Keys
    && (forall n <- tables ::
          && tables[n].diskTid >= 0
          && served[n].tid == Top(tables[n].diskTid, Logged(doneFiles, n))
          && Increasing(Logged(doneFiles, n) + Logged(files, n))
          && (forall x <- Logged(files, n) :: x.tid >= 1))
    && (forall f <- files :: WellFormed(f.frames, []) && forall m <- NamesAfter(f.frames, []) :: m in tables)
  }

  lemma TopIsLarge(d: int, txns: seq<Txn>)
    ensures Top(d, txns) >= d
  {
  }

  lemma BetweenTids(doneFiles: seq<LogFile>, files: seq<LogFile>, served: Served, tables: map<Name, Table>)
    requires Between(doneFiles, files, served, tables)
    ensures forall m <- served :: served[m].tid >= 0
  {
    forall m | m in served ensures served[m].tid >= 0
    {
      TopIsLarge(tables[m].diskTid, Logged(doneFiles, m));
    }
  }

  /** The recomputed entry of one table of one file: exact range, sound flushed TID. */
  lemma ReplayedEntry(served: Served, frames: seq<Frame>, m: Name, d: int, prev: seq<Txn>, i: nat)
    requires (forall n <- served :: served[n].tid >= 0) && WellFormed(frames, [])
    requires m in served && served[m].tid == Top(d, prev)
    requires Increasing(prev + Accepted(frames, [], m)) && (forall x <- Accepted(frames, [], m) :: x.tid >= 1)
    requires var r := ReplayFrames(StartFile(served), frames); i < |r.infos| && r.infos[i].name == m
    ensures var r := ReplayFrames(StartFile(served), frames);
            && m in r.served
            && EntryTracks(r.infos[i], r.served[m].tid, served[m].tid, d, Accepted(frames, [], m), [])
            && forall x <- Accepted(frames, [], m) :: r.infos[i].minTid <= x.tid <= r.infos[i].maxTid
  {
    var acc := Accepted(frames, [], m);
    FromStart(served, frames, m, d, prev, acc);
    IncreasingConcat(prev, acc);
    RangeCovers(acc, ReplayFrames(StartFile(served), frames).infos[i]);
  }

  lemma FromStart(served: Served, frames: seq<Frame>, m: Name, d: int, prev: seq<Txn>, acc: seq<Txn>)
    requires (forall n <- served :: served[n].tid >= 0) && WellFormed(frames, [])
    requires m in served && served[m].tid == Top(d, prev) && acc == Accepted(frames, [], m)
    requires Increasing(prev + acc) && forall x <- acc :: x.tid >= 1
    ensures Tracks(ReplayFrames(StartFile(served), frames), m, Top(d, prev), d, acc, [])
  {
    assert NamesOf([]) == [];
    assert prev + [] == prev && [] + acc == acc;
    InfoReplay(StartFile(served), frames, m, d, prev, []);
  }

  lemma RangeCovers(acc: seq<Txn>, info: Info)
    requires Increasing(acc)
    requires acc != [] ==> info.minTid <= acc[0].tid && info.maxTid == acc[|acc| - 1].tid
    ensures forall x <- acc :: info.minTid <= x.tid <= info.maxTid
  {
    forall x | x in acc ensures info.minTid <= x.tid <= info.maxTid
    {
      var k :| 0 <= k < |acc| && acc[k] == x;
      assert k == 0 || acc[0].tid < acc[k].tid;
      assert k == |acc| - 1 || acc[k].tid < acc[|acc| - 1].tid;
    }
  }

  /** The log of one table, with one file moved from "to come" to "done". */
  lemma LoggedNext(doneFiles: seq<LogFile>, files: seq<LogFile>, n: Name)
    requires files != []
    ensures Logged(doneFiles + [files[0]], n) == Logged(doneFiles, n) + Accepted(files[0].frames, [], n)
    ensures Logged(files, n) == Accepted(files[0].frames, [], n) + Logged(files[1..], n)
  {
    var f := files[0];
    LoggedConcat(doneFiles, [f], n);
    assert [f][1..] == [];
    assert Logged([f], n) == Accepted(f.frames, [], n) + [];
  }

  lemma IncreasingNext(prev: seq<Txn>, acc: seq<Txn>, rest: seq<Txn>)
    requires Increasing(prev + (acc + rest))
    ensures Increasing(prev + acc) && Increasing((prev + acc) + rest)
  {
    assert prev + (acc + rest) == (prev + acc) + rest;
    IncreasingConcat(prev + acc, rest);
  }

  lemma TidNext(served: Served, frames: seq<Frame>, d: int, n: Name, prev: seq<Txn>)
    requires (forall m <- served :: served[m].tid >= 0) && n in served
    requires served[n].tid == Top(d, prev) && Increasing(prev + Accepted(frames, [], n))
    ensures var s := ReplayFrames(StartFile(served), frames).served;
            n in s && s[n].tid == Top(d, prev + Accepted(frames, [], n))
  {
    assert NamesOf([]) == [];
    ReplayIsExact(StartFile(served), frames, n);
    AscendingAbove(d, prev, Accepted(frames, [], n));
  }

  /** How the view of one table moves across one file. */
  lemma TableNext(doneFiles: seq<LogFile>, files: seq<LogFile>, served: Served, d: int, n: Name)
    requires files != [] && (forall m <- served :: served[m].tid >= 0) && n in served
    requires served[n].tid == Top(d, Logged(doneFiles, n))
    requires Increasing(Logged(doneFiles, n) + Logged(files, n))
    ensures var s := ReplayFrames(StartFile(served), files[0].frames).served;
            n in s && s[n].tid == Top(d, Logged(doneFiles + [files[0]], n))
    ensures Increasing(Logged(doneFiles + [files[0]], n) + Logged(files[1..], n))
    ensures Increasing(Logged(doneFiles, n) + Accepted(files[0].frames, [], n))
    ensures forall x <- Logged(files[1..], n) :: x in Logged(files, n)
    ensures forall x <- Accepted(files[0].frames, [], n) :: x in Logged(files, n)
  {
    LoggedNext(doneFiles, files, n);
    IncreasingNext(Logged(doneFiles, n), Accepted(files[0].frames, [], n), Logged(files[1..], n));
    TidNext(served, files[0].frames, d, n, Logged(doneFiles, n));
  }

  lemma BetweenNext(doneFiles: seq<LogFile>, files: seq<LogFile>, served: Served, tables: map<Name, Table>)
    requires Between(doneFiles, files, served, tables) && files != []
    ensures Between(doneFiles + [files[0]], files[1..], ReplayFrames(StartFile(served), files[0].frames).served, tables)
    ensures forall m <- served :: m in ReplayFrames(StartFile(served), files[0].frames).served &&
                                  ReplayFrames(StartFile(served), files[0].frames).served[m].tid >= served[m].tid
  {
    BetweenTids(doneFiles, files, served, tables);
    TidsOnlyGrow(StartFile(served), files[0].frames);
    forall n | n in tables
      ensures var s := ReplayFrames(StartFile(served), files[0].frames).served;
              && n in s && s[n].tid == Top(tables[n].diskTid, Logged(doneFiles + [files[0]], n))
              && Increasing(Logged(doneFiles + [files[0]], n) + Logged(files[1..], n))
              && (forall x <- Logged(files[1..], n) :: x.tid >= 1)
    {
      TableNext(doneFiles, files, served, tables[n].diskTid, n);
    }
  }

  lemma {:induction false} ReplayedFilesOk(doneFiles: seq<LogFile>, files: seq<LogFile>, served: Served, tables: map<Name, Table>)
    requires Between(doneFiles, files, served, tables)
    ensures var r := ReplayFiles(files, served);
            && AllOk(r.files, TidsFrom(tables, r.served))
            && r.served.Keys == served.Keys && (forall m <- served :: r.served[m].tid >= served[m].tid)
            && |r.files| == |files|
            && forall i | 0 <= i < |files| :: r.files[i].frames == files[i].frames && r.files[i].ext == files[i].ext
    decreases |files|
  {
    if files != [] {
      var r1 := ReplayFrames(StartFile(served), files[0].frames);
      var r := ReplayFiles(files, served);
      BetweenNext(doneFiles, files, served, tables);
      ReplayedFilesOk(doneFiles + [files[0]], files[1..], r1.served, tables);
      ReplayedFileOk(doneFiles, files, served, tables, r.served);
    }
  }

  lemma ReplayedFileOk(doneFiles: seq<LogFile>, files: seq<LogFile>, served: Served, tables: map<Name, Table>, final: Served)
    requires Between(doneFiles, files, served, tables) && files != []
    requires var s := ReplayFrames(StartFile(served), files[0].frames).served;
             final.Keys == s.Keys == tables.Keys && forall m <- s :: final[m].tid >= s[m].tid
    ensures FileOk(files[0].(infos := ReplayFrames(StartFile(served), files[0].frames).infos), [], TidsFrom(tables, final))
  {
    var f := files[0];
    var r := ReplayFrames(StartFile(served), f.frames);
    assert f in files;
    BetweenTids(doneFiles, files, served, tables);
    assert NamesOf([]) == [];
    WellFormedReplays(StartFile(served), f.frames);
    assert f.frames + [] == f.frames;
    forall i | 0 <= i < |r.infos|
      ensures var m := r.infos[i].name;
              m in tables && InfoOk(r.infos[i], Accepted(f.frames, [], m), TidsFrom(tables, final)[m])
    {
      var m := r.infos[i].name;
      assert NamesOf(r.infos)[i] == m;
      assert m in NamesAfter(f.frames, []);
      TableNext(doneFiles, files, served, tables[m].diskTid, m);
      ReplayedEntry(served, f.frames, m, tables[m].diskTid, Logged(doneFiles, m), i);
      InfoOkLater(r.infos[i], Accepted(f.frames, [], m), tables[m].(tid := r.served[m].tid), TidsFrom(tables, final)[m]);
    }
  }

  lemma {:induction false} SameExts(a: seq<LogFile>, b: seq<LogFile>, low: nat, high: nat)
    requires Exts(a, low, high) && |a| == |b| && forall i | 0 <= i < |a| :: a[i].ext == b[i].ext
    ensures Exts(b, low, high)
  {
    if a != [] {
      SameExts(a[1..], b[1..], a[0].ext + 1, high);
    }
  }

  lemma {:induction false} SameLogged(a: seq<LogFile>, b: seq<LogFile>, n: Name)
    requires |a| == |b| && forall i | 0 <= i < |a| :: a[i].frames == b[i].frames
    ensures Logged(a, n) == Logged(b, n)
  {
    if a != [] {
      SameLogged(a[1..], b[1..], n);
    }
  }

  lemma EmptyFile(f: LogFile, tables: map<Name, Table>)
    requires FileOk(f, [], tables) && f.infos == []
    ensures f.frames == []
  {
    assert f.frames + [] == f.frames;
    assert NamesOf(f.infos) == [];
    NoNameNoFrames(f.frames, []);
  }

  /** Removing the leading files without tables removes no transaction. */
  lemma {:induction false} AdoptOk(files: seq<LogFile>, tables: map<Name, Table>, low: nat, high: nat)
    requires AllOk(files, tables) && Exts(files, low, high)
    ensures AllOk(Adopt(files), tables) && Exts(Adopt(files), low, high)
    ensures forall n :: Logged(Adopt(files), n) == Logged(files, n)
  {
    if files != [] && files[0].infos == [] {
      assert files[0] in files;
      EmptyFile(files[0], tables);
      AdoptOk(files[1..], tables, files[0].ext + 1, high);
      ExtsWiden(Adopt(files[1..]), files[0].ext + 1, low, high, high);
      forall n ensures Logged(files, n) == Logged(files[1..], n)
      {
        assert Logged(files, n) == [] + Logged(files[1..], n);
      }
    }
  }

  lemma {:induction false} ExtsSplit(files: seq<LogFile>, low: nat, high: nat)
    requires Exts(files, low, high) && files != []
    ensures var last := files[|files| - 1];
            low <= last.ext < high && Exts(files[..|files| - 1], low, last.ext) && Exts(files, low, last.ext + 1)
  {
    var init, last := files[..|files| - 1], files[|files| - 1];
    if |files| > 1 {
      ExtsSplit(files[1..], files[0].ext + 1, high);
      assert init[1..] == files[1..][..|files[1..]| - 1];
    }
  }

  lemma ReopenOk(files: seq<LogFile>, tables: map<Name, Table>, high: nat)
    requires AllOk(files, tables) && Exts(files, 0, high)
    ensures LogOk(Reopen(files), tables)
    ensures forall n :: Logged(Files(Reopen(files)), n) == Logged(files, n)
  {
    NewFileOk(Reopen(files).current.ext, tables);
    if files != [] {
      ExtsSplit(files, 0, high);
    }
    forall n ensures Logged(Files(Reopen(files)), n) == Logged(files, n)
    {
      ReopenLogs(files, n);
    }
  }

  lemma ReopenLogs(files: seq<LogFile>, n: Name)
    ensures Logged(Files(Reopen(files)), n) == Logged(files, n)
  {
    LoggedSplit(Reopen(files), n);
    if files != [] {
      var before, last := files[..|files| - 1], files[|files| - 1];
      assert files == before + [last];
      LoggedSplit(Log(before, last, [], 0), n);
    }
  }

  lemma FileStarts(f: LogFile, extra: seq<Frame>, tables: map<Name, Table>)
    requires FileOk(f, extra, tables)
    ensures WellFormed(f.frames, []) && forall m <- NamesAfter(f.frames, []) :: m in tables
  {
    Concat(f.frames, extra, []);
    forall m | m in NamesAfter(f.frames, []) ensures m in tables
    {
      NamesGrow(extra, NamesAfter(f.frames, []), m);
      var i :| 0 <= i < |f.infos| && NamesOf(f.infos)[i] == m;
      assert f.infos[i].name == m;
    }
  }

  lemma FilesStart(db: DB)
    requires LogOk(db.log, db.tables)
    ensures forall f <- Files(db.log) :: WellFormed(f.frames, []) && forall m <- NamesAfter(f.frames, []) :: m in db.tables
    ensures Exts(Files(db.log), 0, db.log.current.ext + 1)
  {
    ExtsAppend(db.log.closed, db.log.current, 0);
    forall f | f in Files(db.log)
      ensures WellFormed(f.frames, []) && forall m <- NamesAfter(f.frames, []) :: m in db.tables
    {
      FileStarts(f, if f in db.log.closed then [] else db.log.buf, db.tables);
    }
  }

  lemma RecoveryStarts(db: DB)
    requires Inv(db)
    ensures Between([], Files(db.log), OnDisk(db.tables), db.tables)
    ensures Exts(Files(db.log), 0, db.log.current.ext + 1)
  {
    FilesStart(db);
    forall n | n in db.tables
      ensures db.tables[n].diskTid >= 0 && Increasing([] + Logged(Files(db.log), n))
      ensures forall x <- Logged(Files(db.log), n) :: x.tid >= 1
    {
      assert TableOk(db.tables[n], Logged(Files(db.log), n));
      assert [] + Logged(Files(db.log), n) == Logged(Files(db.log), n);
    }
  }

  lemma {:induction false} AboveMembers(d: int, a: seq<Txn>)
    ensures forall x :: x in Above(d, a) <==> x in a && x.tid > d
  {
    if a != [] {
      AboveMembers(d, a[1..]);
      assert a == [a[0]] + a[1..];
    }
  }

  lemma TableAfterRecovery(t: Table, logged: seq<Txn>)
    requires TableOk(t, logged)
    ensures TableOk(t.(tid := Top(t.diskTid, logged)), logged)
  {
    var top := Top(t.diskTid, logged);
    forall x | x in logged ensures x.tid <= top
    {
      var k :| 0 <= k < |logged| && logged[k] == x;
      assert k == |logged| - 1 || logged[k].tid < logged[|logged| - 1].tid;
    }
    AboveMembers(t.diskTid, logged);
    AboveMembers(t.diskTid, t.committed);
    forall x | x in t.committed ensures x.tid <= top
    {
      if x.tid > t.diskTid {
        assert x in Above(t.diskTid, logged);
      }
    }
  }

  lemma RecoverKeepsLog(db: DB)
    requires Inv(db)
    ensures LogOk(Recover(db).log, Recover(db).tables)
    ensures forall n :: Logged(Files(Recover(db).log), n) == Logged(Files(db.log), n)
  {
    var r := ReplayFiles(Files(db.log), OnDisk(db.tables));
    RecoveredFiles(db, r);
    RecoveredTables(db, r);
    AdoptOk(r.files, Recover(db).tables, 0, db.log.current.ext + 1);
    ReopenOk(Adopt(r.files), Recover(db).tables, db.log.current.ext + 1);
  }

  lemma RecoveredTables(db: DB, r: Recovered)
    requires r == ReplayFiles(Files(db.log), OnDisk(db.tables))
    ensures Recover(db).tables == TidsFrom(db.tables, r.served)
  {
  }

  /** The files after replay: their tables are entered again, nothing else has changed. */
  lemma RecoveredFiles(db: DB, r: Recovered)
    requires Inv(db) && r == ReplayFiles(Files(db.log), OnDisk(db.tables))
    ensures AllOk(r.files, TidsFrom(db.tables, r.served)) && Exts(r.files, 0, db.log.current.ext + 1)
    ensures forall n :: Logged(r.files, n) == Logged(Files(db.log), n)
  {
    var files := Files(db.log);
    RecoveryStarts(db);
    ReplayedFilesOk([], files, OnDisk(db.tables), db.tables);
    SameExts(files, r.files, 0, db.log.current.ext + 1);
    forall n ensures Logged(r.files, n) == Logged(files, n)
    {
      SameLogged(r.files, files, n);
    }
  }

  lemma RecoverKeepsInv(db: DB)
    requires Inv(db)
    ensures Inv(Recover(db))
  {
    RecoverKeepsLog(db);
    var db' := Recover(db);
    forall n | n in db'.tables ensures TableOk(db'.tables[n], Logged(Files(db'.log), n))
    {
      var logged := Logged(Files(db.log), n);
      assert TableOk(db.tables[n], logged);
      RecoveryIsExact(db, n);
      TableAfterRecovery(db.tables[n], logged);
    }
  }

  // ---------------------------------------------------------------------
  // The main theorem
  // ---------------------------------------------------------------------

  lemma StepKeepsInv(db: DB, a: Action)
    requires Inv(db) && Enabled(db, a)
    ensures Inv(Apply(db, a))
  {
    match a
    case Commit(n, payload, ok, rotate) =>
      CommitApplied(db, n, payload, ok, rotate);
      CommitKeepsInv(db, n, payload, ok, rotate, Apply(db, a));
    case SaveTable(n, tid) => SaveKeepsInv(db, n, tid);
    case Notify(n, tid) => NotifyKeepsInv(db, n, tid);
    case CrashAndRecover => RecoverKeepsInv(db);
  }

  predicate Legal(db: DB, run: seq<Action>)
    decreases |run|
  {
    run == [] || (Enabled(db, run[0]) && Legal(Apply(db, run[0]), run[1..]))
  }

  function After(db: DB, run: seq<Action>): DB
    requires Legal(db, run)
    decreases |run|
  {
    if run == [] then db else After(Apply(db, run[0]), run[1..])
  }

  /** A commit takes the table's next id, and is kept exactly if it succeeded; no other table
      changes. */
  lemma CommittedAfter(db: DB, m: Name, payload: seq<byte>, ok: bool, rotate: bool, n: Name)
    requires m in db.tables && n in db.tables
    ensures var after, t := Apply(db, Commit(m, payload, ok, rotate)).tables, db.tables[n];
            && after.Keys == db.tables.Keys
            && after[n] == if m != n then t
                           else Table(t.tid + 1, if ok then t.committed + [Txn(t.tid + 1, payload)] else t.committed, t.diskTid)
  {
    CommitApplied(db, m, payload, ok, rotate);
  }

  /** A save moves the saved id of its table, and nothing else. */
  lemma SavedAfter(db: DB, m: Name, tid: int, n: Name)
    requires Enabled(db, SaveTable(m, tid)) && n in db.tables
    ensures var after, t := Apply(db, SaveTable(m, tid)), db.tables[n];
            after.log == db.log && after.tables.Keys == db.tables.Keys && after.tables[n] == Table(t.tid, t.committed, if m == n then tid else t.diskTid)
  {
  }

  /** A crash takes a table back to the last id that is saved or logged; what was committed and
      what was saved stay. */
  lemma RecoveredAfter(db: DB, n: Name)
    requires Inv(db) && n in db.tables
    ensures var after, t := Apply(db, CrashAndRecover).tables, db.tables[n];
            after.Keys == db.tables.Keys && after[n] == Table(Top(t.diskTid, Logged(Files(db.log), n)), t.committed, t.diskTid)
  {
    var r := ReplayFiles(Files(db.log), OnDisk(db.tables));
    RecoveryIsExact(db, n);
    RecoveredTables(db, r);
    TidTaken(db.tables, r.served, n);
    assert Apply(db, CrashAndRecover).tables == Recover(db).tables;
  }

  lemma TidTaken(tables: map<Name, Table>, served: Served, n: Name)
    requires n in tables && n in served
    ensures TidsFrom(tables, served).Keys == tables.Keys && TidsFrom(tables, served)[n] == Table(served[n].tid, tables[n].committed, tables[n].diskTid)
  {
  }

  /** Nothing a client does is ever excluded: a table can be committed to at any time, with
      any outcome, saved at any id it has reached, and reported as flushed up to what was
      saved; a crash can come at any time. */
  lemma AlwaysOpen(db: DB, n: Name)
    requires n in db.tables
    ensures forall payload: seq<byte>, ok: bool, rotate: bool :: Enabled(db, Commit(n, payload, ok, rotate))
    ensures forall tid: int :: Enabled(db, SaveTable(n, tid)) <==> db.tables[n].diskTid <= tid <= db.tables[n].tid
    ensures forall tid: int | tid <= db.tables[n].diskTid :: Enabled(db, Notify(n, tid))
    ensures Enabled(db, CrashAndRecover)
  {
  }

  lemma {:induction false} RunKeepsInv(db: DB, run: seq<Action>)
    requires Inv(db) && Legal(db, run)
    ensures Inv(After(db, run))
    decreases |run|
  {
    if run != [] {
      StepKeepsInv(db, run[0]);
      RunKeepsInv(Apply(db, run[0]), run[1..]);
    }
  }

  lemma FreshOk(names: set<Name>)
    ensures Inv(Fresh(names))
  {
    var db := Fresh(names);
    NewFileOk(0, db.tables);
    forall n | n in db.tables ensures TableOk(db.tables[n], Logged(Files(db.log), n))
    {
      LoggedSplit(db.log, n);
    }
  }

  /** Retention: in every reachable state, a committed transaction above its table's saved
      TID is in a tracked file, and the tracked files hold nothing uncommitted above it. */
  lemma CommittedIsRetained(names: set<Name>, run: seq<Action>, n: Name, x: Txn)
    requires Legal(Fresh(names), run) && n in After(Fresh(names), run).tables
    requires x.tid > After(Fresh(names), run).tables[n].diskTid
    ensures var db := After(Fresh(names), run);
            x in db.tables[n].committed <==> x in Logged(Files(db.log), n)
  {
    FreshOk(names);
    RunKeepsInv(Fresh(names), run);
    var db := After(Fresh(names), run);
    var t, logged := db.tables[n], Logged(Files(db.log), n);
    assert TableOk(t, logged);
    AboveMembers(t.diskTid, t.committed);
    AboveMembers(t.diskTid, logged);
  }

  /** Crash safety: after any run of commits, failed commits, rotations, saves, flush
      notifications and earlier crashes, replaying the tracked files in meta order onto
      the tables' own files yields exactly what was committed. */
  lemma CrashSafety(names: set<Name>, run: seq<Action>, n: Name)
    requires Legal(Fresh(names), run) && n in After(Fresh(names), run).tables
    ensures var db := After(Fresh(names), run);
            var replayed := ReplayFiles(ConsumedFromEnd(LoadedBackwards(Files(db.log))), OnDisk(db.tables));
            n in replayed.served && replayed.served[n].content == db.tables[n].committed
  {
    FreshOk(names);
    RunKeepsInv(Fresh(names), run);
    var db := After(Fresh(names), run);
    ReplayOrderIsMetaOrder(Files(db.log));
    RecoveryIsExact(db, n);
  }
}
