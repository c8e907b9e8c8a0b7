module Binlog {

  /** The binlog writer and one group of log files, byte for byte.

      The writer appends to a memory buffer and writes it out; a write may fail after any
      number of bytes.  `SingleBinlog` is shown to carry out the frame-level operations of
      `BinlogRecovery`, so the crash theorem applies to the bytes it leaves on disk. */

  import opened Bytes
  import opened BinlogReplay
  import opened BinlogRecovery
  import opened BinlogFormat
  import Safety = BinlogSafety
  import Crash = BinlogCrash
  import opened BinlogRetention

  /** Overwriting a four-byte placeholder. */
  lemma Patched(head: seq<byte>, hole: seq<byte>, value: seq<byte>, rest: seq<byte>)
    requires |hole| == |value|
    ensures var b := head + hole + rest;
            b[..|head|] + value + b[|head| + |hole|..] == head + value + rest
  {
  }

  lemma Nested(a: seq<byte>, b: seq<byte>, c: seq<byte>, d: seq<byte>, e: seq<byte>, f: seq<byte>)
    ensures a + b + c + d + e + f == a + (b + (c + (d + (e + f))))
  {
  }

  lemma NestedName(a: seq<byte>, b: seq<byte>, c: seq<byte>, d: seq<byte>, e: seq<byte>)
    ensures a + b + c + (d + e) == a + (b + (c + (d + e))) && a + b + c + d + e == a + b + c + (d + e)
  {
  }

  lemma Framing(before: seq<byte>, magic: seq<byte>, body: seq<byte>, sum: seq<byte>)
    ensures (before + magic + body)[|before| + |magic|..] == body
    ensures before + magic + body + sum == before + (magic + (body + sum))
  {
  }

  class BinlogWriter {
    const crc: seq<byte> -> dword
    var file: seq<byte>          // what is on disk
    var buf: seq<byte>
    var lastFilePos: nat
    var lastTxnStart: nat

    ghost predicate Valid()
      reads this
    {
      lastFilePos == |file| && lastTxnStart <= |buf|
    }

    constructor (crc: seq<byte> -> dword)
      ensures Valid() && this.crc == crc && file == [] && buf == [] && lastTxnStart == 0
    {
      this.crc := crc;
      file, buf, lastFilePos, lastTxnStart := [], [], 0, 0;
    }

    method StartTransaction()
      requires Valid()
      modifies this
      ensures Valid() && file == old(file)
      ensures buf == old(buf) + LE(TXN_MAGIC, 4) && lastTxnStart == |old(buf)|
    {
      lastTxnStart := |buf|;
      buf := buf + LE(TXN_MAGIC, 4);
    }

    method EndTransaction(start: nat)
      requires Valid() && start <= |buf|
      modifies this
      ensures Valid() && file == old(file) && lastTxnStart == old(lastTxnStart)
      ensures buf == old(buf) + LE(crc(old(buf)[start..]), 4)
    {
      buf := buf + LE(crc(buf[start..]), 4);
    }

    /** The frame that introduces a table id. */
    method PutIndex(id: nat, name: Name)
      requires Valid()
      modifies this
      ensures Valid() && file == old(file)
      ensures buf == old(buf) + Encode(crc, AddIndex(id, name)) && lastTxnStart == |old(buf)|
    {
      ghost var before := buf;
      var start := |buf|;
      StartTransaction();
      ghost var marked := buf;
      buf := buf + [ADD_INDEX];
      buf := buf + Zip(id);
      buf := buf + Zip(|name|) + name;
      ghost var body := Body(AddIndex(id, name));
      NestedName(marked, [ADD_INDEX], Zip(id), Zip(|name|), name);
      Framing(before, LE(TXN_MAGIC, 4), body, LE(crc(body), 4));
      EndTransaction(start + 4);
    }

    /** A transaction frame; its size is patched in after the payload was written. */
    method PutTxn(id: nat, tid: nat, payload: seq<byte>)
      requires Valid() && |payload| < 0x1_0000_0000
      modifies this
      ensures Valid() && file == old(file)
      ensures buf == old(buf) + Encode(crc, AddTxn(id, tid, payload)) && lastTxnStart == |old(buf)|
    {
      ghost var before := buf;
      var start := |buf|;
      StartTransaction();
      ghost var marked := buf;
      buf := buf + [ADD_TXN];
      buf := buf + Zip(id);
      buf := buf + Zip(tid);
      PatchSize(payload);
      ghost var body := Body(AddTxn(id, tid, payload));
      Nested(marked, [ADD_TXN], Zip(id), Zip(tid), LE(|payload|, 4), payload);
      assert buf == marked + body;
      Framing(before, LE(TXN_MAGIC, 4), body, LE(crc(body), 4));
      EndTransaction(start + 4);
    }

    /** The size of the payload is known only after it was written. */
    method PatchSize(payload: seq<byte>)
      requires Valid() && |payload| < 0x1_0000_0000
      modifies this`buf
      ensures Valid() && buf == old(buf) + LE(|payload|, 4) + payload
    {
      var sizePos := |buf|;
      ghost var head := buf;
      buf := buf + LE(0, 4);
      buf := buf + payload;
      var size := |buf| - sizePos - 4;
      Patched(head, LE(0, 4), LE(size, 4), payload);
      buf := buf[..sizePos] + LE(size, 4) + buf[sizePos + 4..];
    }

    /** Write the buffer out.  `ok` says whether the write succeeds; if it does not,
        `partial` bytes reached the file before it is cut back to its last good length,
        and the last transaction is taken out of the buffer. */
    method Write(ok: bool, partial: nat) returns (written: bool)
      requires Valid()
      modifies this
      ensures Valid() && written == (old(buf) == [] || ok)
      ensures written ==> file == old(file) + old(buf) && buf == []
      ensures !written ==> file == old(file) && buf == old(buf)[..old(lastTxnStart)] && lastTxnStart == |buf|
    {
      if buf == [] {
        return true;
      }
      if !ok {
        file := file + buf[..if partial < |buf| then partial else |buf|];
        file := file[..lastFilePos];
        buf := buf[..lastTxnStart];
        return false;
      }
      file := file + buf;
      lastFilePos := lastFilePos + |buf|;
      lastTxnStart := 0;
      buf := [];
      return true;
    }

    /** What a write leaves in the buffer. */
    ghost function Left(ok: bool): seq<byte>
      requires Valid()
      reads this
    {
      if ok || buf == [] then [] else buf[..lastTxnStart]
    }

    /** Close the current file and start the next one.  The new file starts with its
        header exactly when nothing was left in the buffer: the closing write succeeded
        (or had nothing to do), or the only thing it dropped was the whole buffer. */
    method CloseAndOpen(ok: bool, partial: nat)
      requires Valid()
      modifies this
      ensures Valid() && file == []
      ensures buf == old(Left(ok)) + Header()
      ensures buf == Header() <==> ok || old(buf) == [] || old(lastTxnStart) == 0
    {
      var written := Write(ok, partial);
      file := [];
      lastFilePos := 0;
      ghost var left := buf;
      buf := buf + LE(HEADER_MAGIC, 4);
      buf := buf + LE(VERSION, 4);
      assert buf == left + Header();
      assert |Header()| == 8 && |buf| == |left| + 8;
    }
  }

  /** A tracked file without its bytes. */
  datatype FileDesc = FileDesc(ext: nat, infos: seq<Info>)

  function Descs(files: seq<LogFile>): seq<FileDesc>
  {
    seq(|files|, i requires 0 <= i < |files| => FileDesc(files[i].ext, files[i].infos))
  }

  lemma DescsConcat(a: seq<LogFile>, b: seq<LogFile>)
    ensures Descs(a + b) == Descs(a) + Descs(b)
  {
  }

  /** What is kept of a single file. */
  ghost function KeptOf(f: LogFile, name: Name, tid: int): seq<LogFile>
  {
    if Used(Mark(f, name, tid)) then [Mark(f, name, tid)] else []
  }

  lemma KeepCons(f: LogFile, files: seq<LogFile>, name: Name, tid: int)
    ensures Keep([f] + files, name, tid) == KeptOf(f, name, tid) + Keep(files, name, tid)
  {
    assert ([f] + files)[1..] == files;
  }

  lemma {:induction false} KeepSnoc(files: seq<LogFile>, f: LogFile, name: Name, tid: int)
    ensures Keep(files + [f], name, tid) == Keep(files, name, tid) + KeptOf(f, name, tid)
  {
    if files == [] {
      KeepCons(f, [], name, tid);
      assert files + [f] == [f] + [];
    } else {
      var g, rest := files[0], files[1..];
      assert files == [g] + rest && files + [f] == [g] + (rest + [f]);
      KeepCons(g, rest, name, tid);
      KeepCons(g, rest + [f], name, tid);
      KeepSnoc(rest, f, name, tid);
    }
  }

  /** The descriptors in the middle of the loop: kept ones, then those still to visit. */
  ghost function Midway(files: seq<LogFile>, done: nat, name: Name, tid: int): seq<FileDesc>
    requires done <= |files|
  {
    Descs(Keep(files[..done], name, tid)) + Descs(files[done..])
  }

  lemma MidwayEnds(files: seq<LogFile>, name: Name, tid: int)
    ensures Midway(files, 0, name, tid) == Descs(files) && Keep(files[..0], name, tid) == []
    ensures Midway(files, |files|, name, tid) == Descs(Keep(files, name, tid))
    ensures files[0..] == files && files[..|files|] == files
  {
    assert files[..0] == [] && files[0..] == files;
    assert files[..|files|] == files && files[|files|..] == [];
  }

  lemma DescsSplit(kept: seq<LogFile>, f: LogFile, rest: seq<LogFile>)
    ensures var d := Descs(kept) + Descs([f] + rest);
            d[|kept|] == FileDesc(f.ext, f.infos) && d[..|kept|] == Descs(kept) && d[|kept| + 1..] == Descs(rest)
  {
  }

  lemma DescsJoin(kept: seq<LogFile>, f: LogFile)
    ensures Descs(kept + [f]) == Descs(kept) + [FileDesc(f.ext, f.infos)]
  {
  }

  lemma KeptDescs(files: seq<LogFile>, name: Name, tid: int)
    ensures forall d <- Descs(Keep(files, name, tid)) :: Unflushed(d.infos)
  {
    var kept := Keep(files, name, tid);
    KeepIff(files, name, tid);
    forall d | d in Descs(kept) ensures Unflushed(d.infos)
    {
      var k :| 0 <= k < |kept| && Descs(kept)[k] == d;
      assert kept[k] in kept && d.infos == kept[k].infos;
    }
  }

  lemma WrittenDescs(m: Log, a: Log)
    requires a.closed == m.closed && a.current == m.current
    ensures Descs(Files(WriteOk(a))) == Descs(Files(m))
  {
    DescsJoin(m.closed, m.current);
    DescsJoin(m.closed, WriteOk(a).current);
  }

  lemma LastDesc(m: Log)
    ensures Descs(Files(m))[|Descs(Files(m))| - 1] == FileDesc(m.current.ext, m.current.infos)
  {
  }

  lemma DescsLast(closed: seq<LogFile>, f: LogFile, g: LogFile)
    ensures Descs(closed + [f])[|closed| := FileDesc(g.ext, g.infos)] == Descs(closed + [g])
  {
  }

  lemma MidwayAt(files: seq<LogFile>, done: nat, name: Name, tid: int)
    requires done < |files|
    ensures var k := |Keep(files[..done], name, tid)|;
            k < |Midway(files, done, name, tid)| && Midway(files, done, name, tid)[k] == FileDesc(files[done].ext, files[done].infos)
  {
    var kept := Keep(files[..done], name, tid);
    assert files[done..] == [files[done]] + files[done + 1..];
    DescsSplit(kept, files[done], files[done + 1..]);
  }

  /** One step of the loop: overwrite the descriptor, or remove it. */
  lemma MidwayStep(files: seq<LogFile>, done: nat, name: Name, tid: int, logs: seq<FileDesc>, f: LogFile)
    requires done < |files| && logs == Midway(files, done, name, tid) && f == Mark(files[done], name, tid)
    ensures var k := |Keep(files[..done], name, tid)|;
            k < |logs| && (k == |logs| - 1 <==> done == |files| - 1) &&
            if Used(f) then
              logs[k := FileDesc(f.ext, f.infos)] == Midway(files, done + 1, name, tid) && |Keep(files[..done + 1], name, tid)| == k + 1
            else
              logs[..k] + logs[k + 1..] == Midway(files, done + 1, name, tid) && |Keep(files[..done + 1], name, tid)| == k
  {
    var kept := Keep(files[..done], name, tid);
    var k := |kept|;
    assert files[done..] == [files[done]] + files[done + 1..];
    DescsSplit(kept, files[done], files[done + 1..]);
    KeepNext(files, done, name, tid);
    if Used(f) {
      DescsJoin(kept, f);
      assert logs[k := FileDesc(f.ext, f.infos)] == logs[..k] + [FileDesc(f.ext, f.infos)] + logs[k + 1..];
    } else {
      assert kept + [] == kept;
    }
  }

  /** The numbers of the files that are dropped. */
  ghost function Dropped(files: seq<LogFile>, name: Name, tid: int): set<nat>
  {
    if files == [] then {}
    else (if Used(Mark(files[0], name, tid)) then {} else {files[0].ext}) + Dropped(files[1..], name, tid)
  }

  lemma {:induction false} DroppedSnoc(files: seq<LogFile>, f: LogFile, name: Name, tid: int)
    ensures Dropped(files + [f], name, tid) == Dropped(files, name, tid) + (if Used(Mark(f, name, tid)) then {} else {f.ext})
  {
    if files == [] {
      assert [f][1..] == [];
    } else {
      assert (files + [f])[1..] == files[1..] + [f];
      DroppedSnoc(files[1..], f, name, tid);
    }
  }

  /** One more file kept or removed. */
  lemma ArchiveNext(before: map<nat, seq<byte>>, now: map<nat, seq<byte>>, files: seq<LogFile>, done: nat, name: Name, tid: int)
    requires done < |files| && now == before - Dropped(files[..done], name, tid)
    ensures (if Used(Mark(files[done], name, tid)) then now else now - {files[done].ext}) == before - Dropped(files[..done + 1], name, tid)
  {
    assert files[..done + 1] == files[..done] + [files[done]];
    DroppedSnoc(files[..done], files[done], name, tid);
    RemovedTwice(before, Dropped(files[..done], name, tid), files[done].ext);
  }

  lemma RemovedTwice(before: map<nat, seq<byte>>, gone: set<nat>, ext: nat)
    ensures (before - gone) - {ext} == before - (gone + {ext})
    ensures before - (gone + {}) == before - gone
  {
    assert gone + {} == gone;
  }

  /** File numbers are distinct, so dropping a file leaves the bytes of the kept ones. */
  lemma {:induction false} KeptNotDropped(files: seq<LogFile>, name: Name, tid: int, low: nat, high: nat)
    requires Safety.Exts(files, low, high)
    ensures forall e <- Dropped(files, name, tid) :: low <= e < high
    ensures forall f <- Keep(files, name, tid) :: f.ext !in Dropped(files, name, tid)
  {
    if files != [] {
      KeptNotDropped(files[1..], name, tid, files[0].ext + 1, high);
      Safety.KeepExts(files[1..], name, tid, files[0].ext + 1, high);
      ExtsBelow(Keep(files[1..], name, tid), files[0].ext + 1, high);
    }
  }

  lemma KeepNext(files: seq<LogFile>, done: nat, name: Name, tid: int)
    requires done < |files|
    ensures Keep(files[..done + 1], name, tid) == Keep(files[..done], name, tid) + KeptOf(files[done], name, tid)
  {
    assert files[..done + 1] == files[..done] + [files[done]];
    KeepSnoc(files[..done], files[done], name, tid);
  }

  /** A closed file on disk is the frames the model says it holds. */
  ghost predicate Archived(files: seq<LogFile>, archive: map<nat, seq<byte>>, crc: seq<byte> -> dword)
  {
    forall f <- files :: f.ext in archive && AllFit(f.frames) && archive[f.ext] == FileBytes(crc, f.frames)
  }

  /** The same for all tracked files; the last one may never have got its header. */
  ghost predicate Imaged(files: seq<LogFile>, disk: map<nat, seq<byte>>, crc: seq<byte> -> dword)
  {
    forall i | 0 <= i < |files| :: Image(files[i], i == |files| - 1, disk, crc)
  }

  ghost predicate Image(f: LogFile, last: bool, disk: map<nat, seq<byte>>, crc: seq<byte> -> dword)
  {
    && f.ext in disk && AllFit(f.frames)
    && (disk[f.ext] == FileBytes(crc, f.frames) || (last && disk[f.ext] == [] && f.frames == []))
  }

  /** Removing the first file leaves the bytes of the others. */
  lemma FirstRemoved(files: seq<LogFile>, disk: map<nat, seq<byte>>, crc: seq<byte> -> dword, high: nat)
    requires files != [] && Imaged(files, disk, crc) && Safety.Exts(files, 0, high)
    ensures Imaged(files[1..], disk - {files[0].ext}, crc) && Safety.Exts(files[1..], 0, high)
  {
    var rest := files[1..];
    ExtsBelow(rest, files[0].ext + 1, high);
    Safety.ExtsWiden(rest, files[0].ext + 1, 0, high, high);
    forall i | 0 <= i < |rest| ensures Image(rest[i], i == |rest| - 1, disk - {files[0].ext}, crc) {
      assert rest[i] == files[i + 1] && rest[i] in rest;
      assert Image(files[i + 1], i + 1 == |files| - 1, disk, crc);
    }
  }

  lemma DescsRest(files: seq<LogFile>)
    requires files != []
    ensures Descs(files)[1..] == Descs(files[1..])
  {
  }

  /** A file without frames is at most a header long. */
  lemma EmptyImage(f: LogFile, disk: map<nat, seq<byte>>, crc: seq<byte> -> dword)
    requires Image(f, true, disk, crc)
    ensures f.frames == [] <==> |disk[f.ext]| <= 8
  {
    if f.frames != [] {
      assert f.frames[0] in f.frames;
      assert |Encode(crc, f.frames[0])| >= 8;
      assert |EncodeAll(crc, f.frames)| >= 8;
    }
  }

  lemma KeptArchived(files: seq<LogFile>, n: nat, disk: map<nat, seq<byte>>, crc: seq<byte> -> dword)
    requires n <= |files| && Imaged(files, disk, crc) && (n == |files| > 0 ==> files[n - 1].frames != [])
    ensures Archived(files[..n], disk, crc)
  {
    forall f | f in files[..n] ensures f.ext in disk && AllFit(f.frames) && disk[f.ext] == FileBytes(crc, f.frames) {
      var i :| 0 <= i < n && files[i] == f;
      assert Image(files[i], i == |files| - 1, disk, crc);
    }
  }

  /** Closing the current file and opening the next number. */
  lemma RotateTracks(m: Log, archive: map<nat, seq<byte>>, crc: seq<byte> -> dword, bytes: seq<byte>)
    requires Safety.ExtsOk(m) && Archived(m.closed, archive, crc)
    requires AllFit(m.current.frames) && bytes == FileBytes(crc, m.current.frames)
    ensures Safety.ExtsOk(Rotate(m)) && Archived(Rotate(m).closed, archive[m.current.ext := bytes], crc)
    ensures Descs(Files(Rotate(m))) == Descs(Files(m)) + [FileDesc(m.nextExt, [])]
    ensures Descs(Files(m))[|Descs(Files(m))| - 1].ext == m.current.ext
  {
    Safety.ExtsAppend(m.closed, m.current, 0);
    Safety.ExtsWiden(m.closed + [m.current], 0, 0, m.current.ext + 1, m.nextExt);
    DescsJoin(Files(m), NewFile(m.nextExt));
    ArchiveGrows(m.closed, m.current, archive, crc, bytes);
  }

  lemma ArchiveGrows(closed: seq<LogFile>, f: LogFile, archive: map<nat, seq<byte>>, crc: seq<byte> -> dword, bytes: seq<byte>)
    requires Safety.Exts(closed, 0, f.ext) && Archived(closed, archive, crc)
    requires AllFit(f.frames) && bytes == FileBytes(crc, f.frames)
    ensures Archived(closed + [f], archive[f.ext := bytes], crc)
  {
    ExtsBelow(closed, 0, f.ext);
  }

  /** The log that goes on after the recovered files. */
  lemma ReopenedTracks(files: seq<LogFile>, disk: map<nat, seq<byte>>, crc: seq<byte> -> dword, high: nat)
    requires Imaged(files, disk, crc) && Safety.Exts(files, 0, high)
    ensures var l := Reopen(files);
            && Safety.ExtsOk(l) && Archived(l.closed, disk, crc) && l.current.frames == [] && l.buf == []
            && Descs(Files(l)) == Descs(l.closed) + [FileDesc(l.current.ext, [])]
  {
    DescsJoin(Reopen(files).closed, Reopen(files).current);
    ReopenedExts(files, high);
    ReopenedArchive(files, disk, crc);
  }

  lemma ReopenedExts(files: seq<LogFile>, high: nat)
    requires Safety.Exts(files, 0, high)
    ensures Safety.ExtsOk(Reopen(files))
  {
    if files != [] {
      Crash.ExtsSplit(files, 0, high);
    }
  }

  lemma ReopenedArchive(files: seq<LogFile>, disk: map<nat, seq<byte>>, crc: seq<byte> -> dword)
    requires Imaged(files, disk, crc)
    ensures Archived(Reopen(files).closed, disk, crc)
  {
    var n := |files|;
    if files != [] {
      assert files[..n] == files;
      KeptArchived(files, if files[n - 1].frames == [] then n - 1 else n, disk, crc);
    }
  }

  lemma {:induction false} ExtsBelow(files: seq<LogFile>, low: nat, high: nat)
    requires Safety.Exts(files, low, high)
    ensures forall f <- files :: low <= f.ext < high
  {
    if files != [] {
      ExtsBelow(files[1..], files[0].ext + 1, high);
      assert files == [files[0]] + files[1..];
    }
  }

  /** What a commit makes of the log, after the table id was found. */
  lemma CommitModel(m0: Log, m1: Log, name: Name, txn: Txn, a: Log)
    requires m1 == m0.(current := m0.current.(infos := Touch(m0.current.infos, name, txn.tid)),
                       buf := m0.buf + Intro(m0.current.infos, name))
    requires a == m1.(buf := m1.buf + [AddTxn(Find(m0.current.infos, name), txn.tid, txn.payload)])
    ensures CommitLog(m0, name, txn, false, false) == m1 && CommitLog(m0, name, txn, true, false) == WriteOk(a)
  {
    assert a.buf[..|a.buf| - 1] == m1.buf;
  }

  lemma EncodeOne(crc: seq<byte> -> dword, f: Frame)
    requires Fits(f)
    ensures AllFit([f]) && EncodeAll(crc, [f]) == Encode(crc, f)
  {
    assert [f][1..] == [] && EncodeAll(crc, []) == [];
    assert Encode(crc, f) + [] == Encode(crc, f);
  }

  lemma AppendedFrame(crc: seq<byte> -> dword, h: seq<byte>, frames: seq<Frame>, f: Frame)
    requires AllFit(frames) && Fits(f)
    ensures AllFit(frames + [f])
    ensures h + EncodeAll(crc, frames + [f]) == (h + EncodeAll(crc, frames)) + Encode(crc, f)
  {
    EncodeConcat(crc, frames, [f]);
    EncodeOne(crc, f);
    Assoc(h, EncodeAll(crc, frames), Encode(crc, f));
  }

  /** What the buffer starts with: the header if it is still to come, behind the bytes an
      earlier file has left there. */
  ghost function Lead(stale: seq<byte>, headerOut: bool): seq<byte>
  {
    if headerOut then [] else stale + Header()
  }

  ghost function Pending(crc: seq<byte> -> dword, lead: seq<byte>, frames: seq<Frame>): seq<byte>
    requires AllFit(frames)
  {
    lead + EncodeAll(crc, frames)
  }

  ghost function FileImage(crc: seq<byte> -> dword, stale: seq<byte>, headerOut: bool, frames: seq<Frame>): seq<byte>
    requires AllFit(frames)
  {
    if headerOut then stale + FileBytes(crc, frames) else []
  }

  lemma JoinedBehind(stale: seq<byte>, h: seq<byte>, a: seq<byte>, b: seq<byte>)
    ensures (stale + (h + a)) + ([] + b) == stale + (h + (a + b))
    ensures [] + ((stale + h) + b) == stale + (h + b)
  {
  }

  lemma WrittenFrames(crc: seq<byte> -> dword, stale: seq<byte>, headerOut: bool, frames: seq<Frame>, more: seq<Frame>)
    requires AllFit(frames) && AllFit(more) && (!headerOut ==> frames == [])
    ensures AllFit(frames + more)
    ensures FileImage(crc, stale, headerOut, frames) + Pending(crc, Lead(stale, headerOut), more) == stale + FileBytes(crc, frames + more)
  {
    JoinedBehind(stale, Header(), EncodeAll(crc, frames), EncodeAll(crc, more));
    if headerOut {
      EncodeConcat(crc, frames, more);
    } else {
      assert frames + more == more;
    }
  }

  lemma NothingStale(b: seq<byte>)
    ensures [] + b == b && b + [] == b
  {
  }

  /** What finding or entering a table makes of the log. */
  lemma TouchedLog(m: Log, name: Name, tid: int)
    ensures var infos, id := m.current.infos, Find(m.current.infos, name);
            m.(current := m.current.(infos := Touch(infos, name, tid)), buf := m.buf + Intro(infos, name)) ==
              if id < |infos| then
                m.(current := m.current.(infos := infos[id := infos[id].(maxTid := Max(infos[id].maxTid, tid))]))
              else
                m.(current := m.current.(infos := infos + [Info(name, tid, tid, 0)]), buf := m.buf + [AddIndex(id, name)])
  {
    assert m.buf + [] == m.buf;
  }

  class SingleBinlog {
    var logFiles: seq<FileDesc>
    var nextExt: nat
    var archive: map<nat, seq<byte>>   // bytes of the tracked files that are closed
    const writer: BinlogWriter
    const restartSize: nat
    ghost var model: Log
    ghost var headerOut: bool          // the current file's header has reached the disk
    ghost var stale: seq<byte>         // what the current file has, or gets, in front of its header

    ghost predicate Valid()
      reads this, writer
    {
      Sound() && stale == []
    }

    /** All of it except that the current file may start with stale bytes. */
    ghost predicate Sound()
      reads this, writer
    {
      Tracked() && Framed()
    }

    ghost predicate Tracked()
      reads this, writer
    {
      && writer.Valid() && Safety.ExtsOk(model)
      && logFiles == Descs(Files(model)) && nextExt == model.nextExt
      && Archived(model.closed, archive, writer.crc)
    }

    /** File bytes followed by buffer bytes are the header and whole frames, behind the
        stale bytes. */
    ghost predicate Framed()
      reads this, writer
    {
      && AllFit(model.current.frames) && AllFit(model.buf)
      && (!headerOut ==> model.current.frames == [])
      && writer.file == FileImage(writer.crc, stale, headerOut, model.current.frames)
      && writer.buf == Pending(writer.crc, Lead(stale, headerOut), model.buf)
    }

    constructor (crc: seq<byte> -> dword, restartSize: nat)
      ensures Valid() && model == Log([], NewFile(0), [], 1) && fresh(writer) && !headerOut
      ensures this.restartSize == restartSize && writer.crc == crc
    {
      logFiles := [FileDesc(0, [])];
      nextExt := 1;
      archive := map[];
      this.restartSize := restartSize;
      writer := new BinlogWriter(crc);
      model := Log([], NewFile(0), [], 1);
      headerOut, stale := false, [];
      new;
      writer.CloseAndOpen(true, 0);
      NothingStale(Header());
    }

    /** Replay keeps no leading file that has no table: its file is removed. */
    static method AdoptFiles(descs: seq<FileDesc>, disk: map<nat, seq<byte>>, ghost files: seq<LogFile>, ghost crc: seq<byte> -> dword, ghost high: nat)
      returns (kept: seq<FileDesc>, left: map<nat, seq<byte>>)
      requires descs == Descs(files) && Imaged(files, disk, crc) && Safety.Exts(files, 0, high)
      ensures kept == Descs(Adopt(files)) && Imaged(Adopt(files), left, crc) && Safety.Exts(Adopt(files), 0, high)
    {
      kept, left := descs, disk;
      ghost var rest := files;
      while kept != [] && kept[0].infos == []
        invariant kept == Descs(rest) && Adopt(rest) == Adopt(files)
        invariant Imaged(rest, left, crc) && Safety.Exts(rest, 0, high)
      {
        FirstRemoved(rest, left, crc, high);
        DescsRest(rest);
        left := left - {kept[0].ext};
        kept := kept[1..];
        rest := rest[1..];
      }
    }

    /** Where writing goes on: in the last file again if it is empty, else in a new one. */
    static method NextFile(kept: seq<FileDesc>, disk: map<nat, seq<byte>>, ghost files: seq<LogFile>, ghost crc: seq<byte> -> dword)
      returns (closed: seq<FileDesc>, ext: nat)
      requires kept == Descs(files) && Imaged(files, disk, crc)
      ensures var l := Reopen(files); closed == Descs(l.closed) && ext == l.current.ext && ext + 1 == l.nextExt && l.current.infos == []
    {
      if kept == [] {
        return [], 0;
      }
      var n := |kept|;
      var last := kept[n - 1];
      assert Image(files[n - 1], true, disk, crc);
      EmptyImage(files[n - 1], disk, crc);
      if |disk[last.ext]| <= 8 {
        return kept[..n - 1], last.ext;
      }
      return kept, last.ext + 1;
    }

    /** The end of Replay: take over the files it has read and go on writing. */
    constructor Reopened(crc: seq<byte> -> dword, restartSize: nat, descs: seq<FileDesc>, disk: map<nat, seq<byte>>, ghost files: seq<LogFile>, ghost high: nat)
      requires descs == Descs(files) && Imaged(files, disk, crc) && Safety.Exts(files, 0, high)
      ensures Valid() && model == Reopen(Adopt(files)) && fresh(writer) && !headerOut
      ensures this.restartSize == restartSize && writer.crc == crc
    {
      var kept, left := AdoptFiles(descs, disk, files, crc, high);
      var closed, ext := NextFile(kept, left, Adopt(files), crc);
      ReopenedTracks(Adopt(files), left, crc, high);
      logFiles := closed + [FileDesc(ext, [])];
      nextExt := ext + 1;
      archive := left;
      this.restartSize := restartSize;
      writer := new BinlogWriter(crc);
      model := Reopen(Adopt(files));
      headerOut, stale := false, [];
      new;
      writer.CloseAndOpen(true, 0);
      NothingStale(Header());
    }

    static method FindIndex(infos: seq<Info>, name: Name) returns (i: nat)
      ensures i == Find(infos, name)
    {
      i := 0;
      while i < |infos| && infos[i].name != name
        invariant 0 <= i <= |infos|
        invariant forall j | 0 <= j < i :: infos[j].name != name
      {
        i := i + 1;
      }
    }

    /** Replace the entries of the current file. */
    method SetInfos(infos: seq<Info>)
      requires logFiles == Descs(Files(model))
      modifies this`logFiles
      ensures logFiles == Descs(model.closed + [model.current.(infos := infos)])
    {
      DescsLast(model.closed, model.current, model.current.(infos := infos));
      logFiles := logFiles[|logFiles| - 1 := logFiles[|logFiles| - 1].(infos := infos)];
    }

    /** The table id to use in the current file; a new table is introduced by a frame. */
    method GetWriteIndexID(name: Name, tid: int) returns (id: nat)
      requires Sound()
      modifies this`logFiles, writer, this`model
      ensures writer.Valid() && writer.file == old(writer.file) && id == Find(old(model).current.infos, name)
      ensures model == old(model).(current := old(model).current.(infos := Touch(old(model).current.infos, name, tid)),
                                   buf := old(model).buf + Intro(old(model).current.infos, name))
      ensures Sound()
    {
      var infos := logFiles[|logFiles| - 1].infos;
      ghost var m := model;
      assert infos == m.current.infos;
      id := FindIndex(infos, name);
      TouchedLog(m, name, tid);
      if id < |infos| {
        infos := infos[id := infos[id].(maxTid := Max(infos[id].maxTid, tid))];
        SetInfos(infos);
        GoOn(m.(current := m.current.(infos := infos)));
      } else {
        infos := infos + [Info(name, tid, tid, 0)];
        SetInfos(infos);
        GoOn(m.(current := m.current.(infos := infos)));
        writer.PutIndex(id, name);
        FrameAdded(AddIndex(id, name));
      }
    }

    /** One more frame is in the buffer. */
    ghost method FrameAdded(f: Frame)
      requires Tracked() && AllFit(model.current.frames) && AllFit(model.buf) && Fits(f) && (!headerOut ==> model.current.frames == [])
      requires writer.file == FileImage(writer.crc, stale, headerOut, model.current.frames)
      requires writer.buf == Pending(writer.crc, Lead(stale, headerOut), model.buf) + Encode(writer.crc, f)
      modifies this`model
      ensures Sound() && model == old(model).(buf := old(model).buf + [f])
    {
      AppendedFrame(writer.crc, Lead(stale, headerOut), model.buf, f);
      model := model.(buf := model.buf + [f]);
    }

    /** The whole buffer has reached the disk. */
    ghost method FramesWritten(a: Log)
      requires Tracked() && AllFit(model.current.frames) && AllFit(a.buf) && (!headerOut ==> model.current.frames == [])
      requires a == model.(buf := a.buf) && writer.buf == []
      requires writer.file == FileImage(writer.crc, stale, headerOut, model.current.frames) + Pending(writer.crc, Lead(stale, headerOut), a.buf)
      modifies this`model, this`headerOut
      ensures Sound() && headerOut && model == WriteOk(a)
    {
      WrittenFrames(writer.crc, stale, headerOut, model.current.frames, a.buf);
      WrittenDescs(model, a);
      headerOut := true;
      model := WriteOk(a);
    }

    /** BinlogCommit in a write-through flush mode: on success the frames are on disk and
        the buffer is empty; on failure the transaction is in neither.  The file is
        closed and a new one started once it has grown past the restart size.  A commit into
        a file with stale bytes in front goes the same way and is reported the same way. */
    method BinlogCommit(name: Name, tid: nat, payload: seq<byte>, ok: bool, partial: nat) returns (done: bool, rotated: bool)
      requires Sound() && |payload| < 0x1_0000_0000
      modifies this, writer
      ensures old(Valid()) ==> Valid()
      ensures !rotated ==> Sound() && stale == old(stale)
      ensures done == ok && (rotated ==> ok)
      ensures model == CommitLog(old(model), name, Txn(tid, payload), ok, rotated)
      ensures ok && !rotated ==> headerOut
      ensures ok ==> writer.buf == if rotated then Header() else []
      ensures !ok ==> headerOut == old(headerOut) && writer.lastTxnStart == |writer.buf|
      ensures rotated ==> old(model).current.ext in archive && |archive[old(model).current.ext]| > restartSize > 0
      ensures rotated ==> var f := CommitLog(old(model), name, Txn(tid, payload), true, false).current;
                          AllFit(f.frames) && archive == old(archive)[f.ext := old(stale) + FileBytes(writer.crc, f.frames)]
      ensures ok && !rotated ==> restartSize == 0 || |writer.file| <= restartSize
    {
      done := WriteCommit(name, tid, payload, ok, partial);
      rotated := false;
      if done {
        rotated := CheckDoRestart();
      }
    }

    /** The table id and the transaction go into the buffer, which can still be cut back
        to what it was. */
    method PutCommit(name: Name, tid: nat, payload: seq<byte>) returns (ghost f: Frame)
      requires Sound() && |payload| < 0x1_0000_0000
      modifies this`logFiles, this`model, writer
      ensures Tracked() && AllFit(model.current.frames) && AllFit(model.buf) && AllFit(model.buf + [f]) && (!headerOut ==> model.current.frames == [])
      ensures writer.file == old(writer.file) == FileImage(writer.crc, stale, headerOut, model.current.frames)
      ensures writer.buf == Pending(writer.crc, Lead(stale, headerOut), model.buf + [f]) && writer.buf != []
      ensures writer.buf[..writer.lastTxnStart] == Pending(writer.crc, Lead(stale, headerOut), model.buf)
      ensures CommitLog(old(model), name, Txn(tid, payload), false, false) == model
      ensures CommitLog(old(model), name, Txn(tid, payload), true, false) == WriteOk(model.(buf := model.buf + [f]))
    {
      ghost var m0 := model;
      var id := GetWriteIndexID(name, tid);
      writer.PutTxn(id, tid, payload);
      f := AddTxn(id, tid, payload);
      AppendedFrame(writer.crc, Lead(stale, headerOut), model.buf, f);
      CommitModel(m0, model, name, Txn(tid, payload), model.(buf := model.buf + [f]));
      assert |Encode(writer.crc, f)| >= 8;
    }

    method WriteCommit(name: Name, tid: nat, payload: seq<byte>, ok: bool, partial: nat) returns (done: bool)
      requires Sound() && |payload| < 0x1_0000_0000
      modifies this, writer
      ensures Sound() && stale == old(stale) && archive == old(archive) && done == ok && model == CommitLog(old(model), name, Txn(tid, payload), ok, false)
      ensures ok ==> headerOut && writer.buf == []
      ensures !ok ==> headerOut == old(headerOut) && writer.lastTxnStart == |writer.buf|
    {
      ghost var f := PutCommit(name, tid, payload);
      ghost var a := model.(buf := model.buf + [f]);
      done := writer.Write(ok, partial);
      if done {
        FramesWritten(a);
      }
    }

    method CheckDoRestart() returns (rotated: bool)
      requires Sound() && headerOut && model.buf == [] && writer.buf == []
      modifies this, writer
      ensures old(Valid()) ==> Valid()
      ensures !rotated ==> Sound() && stale == old(stale) && headerOut
      ensures rotated == (restartSize != 0 && |old(writer.file)| > restartSize)
      ensures rotated ==> model == Rotate(old(model)) && writer.buf == Header() && archive == old(archive)[old(model).current.ext := old(writer.file)]
      ensures !rotated ==> model == old(model) && writer.buf == [] && writer.file == old(writer.file)
    {
      rotated := restartSize != 0 && writer.lastFilePos > restartSize;
      if rotated {
        RotateLog();
      }
    }

    method RotateLog()
      requires Sound() && headerOut && model.buf == [] && writer.buf == []
      modifies this, writer
      ensures old(Valid()) ==> Valid()
      ensures model == Rotate(old(model)) && writer.buf == Header()
      ensures archive == old(archive)[old(model).current.ext := old(writer.file)]
    {
      if stale == [] {
        NothingStale(FileBytes(writer.crc, model.current.frames));
        RotateTracks(model, archive, writer.crc, writer.file);
      }
      LastDesc(model);
      NothingStale(Header());
      var ext := logFiles[|logFiles| - 1].ext;
      archive := archive[ext := writer.file];
      model := Rotate(model);
      OpenNewLog(true, 0);
      stale := [];
    }

    /** Append a descriptor for the next file number and open that file. */
    method OpenNewLog(ok: bool, partial: nat)
      requires writer.Valid()
      modifies this`logFiles, this`nextExt, this`headerOut, writer
      ensures writer.Valid() && writer.file == [] && writer.buf == old(writer.Left(ok)) + Header() && !headerOut
      ensures writer.buf == Header() <==> ok || old(writer.buf) == [] || old(writer.lastTxnStart) == 0
      ensures logFiles == old(logFiles) + [FileDesc(old(nextExt), [])] && nextExt == old(nextExt) + 1
    {
      logFiles := logFiles + [FileDesc(nextExt, [])];
      nextExt := nextExt + 1;
      writer.CloseAndOpen(ok, partial);
      headerOut := false;
    }

    /** Update one file's entries and tell whether it is still needed. */
    static method MarkInfos(before: seq<Info>, ghost f: LogFile, name: Name, tid: int) returns (infos: seq<Info>, used: bool)
      requires f.infos == before
      ensures infos == Mark(f, name, tid).infos && used == Used(Mark(f, name, tid))
      ensures |infos| == |before| && forall i | 0 <= i < |before| :: infos[i] == before[i].(flushedTid := FlushedBy(before[i], name, tid))
      ensures used <==> Unflushed(infos)
    {
      infos, used := before, false;
      ghost var g := Mark(f, name, tid);
      var i := 0;
      while i < |infos|
        invariant 0 <= i <= |infos| == |before|
        invariant forall j | 0 <= j < i :: infos[j] == g.infos[j]
        invariant forall j | i <= j < |infos| :: infos[j] == before[j]
        invariant used <==> exists j | 0 <= j < i :: g.infos[j].flushedTid < g.infos[j].maxTid
      {
        if infos[i].name == name {
          infos := infos[i := infos[i].(flushedTid := Max(infos[i].flushedTid, tid))];
        }
        if infos[i].flushedTid < infos[i].maxTid {
          used := true;
        }
        i := i + 1;
      }
    }

    /** Update one descriptor in place, or drop it together with its file. */
    method DropOrKeep(i: nat, ghost f: LogFile, name: Name, tid: int) returns (used: bool)
      requires i < |logFiles| && logFiles[i] == FileDesc(f.ext, f.infos)
      modifies this`logFiles, this`archive
      ensures used == Used(Mark(f, name, tid))
      ensures logFiles == (if used then old(logFiles)[i := FileDesc(f.ext, Mark(f, name, tid).infos)]
                           else old(logFiles)[..i] + old(logFiles)[i + 1..])
      ensures archive == (if used then old(archive) else old(archive) - {f.ext})
    {
      var d := logFiles[i];
      var infos;
      infos, used := MarkInfos(d.infos, f, name, tid);
      if used {
        logFiles := logFiles[i := d.(infos := infos)];
      } else {
        archive := archive - {d.ext};
        logFiles := logFiles[..i] + logFiles[i + 1..];
      }
    }

    /** One round of the descriptor loop. */
    method VisitFile(iLog: nat, ghost files: seq<LogFile>, ghost done: nat, name: Name, tid: int, ghost before: map<nat, seq<byte>>)
      returns (used: bool)
      requires done < |files| && iLog == |Keep(files[..done], name, tid)|
      requires logFiles == Midway(files, done, name, tid) && archive == before - Dropped(files[..done], name, tid)
      modifies this`logFiles, this`archive
      ensures used == Used(Mark(files[done], name, tid)) && (iLog == |old(logFiles)| - 1 <==> done == |files| - 1)
      ensures |Keep(files[..done + 1], name, tid)| == if used then iLog + 1 else iLog
      ensures logFiles == Midway(files, done + 1, name, tid) && archive == before - Dropped(files[..done + 1], name, tid)
    {
      MidwayAt(files, done, name, tid);
      MidwayStep(files, done, name, tid, logFiles, Mark(files[done], name, tid));
      ArchiveNext(before, archive, files, done, name, tid);
      used := DropOrKeep(iLog, files[done], name, tid);
    }

    /** The descriptor loop of NotifyIndexFlush: update every file's entries and drop the
        files that are not needed any more. */
    method DropFlushed(name: Name, tid: int) returns (abandoned: bool)
      requires logFiles == Descs(Files(model)) && Safety.ExtsOk(model)
      modifies this`logFiles, this`archive
      ensures logFiles == Descs(Keep(Files(model), name, tid))
      ensures forall d <- logFiles :: Unflushed(d.infos)
      ensures abandoned <==> !Used(Mark(model.current, name, tid))
      ensures abandoned <==> AllFlushed(model.current.infos, name, tid)
      ensures archive == old(archive) - Dropped(Files(model), name, tid)
    {
      ghost var files := Files(model);
      ghost var done := 0;
      var iLog := 0;
      abandoned := false;
      MidwayEnds(files, name, tid);
      while iLog < |logFiles|
        invariant done <= |files| && iLog == |Keep(files[..done], name, tid)|
        invariant logFiles == Midway(files, done, name, tid)
        invariant abandoned <==> done == |files| && !Used(Mark(model.current, name, tid))
        invariant archive == old(archive) - Dropped(files[..done], name, tid)
        decreases |files| - done
      {
        if done == |files| {
          MidwayEnds(files, name, tid);
          assert false;
        }
        var last := iLog == |logFiles| - 1;
        var used := VisitFile(iLog, files, done, name, tid, old(archive));
        if used {
          iLog := iLog + 1;
        } else if last {
          abandoned := true;
        }
        done := done + 1;
      }
      if done < |files| {
        MidwayAt(files, done, name, tid);
        assert false;
      }
      MarkShape(model.current, name, tid);
      KeptDescs(files, name, tid);
    }

    /** NotifyIndexFlush; a new file is started if the current one was dropped.  Whatever the
        write that closes the dropped file leaves in the buffer is stale in the new one, so
        the log stays valid exactly unless that write fails and leaves older frames. */
    method NotifyIndexFlush(name: Name, tid: int, ok: bool, partial: nat) returns (abandoned: bool)
      requires Sound()
      modifies this, writer
      ensures Sound() && model == NotifyFlush(old(model), name, tid)
      ensures abandoned <==> AllFlushed(old(model).current.infos, name, tid)
      ensures abandoned ==> writer.file == [] && stale == old(writer.Left(ok))
      ensures !abandoned ==> writer.file == old(writer.file) && writer.buf == old(writer.buf) && stale == old(stale)
      ensures Valid() <==> if abandoned then ok || old(writer.buf) == [] || old(writer.lastTxnStart) == 0 else old(Valid())
    {
      ghost var m := model;
      ghost var next := NotifyFlush(m, name, tid);
      abandoned := DropFlushed(name, tid);
      NotifyKeepsArchive(m, name, tid, old(archive), writer.crc);
      NotifyDescs(m, name, tid);
      if abandoned {
        StartOver(ok, partial, next);
      } else {
        GoOn(next);
      }
    }

    /** The current file stays: only descriptors have changed. */
    ghost method GoOn(next: Log)
      requires writer.Valid() && Safety.ExtsOk(next) && Archived(next.closed, archive, writer.crc) && Framed()
      requires next.current.frames == model.current.frames && next.buf == model.buf
      requires Descs(Files(next)) == logFiles && next.nextExt == nextExt
      modifies this`model
      ensures Sound() && model == next
    {
      model := next;
    }

    /** The current file was dropped: open the next one, numbered from 0 again if no file is
        left. */
    method StartOver(ok: bool, partial: nat, ghost next: Log)
      requires writer.Valid() && Safety.ExtsOk(next) && Archived(next.closed, archive, writer.crc)
      requires next.current.frames == [] && next.buf == []
      requires var ext := if logFiles == [] then 0 else nextExt;
               next.nextExt == ext + 1 && Descs(Files(next)) == logFiles + [FileDesc(ext, [])]
      modifies this`logFiles, this`nextExt, this`headerOut, this`model, this`stale, writer
      ensures Sound() && model == next && writer.file == [] && stale == old(writer.Left(ok))
      ensures stale == [] <==> ok || old(writer.buf) == [] || old(writer.lastTxnStart) == 0
    {
      if logFiles == [] {
        nextExt := 0;
      }
      OpenNewLog(ok, partial);
      model := next;
      stale := old(writer.Left(ok));
      NothingStale(writer.buf);
    }

    /** What is on disk for a tracked file. */
    lemma ImageAt(i: nat)
      requires Valid() && i < |logFiles|
      ensures |logFiles| == |Files(model)| && logFiles[i].ext == Files(model)[i].ext
      ensures var frames, ext := Files(model)[i].frames, logFiles[i].ext;
              && AllFit(frames)
              && (i < |logFiles| - 1 ==> ext in archive && archive[ext] == FileBytes(writer.crc, frames))
              && (i == |logFiles| - 1 ==> writer.file == FileBytes(writer.crc, frames) || (writer.file == [] && frames == []))
    {
      if i < |logFiles| - 1 {
        assert Files(model)[i] == model.closed[i] && model.closed[i] in model.closed;
      }
    }

    /** All files as a crash leaves them. */
    method Disk() returns (disk: map<nat, seq<byte>>)
      requires Valid()
      ensures Imaged(Files(model), disk, writer.crc)
    {
      ghost var files := Files(model);
      disk := archive[logFiles[|logFiles| - 1].ext := writer.file];
      ExtsBelow(model.closed, 0, model.current.ext);
      forall i | 0 <= i < |files| ensures Image(files[i], i == |files| - 1, disk, writer.crc) {
        ImageAt(i);
        if i < |files| - 1 {
          assert files[i] in model.closed;
        }
      }
    }

    /** Replay after a crash: whatever was in the buffer is gone, the bytes on disk are
        read back in the order of the meta file.  This is the frame-level replay. */
    method Recover(served: Served) returns (after: Served, descs: seq<FileDesc>)
      requires Valid()
      ensures after == ReplayFiles(Files(model), served).served
      ensures descs == Descs(ReplayFiles(Files(model), served).files)
    {
      ghost var files := Files(model);
      after, descs := served, [];
      var i := 0;
      assert files[0..] == files;
      while i < |logFiles|
        invariant 0 <= i <= |logFiles| == |files|
        invariant ReplayFiles(files, served).served == ReplayFiles(files[i..], after).served
        invariant Descs(ReplayFiles(files, served).files) == descs + Descs(ReplayFiles(files[i..], after).files)
      {
        ImageAt(i);
        var ext := logFiles[i].ext;
        var image := if i == |logFiles| - 1 then writer.file else archive[ext];
        var r := ReplayBinlog(writer.crc, after, image);
        ImageReplays(writer.crc, after, files[i].frames, image);
        ReplayFilesStep(files[i..], after, descs);
        assert files[i..][1..] == files[i + 1..];
        descs := descs + [FileDesc(ext, r.infos)];
        after := r.served;
        i := i + 1;
      }
      assert files[|files|..] == [];
    }
  }

  /** Crash safety of the bytes: if the log went through any legal run of commits (also
      failed ones), saves, flush notifications and earlier recoveries, reading its files
      back gives every table exactly its committed transactions. */
  method RecoverAfterRun(b: SingleBinlog, served: Served, ghost names: set<Name>, ghost run: seq<Action>) returns (after: Served)
    requires b.Valid() && Crash.Legal(Fresh(names), run)
    requires b.model == Crash.After(Fresh(names), run).log && served == OnDisk(Crash.After(Fresh(names), run).tables)
    ensures forall n <- Crash.After(Fresh(names), run).tables ::
              n in after && after[n].content == Crash.After(Fresh(names), run).tables[n].committed
  {
    var descs;
    after, descs := b.Recover(served);
    forall n <- Crash.After(Fresh(names), run).tables
      ensures n in after && after[n].content == Crash.After(Fresh(names), run).tables[n].committed
    {
      Crash.CrashSafety(names, run, n);
      ReplayOrderIsMetaOrder(Files(b.model));
    }
  }

  lemma {:induction false} ReplayKeepsFrames(files: seq<LogFile>, served: Served)
    ensures var r := ReplayFiles(files, served).files;
            |r| == |files| && forall i | 0 <= i < |files| :: r[i].ext == files[i].ext && r[i].frames == files[i].frames
  {
    if files != [] {
      ReplayKeepsFrames(files[1..], ReplayFrames(StartFile(served), files[0].frames).served);
    }
  }

  lemma SameImages(a: seq<LogFile>, b: seq<LogFile>, disk: map<nat, seq<byte>>, crc: seq<byte> -> dword)
    requires Imaged(a, disk, crc) && |a| == |b| && forall i | 0 <= i < |a| :: a[i].ext == b[i].ext && a[i].frames == b[i].frames
    ensures Imaged(b, disk, crc)
  {
    forall i | 0 <= i < |b| ensures Image(b[i], i == |b| - 1, disk, crc) {
      assert Image(a[i], i == |a| - 1, disk, crc);
    }
  }

  /** A crash and the next start: the files are replayed, and the log that is then written
      to is the one CrashAndRecover leads to. */
  method Restart(b: SingleBinlog, served: Served, ghost db: DB) returns (next: SingleBinlog, after: Served)
    requires b.Valid() && b.model == db.log && served == OnDisk(db.tables)
    ensures fresh(next) && fresh(next.writer) && next.Valid() && next.model == Apply(db, CrashAndRecover).log
    ensures next.writer.crc == b.writer.crc && next.restartSize == b.restartSize
    ensures after == ReplayFiles(Files(b.model), served).served
  {
    ghost var files, high := Files(b.model), b.model.current.ext + 1;
    ghost var replayed := ReplayFiles(files, served).files;
    var descs;
    after, descs := b.Recover(served);
    var disk := b.Disk();
    Safety.ExtsAppend(b.model.closed, b.model.current, 0);
    ReplayKeepsFrames(files, served);
    SameImages(files, replayed, disk, b.writer.crc);
    Crash.SameExts(files, replayed, 0, high);
    next := new SingleBinlog.Reopened(b.writer.crc, b.restartSize, descs, disk, replayed, high);
  }

  /** The first commit fails, the table is saved at the number it used up. */
  ghost function StaleRun(name: Name, lost: seq<byte>): seq<Action>
  {
    [Commit(name, lost, false, false), SaveTable(name, 1), Notify(name, 1)]
  }

  ghost function FailedFirst(name: Name): Log
  {
    Log([], LogFile(0, [Info(name, 1, 1, 0)], []), [AddIndex(0, name)], 1)
  }

  lemma FailedFirstCommit(name: Name, lost: seq<byte>)
    ensures CommitLog(Log([], NewFile(0), [], 1), name, Txn(1, lost), false, false) == FailedFirst(name)
  {
  }

  lemma FlushedFirst(name: Name)
    ensures !Used(Mark(FailedFirst(name).current, name, 1)) && NotifyFlush(FailedFirst(name), name, 1) == Log([], NewFile(0), [], 1)
  {
  }

  lemma StaleRunIsLegal(name: Name, lost: seq<byte>)
    ensures Crash.Legal(Fresh({name}), StaleRun(name, lost))
    ensures var db := Crash.After(Fresh({name}), StaleRun(name, lost));
            db.log == Log([], NewFile(0), [], 1) && name in db.tables && db.tables[name] == Table(1, [], 1)
  {
    var db, run := Fresh({name}), StaleRun(name, lost);
    FailedFirstCommit(name, lost);
    FlushedFirst(name);
    var db1 := Apply(db, run[0]);
    assert db1.log == FailedFirst(name) && db1.tables[name] == Table(1, [], 0);
    var db2 := Apply(db1, run[1]);
    assert run[1..] == [run[1], run[2]] && run[1..][1..] == [run[2]] && [run[2]][1..] == [];
    assert Crash.Legal(Apply(db2, run[2]), []);
    assert Crash.Legal(db2, [run[2]]);
    assert Crash.Legal(db1, run[1..]);
    assert Crash.After(db, run) == Crash.After(db1, run[1..]) == Crash.After(db2, [run[2]]) == Crash.After(Apply(db2, run[2]), []);
  }

  /** A second header is no frame, so a file that starts with stale frames replays as
      nothing but them. */
  lemma StaleReplay(crc: seq<byte> -> dword, served: Served, name: Name, more: seq<byte>)
    ensures ReplayFile(crc, served, Header() + Encode(crc, AddIndex(0, name)) + (Header() + more)).served == served
  {
    var frames := [AddIndex(0, name)];
    assert EncodeAll(crc, frames) == Encode(crc, AddIndex(0, name)) + EncodeAll(crc, []) == Encode(crc, AddIndex(0, name));
    var tail := Header() + more;
    MagicReads(HEADER_MAGIC, LE(VERSION, 4) + more);
    assert tail == LE(HEADER_MAGIC, 4) + (LE(VERSION, 4) + more);
    TornTail(crc, served, frames, tail);
  }

  method FailFirstCommit(crc: seq<byte> -> dword, name: Name, lost: seq<byte>, partial: nat) returns (b: SingleBinlog)
    requires |lost| < 0x1_0000_0000
    ensures fresh(b) && fresh(b.writer) && b.writer.crc == crc && b.restartSize == 0 && b.Valid() && b.model == FailedFirst(name)
    ensures b.writer.buf == Header() + Encode(crc, AddIndex(0, name)) && b.writer.lastTxnStart == |b.writer.buf| > 0
  {
    b := new SingleBinlog(crc, 0);
    FailedFirstCommit(name, lost);
    EncodeOne(crc, AddIndex(0, name));
    NothingStale(Header());
    var done, rotated := b.BinlogCommit(name, 1, lost, false, partial);
    assert b.model.buf == [AddIndex(0, name)] && |Header()| == 8;
  }

  /** The condition of NotifyIndexFlush can fail in a legal run: the first commit fails, the
      table is saved at the transaction number it used up, and the write that closes the
      dropped file fails as well. */
  method FlushFailedCommit(crc: seq<byte> -> dword, name: Name, lost: seq<byte>, partial: nat) returns (b: SingleBinlog)
    requires |lost| < 0x1_0000_0000
    ensures fresh(b) && fresh(b.writer) && b.writer.crc == crc && b.restartSize == 0 && b.Sound() && !b.Valid()
    ensures Crash.Legal(Fresh({name}), StaleRun(name, lost)) && b.model == Crash.After(Fresh({name}), StaleRun(name, lost)).log
    ensures b.writer.file == [] && b.stale == Header() + Encode(crc, AddIndex(0, name))
  {
    b := FailFirstCommit(crc, name, lost, partial);
    ghost var left := b.writer.buf;
    assert left[..|left|] == left;
    FlushedFirst(name);
    MarkShape(b.model.current, name, 1);
    var abandoned := b.NotifyIndexFlush(name, 1, false, partial);
    StaleRunIsLegal(name, lost);
  }

  lemma {:induction false} RunThen(db: DB, run: seq<Action>, a: Action)
    requires Crash.Legal(db, run) && Enabled(Crash.After(db, run), a)
    ensures Crash.Legal(db, run + [a]) && Crash.After(db, run + [a]) == Apply(Crash.After(db, run), a)
    decreases |run|
  {
    if run == [] {
      assert run + [a] == [a] && [a][1..] == [];
    } else {
      assert (run + [a])[1..] == run[1..] + [a];
      RunThen(Apply(db, run[0]), run[1..], a);
    }
  }

  /** The log after a first commit with number 2. */
  lemma SecondCommit(name: Name, payload: seq<byte>)
    ensures var l := CommitLog(Log([], NewFile(0), [], 1), name, Txn(2, payload), true, false);
            l.closed == [] && l.current.ext == 0 && l.current.infos == [Info(name, 2, 2, 0)]
  {
  }

  lemma LostRunIsLegal(name: Name, lost: seq<byte>, payload: seq<byte>)
    ensures var run := StaleRun(name, lost) + [Commit(name, payload, true, false)];
            && Crash.Legal(Fresh({name}), run)
            && var db := Crash.After(Fresh({name}), run);
               && db.log == CommitLog(Log([], NewFile(0), [], 1), name, Txn(2, payload), true, false)
               && db.log.closed == [] && db.log.current.ext == 0 && db.log.current.infos == [Info(name, 2, 2, 0)]
               && name in db.tables && db.tables[name].committed == [Txn(2, payload)]
  {
    StaleRunIsLegal(name, lost);
    RunThen(Fresh({name}), StaleRun(name, lost), Commit(name, payload, true, false));
    SecondCommit(name, payload);
    assert [] + [Txn(2, payload)] == [Txn(2, payload)];
  }

  lemma OneFile(m: Log, name: Name)
    requires m.closed == [] && m.current.ext == 0 && m.current.infos == [Info(name, 2, 2, 0)]
    ensures Descs(Files(m)) == [FileDesc(0, [Info(name, 2, 2, 0)])]
  {
  }

  lemma StaleFile(crc: seq<byte> -> dword, name: Name, stale: seq<byte>, frames: seq<Frame>, file: seq<byte>)
    requires AllFit(frames) && stale == Header() + Encode(crc, AddIndex(0, name)) && file == stale + FileBytes(crc, frames)
    ensures forall served: Served :: ReplayFile(crc, served, file).served == served
  {
    forall served: Served ensures ReplayFile(crc, served, file).served == served {
      StaleReplay(crc, served, name, EncodeAll(crc, frames));
    }
  }

  /** The next commit of that run is reported as successful and is committed as far as the
      table goes, yet no replay of the file it was written to applies anything. */
  method StaleBytes(crc: seq<byte> -> dword, name: Name, lost: seq<byte>, payload: seq<byte>, partial: nat)
    returns (b: SingleBinlog, done: bool)
    requires |lost| < 0x1_0000_0000 && |payload| < 0x1_0000_0000
    ensures var run := StaleRun(name, lost) + [Commit(name, payload, true, false)];
            && Crash.Legal(Fresh({name}), run) && b.model == Crash.After(Fresh({name}), run).log
            && name in Crash.After(Fresh({name}), run).tables
            && Crash.After(Fresh({name}), run).tables[name].committed == [Txn(2, payload)]
    ensures done && b.writer.buf == [] && b.logFiles == [FileDesc(0, [Info(name, 2, 2, 0)])]
    ensures forall served: Served :: ReplayFile(crc, served, b.writer.file).served == served
  {
    b := FlushFailedCommit(crc, name, lost, partial);
    StaleRunIsLegal(name, lost);
    LostRunIsLegal(name, lost, payload);
    var rotated;
    done, rotated := b.BinlogCommit(name, 2, payload, true, 0);
    OneFile(b.model, name);
    StaleFile(crc, name, b.stale, b.model.current.frames, b.writer.file);
  }

  /** A file that never got its header is empty and replays as no frames. */
  lemma ImageReplays(crc: seq<byte> -> dword, served: Served, frames: seq<Frame>, image: seq<byte>)
    requires AllFit(frames)
    requires image == FileBytes(crc, frames) || (image == [] && frames == [])
    ensures ReplayFile(crc, served, image) == ReplayFrames(StartFile(served), frames)
  {
    if image != [] {
      ReplayFileBytes(crc, served, frames);
    }
  }

  lemma ReplayFilesStep(files: seq<LogFile>, served: Served, before: seq<FileDesc>)
    requires files != []
    ensures var r := ReplayFrames(StartFile(served), files[0].frames);
            ReplayFiles(files, served).served == ReplayFiles(files[1..], r.served).served &&
            before + Descs(ReplayFiles(files, served).files) ==
              before + [FileDesc(files[0].ext, r.infos)] + Descs(ReplayFiles(files[1..], r.served).files)
  {
    var r := ReplayFrames(StartFile(served), files[0].frames);
    var f, rest := files[0].(infos := r.infos), ReplayFiles(files[1..], r.served).files;
    DescsConcat([f], rest);
    assert Descs([f]) == [FileDesc(f.ext, f.infos)];
  }

  lemma NotifyKeepsArchive(m: Log, name: Name, tid: int, archive: map<nat, seq<byte>>, crc: seq<byte> -> dword)
    requires Safety.ExtsOk(m) && Archived(m.closed, archive, crc)
    ensures Safety.ExtsOk(NotifyFlush(m, name, tid))
    ensures Archived(NotifyFlush(m, name, tid).closed, archive - Dropped(Files(m), name, tid), crc)
  {
    KeptStays(m, name, tid);
    KeptArchive(m.closed, name, tid, archive, Dropped(Files(m), name, tid), crc);
    var closed := Keep(m.closed, name, tid);
    Safety.KeepExts(m.closed, name, tid, 0, m.current.ext);
    if closed != [] {
      Safety.ExtsWiden(closed, 0, 0, m.current.ext, m.nextExt);
    }
  }

  /** What the descriptor list has to become. */
  lemma NotifyDescs(m: Log, name: Name, tid: int)
    ensures var next, kept := NotifyFlush(m, name, tid), Descs(Keep(Files(m), name, tid));
            if Used(Mark(m.current, name, tid)) then
              Descs(Files(next)) == kept && next.nextExt == m.nextExt && next.buf == m.buf && next.current.frames == m.current.frames
            else
              var ext := if kept == [] then 0 else m.nextExt;
              Descs(Files(next)) == kept + [FileDesc(ext, [])] && next.nextExt == ext + 1 && next.buf == [] && next.current.frames == []
  {
    KeepSnoc(m.closed, m.current, name, tid);
    var closed := Keep(m.closed, name, tid);
    if Used(Mark(m.current, name, tid)) {
    } else {
      assert closed + [] == closed;
      assert |Descs(closed)| == |closed|;
      DescsJoin(closed, NewFile(if closed == [] then 0 else m.nextExt));
    }
  }

  lemma KeptStays(m: Log, name: Name, tid: int)
    requires Safety.ExtsOk(m)
    ensures forall f <- Keep(m.closed, name, tid) :: f.ext !in Dropped(Files(m), name, tid)
  {
    Safety.ExtsAppend(m.closed, m.current, 0);
    KeptNotDropped(Files(m), name, tid, 0, m.current.ext + 1);
    KeepSnoc(m.closed, m.current, name, tid);
  }

  lemma {:induction false} KeptArchive(files: seq<LogFile>, name: Name, tid: int, before: map<nat, seq<byte>>, gone: set<nat>, crc: seq<byte> -> dword)
    requires Archived(files, before, crc)
    requires forall f <- Keep(files, name, tid) :: f.ext !in gone
    ensures Archived(Keep(files, name, tid), before - gone, crc)
  {
    if files != [] {
      var f, more := Mark(files[0], name, tid), Keep(files[1..], name, tid);
      assert files[0] in files;
      assert forall g <- more :: g in Keep(files, name, tid);
      assert Used(f) ==> f in Keep(files, name, tid);
      KeptArchive(files[1..], name, tid, before, gone, crc);
    }
  }
}
