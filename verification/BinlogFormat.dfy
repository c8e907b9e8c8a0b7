module BinlogFormat {

  /** The bytes of a binlog file: header, then frames, each with a marker in front and a
      checksum behind.  The checksum is an arbitrary function of the bytes it covers. */

  import opened Bytes
  import opened BinlogReplay

  type dword = n: int | 0 <= n < 0x1_0000_0000

  const HEADER_MAGIC: nat := 0x4c425053    // 'SPBL'
  const TXN_MAGIC: nat := 0x214e5854       // 'TXN!'
  const VERSION: nat := 17
  const ADD_INDEX: byte := 1
  const ADD_TXN: byte := 2

  function Header(): seq<byte>
  {
    LE(HEADER_MAGIC, 4) + LE(VERSION, 4)
  }

  /** What the checksum covers: everything from the operation byte to the payload. */
  function Body(f: Frame): seq<byte>
    requires Fits(f)
  {
    match f
    case AddIndex(id, name) => [ADD_INDEX] + (Zip(id) + (Zip(|name|) + name))
    case AddTxn(id, tid, payload) => [ADD_TXN] + (Zip(id) + (Zip(tid) + (LE(|payload|, 4) + payload)))
  }

  /** The size field has four bytes. */
  predicate Fits(f: Frame)
  {
    f.AddTxn? ==> f.tid >= 0 && |f.payload| < 0x1_0000_0000
  }

  predicate AllFit(frames: seq<Frame>)
  {
    forall f <- frames :: Fits(f)
  }

  function Encode(crc: seq<byte> -> dword, f: Frame): seq<byte>
    requires Fits(f)
  {
    LE(TXN_MAGIC, 4) + (Body(f) + LE(crc(Body(f)), 4))
  }

  function EncodeAll(crc: seq<byte> -> dword, frames: seq<Frame>): seq<byte>
    requires AllFit(frames)
  {
    if frames == [] then [] else Encode(crc, frames[0]) + EncodeAll(crc, frames[1..])
  }

  lemma {:induction false} EncodeConcat(crc: seq<byte> -> dword, a: seq<Frame>, b: seq<Frame>)
    requires AllFit(a) && AllFit(b)
    ensures AllFit(a + b) && EncodeAll(crc, a + b) == EncodeAll(crc, a) + EncodeAll(crc, b)
  {
    if a == [] {
      assert a + b == b;
    } else {
      assert (a + b)[1..] == a[1..] + b;
      EncodeConcat(crc, a[1..], b);
      Assoc(Encode(crc, a[0]), EncodeAll(crc, a[1..]), EncodeAll(crc, b));
    }
  }

  function FileBytes(crc: seq<byte> -> dword, frames: seq<Frame>): seq<byte>
    requires AllFit(frames)
  {
    Header() + EncodeAll(crc, frames)
  }

  // ---------------------------------------------------------------------
  // Reading
  // ---------------------------------------------------------------------

  /** `Damaged` is a transaction whose header was read but whose payload is cut off or whose
      checksum does not match. */
  datatype Parsed = Rejected | Damaged(id: nat, tid: nat) | Got(f: Frame, rest: seq<byte>)

  /** Compare the checksum of what was read since the marker with the stored one. */
  function CheckCrc(crc: seq<byte> -> dword, from: seq<byte>, f: Frame, tail: seq<byte>): Parsed
  {
    if |tail| < 4 || |tail| > |from| then Rejected
    else if crc(from[..|from| - |tail|]) != FromLE(tail[..4]) then Rejected
    else Got(f, tail[4..])
  }

  function ParseIndex(crc: seq<byte> -> dword, from: seq<byte>, id: nat, b: seq<byte>): Parsed
  {
    match Unzip(b)
    case Short => Rejected
    case Value(len, rest) =>
      if |rest| < len then Rejected else CheckCrc(crc, from, AddIndex(id, rest[..len]), rest[len..])
  }

  function ParseTxn(crc: seq<byte> -> dword, from: seq<byte>, id: nat, b: seq<byte>): Parsed
  {
    match Unzip(b)
    case Short => Rejected
    case Value(tid, rest) =>
      if |rest| < 4 then Rejected
      else
        var size := FromLE(rest[..4]);
        var data := rest[4..];
        if |data| < size then Damaged(id, tid)
        else
          var p := CheckCrc(crc, from, AddTxn(id, tid, data[..size]), data[size..]);
          if p.Got? then p else Damaged(id, tid)
  }

  function ParseFrame(crc: seq<byte> -> dword, b: seq<byte>): Parsed
  {
    if |b| < 5 || FromLE(b[..4]) != TXN_MAGIC then Rejected
    else
      var from := b[4..];
      match Unzip(from[1..])
      case Short => Rejected
      case Value(id, rest) =>
        if from[0] == ADD_INDEX then ParseIndex(crc, from, id, rest)
        else if from[0] == ADD_TXN then ParseTxn(crc, from, id, rest)
        else Rejected
  }

  lemma MagicReads(n: nat, rest: seq<byte>)
    requires n < 0x1_0000_0000
    ensures (LE(n, 4) + rest)[..4] == LE(n, 4) && (LE(n, 4) + rest)[4..] == rest && FromLE(LE(n, 4)) == n
  {
    assert Pow256(4) == 0x1_0000_0000 by {
      assert Pow256(1) == 256 && Pow256(2) == 0x1_0000 && Pow256(3) == 0x100_0000;
    }
    FromLEofLE(n, 4);
  }

  lemma CheckCrcPasses(crc: seq<byte> -> dword, body: seq<byte>, f: Frame, rest: seq<byte>)
    ensures var tail := LE(crc(body), 4) + rest;
            CheckCrc(crc, body + tail, f, tail) == Got(f, rest)
  {
    var tail := LE(crc(body), 4) + rest;
    MagicReads(crc(body), rest);
    assert (body + tail)[..|body|] == body;
  }

  lemma ParseIndexEncoded(crc: seq<byte> -> dword, id: nat, name: Name, rest: seq<byte>)
    ensures var f := AddIndex(id, name);
            var from := Body(f) + (LE(crc(Body(f)), 4) + rest);
            from[0] == ADD_INDEX && Unzip(from[1..]).Value? && Unzip(from[1..]).v == id &&
            ParseIndex(crc, from, id, Unzip(from[1..]).rest) == Got(f, rest)
  {
    var f := AddIndex(id, name);
    var tail := LE(crc(Body(f)), 4) + rest;
    var from := Body(f) + tail;
    assert from[1..] == Zip(id) + (Zip(|name|) + (name + tail));
    UnzipZip(id, Zip(|name|) + (name + tail));
    UnzipZip(|name|, name + tail);
    assert (name + tail)[..|name|] == name && (name + tail)[|name|..] == tail;
    CheckCrcPasses(crc, Body(f), f, rest);
  }

  lemma ParseTxnEncoded(crc: seq<byte> -> dword, id: nat, tid: nat, payload: seq<byte>, rest: seq<byte>)
    requires |payload| < 0x1_0000_0000
    ensures var f := AddTxn(id, tid, payload);
            var from := Body(f) + (LE(crc(Body(f)), 4) + rest);
            from[0] == ADD_TXN && Unzip(from[1..]).Value? && Unzip(from[1..]).v == id &&
            ParseTxn(crc, from, id, Unzip(from[1..]).rest) == Got(f, rest)
  {
    var f := AddTxn(id, tid, payload);
    var tail := LE(crc(Body(f)), 4) + rest;
    var from := Body(f) + tail;
    var after := LE(|payload|, 4) + (payload + tail);
    assert from[1..] == Zip(id) + (Zip(tid) + after);
    UnzipZip(id, Zip(tid) + after);
    UnzipZip(tid, after);
    MagicReads(|payload|, payload + tail);
    assert (payload + tail)[..|payload|] == payload && (payload + tail)[|payload|..] == tail;
    CheckCrcPasses(crc, Body(f), f, rest);
  }

  /** Reading back a frame gives the frame and leaves what follows it. */
  lemma ParseEncoded(crc: seq<byte> -> dword, f: Frame, rest: seq<byte>)
    requires Fits(f)
    ensures ParseFrame(crc, Encode(crc, f) + rest) == Got(f, rest)
  {
    var from := Body(f) + (LE(crc(Body(f)), 4) + rest);
    assert Encode(crc, f) + rest == LE(TXN_MAGIC, 4) + from;
    MagicReads(TXN_MAGIC, from);
    match f {
      case AddIndex(id, name) => ParseIndexEncoded(crc, id, name, rest);
      case AddTxn(id, tid, payload) => ParseTxnEncoded(crc, id, tid, payload, rest);
    }
  }

  lemma ParseConsumes(crc: seq<byte> -> dword, b: seq<byte>)
    ensures var p := ParseFrame(crc, b); p.Got? ==> |p.rest| < |b|
  {
    if |b| >= 5 {
      UnzipConsumes(0, b[4..][1..]);
      match Unzip(b[4..][1..]) {
        case Short =>
        case Value(id, rest) => UnzipConsumes(0, rest);
      }
    }
  }

  /** A body and the checksum of exactly that body. */
  predicate Checked(crc: seq<byte> -> dword, from: seq<byte>, rest: seq<byte>)
  {
    var n := |from| - |rest| - 4;
    0 <= n <= |from| - 4 && from[n + 4..] == rest && FromLE(from[n..n + 4]) == crc(from[..n])
  }

  lemma CheckedTail(crc: seq<byte> -> dword, from: seq<byte>, f: Frame, tail: seq<byte>)
    requires Suffix(tail, from) && CheckCrc(crc, from, f, tail).Got?
    ensures Checked(crc, from, CheckCrc(crc, from, f, tail).rest)
  {
    var n := |from| - |tail|;
    assert tail[..4] == from[n..n + 4] && tail[4..] == from[n + 4..];
  }

  lemma AcceptedIndex(crc: seq<byte> -> dword, from: seq<byte>, id: nat, b: seq<byte>)
    requires Suffix(b, from) && ParseIndex(crc, from, id, b).Got?
    ensures Checked(crc, from, ParseIndex(crc, from, id, b).rest)
  {
    UnzipSuffix(0, b);
    var rest, len := Unzip(b).rest, Unzip(b).v;
    SuffixTrans(rest, b, from);
    DropIsSuffix(rest, len);
    SuffixTrans(rest[len..], rest, from);
    CheckedTail(crc, from, AddIndex(id, rest[..len]), rest[len..]);
  }

  lemma AcceptedTxn(crc: seq<byte> -> dword, from: seq<byte>, id: nat, b: seq<byte>)
    requires Suffix(b, from) && ParseTxn(crc, from, id, b).Got?
    ensures Checked(crc, from, ParseTxn(crc, from, id, b).rest)
  {
    UnzipSuffix(0, b);
    var rest := Unzip(b).rest;
    SuffixTrans(rest, b, from);
    var data, size := rest[4..], FromLE(rest[..4]);
    DropIsSuffix(rest, 4);
    SuffixTrans(data, rest, from);
    DropIsSuffix(data, size);
    SuffixTrans(data[size..], data, from);
    CheckedTail(crc, from, AddTxn(id, Unzip(b).v, data[..size]), data[size..]);
  }

  /** Only a frame whose checksum is that of its bytes is accepted. */
  lemma AcceptedIsChecked(crc: seq<byte> -> dword, b: seq<byte>)
    requires ParseFrame(crc, b).Got?
    ensures var n := |b| - |ParseFrame(crc, b).rest| - 4;
            && 4 <= n <= |b| - 4 && FromLE(b[..4]) == TXN_MAGIC
            && b[n + 4..] == ParseFrame(crc, b).rest && FromLE(b[n..n + 4]) == crc(b[4..n])
  {
    var from := b[4..];
    UnzipSuffix(0, from[1..]);
    DropIsSuffix(from, 1);
    var u := Unzip(from[1..]);
    SuffixTrans(u.rest, from[1..], from);
    var p := ParseFrame(crc, b);
    if from[0] == ADD_INDEX {
      AcceptedIndex(crc, from, u.v, u.rest);
    } else {
      AcceptedTxn(crc, from, u.v, u.rest);
    }
    Shifted(b, from, |from| - |p.rest| - 4);
  }

  lemma Shifted(b: seq<byte>, from: seq<byte>, n: nat)
    requires |b| >= 4 && from == b[4..] && n + 4 <= |from|
    ensures b[n + 8..] == from[n + 4..] && b[n + 4..n + 8] == from[n..n + 4] && b[4..n + 4] == from[..n]
  {
  }

  lemma {:induction false} UnzipConsumes(acc: nat, b: seq<byte>)
    ensures UnzipFrom(acc, b).Value? ==> |UnzipFrom(acc, b).rest| < |b|
    decreases |b|
  {
    if b != [] && b[0] >= 128 {
      UnzipConsumes(acc * 128 + (b[0] - 128), b[1..]);
    }
  }

  /** A damaged transaction is rejected.  If it would have been skipped anyway, the entry of
      its table has been changed before the checksum is looked at. */
  function ReplayDamaged(r: Replay, id: nat, tid: int): Replay
  {
    if id < |r.infos| && Skips(r, r.infos[id], tid) then
      var info := r.infos[id];
      var high := Max(info.maxTid, tid);
      r.(infos := r.infos[id := Info(info.name, Min(info.minTid, tid), high, high)], ok := false)
    else r.(ok := false)
  }

  /** The loop over the frames of a file. */
  /** A damaged transaction rejects the file and applies nothing; the entry changes exactly as
      for a whole transaction if the table would have skipped it. */
  lemma DamagedShape(r: Replay, id: nat, tid: int, payload: seq<byte>)
    ensures var d := ReplayDamaged(r, id, tid);
            && !d.ok && d.served == r.served
            && d.infos == if id < |r.infos| && Skips(r, r.infos[id], tid) then ReplayTxn(r, id, Txn(tid, payload)).infos else r.infos
  {
  }

  function ReplayBytes(crc: seq<byte> -> dword, r: Replay, b: seq<byte>): Replay
    decreases |b|
  {
    if b == [] || !r.ok then r
    else
      ParseConsumes(crc, b);
      match ParseFrame(crc, b)
      case Rejected => r.(ok := false)
      case Damaged(id, tid) => ReplayDamaged(r, id, tid)
      case Got(f, rest) => ReplayBytes(crc, ReplayFrame(r, f), rest)
  }

  /** A whole file: empty and header-only files hold nothing, a file with a wrong header
      is rejected as a whole. */
  function ReplayFile(crc: seq<byte> -> dword, served: Served, file: seq<byte>): Replay
  {
    if file == [] then StartFile(served)
    else if |file| < 8 || file[..8] != Header() then StartFile(served).(ok := false)
    else ReplayBytes(crc, StartFile(served), file[8..])
  }

  /** Bytes written as frames replay as those frames; whatever follows them is read only
      if none of them was rejected. */
  lemma {:induction false} ReplayEncoded(crc: seq<byte> -> dword, r: Replay, frames: seq<Frame>, rest: seq<byte>)
    requires AllFit(frames)
    ensures ReplayBytes(crc, r, EncodeAll(crc, frames) + rest) == ReplayBytes(crc, ReplayFrames(r, frames), rest)
    decreases |frames|
  {
    if frames == [] {
      assert EncodeAll(crc, frames) + rest == rest;
    } else {
      var f, more := frames[0], EncodeAll(crc, frames[1..]) + rest;
      assert f in frames;
      assert EncodeAll(crc, frames) + rest == Encode(crc, f) + more;
      ParseEncoded(crc, f, more);
      if r.ok {
        ReplayEncoded(crc, ReplayFrame(r, f), frames[1..], rest);
      }
    }
  }

  /** A file that does not start with the header of this version is rejected unread; an empty
      one is accepted. */
  lemma HeaderIsNeeded(crc: seq<byte> -> dword, served: Served, file: seq<byte>)
    requires !(Header() <= file)
    ensures ReplayFile(crc, served, file) == Replay([], served, file == [])
  {
    if |file| >= 8 {
      assert |Header()| == 8;
      assert Header() != file[..8];
    }
  }

  lemma BehindHeader(header: seq<byte>, frames: seq<byte>, tail: seq<byte>)
    requires |header| == 8
    ensures |header + frames + tail| >= 8 && (header + frames + tail)[..8] == header && (header + frames + tail)[8..] == frames + tail
    ensures tail == [] ==> header + frames + tail == header + frames && frames + tail == frames
  {
  }

  /** A file of frames replays as its frames. */
  lemma ReplayFileBytes(crc: seq<byte> -> dword, served: Served, frames: seq<Frame>)
    requires AllFit(frames)
    ensures ReplayFile(crc, served, FileBytes(crc, frames)) == ReplayFrames(StartFile(served), frames)
  {
    BehindHeader(Header(), EncodeAll(crc, frames), []);
    ReplayEncoded(crc, StartFile(served), frames, []);
  }

  /** Nothing behind the first rejected frame is applied: with a tail that does not parse,
      the tables end up exactly as after the frames in front of it. */
  lemma TornTail(crc: seq<byte> -> dword, served: Served, frames: seq<Frame>, tail: seq<byte>)
    requires AllFit(frames) && tail != [] && !ParseFrame(crc, tail).Got?
    ensures ReplayFile(crc, served, FileBytes(crc, frames) + tail).served == ReplayFrames(StartFile(served), frames).served
    ensures !ReplayFile(crc, served, FileBytes(crc, frames) + tail).ok
  {
    BehindHeader(Header(), EncodeAll(crc, frames), tail);
    ReplayEncoded(crc, StartFile(served), frames, tail);
  }

  /** ReplayBinlog: the reader loop. */
  method ReplayBinlog(crc: seq<byte> -> dword, served: Served, file: seq<byte>) returns (r: Replay)
    ensures r == ReplayFile(crc, served, file)
  {
    r := Replay([], served, true);
    if file == [] {
      return;
    }
    if |file| < 8 || file[..8] != Header() {
      r := r.(ok := false);
      return;
    }
    var b := file[8..];
    while b != [] && r.ok
      invariant ReplayBytes(crc, r, b) == ReplayFile(crc, served, file)
      decreases |b|, r.ok
    {
      ParseConsumes(crc, b);
      match ParseFrame(crc, b) {
        case Rejected =>
          r := r.(ok := false);
        case Damaged(id, tid) =>
          r := ReplayDamaged(r, id, tid);
        case Got(f, rest) =>
          r := ReplayFrame(r, f);
          b := rest;
      }
    }
  }
}
