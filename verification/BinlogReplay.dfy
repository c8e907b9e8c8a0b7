module BinlogReplay {

  /** Replaying one binlog file, frame by frame, onto the tables that are served.

      A file names its tables itself: an ADD_INDEX frame introduces the next table id, and
      an ADD_TXN frame refers to one.  A table keeps the number (TID) of its last
      transaction; a transaction is applied when its TID is above that. */

  import opened Bytes

  type Name = seq<byte>

  datatype Txn = Txn(tid: int, payload: seq<byte>)

  datatype Frame =
    | AddIndex(id: nat, name: Name)
    | AddTxn(id: nat, tid: int, payload: seq<byte>)

  const INT64_MAX: int := 0x7FFF_FFFF_FFFF_FFFF

  /** What a log file knows about one of its tables. */
  datatype Info = Info(name: Name, minTid: int, maxTid: int, flushedTid: int)

  /** A served table: its last TID and everything applied to it, oldest first. */
  datatype Live = Live(tid: int, content: seq<Txn>)
  type Served = map<Name, Live>

  /** State of a file's replay; `ok` turns false at the first rejected frame. */
  datatype Replay = Replay(infos: seq<Info>, served: Served, ok: bool)

  function Min(a: int, b: int): int { if a < b then a else b }
  function Max(a: int, b: int): int { if a < b then b else a }

  function NamesOf(infos: seq<Info>): seq<Name>
  {
    seq(|infos|, i requires 0 <= i < |infos| => infos[i].name)
  }

  function ReplayIndexAdd(r: Replay, id: nat, name: Name): Replay
  {
    if id != |r.infos| || name in NamesOf(r.infos) then r.(ok := false)
    else
      var known := if name in r.served then r.served[name].tid else 0;
      r.(infos := r.infos + [Info(name, INT64_MAX, 0, known)])
  }

  predicate Skips(r: Replay, info: Info, tid: int)
  {
    info.name !in r.served || tid <= r.served[info.name].tid || r.served[info.name].tid == -1
  }

  function ReplayTxn(r: Replay, id: nat, txn: Txn): Replay
  {
    if id >= |r.infos| then r.(ok := false)
    else
      var info := r.infos[id];
      var low, high := Min(info.minTid, txn.tid), Max(info.maxTid, txn.tid);
      if Skips(r, info, txn.tid) then
        r.(infos := r.infos[id := Info(info.name, low, high, high)])
      else if txn.tid < info.maxTid then r.(ok := false)   // "descending tid"
      else
        Replay(r.infos[id := Info(info.name, low, high, info.flushedTid)],
               r.served[info.name := Live(txn.tid, r.served[info.name].content + [txn])], r.ok)
  }

  function ReplayFrame(r: Replay, f: Frame): Replay
  {
    match f
    case AddIndex(id, name) => ReplayIndexAdd(r, id, name)
    case AddTxn(id, tid, payload) => ReplayTxn(r, id, Txn(tid, payload))
  }

  function ReplayFrames(r: Replay, frames: seq<Frame>): Replay
    decreases |frames|
  {
    if frames == [] || !r.ok then r else ReplayFrames(ReplayFrame(r, frames[0]), frames[1..])
  }

  function StartFile(served: Served): Replay
  {
    Replay([], served, true)
  }

  // ---------------------------------------------------------------------
  // Exactness for arbitrary files
  // ---------------------------------------------------------------------

  /** Per-table ranges never run ahead of the table itself. */
  predicate Healthy(r: Replay)
  {
    forall i | 0 <= i < |r.infos| ::
      r.infos[i].name in r.served && r.served[r.infos[i].name].tid >= 0 ==>
        r.infos[i].maxTid <= r.served[r.infos[i].name].tid
  }

  /** One frame keeps the ranges healthy, so the "descending tid" rejection never fires:
      whatever it would catch has already been skipped. */
  lemma FrameKeepsHealthy(r: Replay, f: Frame)
    requires Healthy(r) && (forall n <- r.served :: r.served[n].tid >= -1)
    ensures var r' := ReplayFrame(r, f);
            && Healthy(r') && r'.served.Keys == r.served.Keys
            && (forall n <- r'.served :: r'.served[n].tid >= r.served[n].tid && (r.served[n].tid == -1 ==> r'.served[n].tid == -1))
            && (f.AddTxn? && f.id < |r.infos| ==> r'.ok == r.ok)
  {
  }

  /** What a table gains from a list of transactions in log order: each one above
      everything applied so far. */
  function Ascending(tid: int, txns: seq<Txn>): seq<Txn>
    decreases |txns|
  {
    if txns == [] then []
    else if txns[0].tid > tid then [txns[0]] + Ascending(txns[0].tid, txns[1..])
    else Ascending(tid, txns[1..])
  }

  predicate Increasing(txns: seq<Txn>)
  {
    forall i, j | 0 <= i < j < |txns| :: txns[i].tid < txns[j].tid
  }

  lemma {:induction false} AscendingIsIncreasing(tid: int, txns: seq<Txn>)
    ensures Increasing(Ascending(tid, txns))
    ensures forall t <- Ascending(tid, txns) :: t.tid > tid && t in txns
    decreases |txns|
  {
    if txns != [] {
      if txns[0].tid > tid {
        AscendingIsIncreasing(txns[0].tid, txns[1..]);
      } else {
        AscendingIsIncreasing(tid, txns[1..]);
      }
    }
  }

  function LastTid(tid: int, txns: seq<Txn>): int
  {
    if txns == [] then tid else txns[|txns| - 1].tid
  }

  /** The transactions of table `n` in the part of the file that is accepted, given the
      tables introduced so far. */
  function Accepted(frames: seq<Frame>, names: seq<Name>, n: Name): seq<Txn>
    decreases |frames|
  {
    if frames == [] then []
    else match frames[0]
      case AddIndex(id, name) =>
        if id != |names| || name in names then [] else Accepted(frames[1..], names + [name], n)
      case AddTxn(id, tid, payload) =>
        if id >= |names| then []
        else (if names[id] == n then [Txn(tid, payload)] else []) + Accepted(frames[1..], names, n)
  }

  lemma NamesAppend(infos: seq<Info>, x: Info)
    ensures NamesOf(infos + [x]) == NamesOf(infos) + [x.name]
  {
  }

  lemma NamesUpdate(infos: seq<Info>, id: nat, x: Info)
    requires id < |infos| && infos[id].name == x.name
    ensures NamesOf(infos[id := x]) == NamesOf(infos)
  {
  }

  lemma TxnKeepsNames(r: Replay, id: nat, txn: Txn)
    ensures NamesOf(ReplayTxn(r, id, txn).infos) == NamesOf(r.infos)
  {
    if id < |r.infos| && ReplayTxn(r, id, txn).infos != r.infos {
      NamesUpdate(r.infos, id, ReplayTxn(r, id, txn).infos[id]);
    }
  }

  /** Replay applies to every served table exactly the ascending transactions that are
      logged for it before the first rejected frame, each once, in order, and nothing
      else. */
  lemma {:induction false} ReplayIsExact(r: Replay, frames: seq<Frame>, n: Name)
    requires r.ok && Healthy(r) && n in r.served && r.served[n].tid >= 0
    requires forall m <- r.served :: r.served[m].tid >= -1
    ensures var r' := ReplayFrames(r, frames);
            var gain := Ascending(r.served[n].tid, Accepted(frames, NamesOf(r.infos), n));
            && n in r'.served
            && r'.served[n].content == r.served[n].content + gain
            && r'.served[n].tid == LastTid(r.served[n].tid, gain)
    decreases |frames|, 0
  {
    if frames != [] {
      FrameKeepsHealthy(r, frames[0]);
      match frames[0] {
        case AddIndex(id, name) =>
          if id == |r.infos| && name !in NamesOf(r.infos) {
            var r1 := ReplayIndexAdd(r, id, name);
            NamesAppend(r.infos, r1.infos[id]);
            ReplayIsExact(r1, frames[1..], n);
          }
        case AddTxn(id, tid, payload) =>
          if id < |r.infos| {
            TxnIsExact(r, id, Txn(tid, payload), frames[1..], n);
          }
      }
    }
  }

  /** What a table gains from a transaction and those behind it. */
  lemma GainHead(live: Live, txn: Txn, more: seq<Txn>)
    ensures var gain := Ascending(live.tid, [txn] + more);
            if txn.tid > live.tid then
              var rest := Ascending(txn.tid, more);
              live.content + gain == (live.content + [txn]) + rest && LastTid(live.tid, gain) == LastTid(txn.tid, rest)
            else gain == Ascending(live.tid, more)
  {
    assert ([txn] + more)[1..] == more;
    var rest := Ascending(txn.tid, more);
    assert live.content + ([txn] + rest) == (live.content + [txn]) + rest;
  }

  lemma TxnIsExact(r: Replay, id: nat, txn: Txn, rest: seq<Frame>, n: Name)
    requires r.ok && Healthy(r) && n in r.served && r.served[n].tid >= 0
    requires forall m <- r.served :: r.served[m].tid >= -1
    requires id < |r.infos|
    ensures var r' := ReplayFrames(ReplayTxn(r, id, txn), rest);
            var txns := (if NamesOf(r.infos)[id] == n then [txn] else []) + Accepted(rest, NamesOf(r.infos), n);
            var gain := Ascending(r.served[n].tid, txns);
            && n in r'.served
            && r'.served[n].content == r.served[n].content + gain
            && r'.served[n].tid == LastTid(r.served[n].tid, gain)
    decreases |rest|, 1
  {
    FrameKeepsHealthy(r, AddTxn(id, txn.tid, txn.payload));
    TxnKeepsNames(r, id, txn);
    var r1 := ReplayTxn(r, id, txn);
    ReplayIsExact(r1, rest, n);
    var more := Accepted(rest, NamesOf(r.infos), n);
    if r.infos[id].name == n {
      GainHead(r.served[n], txn, more);
    } else {
      assert [] + more == more;
    }
  }

  /** A served table has reached the TID of a transaction that was replayed. */
  lemma TxnReached(r: Replay, id: nat, txn: Txn)
    requires r.ok && Healthy(r) && id < |r.infos|
    ensures var n, r' := r.infos[id].name, ReplayTxn(r, id, txn);
            n in r.served && r.served[n].tid >= 0 ==> n in r'.served && txn.tid <= r'.served[n].tid
  {
  }

  /** A transaction that is not above its table changes no table. */
  lemma NothingToGain(r: Replay, id: nat, txn: Txn)
    requires r.ok && id < |r.infos|
    requires var n := r.infos[id].name; n in r.served ==> r.served[n].tid == -1 || txn.tid <= r.served[n].tid
    ensures ReplayTxn(r, id, txn).served == r.served && ReplayTxn(r, id, txn).ok
  {
  }

  /** Two replays of the same frames that agree on the table ids, the second one onto
      tables that already have everything: it applies nothing. */
  lemma {:induction false} CaughtUp(a: Replay, b: Replay, frames: seq<Frame>)
    requires a.ok && b.ok && Healthy(a) && NamesOf(a.infos) == NamesOf(b.infos)
    requires a.served.Keys == b.served.Keys
    requires forall m <- a.served :: a.served[m].tid >= -1 && (a.served[m].tid == -1 ==> b.served[m].tid == -1)
    requires forall m <- a.served :: m in ReplayFrames(a, frames).served ==> ReplayFrames(a, frames).served[m].tid <= b.served[m].tid
    ensures ReplayFrames(b, frames).served == b.served
    ensures ReplayFrames(b, frames).ok == ReplayFrames(a, frames).ok
    decreases |frames|
  {
    if frames != [] {
      var f := frames[0];
      var a1, b1 := ReplayFrame(a, f), ReplayFrame(b, f);
      assert |a.infos| == |NamesOf(a.infos)| == |NamesOf(b.infos)| == |b.infos|;
      FrameKeepsHealthy(a, f);
      match f {
        case AddIndex(id, name) =>
          if a1.ok {
            NamesAppend(a.infos, a1.infos[|a.infos|]);
            NamesAppend(b.infos, b1.infos[|b.infos|]);
          }
        case AddTxn(id, tid, payload) =>
          if id < |a.infos| {
            var n := a.infos[id].name;
            assert NamesOf(a.infos)[id] == n && NamesOf(b.infos)[id] == n && b.infos[id].name == n;
            TidsOnlyGrow(a1, frames[1..]);
            TxnKeepsNames(a, id, Txn(tid, payload));
            TxnKeepsNames(b, id, Txn(tid, payload));
            TxnReached(a, id, Txn(tid, payload));
            NothingToGain(b, id, Txn(tid, payload));
          }
      }
      if a1.ok {
        CaughtUp(a1, b1, frames[1..]);
      }
    }
  }

  lemma {:induction false} TidsOnlyGrow(r: Replay, frames: seq<Frame>)
    requires Healthy(r) && (forall m <- r.served :: r.served[m].tid >= -1)
    ensures var r' := ReplayFrames(r, frames);
            && r'.served.Keys == r.served.Keys
            && (forall m <- r.served :: r'.served[m].tid >= r.served[m].tid && (r.served[m].tid == -1 ==> r'.served[m].tid == -1))
    decreases |frames|
  {
    if frames != [] && r.ok {
      FrameKeepsHealthy(r, frames[0]);
      TidsOnlyGrow(ReplayFrame(r, frames[0]), frames[1..]);
    }
  }
}
