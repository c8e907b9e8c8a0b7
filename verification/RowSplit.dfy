module RowSplit {

  /** Storing the alive rows of several merged inputs with parallel workers: each worker gets
      a range of ranks among all alive rows and finds its rows by itself. */

  const INVALID_ROWID: nat := 0xFFFF_FFFF

  /** Per source row its row in the result, or invalid if it is dead. */
  type RowMap = seq<nat>

  /** One call that stores a row. */
  datatype Visit = Visit(input: nat, src: nat, dst: nat)

  // ---------------------------------------------------------------------
  // All alive rows, in order
  // ---------------------------------------------------------------------

  function AliveFrom(input: nat, map_: RowMap, scan: nat): seq<Visit>
    requires scan <= |map_|
    decreases |map_| - scan
  {
    if scan == |map_| then []
    else (if map_[scan] != INVALID_ROWID then [Visit(input, scan, map_[scan])] else []) + AliveFrom(input, map_, scan + 1)
  }

  function AllFrom(inputs: seq<RowMap>, input: nat): seq<Visit>
    requires input <= |inputs|
    decreases |inputs| - input
  {
    if input == |inputs| then [] else AliveFrom(input, inputs[input], 0) + AllFrom(inputs, input + 1)
  }

  /** What is left for a reader at a position. */
  function Remaining(inputs: seq<RowMap>, input: nat, scan: nat): seq<Visit>
    requires input < |inputs| && scan <= |inputs[input]|
  {
    AliveFrom(input, inputs[input], scan) + AllFrom(inputs, input + 1)
  }

  lemma SkipDead(inputs: seq<RowMap>, input: nat, scan: nat)
    requires input < |inputs| && scan < |inputs[input]| && inputs[input][scan] == INVALID_ROWID
    ensures Remaining(inputs, input, scan + 1) == Remaining(inputs, input, scan)
  {
  }

  lemma TakeAlive(inputs: seq<RowMap>, input: nat, scan: nat)
    requires input < |inputs| && scan < |inputs[input]| && inputs[input][scan] != INVALID_ROWID
    ensures Remaining(inputs, input, scan) == [Visit(input, scan, inputs[input][scan])] + Remaining(inputs, input, scan + 1)
  {
  }

  lemma NextInput(inputs: seq<RowMap>, input: nat)
    requires input + 1 < |inputs|
    ensures Remaining(inputs, input, |inputs[input]|) == Remaining(inputs, input + 1, 0)
  {
  }

  // ---------------------------------------------------------------------
  // Prefix sums
  // ---------------------------------------------------------------------

  /** Where each input starts among all alive rows, and behind the last one the total. */
  ghost predicate StartsOk(starts: seq<nat>, inputs: seq<RowMap>)
  {
    && |starts| == |inputs| + 1 && starts[0] == 0
    && forall i | 0 <= i < |inputs| :: starts[i + 1] == starts[i] + |AliveFrom(i, inputs[i], 0)|
  }

  /** `counts` are the alive counts the inputs report. */
  method InputStarts(counts: seq<nat>, ghost inputs: seq<RowMap>) returns (starts: seq<nat>)
    requires |counts| == |inputs| && forall i | 0 <= i < |inputs| :: counts[i] == |AliveFrom(i, inputs[i], 0)|
    ensures StartsOk(starts, inputs)
  {
    starts := [0];
    var i := 0;
    while i < |counts|
      invariant 0 <= i <= |counts| && |starts| == i + 1 && starts[0] == 0
      invariant forall j | 0 <= j < i :: starts[j + 1] == starts[j] + |AliveFrom(j, inputs[j], 0)|
    {
      starts := starts + [starts[i] + counts[i]];
      i := i + 1;
    }
  }

  lemma {:induction false} StartsSorted(starts: seq<nat>, inputs: seq<RowMap>, i: nat, j: nat)
    requires StartsOk(starts, inputs) && i <= j < |starts|
    ensures starts[i] <= starts[j]
    decreases j
  {
    if i < j {
      StartsSorted(starts, inputs, i, j - 1);
      assert starts[(j - 1) + 1] == starts[j - 1] + |AliveFrom(j - 1, inputs[j - 1], 0)|;
    }
  }

  /** An input's rows start at its prefix sum. */
  lemma {:induction false} StartsAreOffsets(starts: seq<nat>, inputs: seq<RowMap>, i: nat)
    requires StartsOk(starts, inputs) && i < |starts|
    ensures starts[i] <= |AllFrom(inputs, 0)| && AllFrom(inputs, 0)[starts[i]..] == AllFrom(inputs, i)
  {
    if i > 0 {
      StartsAreOffsets(starts, inputs, i - 1);
      var all, part := AllFrom(inputs, 0), AliveFrom(i - 1, inputs[i - 1], 0);
      assert starts[(i - 1) + 1] == starts[i - 1] + |part|;
      assert all[starts[i - 1]..][|part|..] == AllFrom(inputs, i);
      assert all[starts[i]..] == all[starts[i - 1]..][|part|..];
    }
  }

  lemma TotalIsLast(starts: seq<nat>, inputs: seq<RowMap>)
    requires StartsOk(starts, inputs)
    ensures |AllFrom(inputs, 0)| == starts[|inputs|]
  {
    StartsAreOffsets(starts, inputs, |inputs|);
  }

  /** Binary search for the first element greater than `v`. */
  method UpperBound(a: seq<nat>, v: nat) returns (at: nat)
    requires forall i, j | 0 <= i <= j < |a| :: a[i] <= a[j]
    ensures at <= |a| && (forall i | 0 <= i < at :: a[i] <= v) && forall i | at <= i < |a| :: a[i] > v
  {
    at := 0;
    var count := |a|;
    while count > 0
      invariant 0 <= at <= at + count <= |a|
      invariant (forall i | 0 <= i < at :: a[i] <= v) && forall i | at + count <= i < |a| :: a[i] > v
    {
      var step := count / 2;
      if a[at + step] <= v {
        at := at + step + 1;
        count := count - step - 1;
      } else {
        count := step;
      }
    }
  }

  // ---------------------------------------------------------------------
  // A worker
  // ---------------------------------------------------------------------

  /** The input that holds a rank, also when some inputs have no alive row. */
  method FindInput(starts: seq<nat>, rank: nat, ghost inputs: seq<RowMap>) returns (input: nat)
    requires StartsOk(starts, inputs) && rank < starts[|inputs|]
    ensures input < |inputs| && starts[input] <= rank < starts[input + 1]
  {
    forall i, j | 0 <= i <= j < |starts| ensures starts[i] <= starts[j] {
      StartsSorted(starts, inputs, i, j);
    }
    var at := UpperBound(starts, rank);
    input := at - 1;
  }

  /** Skip the alive rows that belong to earlier workers. */
  method SkipAlive(inputs: seq<RowMap>, input: nat, count: nat, ghost before: nat) returns (scan: nat)
    requires input < |inputs| && count < |AliveFrom(input, inputs[input], 0)|
    requires before + |Remaining(inputs, input, 0)| == |AllFrom(inputs, 0)| && AllFrom(inputs, 0)[before..] == Remaining(inputs, input, 0)
    ensures scan <= |inputs[input]| && before + count <= |AllFrom(inputs, 0)|
    ensures AllFrom(inputs, 0)[before + count..] == Remaining(inputs, input, scan)
  {
    scan := 0;
    var toSkip := count;
    ghost var all, rank := AllFrom(inputs, 0), before;
    while toSkip > 0
      invariant 0 <= toSkip && 0 <= scan <= |inputs[input]| && rank + toSkip == before + count && before <= rank <= |all|
      invariant toSkip < |AliveFrom(input, inputs[input], scan)| && all[rank..] == Remaining(inputs, input, scan)
      decreases |inputs[input]| - scan
    {
      if inputs[input][scan] != INVALID_ROWID {
        TakeAlive(inputs, input, scan);
        assert all[rank + 1..] == all[rank..][1..];
        rank := rank + 1;
        toSkip := toSkip - 1;
      } else {
        SkipDead(inputs, input, scan);
      }
      scan := scan + 1;
    }
    assert rank == before + count;
  }

  /** The next alive row, crossing into later inputs as needed.  As long as a row is left
      the last input is not left behind. */
  method FindAlive(inputs: seq<RowMap>, input0: nat, scan0: nat) returns (input: nat, scan: nat)
    requires input0 < |inputs| && scan0 <= |inputs[input0]| && Remaining(inputs, input0, scan0) != []
    ensures input < |inputs| && scan < |inputs[input]| && inputs[input][scan] != INVALID_ROWID
    ensures Remaining(inputs, input, scan) == Remaining(inputs, input0, scan0)
  {
    input, scan := input0, scan0;
    while true
      invariant input < |inputs| && scan <= |inputs[input]|
      invariant Remaining(inputs, input, scan) == Remaining(inputs, input0, scan0)
      decreases |inputs| - input
    {
      while scan < |inputs[input]| && inputs[input][scan] == INVALID_ROWID
        invariant scan <= |inputs[input]| && Remaining(inputs, input, scan) == Remaining(inputs, input0, scan0)
      {
        SkipDead(inputs, input, scan);
        scan := scan + 1;
      }
      if scan < |inputs[input]| {
        break;
      }
      assert input + 1 < |inputs|;
      NextInput(inputs, input);
      input := input + 1;
      scan := 0;
    }
  }

  method NextVisit(inputs: seq<RowMap>, input0: nat, scan0: nat) returns (input: nat, scan: nat, v: Visit)
    requires input0 < |inputs| && scan0 <= |inputs[input0]| && Remaining(inputs, input0, scan0) != []
    ensures input < |inputs| && scan <= |inputs[input]| && Remaining(inputs, input0, scan0) == [v] + Remaining(inputs, input, scan)
  {
    input, scan := FindAlive(inputs, input0, scan0);
    TakeAlive(inputs, input, scan);
    v := Visit(input, scan, inputs[input][scan]);
    scan := scan + 1;
  }

  lemma HeadAt(all: seq<Visit>, from: nat, row: nat, v: Visit, rest: seq<Visit>)
    requires from <= row < |all| && all[row..] == [v] + rest
    ensures all[from..row + 1] == all[from..row] + [v] && all[row + 1..] == rest
  {
    assert all[row] == all[row..][0];
    assert all[row + 1..] == all[row..][1..];
  }

  /** Where the row of a rank is found: its input, and a place at or before it there. */
  method Locate(inputs: seq<RowMap>, starts: seq<nat>, rank: nat) returns (input: nat, scan: nat)
    requires StartsOk(starts, inputs) && rank < starts[|inputs|]
    ensures input < |inputs| && scan <= |inputs[input]|
    ensures rank < |AllFrom(inputs, 0)| == starts[|inputs|] && AllFrom(inputs, 0)[rank..] == Remaining(inputs, input, scan)
  {
    TotalIsLast(starts, inputs);
    input := FindInput(starts, rank, inputs);
    StartsAreOffsets(starts, inputs, input);
    scan := SkipAlive(inputs, input, rank - starts[input], starts[input]);
  }

  /** RunKNNStoreWorker: visit the alive rows of rank `from` up to `to`, in order, unless
      told to stop before some rank. */
  method RunWorker(inputs: seq<RowMap>, starts: seq<nat>, from: nat, to: nat, stop: nat -> bool) returns (visits: seq<Visit>)
    requires StartsOk(starts, inputs) && from < starts[|inputs|] && from <= to <= starts[|inputs|]
    ensures |AllFrom(inputs, 0)| == starts[|inputs|] && |visits| <= to - from
    ensures visits == AllFrom(inputs, 0)[from..from + |visits|]
    ensures |visits| < to - from ==> stop(from + |visits|)
    ensures forall k | from <= k < from + |visits| :: !stop(k)
  {
    ghost var all := AllFrom(inputs, 0);
    var input, scan := Locate(inputs, starts, from);
    visits := [];
    var row := from;
    while row < to
      invariant from <= row <= to && 0 <= input < |inputs| && 0 <= scan <= |inputs[input]|
      invariant visits == all[from..row] && all[row..] == Remaining(inputs, input, scan)
      invariant forall k | from <= k < row :: !stop(k)
    {
      if stop(row) {
        return;
      }
      var v;
      input, scan, v := NextVisit(inputs, input, scan);
      HeadAt(all, from, row, v, Remaining(inputs, input, scan));
      visits := visits + [v];
      row := row + 1;
    }
  }

  // ---------------------------------------------------------------------
  // All workers
  // ---------------------------------------------------------------------

  function RangeSize(total: nat, workers: nat): nat
    requires workers > 0
  {
    (total + workers - 1) / workers
  }

  /** Worker `k` starts at `k * size`, written as a sum. */
  function RangeStart(k: nat, size: nat): nat
  {
    if k == 0 then 0 else RangeStart(k - 1, size) + size
  }

  lemma {:induction false} RangeStartIsProduct(k: nat, size: nat)
    ensures RangeStart(k, size) == k * size
  {
    if k > 0 {
      RangeStartIsProduct(k - 1, size);
      assert k * size == (k - 1) * size + size;
    }
  }

  function Min(a: nat, b: nat): nat
  {
    if a < b then a else b
  }

  lemma RangesCover(total: nat, workers: nat)
    requires workers > 0
    ensures RangeStart(workers, RangeSize(total, workers)) >= total
  {
    var n, size := total + workers - 1, RangeSize(total, workers);
    assert n == workers * size + n % workers;
    RangeStartIsProduct(workers, size);
  }

  /** The work is spread: no range has more than its rounded-up share. */
  lemma RangesBalanced(total: nat, workers: nat)
    requires workers > 0
    ensures workers * RangeSize(total, workers) < total + workers
  {
    var n, size := total + workers - 1, RangeSize(total, workers);
    assert n == workers * size + n % workers;
  }

  lemma {:induction false} RangeSorted(j: nat, k: nat, size: nat)
    requires j <= k
    ensures RangeStart(j, size) <= RangeStart(k, size)
  {
    if j < k {
      RangeSorted(j, k - 1, size);
    }
  }

  /** Whatever the number of workers: every rank is in exactly one worker's range. */
  lemma EachRankOnce(total: nat, workers: nat, rank: nat) returns (k: nat)
    requires workers > 0 && rank < total
    ensures var size := RangeSize(total, workers);
            && k < workers && RangeStart(k, size) <= rank < Min(RangeStart(k, size) + size, total)
            && forall j: nat | j < workers && RangeStart(j, size) <= rank < Min(RangeStart(j, size) + size, total) :: j == k
  {
    var size := RangeSize(total, workers);
    RangesCover(total, workers);
    k := 0;
    assert RangeStart(0, size) == 0;
    while k + 1 < workers && RangeStart(k + 1, size) <= rank
      invariant k < workers && RangeStart(k, size) <= rank
    {
      k := k + 1;
    }
    forall j: nat | j < workers && RangeStart(j, size) <= rank < RangeStart(j, size) + size ensures j == k {
      if j < k {
        RangeSorted(j + 1, k, size);
      } else if j > k {
        RangeSorted(k + 1, j, size);
      }
    }
  }

  /** RunParallelKNNStore with nothing to stop the workers.  The workers share nothing, so
      they are run one after the other; together they store every alive row once. */
  method StoreAll(inputs: seq<RowMap>, counts: seq<nat>, workers: nat) returns (stored: seq<Visit>)
    requires workers > 0 && |counts| == |inputs|
    requires forall i | 0 <= i < |inputs| :: counts[i] == |AliveFrom(i, inputs[i], 0)|
    ensures ExactlyOnce(inputs, stored) && stored == AllFrom(inputs, 0)
  {
    AllStoredOnce(inputs);
    stored := [];
    var starts := InputStarts(counts, inputs);
    TotalIsLast(starts, inputs);
    var total := starts[|inputs|];
    if total == 0 {
      return;
    }
    RangesCover(total, workers);
    stored := RunRanges(inputs, starts, workers, RangeSize(total, workers));
  }

  /** One worker after the other, each with its range. */
  method RunRanges(inputs: seq<RowMap>, starts: seq<nat>, workers: nat, size: nat) returns (stored: seq<Visit>)
    requires StartsOk(starts, inputs) && RangeStart(workers, size) >= starts[|inputs|]
    ensures stored == AllFrom(inputs, 0)
  {
    TotalIsLast(starts, inputs);
    var total := starts[|inputs|];
    ghost var all := AllFrom(inputs, 0);
    stored := [];
    var from := 0;
    var k := 0;
    while k < workers
      invariant 0 <= k <= workers && from == RangeStart(k, size) && stored == all[..Min(from, total)]
    {
      var to := Min(from + size, total);
      if from < to {
        var part := RunWorker(inputs, starts, from, to, _ => false);
        assert all[..to] == all[..from] + all[from..to];
        stored := stored + part;
      }
      from := from + size;
      k := k + 1;
    }
  }

  // ---------------------------------------------------------------------
  // Exactly once
  // ---------------------------------------------------------------------

  /** The call stores an alive row of some input at its place in the result. */
  predicate StoresAlive(inputs: seq<RowMap>, v: Visit)
  {
    v.input < |inputs| && v.src < |inputs[v.input]| && inputs[v.input][v.src] == v.dst != INVALID_ROWID
  }

  predicate Before(a: Visit, b: Visit)
  {
    a.input < b.input || (a.input == b.input && a.src < b.src)
  }

  predicate InOrder(visits: seq<Visit>)
  {
    forall j, k | 0 <= j < k < |visits| :: Before(visits[j], visits[k])
  }

  /** Only alive rows, no row twice, and no alive row missing. */
  ghost predicate ExactlyOnce(inputs: seq<RowMap>, stored: seq<Visit>)
  {
    && (forall v <- stored :: StoresAlive(inputs, v))
    && (forall j, k | 0 <= j < k < |stored| :: stored[j].input != stored[k].input || stored[j].src != stored[k].src)
    && (forall i, src | 0 <= i < |inputs| && 0 <= src < |inputs[i]| && inputs[i][src] != INVALID_ROWID ::
          Visit(i, src, inputs[i][src]) in stored)
  }

  lemma {:induction false} AliveFromExact(input: nat, map_: RowMap, scan: nat)
    requires scan <= |map_|
    ensures forall v <- AliveFrom(input, map_, scan) :: v.input == input && scan <= v.src < |map_| && map_[v.src] == v.dst != INVALID_ROWID
    ensures forall src | scan <= src < |map_| && map_[src] != INVALID_ROWID :: Visit(input, src, map_[src]) in AliveFrom(input, map_, scan)
    ensures InOrder(AliveFrom(input, map_, scan))
    decreases |map_| - scan
  {
    if scan < |map_| {
      AliveFromExact(input, map_, scan + 1);
      var rest := AliveFrom(input, map_, scan + 1);
      assert forall i | 0 <= i < |rest| :: rest[i] in rest;
    }
  }

  lemma InOrderConcat(a: seq<Visit>, b: seq<Visit>)
    requires InOrder(a) && InOrder(b) && forall x, y | x in a && y in b :: Before(x, y)
    ensures InOrder(a + b)
  {
    var all := a + b;
    forall j, k | 0 <= j < k < |all| ensures Before(all[j], all[k]) {
      if j < |a| <= k {
        assert all[j] in a && all[k] in b;
      }
    }
  }

  lemma {:induction false} AllFromExact(inputs: seq<RowMap>, input: nat)
    requires input <= |inputs|
    ensures forall v <- AllFrom(inputs, input) :: v.input >= input && StoresAlive(inputs, v)
    ensures forall i, src | input <= i < |inputs| && 0 <= src < |inputs[i]| && inputs[i][src] != INVALID_ROWID ::
              Visit(i, src, inputs[i][src]) in AllFrom(inputs, input)
    ensures InOrder(AllFrom(inputs, input))
    decreases |inputs| - input
  {
    if input < |inputs| {
      AliveFromExact(input, inputs[input], 0);
      AllFromExact(inputs, input + 1);
      InOrderConcat(AliveFrom(input, inputs[input], 0), AllFrom(inputs, input + 1));
    }
  }

  lemma AllStoredOnce(inputs: seq<RowMap>)
    ensures ExactlyOnce(inputs, AllFrom(inputs, 0))
  {
    AllFromExact(inputs, 0);
    var all := AllFrom(inputs, 0);
    forall j, k | 0 <= j < k < |all| ensures all[j].input != all[k].input || all[j].src != all[k].src {
      assert Before(all[j], all[k]);
    }
  }
}
