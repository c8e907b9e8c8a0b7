module ProxySorter {

  /** The plain top-N sorter and the columnar proxy in front of it, which collects matches,
      fetches their sort keys in batches and drops early what cannot enter the result. */

  import opened MatchHeap

  const INVALID_ROWID: nat := 0xFFFF_FFFF
  const MATCH_BUFFER_SIZE: nat := 1024

  /** The sorter: its heap and the number of matches it was given. */
  datatype State = State(heap: seq<Match>, total: nat)

  function Popped(desc: seq<bool>, h: seq<Match>): (r: seq<Match>)
    requires h != []
  {
    var last := h[|h| - 1];
    var rest := h[..|h| - 1];
    if rest == [] then [] else SiftDown(desc, rest[0 := last], 0)
  }

  function Added(desc: seq<bool>, h: seq<Match>, m: Match): seq<Match>
  {
    SiftUp(desc, h + [m], |h|)
  }

  /** PushT: when full, reject what is worse than the worst, otherwise pop the worst. */
  function Pushed(desc: seq<bool>, size: nat, s: State, m: Match): State
  {
    if s.heap != [] && |s.heap| == size then
      if Less(desc, m, s.heap[0]) then s.(total := s.total + 1)
      else State(Added(desc, Popped(desc, s.heap), m), s.total + 1)
    else State(Added(desc, s.heap, m), s.total + 1)
  }

  function PushedAll(desc: seq<bool>, size: nat, s: State, ms: seq<Match>): State
  {
    if ms == [] then s else Pushed(desc, size, PushedAll(desc, size, s, ms[..|ms| - 1]), ms[|ms| - 1])
  }

  lemma {:induction false} PushedConcat(desc: seq<bool>, size: nat, s: State, a: seq<Match>, b: seq<Match>)
    ensures PushedAll(desc, size, s, a + b) == PushedAll(desc, size, PushedAll(desc, size, s, a), b)
  {
    if b == [] {
      assert a + b == a;
    } else {
      assert (a + b)[..|a + b| - 1] == a + b[..|b| - 1];
      PushedConcat(desc, size, s, a, b[..|b| - 1]);
    }
  }

  // ---------------------------------------------------------------------
  // The heap keeps the best
  // ---------------------------------------------------------------------

  lemma LastToRoot(h: seq<Match>)
    requires |h| > 1
    ensures multiset(h) == multiset(h[..|h| - 1][0 := h[|h| - 1]]) + multiset{h[0]}
  {
    var mid := h[1..|h| - 1];
    assert h == [h[0]] + mid + [h[|h| - 1]];
    assert h[..|h| - 1][0 := h[|h| - 1]] == [h[|h| - 1]] + mid;
  }

  lemma PoppedOk(desc: seq<bool>, h: seq<Match>)
    requires h != [] && Heap(desc, h)
    ensures Heap(desc, Popped(desc, h)) && |Popped(desc, h)| == |h| - 1
    ensures multiset(h) == multiset(Popped(desc, h)) + multiset{h[0]}
  {
    if |h| > 1 {
      var g := h[..|h| - 1][0 := h[|h| - 1]];
      LastToRoot(h);
      SiftDownOk(desc, g, 0);
    } else {
      assert h == [h[0]];
    }
  }

  lemma AddedOk(desc: seq<bool>, h: seq<Match>, m: Match)
    requires Heap(desc, h)
    ensures Heap(desc, Added(desc, h, m)) && |Added(desc, h, m)| == |h| + 1
    ensures multiset(Added(desc, h, m)) == multiset(h) + multiset{m}
  {
    var g := h + [m];
    forall j | 0 < j < |g| && j != |h| ensures !Less(desc, g[j], g[Parent(j)]) {
      assert g[j] == h[j] && g[Parent(j)] == h[Parent(j)];
    }
    SiftUpOk(desc, g, |h|);
  }

  lemma RootNotLess(desc: seq<bool>, h: seq<Match>, x: Match)
    requires Heap(desc, h) && x in h
    ensures !Less(desc, x, h[0])
  {
    var i :| 0 <= i < |h| && h[i] == x;
    RootIsWorst(desc, h, i);
  }

  ghost predicate Sound(desc: seq<bool>, size: nat, s: State)
  {
    Heap(desc, s.heap) && |s.heap| <= size
  }

  lemma PushedSound(desc: seq<bool>, size: nat, s: State, m: Match)
    requires size > 0 && Sound(desc, size, s)
    ensures Sound(desc, size, Pushed(desc, size, s, m))
    ensures |Pushed(desc, size, s, m).heap| == if |s.heap| < size then |s.heap| + 1 else size
  {
    if s.heap != [] && |s.heap| == size {
      if !Less(desc, m, s.heap[0]) {
        PoppedOk(desc, s.heap);
        AddedOk(desc, Popped(desc, s.heap), m);
      }
    } else {
      AddedOk(desc, s.heap, m);
    }
  }

  /** Nothing that was dropped is better than something kept. */
  ghost predicate NoneBetter(desc: seq<bool>, heap: seq<Match>, dropped: multiset<Match>)
  {
    forall k, d | k in heap && d in dropped :: !Less(desc, k, d)
  }

  /** The heap and what was dropped are what was received; the heap is full before anything
      is dropped. */
  ghost predicate KeepsBest(desc: seq<bool>, size: nat, s: State, received: seq<Match>, dropped: multiset<Match>)
  {
    && Sound(desc, size, s) && s.total == |received|
    && multiset(received) == multiset(s.heap) + dropped
    && NoneBetter(desc, s.heap, dropped) && (|s.heap| < size ==> dropped == multiset{})
  }

  lemma RejectKeepsBest(desc: seq<bool>, h: seq<Match>, m: Match, dropped: multiset<Match>)
    requires h != [] && Heap(desc, h) && NoneBetter(desc, h, dropped) && Less(desc, m, h[0])
    ensures NoneBetter(desc, h, dropped + multiset{m})
  {
    forall k, d | k in h && d in dropped + multiset{m} ensures !Less(desc, k, d) {
      if d == m {
        RootNotLess(desc, h, k);
        Asymmetric(desc, m, h[0]);
        NotLessTrans(desc, k, h[0], m);
      }
    }
  }

  lemma ReplaceKeepsBest(desc: seq<bool>, h: seq<Match>, g: seq<Match>, m: Match, dropped: multiset<Match>)
    requires h != [] && Heap(desc, h) && NoneBetter(desc, h, dropped) && !Less(desc, m, h[0])
    requires multiset(g) + multiset{h[0]} == multiset(h) + multiset{m}
    ensures NoneBetter(desc, g, dropped + multiset{h[0]})
  {
    var root := h[0];
    forall k, d | k in g && d in dropped + multiset{root} ensures !Less(desc, k, d) {
      assert k in multiset(g) + multiset{root};
      assert k in multiset(h) + multiset{m};
      if k in h {
        RootNotLess(desc, h, k);
      }
      assert !Less(desc, k, root);
      if d in dropped {
        assert root in h;
        NotLessTrans(desc, k, root, d);
      }
    }
  }

  lemma PushKeepsBest(desc: seq<bool>, size: nat, s: State, received: seq<Match>, dropped: multiset<Match>, m: Match)
    returns (dropped': multiset<Match>)
    requires size > 0 && KeepsBest(desc, size, s, received, dropped)
    ensures KeepsBest(desc, size, Pushed(desc, size, s, m), received + [m], dropped')
  {
    PushedSound(desc, size, s, m);
    dropped' := dropped;
    if s.heap != [] && |s.heap| == size {
      if Less(desc, m, s.heap[0]) {
        dropped' := dropped + multiset{m};
        RejectKeepsBest(desc, s.heap, m, dropped);
      } else {
        dropped' := dropped + multiset{s.heap[0]};
        PoppedOk(desc, s.heap);
        AddedOk(desc, Popped(desc, s.heap), m);
        ReplaceKeepsBest(desc, s.heap, Pushed(desc, size, s, m).heap, m, dropped);
      }
    } else {
      AddedOk(desc, s.heap, m);
    }
  }

  /** The sorter holds the best `size` of everything it received. */
  lemma {:induction false} HoldsTopN(desc: seq<bool>, size: nat, received: seq<Match>) returns (dropped: multiset<Match>)
    requires size > 0
    ensures KeepsBest(desc, size, PushedAll(desc, size, State([], 0), received), received, dropped)
    decreases |received|
  {
    if received == [] {
      dropped := multiset{};
    } else {
      var n := |received| - 1;
      var before := HoldsTopN(desc, size, received[..n]);
      assert received == received[..n] + [received[n]];
      dropped := PushKeepsBest(desc, size, PushedAll(desc, size, State([], 0), received[..n]), received[..n], before, received[n]);
    }
  }

  // ---------------------------------------------------------------------
  // Early rejection
  // ---------------------------------------------------------------------

  /** Once the heap is full its root never gets worse. */
  lemma RootRises(desc: seq<bool>, size: nat, s: State, m: Match)
    requires size > 0 && Sound(desc, size, s) && |s.heap| == size
    ensures Sound(desc, size, Pushed(desc, size, s, m)) && |Pushed(desc, size, s, m).heap| == size
    ensures !Less(desc, Pushed(desc, size, s, m).heap[0], s.heap[0])
  {
    PushedSound(desc, size, s, m);
    var h, g := s.heap, Pushed(desc, size, s, m).heap;
    if Less(desc, m, h[0]) {
      Asymmetric(desc, h[0], h[0]);
    } else {
      PoppedOk(desc, h);
      AddedOk(desc, Popped(desc, h), m);
      assert g[0] in multiset(g) + multiset{h[0]};
      assert multiset(g) + multiset{h[0]} == multiset(h) + multiset{m};
      if g[0] in h {
        RootNotLess(desc, h, g[0]);
      }
    }
  }

  /** A batch in which some matches are marked as rejected. */
  function Marked(desc: seq<bool>, worst: Match, ms: seq<Match>): seq<Match>
  {
    seq(|ms|, i requires 0 <= i < |ms| => if Less(desc, ms[i], worst) then ms[i].(row := INVALID_ROWID) else ms[i])
  }

  /** How many matches of a batch are not marked. */
  function Unmarked(ms: seq<Match>): nat
  {
    if ms == [] then 0 else Unmarked(ms[..|ms| - 1]) + if ms[|ms| - 1].row != INVALID_ROWID then 1 else 0
  }

  lemma UnmarkedSnoc(ms: seq<Match>, m: Match)
    ensures Unmarked(ms + [m]) == Unmarked(ms) + if m.row != INVALID_ROWID then 1 else 0
  {
    assert (ms + [m])[..|ms|] == ms;
  }

  lemma MarkedNext(desc: seq<bool>, worst: Match, ms: seq<Match>, i: nat)
    requires i < |ms|
    ensures ms[..i + 1] == ms[..i] + [ms[i]]
    ensures Marked(desc, worst, ms[..i + 1]) ==
            Marked(desc, worst, ms[..i]) + [if Less(desc, ms[i], worst) then ms[i].(row := INVALID_ROWID) else ms[i]]
  {
  }

  /** The sorter's batch push: a marked match is only counted. */
  function PushedBatch(desc: seq<bool>, size: nat, s: State, ms: seq<Match>): State
  {
    if ms == [] then s
    else
      var before := PushedBatch(desc, size, s, ms[..|ms| - 1]);
      var m := ms[|ms| - 1];
      if m.row != INVALID_ROWID then Pushed(desc, size, before, m) else before.(total := before.total + 1)
  }

  lemma BatchNext(desc: seq<bool>, size: nat, s: State, ms: seq<Match>, i: nat)
    requires i < |ms|
    ensures var before := PushedBatch(desc, size, s, ms[..i]);
            PushedBatch(desc, size, s, ms[..i + 1]) ==
              if ms[i].row != INVALID_ROWID then Pushed(desc, size, before, ms[i]) else before.(total := before.total + 1)
  {
    assert ms[..i + 1][..i] == ms[..i];
  }

  /** Dropping what is worse than the worst at the start of the batch changes nothing: the
      sorter would have dropped it as well. */
  lemma {:induction false} EarlyRejectIsExact(desc: seq<bool>, size: nat, s: State, ms: seq<Match>)
    requires size > 0 && Sound(desc, size, s) && |s.heap| == size
    requires forall i | 0 <= i < |ms| :: ms[i].row != INVALID_ROWID
    ensures PushedBatch(desc, size, s, Marked(desc, s.heap[0], ms)) == PushedAll(desc, size, s, ms)
    ensures var r := PushedAll(desc, size, s, ms);
            Sound(desc, size, r) && |r.heap| == size && !Less(desc, r.heap[0], s.heap[0])
    decreases |ms|
  {
    var worst := s.heap[0];
    if ms == [] {
      Asymmetric(desc, worst, worst);
    } else {
      var n := |ms| - 1;
      var m := ms[n];
      EarlyRejectIsExact(desc, size, s, ms[..n]);
      assert Marked(desc, worst, ms)[..n] == Marked(desc, worst, ms[..n]);
      var before := PushedAll(desc, size, s, ms[..n]);
      RootRises(desc, size, before, m);
      NotLessTrans(desc, Pushed(desc, size, before, m).heap[0], before.heap[0], worst);
      if Less(desc, m, worst) && !Less(desc, m, before.heap[0]) {
        NotLessTrans(desc, m, before.heap[0], worst);
      }
    }
  }

  /** Without marks the batch push is plain pushing. */
  lemma {:induction false} UnmarkedIsPlain(desc: seq<bool>, size: nat, s: State, ms: seq<Match>)
    requires forall i | 0 <= i < |ms| :: ms[i].row != INVALID_ROWID
    ensures PushedBatch(desc, size, s, ms) == PushedAll(desc, size, s, ms)
    decreases |ms|
  {
    if ms != [] {
      UnmarkedIsPlain(desc, size, s, ms[..|ms| - 1]);
    }
  }

  lemma {:induction false} PushedAllSound(desc: seq<bool>, size: nat, s: State, ms: seq<Match>)
    requires size > 0 && Sound(desc, size, s)
    ensures var r := PushedAll(desc, size, s, ms);
            Sound(desc, size, r) && r.total == s.total + |ms| && (|r.heap| == size || |r.heap| == |s.heap| + |ms|)
    decreases |ms|
  {
    if ms != [] {
      PushedAllSound(desc, size, s, ms[..|ms| - 1]);
      PushedSound(desc, size, PushedAll(desc, size, s, ms[..|ms| - 1]), ms[|ms| - 1]);
    }
  }

  /** What the proxy hands over: the batch, with marks if enough matches went through. */
  function HandedOver(desc: seq<bool>, s: State, ms: seq<Match>, check: bool): seq<Match>
  {
    if check && s.heap != [] then Marked(desc, s.heap[0], ms) else ms
  }

  /** Once enough matches went through, exactly those that rank behind the sorter's worst are
      marked; nothing else about the batch changes. */
  lemma HandedOverMarks(desc: seq<bool>, s: State, ms: seq<Match>, check: bool, i: nat)
    requires i < |ms| && ms[i].row != INVALID_ROWID
    ensures var r := HandedOver(desc, s, ms, check);
            && |r| == |ms| && r[i].keys == ms[i].keys
            && (r[i].row == INVALID_ROWID <==> check && s.heap != [] && !RanksBefore(desc, ms[i], s.heap[0]))
            && (r[i].row != INVALID_ROWID ==> r[i] == ms[i])
  {
    if s.heap != [] {
      OrderMeaning(desc, ms[i], s.heap[0]);
    }
  }

  lemma FlushIsExact(desc: seq<bool>, size: nat, flushed: seq<Match>, ms: seq<Match>, check: bool)
    requires size > 0 && (check ==> |flushed| >= size) && forall i | 0 <= i < |ms| :: ms[i].row != INVALID_ROWID
    ensures var s := PushedAll(desc, size, State([], 0), flushed);
            PushedBatch(desc, size, s, HandedOver(desc, s, ms, check)) == PushedAll(desc, size, State([], 0), flushed + ms)
  {
    var s := PushedAll(desc, size, State([], 0), flushed);
    PushedAllSound(desc, size, State([], 0), flushed);
    PushedConcat(desc, size, State([], 0), flushed, ms);
    if check {
      EarlyRejectIsExact(desc, size, s, ms);
    } else {
      UnmarkedIsPlain(desc, size, s, ms);
    }
  }

  /** A sorted list of what a heap holds is the top of what was received. */
  lemma TopOfReceived(desc: seq<bool>, size: nat, received: seq<Match>, r: seq<Match>) returns (dropped: multiset<Match>)
    requires size > 0 && multiset(r) == multiset(PushedAll(desc, size, State([], 0), received).heap)
    ensures multiset(r) + dropped == multiset(received) && NoneBetter(desc, r, dropped)
    ensures |r| == if |received| < size then |received| else size
  {
    dropped := HoldsTopN(desc, size, received);
    PushedAllSound(desc, size, State([], 0), received);
    var heap := PushedAll(desc, size, State([], 0), received).heap;
    assert |r| == |multiset(r)| == |multiset(heap)| == |heap|;
    assert |received| == |multiset(received)| == |heap| + |dropped|;
    forall k, d | k in r && d in dropped ensures !Less(desc, k, d) {
      assert k in multiset(heap);
    }
  }

  // ---------------------------------------------------------------------
  // Early rejection for any sorter
  // ---------------------------------------------------------------------

  /** A choice of the best `size` matches; with equal matches there are several. */
  ghost predicate Top(desc: seq<bool>, size: nat, kept: multiset<Match>, all: multiset<Match>)
  {
    && kept <= all && |kept| == (if |all| < size then |all| else size)
    && forall k, d | k in kept && d in all - kept :: !Less(desc, k, d)
  }

  /** The matches of a batch that are not worse than a given one. */
  function Passing(desc: seq<bool>, worst: Match, ms: seq<Match>): seq<Match>
  {
    if ms == [] then []
    else Passing(desc, worst, ms[..|ms| - 1]) + if Less(desc, ms[|ms| - 1], worst) then [] else [ms[|ms| - 1]]
  }

  /** There are enough matches that are at least as good as `worst`. */
  ghost predicate Enough(desc: seq<bool>, size: nat, worst: Match, good: multiset<Match>, all: multiset<Match>)
  {
    good <= all && |good| >= size && forall g <- good :: !Less(desc, g, worst)
  }

  lemma {:induction false} PassingCounts(desc: seq<bool>, worst: Match, ms: seq<Match>, m: Match)
    ensures multiset(Passing(desc, worst, ms))[m] == if Less(desc, m, worst) then 0 else multiset(ms)[m]
  {
    if ms != [] {
      PassingCounts(desc, worst, ms[..|ms| - 1], m);
      assert ms == ms[..|ms| - 1] + [ms[|ms| - 1]];
    }
  }

  /** Then nothing that is kept is worse than `worst`. */
  lemma KeptAreGood(desc: seq<bool>, size: nat, worst: Match, good: multiset<Match>, kept: multiset<Match>, all: multiset<Match>, k: Match)
    requires Enough(desc, size, worst, good, all) && Top(desc, size, kept, all) && k in kept
    ensures !Less(desc, k, worst)
  {
    if Less(desc, k, worst) {
      var g := MissingOne(good, kept, k);
      assert g in all - kept;
      NotLessTrans(desc, k, g, worst);
    }
  }

  lemma Smaller(good: multiset<Match>, kept: multiset<Match>, k: Match)
    requires good <= kept && k in kept && k !in good
    ensures |good| < |kept|
  {
    var more := kept - good;
    assert kept == good + more && k in more;
    assert more == (more - multiset{k}) + multiset{k};
  }

  /** Something is missing in a multiset that is no larger and holds an extra element. */
  lemma MissingOne(good: multiset<Match>, kept: multiset<Match>, k: Match) returns (g: Match)
    requires k in kept && k !in good && |kept| <= |good|
    ensures g in good && kept[g] < good[g]
  {
    if good <= kept {
      Smaller(good, kept, k);
    }
    g :| g in good && kept[g] < good[g];
  }

  /** Leaving out the matches that are worse than some `worst` changes no choice of the best
      `size`, provided `size` matches at least as good as `worst` have been received.  This
      holds for every sorter that offers such a match. */
  lemma EarlyRejectKeepsTop(desc: seq<bool>, size: nat, worst: Match, received: seq<Match>, good: multiset<Match>, ms: seq<Match>, kept: multiset<Match>)
    requires Enough(desc, size, worst, good, multiset(received))
    ensures Top(desc, size, kept, multiset(received) + multiset(ms)) <==>
            Top(desc, size, kept, multiset(received) + multiset(Passing(desc, worst, ms)))
  {
    var all, rest := multiset(received) + multiset(ms), multiset(received) + multiset(Passing(desc, worst, ms));
    forall m ensures rest[m] <= all[m] && (!Less(desc, m, worst) ==> rest[m] == all[m])
    {
      PassingCounts(desc, worst, ms, m);
    }
    EnoughFor(good, multiset(received), multiset(ms), size);
    EnoughFor(good, multiset(received), multiset(Passing(desc, worst, ms)), size);
    if Top(desc, size, kept, rest) {
      TopOfMore(desc, size, worst, good, kept, rest, all);
    }
    if Top(desc, size, kept, all) {
      TopOfFewer(desc, size, worst, good, kept, rest, all);
    }
  }

  lemma EnoughFor(good: multiset<Match>, a: multiset<Match>, b: multiset<Match>, size: nat)
    requires good <= a && |good| >= size
    ensures good <= a + b && |a + b| >= size
  {
    assert a == good + (a - good);
  }

  lemma TopOfMore(desc: seq<bool>, size: nat, worst: Match, good: multiset<Match>, kept: multiset<Match>, rest: multiset<Match>, all: multiset<Match>)
    requires Enough(desc, size, worst, good, rest) && |rest| >= size && |all| >= size && Top(desc, size, kept, rest)
    requires forall m :: rest[m] <= all[m] && (!Less(desc, m, worst) ==> rest[m] == all[m])
    ensures Top(desc, size, kept, all)
  {
    forall k, d | k in kept && d in all - kept ensures !Less(desc, k, d)
    {
      KeptAreGood(desc, size, worst, good, kept, rest, k);
      if Less(desc, d, worst) {
        Asymmetric(desc, d, worst);
        NotLessTrans(desc, k, worst, d);
      } else {
        assert d in rest - kept;
      }
    }
  }

  lemma TopOfFewer(desc: seq<bool>, size: nat, worst: Match, good: multiset<Match>, kept: multiset<Match>, rest: multiset<Match>, all: multiset<Match>)
    requires Enough(desc, size, worst, good, all) && |rest| >= size && |all| >= size && Top(desc, size, kept, all)
    requires forall m :: rest[m] <= all[m] && (!Less(desc, m, worst) ==> rest[m] == all[m])
    ensures Top(desc, size, kept, rest)
  {
    forall k | k in kept ensures kept[k] <= rest[k]
    {
      KeptAreGood(desc, size, worst, good, kept, all, k);
    }
    forall k, d | k in kept && d in rest - kept ensures !Less(desc, k, d)
    {
      assert d in all - kept;
    }
  }

  /** The heap sorter holds such a choice, and its root serves once the heap is full. */
  lemma HeapIsTop(desc: seq<bool>, size: nat, received: seq<Match>)
    requires size > 0
    ensures var h := PushedAll(desc, size, State([], 0), received).heap;
            && Top(desc, size, multiset(h), multiset(received))
            && (|h| == size ==> Enough(desc, size, h[0], multiset(h), multiset(received)))
  {
    var h := PushedAll(desc, size, State([], 0), received).heap;
    var dropped := HoldsTopN(desc, size, received);
    PushedAllSound(desc, size, State([], 0), received);
    assert multiset(received) - multiset(h) == dropped;
    assert |multiset(h)| == |h| && |multiset(received)| == |received|;
    forall x | x in multiset(h) ensures |h| == size ==> !Less(desc, x, h[0])
    {
      RootNotLess(desc, h, x);
    }
  }

  // ---------------------------------------------------------------------
  // The sorter and the proxy
  // ---------------------------------------------------------------------

  /** Matches taken out are in order, and none is better than what is still in the heap. */
  ghost predicate Outgoing(desc: seq<bool>, heap: seq<Match>, r: seq<Match>)
  {
    && (forall i, j | 0 <= i < j < |r| :: !Less(desc, r[i], r[j]))
    && forall x, i | x in heap && 0 <= i < |r| :: !Less(desc, x, r[i])
  }

  lemma TakenInOrder(desc: seq<bool>, before: seq<Match>, after: seq<Match>, r: seq<Match>)
    requires before != [] && Heap(desc, before) && multiset(before) == multiset(after) + multiset{before[0]}
    requires Outgoing(desc, before, r)
    ensures Outgoing(desc, after, [before[0]] + r)
  {
    assert before[0] in before;
    forall x | x in after ensures x in before && !Less(desc, x, before[0]) {
      assert x in multiset(before);
      RootNotLess(desc, before, x);
    }
  }

  /** The first key is sorted, and nothing that was dropped has a better one. */
  ghost predicate FirstKeySorted(descending: bool, r: seq<Match>, dropped: multiset<Match>)
  {
    if descending then
      (forall i, j | 0 <= i < j < |r| :: Key(r[i], 0) >= Key(r[j], 0)) && forall k, d | k in r && d in dropped :: Key(k, 0) >= Key(d, 0)
    else
      (forall i, j | 0 <= i < j < |r| :: Key(r[i], 0) <= Key(r[j], 0)) && forall k, d | k in r && d in dropped :: Key(k, 0) <= Key(d, 0)
  }

  lemma InKeyOrder(desc: seq<bool>, r: seq<Match>, dropped: multiset<Match>)
    requires (forall i, j | 0 <= i < j < |r| :: !Less(desc, r[i], r[j])) && NoneBetter(desc, r, dropped)
    ensures forall i, j | 0 <= i < j < |r| :: RanksBefore(desc, r[i], r[j])
    ensures forall k, d | k in r && d in dropped :: RanksBefore(desc, k, d)
    ensures desc != [] ==> FirstKeySorted(desc[0], r, dropped)
  {
    forall a, b | !Less(desc, a, b) ensures RanksBefore(desc, a, b)
    ensures desc != [] ==> if desc[0] then Key(a, 0) >= Key(b, 0) else Key(a, 0) <= Key(b, 0)
    {
      OrderMeaning(desc, a, b);
      if desc != [] {
        FirstKeyOrder(desc, a, b);
      }
    }
  }

  class MatchQueue {
    const desc: seq<bool>
    const size: nat
    var heap: seq<Match>
    var total: nat

    ghost function Now(): State
      reads this
    {
      State(heap, total)
    }

    ghost predicate Valid()
      reads this
    {
      size > 0 && Sound(desc, size, Now())
    }

    constructor (desc: seq<bool>, size: nat)
      requires size > 0
      ensures Valid() && this.desc == desc && this.size == size && Now() == State([], 0)
    {
      this.desc, this.size, heap, total := desc, size, [], 0;
    }

    /** Float the last entry up. */
    method FloatUp()
      requires heap != []
      modifies this`heap
      ensures heap == SiftUp(desc, old(heap), |old(heap)| - 1)
    {
      var entry := |heap| - 1;
      while entry > 0
        invariant 0 <= entry < |heap| && SiftUp(desc, heap, entry) == SiftUp(desc, old(heap), |old(heap)| - 1)
      {
        var parent := (entry - 1) / 2;
        if !Less(desc, heap[entry], heap[parent]) {
          break;
        }
        heap := heap[entry := heap[parent]][parent := heap[entry]];
        entry := parent;
      }
    }

    /** Let the root sink. */
    method SinkRoot()
      requires heap != []
      modifies this`heap
      ensures heap == SiftDown(desc, old(heap), 0)
    {
      var entry := 0;
      while true
        invariant 0 <= entry < |heap| && SiftDown(desc, heap, entry) == SiftDown(desc, old(heap), 0)
        decreases |heap| - entry
      {
        var child := entry * 2 + 1;
        if child >= |heap| {
          break;
        }
        if child + 1 < |heap| && Less(desc, heap[child + 1], heap[child]) {
          child := child + 1;
        }
        if !Less(desc, heap[child], heap[entry]) {
          break;
        }
        heap := heap[child := heap[entry]][entry := heap[child]];
        entry := child;
      }
    }

    method Pop()
      requires heap != []
      modifies this`heap
      ensures heap == Popped(desc, old(heap))
    {
      var last := heap[|heap| - 1];
      heap := heap[..|heap| - 1];
      if heap != [] {
        heap := heap[0 := last];
        SinkRoot();
      }
    }

    method PushOne(m: Match)
      requires Valid()
      modifies this
      ensures Valid() && Now() == Pushed(desc, size, old(Now()), m)
    {
      PushedSound(desc, size, Now(), m);
      total := total + 1;
      if |heap| == size {
        if Less(desc, m, heap[0]) {
          return;
        }
        PoppedOk(desc, heap);
        Pop();
      }
      heap := heap + [m];
      FloatUp();
    }

    method PushOrCount(m: Match)
      requires Valid()
      modifies this
      ensures Valid()
      ensures Now() == if m.row != INVALID_ROWID then Pushed(desc, size, old(Now()), m) else old(Now()).(total := old(total) + 1)
    {
      if m.row != INVALID_ROWID {
        PushOne(m);
      } else {
        total := total + 1;
      }
    }

    method PushBatch(ms: seq<Match>)
      requires Valid()
      modifies this
      ensures Now() == PushedBatch(desc, size, old(Now()), ms) && Valid()
    {
      var i := 0;
      while i < |ms|
        invariant 0 <= i <= |ms| && Valid() && Now() == PushedBatch(desc, size, old(Now()), ms[..i])
      {
        BatchNext(desc, size, old(Now()), ms, i);
        PushOrCount(ms[i]);
        i := i + 1;
      }
      assert ms[..|ms|] == ms;
    }

    /** Flatten: take the matches out in order, filling the target from its end; the best
        match comes first. */
    method Flatten() returns (r: seq<Match>)
      requires Valid()
      modifies this
      ensures heap == [] && total == 0 && multiset(r) == multiset(old(heap))
      ensures forall i, j | 0 <= i < j < |r| :: !Less(desc, r[i], r[j])
    {
      r := [];
      while heap != []
        invariant Heap(desc, heap) && multiset(heap) + multiset(r) == multiset(old(heap)) && Outgoing(desc, heap, r)
        decreases |heap|
      {
        var root := heap[0];
        ghost var before := heap;
        PoppedOk(desc, heap);
        Pop();
        TakenInOrder(desc, before, heap, r);
        r := [root] + r;
      }
      total := 0;
    }
  }

  /** The proxy.  Matches arrive without their key values; `fetch` reads them by row from
      the columnar storage that is searched at the moment. */
  class ColumnarProxySorter {
    var fetch: nat -> seq<int>
    const sorter: MatchQueue
    var buffer: seq<Match>
    var pushed: nat
    ghost var flushed: seq<Match>      // handed to the sorter, with their keys
    ghost var waiting: seq<Match>      // in the buffer, with their keys

    /** Every match pushed so far. */
    ghost function Received(): seq<Match>
      reads this
    {
      flushed + waiting
    }

    ghost predicate Fetched(ms: seq<Match>)
      reads this
    {
      forall i | 0 <= i < |ms| :: ms[i].row < INVALID_ROWID && ms[i].keys == fetch(ms[i].row)
    }

    ghost predicate SameRows(a: seq<Match>, b: seq<Match>)
    {
      |a| == |b| && forall i | 0 <= i < |a| :: a[i].row == b[i].row
    }

    ghost predicate Valid()
      reads this, sorter
    {
      Collecting() && |buffer| < MATCH_BUFFER_SIZE
    }

    /** The sorter is in the state it would have without the proxy. */
    ghost predicate Collecting()
      reads this, sorter
    {
      && sorter.size > 0 && Fetched(waiting) && SameRows(buffer, waiting)
      && sorter.Now() == PushedAll(sorter.desc, sorter.size, State([], 0), flushed)
      && (if pushed < sorter.size then pushed == |flushed| else |flushed| >= sorter.size)
    }

    constructor (fetch: nat -> seq<int>, sorter: MatchQueue)
      requires sorter.size > 0 && sorter.Now() == State([], 0)
      ensures Valid() && Received() == [] && this.sorter == sorter && this.fetch == fetch
    {
      this.fetch, this.sorter := fetch, sorter;
      buffer, pushed, flushed, waiting := [], 0, [], [];
    }

    /** Fill in the keys of the collected matches and mark those that are worse than the
        sorter's worst. */
    method FetchValues() returns (ms: seq<Match>)
      requires Collecting()
      modifies this`pushed
      ensures ms == HandedOver(sorter.desc, sorter.Now(), waiting, old(pushed) >= sorter.size)
      ensures pushed == old(pushed) + Unmarked(ms) && (old(pushed) < sorter.size ==> pushed == old(pushed) + |buffer|)
    {
      var check := |sorter.heap| > 0 && pushed >= sorter.size;
      var count;
      ms, count := FetchBatch(check, if check then sorter.heap[0] else Match(0, []));
      pushed := pushed + count;
    }

    /** The loop over the batch. */
    method FetchBatch(check: bool, worst: Match) returns (ms: seq<Match>, count: nat)
      requires Fetched(waiting) && SameRows(buffer, waiting)
      ensures ms == (if check then Marked(sorter.desc, worst, waiting) else waiting)
      ensures count == Unmarked(ms) && (!check ==> count == |buffer|)
    {
      ghost var all := waiting;
      ms, count := [], 0;
      var i := 0;
      while i < |buffer|
        invariant 0 <= i <= |buffer| && count == Unmarked(ms) && (!check ==> count == i)
        invariant ms == (if check then Marked(sorter.desc, worst, all[..i]) else all[..i])
      {
        MarkedNext(sorter.desc, worst, all, i);
        var m := buffer[i].(keys := fetch(buffer[i].row));
        assert m == all[i];
        if check && Less(sorter.desc, m, worst) {
          m := m.(row := INVALID_ROWID);
        } else {
          count := count + 1;
        }
        UnmarkedSnoc(ms, m);
        ms := ms + [m];
        i := i + 1;
      }
      assert all[..|buffer|] == all;
    }

    method PushCollectedToSorter()
      requires Collecting()
      modifies this, sorter
      ensures Valid() && waiting == [] && flushed == old(Received()) && fetch == old(fetch)
    {
      if buffer != [] {
        FlushIsExact(sorter.desc, sorter.size, flushed, waiting, pushed >= sorter.size);
        var ms := FetchValues();
        HandOver(ms, flushed);
        buffer := [];
      } else {
        assert flushed + waiting == flushed;
      }
      flushed, waiting := flushed + waiting, [];
    }

    method HandOver(ms: seq<Match>, ghost flushed: seq<Match>)
      requires sorter.size > 0 && sorter.Now() == PushedAll(sorter.desc, sorter.size, State([], 0), flushed)
      modifies sorter
      ensures sorter.Now() == PushedBatch(sorter.desc, sorter.size, old(sorter.Now()), ms)
    {
      PushedAllSound(sorter.desc, sorter.size, State([], 0), flushed);
      sorter.PushBatch(ms);
    }

    /** PushMatch: collect, and flush when the buffer is full. */
    method PushMatch(row: nat)
      requires Valid() && row < INVALID_ROWID
      modifies this, sorter
      ensures Valid() && Received() == old(Received()) + [Match(row, fetch(row))] && fetch == old(fetch)
    {
      buffer := buffer + [Match(row, [])];
      waiting := waiting + [Match(row, fetch(row))];
      if |buffer| == MATCH_BUFFER_SIZE {
        PushCollectedToSorter();
      }
    }

    /** SetColumnar: the next storage is searched.  What was collected is pushed first, so
        every match keeps the keys of the storage it was found in. */
    method SetColumnar(next: nat -> seq<int>)
      requires Valid()
      modifies this, sorter
      ensures Valid() && fetch == next && Received() == old(Received()) && waiting == []
    {
      PushCollectedToSorter();
      fetch := next;
      assert flushed + waiting == flushed;
    }

    /** The final result: the best matches of everything received, best first. */
    method Result() returns (r: seq<Match>, ghost dropped: multiset<Match>)
      requires Valid()
      modifies this, sorter
      ensures multiset(r) + dropped == multiset(old(Received()))
      ensures |r| == if |old(Received())| < sorter.size then |old(Received())| else sorter.size
      ensures forall i, j | 0 <= i < j < |r| :: RanksBefore(sorter.desc, r[i], r[j])
      ensures forall k, d | k in r && d in dropped :: RanksBefore(sorter.desc, k, d)
      ensures sorter.desc != [] ==> FirstKeySorted(sorter.desc[0], r, dropped)
    {
      PushCollectedToSorter();
      PushedAllSound(sorter.desc, sorter.size, State([], 0), flushed);
      r := sorter.Flatten();
      dropped := TopOfReceived(sorter.desc, sorter.size, flushed, r);
      InKeyOrder(sorter.desc, r, dropped);
    }
  }
}
