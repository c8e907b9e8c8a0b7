module MatchHeap {

  /** The binary heap behind the plain match sorter: the worst match is at the root. */

  /** A match with the values of its sort keys. */
  datatype Match = Match(row: nat, keys: seq<int>)

  function Key(m: Match, k: nat): int
  {
    if k < |m.keys| then m.keys[k] else 0
  }

  /** The comparators: key by key, each ascending or descending, then by row. */
  predicate LessFrom(desc: seq<bool>, a: Match, b: Match, k: nat)
    decreases |desc| - k
  {
    if k >= |desc| then a.row > b.row
    else if Key(a, k) != Key(b, k) then (Key(a, k) > Key(b, k)) != desc[k]
    else LessFrom(desc, a, b, k + 1)
  }

  predicate Less(desc: seq<bool>, a: Match, b: Match)
  {
    LessFrom(desc, a, b, 0)
  }

  lemma {:induction false} NotLessTransFrom(desc: seq<bool>, a: Match, b: Match, c: Match, k: nat)
    requires !LessFrom(desc, a, b, k) && !LessFrom(desc, b, c, k)
    ensures !LessFrom(desc, a, c, k)
    decreases |desc| - k
  {
    if k < |desc| && Key(a, k) == Key(b, k) && Key(b, k) == Key(c, k) {
      NotLessTransFrom(desc, a, b, c, k + 1);
    }
  }

  lemma NotLessTrans(desc: seq<bool>, a: Match, b: Match, c: Match)
    requires !Less(desc, a, b) && !Less(desc, b, c)
    ensures !Less(desc, a, c)
  {
    NotLessTransFrom(desc, a, b, c, 0);
  }

  lemma {:induction false} AsymmetricFrom(desc: seq<bool>, a: Match, b: Match, k: nat)
    ensures LessFrom(desc, a, b, k) ==> !LessFrom(desc, b, a, k)
    decreases |desc| - k
  {
    if k < |desc| {
      AsymmetricFrom(desc, a, b, k + 1);
    }
  }

  lemma Asymmetric(desc: seq<bool>, a: Match, b: Match)
    ensures Less(desc, a, b) ==> !Less(desc, b, a)
  {
    AsymmetricFrom(desc, a, b, 0);
  }

  // ---------------------------------------------------------------------
  // What the order means
  // ---------------------------------------------------------------------

  /** The first key in which two matches differ, from key `from` on. */
  predicate FirstDifference(a: Match, b: Match, from: nat, k: nat)
  {
    from <= k && Key(a, k) != Key(b, k) && forall j | from <= j < k :: Key(a, j) == Key(b, j)
  }

  predicate SameKeys(desc: seq<bool>, a: Match, b: Match, from: nat)
  {
    forall j | from <= j < |desc| :: Key(a, j) == Key(b, j)
  }

  /** `a` comes before `b` or ties with it in ORDER BY: the first differing key is larger for
      a descending key and smaller for an ascending one; with equal keys the row decides. */
  ghost predicate RanksBefore(desc: seq<bool>, a: Match, b: Match)
  {
    || (exists k | 0 <= k < |desc| :: FirstDifference(a, b, 0, k) && if desc[k] then Key(a, k) > Key(b, k) else Key(a, k) < Key(b, k))
    || (SameKeys(desc, a, b, 0) && a.row <= b.row)
  }

  lemma {:induction false} LessFromMeaning(desc: seq<bool>, a: Match, b: Match, from: nat)
    ensures SameKeys(desc, a, b, from) ==> (LessFrom(desc, a, b, from) <==> a.row > b.row)
    ensures forall k | from <= k < |desc| && FirstDifference(a, b, from, k) ::
              LessFrom(desc, a, b, from) <==> if desc[k] then Key(a, k) < Key(b, k) else Key(a, k) > Key(b, k)
    decreases |desc| - from
  {
    if from < |desc| && Key(a, from) == Key(b, from) {
      LessFromMeaning(desc, a, b, from + 1);
      forall k | from <= k < |desc| && FirstDifference(a, b, from, k)
        ensures LessFrom(desc, a, b, from) <==> if desc[k] then Key(a, k) < Key(b, k) else Key(a, k) > Key(b, k)
      {
        assert FirstDifference(a, b, from + 1, k);
      }
    }
  }

  lemma {:induction false} DifferSomewhere(desc: seq<bool>, a: Match, b: Match, from: nat) returns (k: nat)
    requires !SameKeys(desc, a, b, from)
    ensures k < |desc| && FirstDifference(a, b, from, k)
    decreases |desc| - from
  {
    if Key(a, from) != Key(b, from) {
      k := from;
    } else {
      k := DifferSomewhere(desc, a, b, from + 1);
    }
  }

  /** The comparator is the order of the keys: not being worse is coming first. */
  lemma OrderMeaning(desc: seq<bool>, a: Match, b: Match)
    ensures !Less(desc, a, b) <==> RanksBefore(desc, a, b)
  {
    LessFromMeaning(desc, a, b, 0);
    if !SameKeys(desc, a, b, 0) {
      var k := DifferSomewhere(desc, a, b, 0);
      forall j | 0 <= j < |desc| && FirstDifference(a, b, 0, j) ensures j == k
      {
      }
    }
  }

  /** In particular the first key never gets better along the order. */
  lemma FirstKeyOrder(desc: seq<bool>, a: Match, b: Match)
    requires RanksBefore(desc, a, b) && desc != []
    ensures if desc[0] then Key(a, 0) >= Key(b, 0) else Key(a, 0) <= Key(b, 0)
  {
  }

  // ---------------------------------------------------------------------
  // Sifting
  // ---------------------------------------------------------------------

  function Parent(i: nat): nat
    requires i > 0
  {
    (i - 1) / 2
  }

  function Swapped(h: seq<Match>, i: nat, j: nat): seq<Match>
    requires i < |h| && j < |h|
  {
    h[i := h[j]][j := h[i]]
  }

  lemma SwapKeeps(h: seq<Match>, i: nat, j: nat)
    requires i < |h| && j < |h|
    ensures multiset(Swapped(h, i, j)) == multiset(h)
  {
  }

  function SiftUp(desc: seq<bool>, h: seq<Match>, i: nat): seq<Match>
    requires i < |h|
    decreases i
  {
    if i > 0 && Less(desc, h[i], h[Parent(i)]) then SiftUp(desc, Swapped(h, i, Parent(i)), Parent(i)) else h
  }

  function SmallerChild(desc: seq<bool>, h: seq<Match>, i: nat): (c: nat)
    requires 2 * i + 1 < |h|
    ensures i < c < |h| && Parent(c) == i
  {
    var c := 2 * i + 1;
    if c + 1 < |h| && Less(desc, h[c + 1], h[c]) then c + 1 else c
  }

  function SiftDown(desc: seq<bool>, h: seq<Match>, i: nat): seq<Match>
    requires i < |h|
    decreases |h| - i
  {
    if 2 * i + 1 >= |h| then h
    else
      var c := SmallerChild(desc, h, i);
      if Less(desc, h[c], h[i]) then SiftDown(desc, Swapped(h, c, i), c) else h
  }

  /** No entry is less than its parent, for all entries but one. */
  predicate HeapBut(desc: seq<bool>, h: seq<Match>, except: int)
  {
    forall i | 0 < i < |h| && i != except :: !Less(desc, h[i], h[Parent(i)])
  }

  predicate Heap(desc: seq<bool>, h: seq<Match>)
  {
    HeapBut(desc, h, -1)
  }

  /** Children of `i` are not less than the parent of `i`. */
  predicate Bridged(desc: seq<bool>, h: seq<Match>, i: nat)
  {
    forall c | 0 < c < |h| && Parent(c) == i && i > 0 && i < |h| :: !Less(desc, h[c], h[Parent(i)])
  }

  lemma {:induction false} SiftUpOk(desc: seq<bool>, h: seq<Match>, i: nat)
    requires i < |h| && HeapBut(desc, h, i) && Bridged(desc, h, i)
    ensures |SiftUp(desc, h, i)| == |h| && Heap(desc, SiftUp(desc, h, i))
    ensures multiset(SiftUp(desc, h, i)) == multiset(h)
    decreases i
  {
    if i > 0 && Less(desc, h[i], h[Parent(i)]) {
      var p := Parent(i);
      var g := Swapped(h, i, p);
      SwapKeeps(h, i, p);
      UpStep(desc, h, i);
      SiftUpOk(desc, g, p);
    }
  }

  lemma UpStep(desc: seq<bool>, h: seq<Match>, i: nat)
    requires 0 < i < |h| && HeapBut(desc, h, i) && Bridged(desc, h, i) && Less(desc, h[i], h[Parent(i)])
    ensures var g := Swapped(h, i, Parent(i)); HeapBut(desc, g, Parent(i)) && Bridged(desc, g, Parent(i))
  {
    var p := Parent(i);
    var g := Swapped(h, i, p);
    Asymmetric(desc, h[i], h[p]);
    forall j | 0 < j < |g| && j != p ensures !Less(desc, g[j], g[Parent(j)]) {
      if Parent(j) == p && j != i {
        NotLessTrans(desc, h[j], h[p], h[i]);
      }
    }
    forall c | 0 < c < |g| && Parent(c) == p && p > 0 ensures !Less(desc, g[c], g[Parent(p)]) {
      if c != i {
        NotLessTrans(desc, h[c], h[p], h[Parent(p)]);
      }
    }
  }

  /** Everything is in order but the children of `i`. */
  predicate HeapAbove(desc: seq<bool>, h: seq<Match>, i: nat)
  {
    forall j | 0 < j < |h| && Parent(j) != i :: !Less(desc, h[j], h[Parent(j)])
  }

  lemma {:induction false} SiftDownOk(desc: seq<bool>, h: seq<Match>, i: nat)
    requires i < |h| && HeapAbove(desc, h, i) && Bridged(desc, h, i)
    ensures |SiftDown(desc, h, i)| == |h| && Heap(desc, SiftDown(desc, h, i))
    ensures multiset(SiftDown(desc, h, i)) == multiset(h)
    decreases |h| - i
  {
    if 2 * i + 1 < |h| {
      var c := SmallerChild(desc, h, i);
      ChildIsLeast(desc, h, i);
      if Less(desc, h[c], h[i]) {
        SwapKeeps(h, c, i);
        DownStep(desc, h, i);
        SiftDownOk(desc, Swapped(h, c, i), c);
      } else {
        forall j | 0 < j < |h| && Parent(j) == i ensures !Less(desc, h[j], h[i]) {
          NotLessTrans(desc, h[j], h[c], h[i]);
        }
      }
    }
  }

  lemma ChildIsLeast(desc: seq<bool>, h: seq<Match>, i: nat)
    requires 2 * i + 1 < |h|
    ensures forall j | 0 < j < |h| && Parent(j) == i :: !Less(desc, h[j], h[SmallerChild(desc, h, i)])
  {
    var c := SmallerChild(desc, h, i);
    forall j | 0 < j < |h| && Parent(j) == i ensures !Less(desc, h[j], h[c]) {
      assert j == 2 * i + 1 || j == 2 * i + 2;
      Asymmetric(desc, h[c], h[j]);
      Asymmetric(desc, h[j], h[j]);
    }
  }

  lemma DownStep(desc: seq<bool>, h: seq<Match>, i: nat)
    requires 2 * i + 1 < |h| && HeapAbove(desc, h, i) && Bridged(desc, h, i)
    requires Less(desc, h[SmallerChild(desc, h, i)], h[i])
    ensures var c := SmallerChild(desc, h, i); HeapAbove(desc, Swapped(h, c, i), c) && Bridged(desc, Swapped(h, c, i), c)
  {
    var c := SmallerChild(desc, h, i);
    var g := Swapped(h, c, i);
    ChildIsLeast(desc, h, i);
    Asymmetric(desc, h[c], h[i]);
    forall j | 0 < j < |g| && Parent(j) != c ensures !Less(desc, g[j], g[Parent(j)]) {
      if j == i {
        assert !Less(desc, h[c], h[Parent(i)]);
      }
    }
    forall j | 0 < j < |g| && Parent(j) == c ensures !Less(desc, g[j], g[Parent(c)]) {
      assert g[j] == h[j] && g[i] == h[c];
    }
  }

  /** The root is the worst. */
  lemma {:induction false} RootIsWorst(desc: seq<bool>, h: seq<Match>, i: nat)
    requires Heap(desc, h) && i < |h|
    ensures !Less(desc, h[i], h[0])
    decreases i
  {
    if i == 0 {
      Asymmetric(desc, h[0], h[0]);
    } else {
      RootIsWorst(desc, h, Parent(i));
      NotLessTrans(desc, h[i], h[Parent(i)], h[0]);
    }
  }
}
