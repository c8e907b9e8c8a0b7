/** Which rows of a transaction survive duplicate removal, and what compacting a storage to
    the survivors means. */
module Compaction {

  /** Replace mode keeps the last row of a document id, insert mode the first. */
  predicate Survives(ids: seq<int>, replace: bool, i: nat)
    requires i < |ids|
  {
    if replace then forall j | i < j < |ids| :: ids[j] != ids[i]
    else forall j | 0 <= j < i :: ids[j] != ids[i]
  }

  function Alive(ids: seq<int>, replace: bool): (a: seq<bool>)
    ensures |a| == |ids| && forall i | 0 <= i < |ids| :: a[i] == Survives(ids, replace, i)
  {
    seq(|ids|, i requires 0 <= i < |ids| => Survives(ids, replace, i))
  }

  /** The number of survivors in front of row `i`. */
  function Rank(alive: seq<bool>, i: nat): nat
    requires i <= |alive|
  {
    if i == 0 then 0 else Rank(alive, i - 1) + if alive[i - 1] then 1 else 0
  }

  /** The first `i` rows of a storage, reduced to the survivors. */
  function Compact<T>(s: seq<T>, alive: seq<bool>, i: nat): (r: seq<T>)
    requires i <= |s| == |alive|
    ensures |r| == Rank(alive, i)
  {
    if i == 0 then [] else Compact(s, alive, i - 1) + if alive[i - 1] then [s[i - 1]] else []
  }

  function Survivors<T>(s: seq<T>, alive: seq<bool>): seq<T>
    requires |s| == |alive|
  {
    Compact(s, alive, |s|)
  }

  lemma {:induction false} RankBounds(alive: seq<bool>, i: nat, j: nat)
    requires i <= j <= |alive|
    ensures Rank(alive, i) <= Rank(alive, j) <= Rank(alive, i) + (j - i)
    decreases j
  {
    if i < j {
      RankBounds(alive, i, j - 1);
    }
  }

  lemma RankStrict(alive: seq<bool>, i: nat, j: nat)
    requires i < j <= |alive| && alive[i]
    ensures Rank(alive, i) < Rank(alive, j)
  {
    RankBounds(alive, i + 1, j);
  }

  /** A survivor's place is its rank. */
  lemma {:induction false} CompactAt<T>(s: seq<T>, alive: seq<bool>, i: nat, n: nat)
    requires i < n <= |s| == |alive| && alive[i]
    ensures Rank(alive, i) < Rank(alive, n) && Compact(s, alive, n)[Rank(alive, i)] == s[i]
    decreases n
  {
    RankStrict(alive, i, n);
    if i < n - 1 {
      CompactAt(s, alive, i, n - 1);
    }
  }

  /** Every place is taken by exactly one survivor. */
  lemma {:induction false} PlaceOf(alive: seq<bool>, k: nat, n: nat) returns (i: nat)
    requires n <= |alive| && k < Rank(alive, n)
    ensures i < n && alive[i] && Rank(alive, i) == k
    decreases n
  {
    if k < Rank(alive, n - 1) {
      i := PlaceOf(alive, k, n - 1);
    } else {
      i := n - 1;
    }
  }

  /** Of every document id exactly one row is left, and it is the last (first) one. */
  lemma OneRowPerDocument(ids: seq<int>, replace: bool, i: nat)
    requires i < |ids|
    ensures exists k | 0 <= k < |ids| ::
              && ids[k] == ids[i] && Survives(ids, replace, k)
              && forall j | 0 <= j < |ids| && ids[j] == ids[i] :: if replace then j <= k else k <= j
    ensures forall j, k | 0 <= j < k < |ids| && ids[j] == ids[k] :: !(Survives(ids, replace, j) && Survives(ids, replace, k))
  {
    var k := if replace then LastOf(ids, i) else FirstOf(ids, i);
    assert ids[k] == ids[i] && Survives(ids, replace, k);
  }

  ghost function LastOf(ids: seq<int>, i: nat): (k: nat)
    requires i < |ids|
    ensures i <= k < |ids| && ids[k] == ids[i] && forall j | k < j < |ids| :: ids[j] != ids[i]
    decreases |ids| - i
  {
    if forall j | i < j < |ids| :: ids[j] != ids[i] then i
    else
      var j :| i < j < |ids| && ids[j] == ids[i];
      LastOf(ids, j)
  }

  ghost function FirstOf(ids: seq<int>, i: nat): (k: nat)
    requires i < |ids|
    ensures k <= i && ids[k] == ids[i] && forall j | 0 <= j < k :: ids[j] != ids[i]
    decreases i
  {
    if forall j | 0 <= j < i :: ids[j] != ids[i] then i
    else
      var j :| 0 <= j < i && ids[j] == ids[i];
      FirstOf(ids, j)
  }

  /** A row's part that is determined by the row survives with it. */
  lemma PartsSurvive<S, T>(whole: seq<S>, parts: seq<T>, alive: seq<bool>, left: seq<T>, part: S -> T)
    requires |whole| == |parts| == |alive| && |left| == Rank(alive, |alive|)
    requires forall i | 0 <= i < |whole| :: parts[i] == part(whole[i])
    requires forall k | 0 <= k < |left| :: left[k] == part(Survivors(whole, alive)[k])
    ensures left == Survivors(parts, alive)
  {
    forall k | 0 <= k < |left| ensures left[k] == Survivors(parts, alive)[k] {
      var i := PlaceOf(alive, k, |alive|);
      CompactAt(whole, alive, i, |alive|);
      CompactAt(parts, alive, i, |alive|);
    }
  }

  /** In every storage the last row of each document (in insert mode the first) is kept. */
  lemma KeeperStays<T>(s: seq<T>, ids: seq<int>, replace: bool, i: nat)
    requires |s| == |ids| && i < |ids|
    requires forall j | 0 <= j < |ids| && ids[j] == ids[i] :: if replace then j <= i else i <= j
    ensures var alive := Alive(ids, replace); Rank(alive, i) < |Survivors(s, alive)| && Survivors(s, alive)[Rank(alive, i)] == s[i]
  {
    CompactAt(s, Alive(ids, replace), i, |ids|);
  }

  /** Nothing is kept that was not there. */
  lemma {:induction false} SurvivorsAmong<T>(s: seq<T>, alive: seq<bool>, n: nat)
    requires n <= |s| == |alive|
    ensures forall x <- Compact(s, alive, n) :: x in s
  {
    if n > 0 {
      SurvivorsAmong(s, alive, n - 1);
    }
  }

  /** The ids that are left are distinct, and no id is lost. */
  lemma IdsAfter(ids: seq<int>, replace: bool)
    ensures var kept := Survivors(ids, Alive(ids, replace));
            && (forall j, k | 0 <= j < k < |kept| :: kept[j] != kept[k])
            && (forall i | 0 <= i < |ids| :: ids[i] in kept)
  {
    var alive := Alive(ids, replace);
    var kept := Survivors(ids, alive);
    forall j, k | 0 <= j < k < |kept| ensures kept[j] != kept[k] {
      var a := PlaceOf(alive, j, |ids|);
      var b := PlaceOf(alive, k, |ids|);
      CompactAt(ids, alive, a, |ids|);
      CompactAt(ids, alive, b, |ids|);
      if ids[a] == ids[b] {
        OneRowPerDocument(ids, replace, a);
        assert Survives(ids, replace, a) && Survives(ids, replace, b);
      }
    }
    forall i | 0 <= i < |ids| ensures ids[i] in kept {
      OneRowPerDocument(ids, replace, i);
      var k :| 0 <= k < |ids| && ids[k] == ids[i] && Survives(ids, replace, k);
      CompactAt(ids, alive, k, |ids|);
    }
  }

  // ---------------------------------------------------------------------
  // Hits
  // ---------------------------------------------------------------------

  datatype Hit = Hit(row: nat, word: nat, pos: nat)

  /** The first `n` hits: those of survivors, in order, with their new row numbers. */
  function Renumbered(hits: seq<Hit>, alive: seq<bool>, n: nat): (r: seq<Hit>)
    requires n <= |hits| && forall h <- hits :: h.row < |alive|
    ensures |r| <= n
  {
    if n == 0 then []
    else
      var h := hits[n - 1];
      Renumbered(hits, alive, n - 1) + if alive[h.row] then [h.(row := Rank(alive, h.row))] else []
  }

  function HitsOf(hits: seq<Hit>, row: nat, n: nat): nat
    requires n <= |hits|
  {
    if n == 0 then 0 else HitsOf(hits, row, n - 1) + if hits[n - 1].row == row then 1 else 0
  }

  lemma {:induction false} HitsOfAppend(a: seq<Hit>, b: seq<Hit>, row: nat)
    requires |b| <= 1
    ensures HitsOf(a + b, row, |a + b|) == HitsOf(a, row, |a|) + if b != [] && b[0].row == row then 1 else 0
  {
    HitsOfPrefix(a + b, a, row, |a|);
    if b == [] {
      assert a + b == a;
    }
  }

  lemma {:induction false} HitsOfPrefix(a: seq<Hit>, b: seq<Hit>, row: nat, n: nat)
    requires n <= |a| && n <= |b| && a[..n] == b[..n]
    ensures HitsOf(a, row, n) == HitsOf(b, row, n)
  {
    if n > 0 {
      assert a[..n - 1] == a[..n][..n - 1] == b[..n - 1];
      assert a[n - 1] == a[..n][n - 1] == b[..n][n - 1] == b[n - 1];
      HitsOfPrefix(a, b, row, n - 1);
    }
  }

  /** A survivor keeps all its hits under its new number. */
  lemma {:induction false} HitsFollowRows(hits: seq<Hit>, alive: seq<bool>, i: nat, n: nat)
    requires n <= |hits| && (forall h <- hits :: h.row < |alive|) && i < |alive| && alive[i]
    ensures var r := Renumbered(hits, alive, n);
            HitsOf(r, Rank(alive, i), |r|) == HitsOf(hits, i, n)
  {
    if n > 0 {
      HitsFollowRows(hits, alive, i, n - 1);
      var h := hits[n - 1];
      assert h in hits;
      HitsOfAppend(Renumbered(hits, alive, n - 1), if alive[h.row] then [h.(row := Rank(alive, h.row))] else [], Rank(alive, i));
      if alive[h.row] && h.row != i {
        if h.row < i {
          RankStrict(alive, h.row, i);
        } else {
          RankStrict(alive, i, h.row);
        }
      }
    }
  }

  /** The words and positions of one row's hits, in order. */
  function WordsOf(hits: seq<Hit>, row: nat, n: nat): seq<(nat, nat)>
    requires n <= |hits|
  {
    if n == 0 then []
    else WordsOf(hits, row, n - 1) + if hits[n - 1].row == row then [(hits[n - 1].word, hits[n - 1].pos)] else []
  }

  lemma {:induction false} WordsOfPrefix(a: seq<Hit>, b: seq<Hit>, row: nat, n: nat)
    requires n <= |a| && n <= |b| && a[..n] == b[..n]
    ensures WordsOf(a, row, n) == WordsOf(b, row, n)
  {
    if n > 0 {
      assert a[..n - 1] == a[..n][..n - 1] == b[..n - 1];
      assert a[n - 1] == a[..n][n - 1] == b[..n][n - 1] == b[n - 1];
      WordsOfPrefix(a, b, row, n - 1);
    }
  }

  lemma WordsOfAppend(a: seq<Hit>, h: Hit, row: nat)
    ensures WordsOf(a + [h], row, |a| + 1) == WordsOf(a, row, |a|) + if h.row == row then [(h.word, h.pos)] else []
  {
    WordsOfPrefix(a + [h], a, row, |a|);
  }

  /** A survivor keeps the words and positions of its hits, in order. */
  lemma {:induction false} WordsFollowRows(hits: seq<Hit>, alive: seq<bool>, i: nat, n: nat)
    requires n <= |hits| && (forall h <- hits :: h.row < |alive|) && i < |alive| && alive[i]
    ensures var r := Renumbered(hits, alive, n);
            WordsOf(r, Rank(alive, i), |r|) == WordsOf(hits, i, n)
  {
    if n > 0 {
      WordsFollowRows(hits, alive, i, n - 1);
      var h := hits[n - 1];
      assert h in hits;
      if alive[h.row] {
        WordsOfAppend(Renumbered(hits, alive, n - 1), h.(row := Rank(alive, h.row)), Rank(alive, i));
        if h.row < i {
          RankStrict(alive, h.row, i);
        } else if h.row > i {
          RankStrict(alive, i, h.row);
        }
      } else {
        var before := Renumbered(hits, alive, n - 1);
        assert before + [] == before && WordsOf(hits, i, n) == WordsOf(hits, i, n - 1) + [];
      }
    }
  }

  /** So per-row hit counts that were right stay right. */
  lemma CountsStayExact(counts: seq<nat>, hits: seq<Hit>, alive: seq<bool>)
    requires |counts| == |alive| && forall h <- hits :: h.row < |alive|
    requires forall i | 0 <= i < |counts| :: counts[i] == HitsOf(hits, i, |hits|)
    ensures var kept, left := Survivors(counts, alive), Renumbered(hits, alive, |hits|);
            forall k | 0 <= k < |kept| :: kept[k] == HitsOf(left, k, |left|)
  {
    var kept, left := Survivors(counts, alive), Renumbered(hits, alive, |hits|);
    forall k | 0 <= k < |kept| ensures kept[k] == HitsOf(left, k, |left|) {
      var i := PlaceOf(alive, k, |alive|);
      CompactAt(counts, alive, i, |alive|);
      HitsFollowRows(hits, alive, i, |hits|);
    }
  }
}
