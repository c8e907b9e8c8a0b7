/** CleanupDuplicates of a transaction accumulator: several parallel storages are compacted
    to the same surviving rows by different means. */
module Dedup {
  import opened Compaction
  import opened Columnar

  // ---------------------------------------------------------------------
  // Finding the duplicates
  // ---------------------------------------------------------------------

  datatype AccumDoc = AccumDoc(docid: int, index: nat)

  predicate Less(a: AccumDoc, b: AccumDoc)
  {
    a.docid < b.docid || (a.docid == b.docid && a.index < b.index)
  }

  predicate Sorted(docs: seq<AccumDoc>)
  {
    forall i, j | 0 <= i < j < |docs| :: Less(docs[i], docs[j])
  }

  /** The first `n` rows, each listed once. */
  ghost predicate Listed(docs: seq<AccumDoc>, ids: seq<int>, n: nat)
    requires n <= |ids|
  {
    && |docs| == n
    && (forall k | 0 <= k < |docs| :: docs[k].index < n && docs[k].docid == ids[docs[k].index])
    && forall i | 0 <= i < n :: AccumDoc(ids[i], i) in docs
  }

  method SortDocs(ids: seq<int>) returns (docs: seq<AccumDoc>)
    ensures Sorted(docs) && Listed(docs, ids, |ids|)
  {
    docs := [];
    var n := 0;
    while n < |ids|
      invariant 0 <= n <= |ids| && Sorted(docs) && Listed(docs, ids, n)
    {
      var d := AccumDoc(ids[n], n);
      var at := |docs|;
      while at > 0 && Less(d, docs[at - 1])
        invariant 0 <= at <= |docs| && forall k | at <= k < |docs| :: Less(d, docs[k])
      {
        at := at - 1;
      }
      InsertKeeps(docs, ids, n, at);
      docs := docs[..at] + [d] + docs[at..];
      n := n + 1;
    }
  }

  ghost function Inserted(docs: seq<AccumDoc>, d: AccumDoc, at: nat): seq<AccumDoc>
    requires at <= |docs|
  {
    docs[..at] + [d] + docs[at..]
  }

  lemma InsertKeeps(docs: seq<AccumDoc>, ids: seq<int>, n: nat, at: nat)
    requires n < |ids| && Sorted(docs) && Listed(docs, ids, n) && at <= |docs|
    requires at > 0 ==> !Less(AccumDoc(ids[n], n), docs[at - 1])
    requires forall k | at <= k < |docs| :: Less(AccumDoc(ids[n], n), docs[k])
    ensures var r := Inserted(docs, AccumDoc(ids[n], n), at); Sorted(r) && Listed(r, ids, n + 1)
  {
    var d := AccumDoc(ids[n], n);
    forall k | 0 <= k < at ensures Less(docs[k], d) {
      assert Less(docs[at - 1], d);
      assert k < at - 1 ==> Less(docs[k], docs[at - 1]);
    }
    InsertSorted(docs, d, at);
    InsertListed(docs, ids, n, at);
  }

  lemma InsertSorted(docs: seq<AccumDoc>, d: AccumDoc, at: nat)
    requires Sorted(docs) && at <= |docs|
    requires (forall k | 0 <= k < at :: Less(docs[k], d)) && forall k | at <= k < |docs| :: Less(d, docs[k])
    ensures Sorted(Inserted(docs, d, at))
  {
  }

  lemma InsertListed(docs: seq<AccumDoc>, ids: seq<int>, n: nat, at: nat)
    requires n < |ids| && Listed(docs, ids, n) && at <= |docs|
    ensures Listed(Inserted(docs, AccumDoc(ids[n], n), at), ids, n + 1)
  {
    var r := Inserted(docs, AccumDoc(ids[n], n), at);
    forall i | 0 <= i < n + 1 ensures AccumDoc(ids[i], i) in r {
      if i < n {
        var k :| 0 <= k < |docs| && docs[k] == AccumDoc(ids[i], i);
        assert r[if k < at then k else k + 1] == docs[k];
      } else {
        assert r[at] == AccumDoc(ids[n], n);
      }
    }
  }

  lemma LaterTwin(docs: seq<AccumDoc>, ids: seq<int>, k: nat, j: nat)
    requires Sorted(docs) && Listed(docs, ids, |ids|) && k < |docs|
    requires docs[k].index < j < |ids| && ids[j] == docs[k].docid
    ensures k + 1 < |docs| && docs[k + 1].docid == docs[k].docid
  {
    assert AccumDoc(ids[j], j) in docs;
    var m :| 0 <= m < |docs| && docs[m] == AccumDoc(ids[j], j);
    assert m > k;
    assert Less(docs[k], docs[k + 1]) && (m > k + 1 ==> Less(docs[k + 1], docs[m]));
  }

  lemma EarlierTwin(docs: seq<AccumDoc>, ids: seq<int>, k: nat, j: nat)
    requires Sorted(docs) && Listed(docs, ids, |ids|) && k < |docs|
    requires j < docs[k].index && ids[j] == docs[k].docid
    ensures k > 0 && docs[k - 1].docid == docs[k].docid
  {
    assert AccumDoc(ids[j], j) in docs;
    var m :| 0 <= m < |docs| && docs[m] == AccumDoc(ids[j], j);
    assert m < k;
    assert Less(docs[k - 1], docs[k]) && (m < k - 1 ==> Less(docs[m], docs[k - 1]));
  }

  /** In the sorted list a duplicate is next to its twin. */
  lemma NextTells(docs: seq<AccumDoc>, ids: seq<int>, k: nat)
    requires Sorted(docs) && Listed(docs, ids, |ids|) && k < |docs|
    ensures Survives(ids, true, docs[k].index) <==> !(k + 1 < |docs| && docs[k].docid == docs[k + 1].docid)
  {
    var i := docs[k].index;
    if k + 1 < |docs| && docs[k].docid == docs[k + 1].docid {
      assert Less(docs[k], docs[k + 1]);
      assert ids[docs[k + 1].index] == ids[i];
    } else if !Survives(ids, true, i) {
      var j :| i < j < |ids| && ids[j] == ids[i];
      LaterTwin(docs, ids, k, j);
    }
  }

  lemma PreviousTells(docs: seq<AccumDoc>, ids: seq<int>, k: nat)
    requires Sorted(docs) && Listed(docs, ids, |ids|) && k < |docs|
    ensures Survives(ids, false, docs[k].index) <==> !(k > 0 && docs[k].docid == docs[k - 1].docid)
  {
    var i := docs[k].index;
    if k > 0 && docs[k].docid == docs[k - 1].docid {
      assert Less(docs[k - 1], docs[k]);
      assert ids[docs[k - 1].index] == ids[i];
    } else if !Survives(ids, false, i) {
      var j :| 0 <= j < i && ids[j] == ids[i];
      EarlierTwin(docs, ids, k, j);
    }
  }

  /** The quick test.  It starts from id 0, so it may say yes without a duplicate, but never
      no with one. */
  method AnyRepeated(docs: seq<AccumDoc>, ghost ids: seq<int>, ghost replace: bool) returns (any: bool)
    requires Sorted(docs) && Listed(docs, ids, |ids|)
    ensures !any ==> forall i | 0 <= i < |ids| :: Survives(ids, replace, i)
  {
    any := false;
    var prev := 0;
    var k := 0;
    while k < |docs| && !any
      invariant 0 <= k <= |docs| && (k > 0 ==> prev == docs[k - 1].docid)
      invariant !any ==> forall m | 0 < m < k :: docs[m].docid != docs[m - 1].docid
    {
      any := docs[k].docid == prev;
      prev := docs[k].docid;
      k := k + 1;
    }
    if !any {
      forall i | 0 <= i < |ids| ensures Survives(ids, replace, i) {
        var m :| 0 <= m < |docs| && docs[m] == AccumDoc(ids[i], i);
        if replace {
          NextTells(docs, ids, m);
        } else {
          PreviousTells(docs, ids, m);
        }
      }
    }
  }

  /** Part of the row map filled while walking over the sorted list. */
  ghost predicate Marked(rowMap: seq<nat>, docs: seq<AccumDoc>, alive: seq<bool>, from: nat, to: nat)
  {
    && |rowMap| == |alive| && (forall k | 0 <= k < |docs| :: docs[k].index < |alive|)
    && forall k | 0 <= k < |docs| :: rowMap[docs[k].index] == if from <= k < to && !alive[docs[k].index] then INVALID_ROWID else 0
  }

  /** Mark the rows to kill, then number the others. */
  method BuildRowMap(docs: seq<AccumDoc>, replace: bool, ghost ids: seq<int>) returns (rowMap: seq<nat>)
    requires Sorted(docs) && Listed(docs, ids, |ids|) && 0 < |docs| <= INVALID_ROWID
    ensures MapOk(rowMap, Alive(ids, replace))
  {
    ghost var alive := Alive(ids, replace);
    rowMap := seq(|docs|, _ => 0);
    if replace {
      var k := 0;
      while k < |docs| - 1
        invariant 0 <= k <= |docs| - 1 && Marked(rowMap, docs, alive, 0, k)
      {
        NextTells(docs, ids, k);
        MarkStep(rowMap, docs, alive, 0, k);
        if docs[k].docid == docs[k + 1].docid {
          rowMap := rowMap[docs[k].index := INVALID_ROWID];
        }
        k := k + 1;
      }
      NextTells(docs, ids, |docs| - 1);
    } else {
      var k := 1;
      while k < |docs|
        invariant 1 <= k <= |docs| && Marked(rowMap, docs, alive, 1, k)
      {
        PreviousTells(docs, ids, k);
        MarkStep(rowMap, docs, alive, 1, k);
        if docs[k].docid == docs[k - 1].docid {
          rowMap := rowMap[docs[k].index := INVALID_ROWID];
        }
        k := k + 1;
      }
      PreviousTells(docs, ids, 0);
    }
    AllMarked(rowMap, docs, ids, alive);
    rowMap := NumberRows(rowMap, alive);
  }

  lemma MarkStep(rowMap: seq<nat>, docs: seq<AccumDoc>, alive: seq<bool>, from: nat, k: nat)
    requires Sorted(docs) && Marked(rowMap, docs, alive, from, k) && from <= k < |docs|
    requires forall i, j | 0 <= i < j < |docs| && docs[i].index == docs[j].index :: docs[i].docid == docs[j].docid
    ensures Marked(if alive[docs[k].index] then rowMap else rowMap[docs[k].index := INVALID_ROWID], docs, alive, from, k + 1)
  {
    forall m | 0 <= m < |docs| && m != k ensures docs[m].index != docs[k].index {
      if m < k {
        assert Less(docs[m], docs[k]);
      } else {
        assert Less(docs[k], docs[m]);
      }
    }
  }

  lemma AllMarked(rowMap: seq<nat>, docs: seq<AccumDoc>, ids: seq<int>, alive: seq<bool>)
    requires Listed(docs, ids, |ids|) && |alive| == |ids| == |rowMap|
    requires forall k | 0 <= k < |docs| :: rowMap[docs[k].index] == if alive[docs[k].index] then 0 else INVALID_ROWID
    ensures forall i | 0 <= i < |rowMap| :: rowMap[i] == if alive[i] then 0 else INVALID_ROWID
  {
    forall i | 0 <= i < |rowMap| ensures rowMap[i] == if alive[i] then 0 else INVALID_ROWID {
      assert AccumDoc(ids[i], i) in docs;
    }
  }

  method NumberRows(marked: seq<nat>, ghost alive: seq<bool>) returns (rowMap: seq<nat>)
    requires |marked| == |alive| <= INVALID_ROWID
    requires forall i | 0 <= i < |marked| :: marked[i] == if alive[i] then 0 else INVALID_ROWID
    ensures MapOk(rowMap, alive)
  {
    rowMap := marked;
    var next := 0;
    var i := 0;
    while i < |rowMap|
      invariant 0 <= i <= |rowMap| == |marked| && next == Rank(alive, i)
      invariant forall j | 0 <= j < i :: rowMap[j] == if alive[j] then Rank(alive, j) else INVALID_ROWID
      invariant forall j | i <= j < |rowMap| :: rowMap[j] == marked[j]
    {
      if rowMap[i] != INVALID_ROWID {
        rowMap := rowMap[i := next];
        next := next + 1;
      }
      i := i + 1;
    }
  }

  // ---------------------------------------------------------------------
  // Compacting in place
  // ---------------------------------------------------------------------

  /** After `i` rows: the survivors so far are at the front, the rest is untouched. */
  ghost predicate Partly<T>(cur: seq<T>, orig: seq<T>, alive: seq<bool>, i: nat)
  {
    && |cur| == |orig| == |alive| && i <= |alive| && Rank(alive, i) <= i
    && cur[..Rank(alive, i)] == Compact(orig, alive, i) && cur[i..] == orig[i..]
  }

  lemma SkipStep<T>(cur: seq<T>, orig: seq<T>, alive: seq<bool>, i: nat)
    requires Partly(cur, orig, alive, i) && i < |alive| && !alive[i]
    ensures Partly(cur, orig, alive, i + 1)
  {
    assert cur[i + 1..] == cur[i..][1..];
  }

  /** Copying a survivor down, or leaving it where it is. */
  lemma CopyStep<T>(cur: seq<T>, orig: seq<T>, alive: seq<bool>, i: nat)
    requires Partly(cur, orig, alive, i) && i < |alive| && alive[i]
    ensures Partly(cur[Rank(alive, i) := cur[i]], orig, alive, i + 1)
    ensures Rank(alive, i) == i ==> cur[Rank(alive, i) := cur[i]] == cur
  {
    var d := Rank(alive, i);
    var r := cur[d := cur[i]];
    assert cur[i] == cur[i..][0] == orig[i];
    assert r[..d + 1] == cur[..d] + [cur[i]];
    assert r[i + 1..] == cur[i..][1..];
  }

  function Swapped<T>(s: seq<T>, a: nat, b: nat): seq<T>
    requires a < |s| && b < |s|
  {
    s[a := s[b]][b := s[a]]
  }

  /** Swapping does as well: what moves up is behind the survivors and in front of `i + 1`. */
  lemma SwapStep<T>(cur: seq<T>, orig: seq<T>, alive: seq<bool>, i: nat)
    requires Partly(cur, orig, alive, i) && i < |alive| && alive[i]
    ensures Partly(Swapped(cur, Rank(alive, i), i), orig, alive, i + 1)
    ensures Rank(alive, i) == i ==> Swapped(cur, Rank(alive, i), i) == cur
  {
    var d := Rank(alive, i);
    var r := Swapped(cur, d, i);
    assert cur[i] == cur[i..][0] == orig[i];
    assert r[..d + 1] == cur[..d] + [cur[i]];
    assert r[i + 1..] == cur[i..][1..];
  }

  lemma EndPartly<T>(cur: seq<T>, orig: seq<T>, alive: seq<bool>)
    requires Partly(cur, orig, alive, |alive|)
    ensures cur[..Rank(alive, |alive|)] == Survivors(orig, alive)
  {
  }

  // Fixed-size rows in one flat vector.

  /** Where row `k` starts: `k * size`, written as a sum. */
  function Start(k: nat, size: nat): nat
  {
    if k == 0 then 0 else Start(k - 1, size) + size
  }

  lemma {:induction false} StartIsProduct(k: nat, size: nat)
    ensures Start(k, size) == k * size
  {
    if k > 0 {
      StartIsProduct(k - 1, size);
      assert k * size == (k - 1) * size + size;
    }
  }

  lemma {:induction false} RowsApart(k: nat, d: nat, size: nat)
    ensures k < d ==> Start(k, size) + size <= Start(d, size)
  {
    if k < d {
      RowsApart(k, d - 1, size);
    }
  }

  function RowAt(flat: seq<int>, size: nat, n: nat, k: nat): (r: seq<int>)
    requires k < n && |flat| == Start(n, size)
    ensures |r| == size
  {
    RowsApart(k, n, size);
    flat[Start(k, size)..Start(k, size) + size]
  }

  function Rows(flat: seq<int>, size: nat, n: nat): (r: seq<seq<int>>)
    requires |flat| == Start(n, size)
    ensures |r| == n
  {
    seq(n, k requires 0 <= k < n => RowAt(flat, size, n, k))
  }

  /** memcpy of one row over another. */
  function CopyFlat(flat: seq<int>, size: nat, n: nat, d: nat, i: nat): (r: seq<int>)
    requires d < n && i < n && |flat| == Start(n, size)
    ensures |r| == |flat|
  {
    RowsApart(d, n, size);
    RowsApart(i, n, size);
    flat[..Start(d, size)] + flat[Start(i, size)..Start(i, size) + size] + flat[Start(d, size) + size..]
  }

  lemma CopyFlatIsUpdate(flat: seq<int>, size: nat, n: nat, d: nat, i: nat)
    requires d < n && i < n && |flat| == Start(n, size)
    ensures Rows(CopyFlat(flat, size, n, d, i), size, n) == Rows(flat, size, n)[d := RowAt(flat, size, n, i)]
  {
    var r := CopyFlat(flat, size, n, d, i);
    forall k | 0 <= k < n
      ensures RowAt(r, size, n, k) == if k == d then RowAt(flat, size, n, i) else RowAt(flat, size, n, k)
    {
      CopiedRow(flat, size, n, d, i, k);
    }
  }

  lemma CopiedRow(flat: seq<int>, size: nat, n: nat, d: nat, i: nat, k: nat)
    requires d < n && i < n && k < n && |flat| == Start(n, size)
    ensures RowAt(CopyFlat(flat, size, n, d, i), size, n, k) == if k == d then RowAt(flat, size, n, i) else RowAt(flat, size, n, k)
  {
    RowsApart(d, n, size);
    RowsApart(i, n, size);
    RowsApart(k, n, size);
    RowsApart(k, d, size);
    RowsApart(d, k, size);
    Spliced(flat, Start(d, size), Start(i, size), Start(k, size), size);
  }

  lemma Spliced(flat: seq<int>, d: nat, i: nat, k: nat, size: nat)
    requires d + size <= |flat| && i + size <= |flat| && k + size <= |flat|
    requires k == d || k + size <= d || d + size <= k
    ensures var r := flat[..d] + flat[i..i + size] + flat[d + size..];
            r[k..k + size] == if k == d then flat[i..i + size] else flat[k..k + size]
  {
  }
}
