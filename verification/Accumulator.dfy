module Accumulator {

  /** The transaction accumulator: rows, hits, hit counts, stored documents, embedding
      sources and columnar attributes, all indexed by row. */

  import opened Compaction
  import opened Columnar
  import opened Dedup

  type Blob = seq<int>

  /** The contents of an accumulator; everything but the hits is indexed by row. */
  datatype Storages = Storages(rows: seq<seq<int>>, hits: seq<Hit>, hitCounts: seq<nat>,
                               docstore: seq<Blob>, embeddings: seq<seq<Blob>>, columns: seq<Column>)

  /** A document id is the signed 64-bit number in the first two row items. */
  function Signed64(u: int): int
  {
    if u >= 0x8000_0000_0000_0000 then u - 0x1_0000_0000_0000_0000 else u
  }

  function DocIdOf(row: seq<int>): int
    requires |row| >= 2
  {
    Signed64(row[0] + row[1] * 0x1_0000_0000)
  }

  /** Row items are 32-bit words. */
  predicate IsWord(x: int)
  {
    0 <= x < 0x1_0000_0000
  }

  /** The low and the high word of a signed 64-bit number, as a row stores them. */
  function LowWord(v: int): int
  {
    v % 0x1_0000_0000
  }

  function HighWord(v: int): int
  {
    v / 0x1_0000_0000 % 0x1_0000_0000
  }

  /** A row that stores an id has that id, for every signed 64-bit number. */
  lemma DocIdReads(row: seq<int>, v: int)
    requires -0x8000_0000_0000_0000 <= v < 0x8000_0000_0000_0000
    requires |row| >= 2 && row[0] == LowWord(v) && row[1] == HighWord(v)
    ensures DocIdOf(row) == v
  {
  }

  /** So does an id column that holds the number as an unsigned one. */
  lemma ColumnIdReads(u: int, v: int)
    requires -0x8000_0000_0000_0000 <= v < 0x8000_0000_0000_0000 && u == v % 0x1_0000_0000_0000_0000
    ensures Signed64(u) == v
  {
  }

  /** Rows have the same id only if they agree in both words. */
  lemma DocIdInjective(a: seq<int>, b: seq<int>)
    requires |a| >= 2 && |b| >= 2 && IsWord(a[0]) && IsWord(a[1]) && IsWord(b[0]) && IsWord(b[1])
    ensures DocIdOf(a) == DocIdOf(b) <==> a[0] == b[0] && a[1] == b[1]
    ensures -0x8000_0000_0000_0000 <= DocIdOf(a) < 0x8000_0000_0000_0000
    ensures LowWord(DocIdOf(a)) == a[0] && HighWord(DocIdOf(a)) == a[1]
  {
  }

  /** Unsigned 64-bit column values have the same id only if they are equal. */
  lemma ColumnIdInjective(u: int, v: int)
    requires 0 <= u < 0x1_0000_0000_0000_0000 && 0 <= v < 0x1_0000_0000_0000_0000
    ensures Signed64(u) == Signed64(v) <==> u == v
    ensures -0x8000_0000_0000_0000 <= Signed64(u) < 0x8000_0000_0000_0000
  {
  }

  lemma {:induction false} RenumberedAll(hits: seq<Hit>, alive: seq<bool>, n: nat)
    requires n <= |hits| && (forall h <- hits :: h.row < |alive|) && forall j | 0 <= j < |alive| :: alive[j]
    ensures Renumbered(hits, alive, n) == hits[..n]
  {
    if n > 0 {
      RenumberedAll(hits, alive, n - 1);
      var h := hits[n - 1];
      assert h in hits;
      AllAlive(alive, alive, h.row);
      assert hits[..n] == hits[..n - 1] + [h];
    }
  }

  /** Every row map entry a hit may look up. */
  lemma HitStep(hits: seq<Hit>, alive: seq<bool>, rowMap: seq<nat>, n: nat)
    requires n < |hits| && (forall h <- hits :: h.row < |alive|) && MapOk(rowMap, alive)
    ensures var row := hits[n].row;
            row < |rowMap| &&
            Renumbered(hits, alive, n + 1) ==
              Renumbered(hits, alive, n) + if rowMap[row] != INVALID_ROWID then [hits[n].(row := rowMap[row])] else []
  {
    assert hits[n] in hits;
    MapTells(rowMap, alive, hits[n].row);
  }

  /** SwapRows of the embedding sources: in every attribute. */
  method SwapAll(rows: seq<seq<Blob>>, d: nat, i: nat, ghost orig: seq<seq<Blob>>, ghost alive: seq<bool>) returns (r: seq<seq<Blob>>)
    requires |orig| == |rows| && i < |alive| && alive[i] && d == Rank(alive, i)
    requires forall a | 0 <= a < |rows| :: Partly(rows[a], orig[a], alive, i)
    ensures |r| == |rows| && forall a | 0 <= a < |r| :: Partly(r[a], orig[a], alive, i + 1)
  {
    r := rows;
    var a := 0;
    while a < |rows|
      invariant 0 <= a <= |rows| == |r|
      invariant forall b | 0 <= b < a :: Partly(r[b], orig[b], alive, i + 1)
      invariant forall b | a <= b < |rows| :: r[b] == rows[b]
    {
      SwapStep(rows[a], orig[a], alive, i);
      r := r[a := Swapped(r[a], d, i)];
      a := a + 1;
    }
  }

  /** The document ids of some contents. */
  ghost predicate IdsIn(s: Storages, columnarId: bool, ids: seq<int>)
  {
    if columnarId then
      && s.columns != [] && s.columns[0].Ints? && |s.columns[0].values| == |ids|
      && forall i | 0 <= i < |ids| :: ids[i] == Signed64(s.columns[0].values[i])
    else
      |s.rows| == |ids| && forall i | 0 <= i < |ids| :: |s.rows[i]| >= 2 && ids[i] == DocIdOf(s.rows[i])
  }

  predicate SameKey(a: seq<int>, b: seq<int>)
  {
    |a| >= 2 && |b| >= 2 && a[0] == b[0] && a[1] == b[1]
  }

  /** Rows of 32-bit words: every key, that is both words of the id, still has a row, and no
      two rows have the same key. */
  ghost predicate KeysKept(before: seq<seq<int>>, after: seq<seq<int>>)
  {
    (forall r <- before :: |r| >= 2 && IsWord(r[0]) && IsWord(r[1])) ==>
      && (forall r <- before :: exists k | 0 <= k < |after| :: SameKey(after[k], r))
      && forall j, k | 0 <= j < k < |after| :: !SameKey(after[j], after[k])
  }

  /** The last row of every key (in insert mode the first) is kept. */
  ghost predicate KeepersKept(before: seq<seq<int>>, replace: bool, after: seq<seq<int>>)
  {
    (forall r <- before :: |r| >= 2 && IsWord(r[0]) && IsWord(r[1])) ==>
      forall i | 0 <= i < |before| && (forall j | 0 <= j < |before| && SameKey(before[j], before[i]) :: if replace then j <= i else i <= j) ::
        before[i] in after
  }

  /** The same for a column of unsigned 64-bit ids. */
  ghost predicate ColumnKept(before: seq<int>, after: seq<int>)
  {
    (forall v <- before :: 0 <= v < 0x1_0000_0000_0000_0000) ==>
      (forall v <- before :: v in after) && forall j, k | 0 <= j < k < |after| :: after[j] != after[k]
  }

  lemma ColumnStays(before: Column, after: Column, ids: seq<int>, alive: seq<bool>, left: seq<int>)
    requires before.Ints? && after.Ints? && Columnar.Valid(before) && Columnar.Valid(after)
    requires |before.values| == |ids| == |alive| && Values(after) == Survivors(Values(before), alive)
    requires forall i | 0 <= i < |ids| :: ids[i] == Signed64(before.values[i])
    requires |left| == |after.values| && forall k | 0 <= k < |left| :: left[k] == Signed64(after.values[k])
    requires (forall i | 0 <= i < |ids| :: ids[i] in left) && forall j, k | 0 <= j < k < |left| :: left[j] != left[k]
    ensures ColumnKept(before.values, after.values)
  {
    if forall v <- before.values :: 0 <= v < 0x1_0000_0000_0000_0000 {
      forall k | 0 <= k < |after.values| ensures 0 <= after.values[k] < 0x1_0000_0000_0000_0000
      {
        SurvivorsAmong(Values(before), alive, |alive|);
        assert Values(after)[k] in Values(before) && Values(after)[k] == [after.values[k]];
        var i :| 0 <= i < |Values(before)| && Values(before)[i] == [after.values[k]];
        assert Values(before)[i] == [before.values[i]] && before.values[i] in before.values;
        assert [before.values[i]][0] == [after.values[k]][0];
      }
      forall v | v in before.values ensures v in after.values
      {
        var i :| 0 <= i < |ids| && before.values[i] == v;
        var k :| 0 <= k < |left| && left[k] == ids[i];
        ColumnIdInjective(v, after.values[k]);
      }
    }
  }

  lemma KeepersStay(before: seq<seq<int>>, ids: seq<int>, replace: bool)
    requires |before| == |ids| && forall i | 0 <= i < |ids| :: |before[i]| >= 2 && ids[i] == DocIdOf(before[i])
    ensures KeepersKept(before, replace, Survivors(before, Alive(ids, replace)))
  {
    if forall r <- before :: |r| >= 2 && IsWord(r[0]) && IsWord(r[1]) {
      forall i | 0 <= i < |before| && (forall j | 0 <= j < |before| && SameKey(before[j], before[i]) :: if replace then j <= i else i <= j)
        ensures before[i] in Survivors(before, Alive(ids, replace))
      {
        forall j | 0 <= j < |ids| && ids[j] == ids[i] ensures SameKey(before[j], before[i])
        {
          assert before[i] in before && before[j] in before;
          DocIdInjective(before[j], before[i]);
        }
        KeeperStays(before, ids, replace, i);
      }
    }
  }

  lemma KeysStay(before: seq<seq<int>>, ids: seq<int>, replace: bool)
    requires |before| == |ids| && forall i | 0 <= i < |ids| :: |before[i]| >= 2 && ids[i] == DocIdOf(before[i])
    ensures KeysKept(before, Survivors(before, Alive(ids, replace)))
  {
    var alive := Alive(ids, replace);
    var after := Survivors(before, alive);
    if forall r <- before :: |r| >= 2 && IsWord(r[0]) && IsWord(r[1]) {
      forall r | r in before ensures exists k | 0 <= k < |after| :: SameKey(after[k], r)
      {
        var i :| 0 <= i < |before| && before[i] == r;
        OneRowPerDocument(ids, replace, i);
        var k :| 0 <= k < |ids| && ids[k] == ids[i] && Survives(ids, replace, k);
        CompactAt(before, alive, k, |ids|);
        assert before[k] in before;
        DocIdInjective(before[k], r);
        assert SameKey(after[Rank(alive, k)], r);
      }
      forall j, k | 0 <= j < k < |after| ensures !SameKey(after[j], after[k])
      {
        TwoKept(before, ids, replace, j, k);
      }
    }
  }

  lemma TwoKept(before: seq<seq<int>>, ids: seq<int>, replace: bool, j: nat, k: nat)
    requires |before| == |ids| && forall i | 0 <= i < |ids| :: |before[i]| >= 2 && ids[i] == DocIdOf(before[i])
    requires j < k < |Survivors(before, Alive(ids, replace))|
    ensures var after := Survivors(before, Alive(ids, replace)); !SameKey(after[j], after[k])
  {
    var alive := Alive(ids, replace);
    var a := PlaceOf(alive, j, |ids|);
    var b := PlaceOf(alive, k, |ids|);
    CompactAt(before, alive, a, |ids|);
    CompactAt(before, alive, b, |ids|);
    CompactAt(ids, alive, a, |ids|);
    CompactAt(ids, alive, b, |ids|);
    IdsAfter(ids, replace);
  }

  class RtAccum {
    const replace: bool
    const columnar: ColumnarBuilder
    const hasDocstore: bool
    var docs: nat
    var rows: seq<int>                 // flat
    var hits: seq<Hit>
    var hitCounts: seq<nat>
    var docstore: seq<Blob>
    var embeddings: seq<seq<Blob>>     // per attribute

    ghost predicate Valid(size: nat)
      reads this, columnar
    {
      && docs <= INVALID_ROWID && |rows| == Start(docs, size) && |hitCounts| == docs
      && (hasDocstore ==> |docstore| == docs) && (forall a | 0 <= a < |embeddings| :: |embeddings[a]| == docs)
      && columnar.AllValid(docs) && forall h <- hits :: h.row < docs
    }

    constructor (replace: bool, columns: seq<Column>, hasDocstore: bool, attrs: nat)
      requires forall a | 0 <= a < |columns| :: Columnar.Valid(columns[a]) && RowCount(columns[a]) == 0
      ensures fresh(columnar) && this.replace == replace && docs == 0 && forall size: nat :: Valid(size)
    {
      this.replace := replace;
      columnar := new ColumnarBuilder(columns);
      docs, rows, hits, hitCounts := 0, [], [], [];
      this.hasDocstore, docstore := hasDocstore, [];
      embeddings := seq(attrs, _ => []);
      new;
      forall size: nat ensures Valid(size) {
      }
    }

    /** Ids come from the first column or from the rows. */
    predicate HasIds(size: nat, columnarId: bool)
      reads this, columnar
    {
      if columnarId then columnar.columns != [] && columnar.columns[0].Ints? else size >= 2
    }

    ghost function Ids(size: nat, columnarId: bool): (ids: seq<int>)
      requires Valid(size) && HasIds(size, columnarId)
      reads this, columnar
      ensures |ids| == docs
    {
      if columnarId then
        var values := columnar.columns[0].values;
        seq(docs, i requires 0 <= i < |values| => Signed64(values[i]))
      else
        var all := Rows(rows, size, docs);
        seq(docs, i requires 0 <= i < |all| && |all[i]| >= 2 => DocIdOf(all[i]))
    }

    method ReadIds(size: nat, columnarId: bool) returns (ids: seq<int>)
      requires Valid(size) && HasIds(size, columnarId)
      ensures ids == Ids(size, columnarId)
    {
      ids := [];
      var i := 0;
      while i < docs
        invariant 0 <= i <= docs && ids == Ids(size, columnarId)[..i]
      {
        if columnarId {
          ids := ids + [Signed64(columnar.columns[0].values[i])];
        } else {
          ids := ids + [DocIdOf(RowAt(rows, size, docs, i))];
        }
        i := i + 1;
      }
    }

    /** Drop the hits of dead rows and renumber the others, in place. */
    method CompactHits(rowMap: seq<nat>, ghost alive: seq<bool>)
      requires MapOk(rowMap, alive) && forall h <- hits :: h.row < |alive|
      modifies this`hits
      ensures hits == Renumbered(old(hits), alive, |old(hits)|)
    {
      var d := 0;
      var i := 0;
      ghost var orig := hits;
      while i < |hits|
        invariant 0 <= d <= i <= |hits| == |orig|
        invariant hits[..d] == Renumbered(orig, alive, i) && hits[i..] == orig[i..]
      {
        HitStep(orig, alive, rowMap, i);
        var hit := hits[i];
        assert hit == hits[i..][0] == orig[i];
        var row := rowMap[hit.row];
        ghost var before := hits;
        if row != INVALID_ROWID {
          hits := hits[d := hit.(row := row)];
          assert hits[..d + 1] == before[..d] + [hit.(row := row)];
          d := d + 1;
        }
        assert hits[i + 1..] == before[i..][1..];
        i := i + 1;
      }
      hits := hits[..d];
    }

    /** State of the compaction loop after `i` rows. */
    ghost predicate Compacted(size: nat, alive: seq<bool>, i: nat, rows0: seq<seq<int>>, counts0: seq<nat>, docstore0: seq<Blob>, embeddings0: seq<seq<Blob>>)
      reads this
    {
      && |rows| == Start(|alive|, size) && Partly(Rows(rows, size, |alive|), rows0, alive, i)
      && Partly(hitCounts, counts0, alive, i)
      && (hasDocstore ==> Partly(docstore, docstore0, alive, i))
      && |embeddings| == |embeddings0| && forall a | 0 <= a < |embeddings| :: Partly(embeddings[a], embeddings0[a], alive, i)
    }

    /** One row of the compaction loop: memcpy, assignment and swaps. */
    method CompactRow(size: nat, i: nat, d: nat, ghost alive: seq<bool>,
                      ghost rows0: seq<seq<int>>, ghost counts0: seq<nat>, ghost docstore0: seq<Blob>, ghost embeddings0: seq<seq<Blob>>)
      requires i < |alive| == docs && alive[i] && d == Rank(alive, i) && Compacted(size, alive, i, rows0, counts0, docstore0, embeddings0)
      modifies this`rows, this`hitCounts, this`docstore, this`embeddings
      ensures Compacted(size, alive, i + 1, rows0, counts0, docstore0, embeddings0)
    {
      CopyStep(Rows(rows, size, |alive|), rows0, alive, i);
      CopyStep(hitCounts, counts0, alive, i);
      if hasDocstore {
        SwapStep(docstore, docstore0, alive, i);
      }
      if i != d {
        CopyFlatIsUpdate(rows, size, docs, d, i);
        if size != 0 {
          rows := CopyFlat(rows, size, docs, d, i);
        }
        hitCounts := hitCounts[d := hitCounts[i]];
        if hasDocstore {
          docstore := Swapped(docstore, d, i);
        }
        embeddings := SwapAll(embeddings, d, i, embeddings0, alive);
      } else {
        forall a | 0 <= a < |embeddings| ensures Partly(embeddings[a], embeddings0[a], alive, i + 1) {
          SwapStep(embeddings[a], embeddings0[a], alive, i);
        }
      }
    }

    /** Rows, hit counts, stored documents and embedding sources in one pass. */
    method CompactRows(size: nat, rowMap: seq<nat>, ghost alive: seq<bool>)
      requires MapOk(rowMap, alive) && |alive| == docs && |rows| == Start(docs, size) && |hitCounts| == docs
      requires (hasDocstore ==> |docstore| == docs) && forall a | 0 <= a < |embeddings| :: |embeddings[a]| == docs
      modifies this`docs, this`rows, this`hitCounts, this`docstore, this`embeddings
      ensures docs == Rank(alive, |alive|) && |rows| == Start(docs, size)
      ensures Rows(rows, size, docs) == Survivors(old(Rows(rows, size, docs)), alive)
      ensures hitCounts == Survivors(old(hitCounts), alive)
      ensures hasDocstore ==> docstore == Survivors(old(docstore), alive)
      ensures |embeddings| == |old(embeddings)| && forall a | 0 <= a < |embeddings| :: embeddings[a] == Survivors(old(embeddings[a]), alive)
    {
      ghost var rows0, counts0, docstore0, embeddings0 := Rows(rows, size, docs), hitCounts, docstore, embeddings;
      var d := 0;
      var i := 0;
      while i < |rowMap|
        invariant 0 <= i <= |rowMap| && d == Rank(alive, i) && docs == |alive|
        invariant Compacted(size, alive, i, rows0, counts0, docstore0, embeddings0)
      {
        MapTells(rowMap, alive, i);
        if rowMap[i] != INVALID_ROWID {
          CompactRow(size, i, d, alive, rows0, counts0, docstore0, embeddings0);
          d := d + 1;
        } else {
          SkipRow(size, alive, i, rows0, counts0, docstore0, embeddings0);
        }
        i := i + 1;
      }
      DropTails(size, d, alive, rows0, counts0, docstore0, embeddings0);
    }

    lemma SkipRow(size: nat, alive: seq<bool>, i: nat, rows0: seq<seq<int>>, counts0: seq<nat>, docstore0: seq<Blob>, embeddings0: seq<seq<Blob>>)
      requires i < |alive| && !alive[i] && Compacted(size, alive, i, rows0, counts0, docstore0, embeddings0)
      ensures Compacted(size, alive, i + 1, rows0, counts0, docstore0, embeddings0)
    {
      SkipStep(Rows(rows, size, |alive|), rows0, alive, i);
      SkipStep(hitCounts, counts0, alive, i);
      if hasDocstore {
        SkipStep(docstore, docstore0, alive, i);
      }
      forall a | 0 <= a < |embeddings| ensures Partly(embeddings[a], embeddings0[a], alive, i + 1) {
        SkipStep(embeddings[a], embeddings0[a], alive, i);
      }
    }

    /** Cut every storage to the number of survivors. */
    method DropTails(size: nat, d: nat, ghost alive: seq<bool>,
                     ghost rows0: seq<seq<int>>, ghost counts0: seq<nat>, ghost docstore0: seq<Blob>, ghost embeddings0: seq<seq<Blob>>)
      requires |alive| == docs && d == Rank(alive, |alive|) && Compacted(size, alive, |alive|, rows0, counts0, docstore0, embeddings0)
      modifies this`docs, this`rows, this`hitCounts, this`docstore, this`embeddings
      ensures docs == d && |rows| == Start(d, size) && Rows(rows, size, d) == Survivors(rows0, alive)
      ensures hitCounts == Survivors(counts0, alive) && (hasDocstore ==> docstore == Survivors(docstore0, alive))
      ensures |embeddings| == |embeddings0| && forall a | 0 <= a < |embeddings| :: embeddings[a] == Survivors(embeddings0[a], alive)
    {
      EndPartly(Rows(rows, size, docs), rows0, alive);
      EndPartly(hitCounts, counts0, alive);
      FlatPrefix(rows, size, docs, d);
      rows := rows[..Start(d, size)];
      hitCounts := hitCounts[..d];
      docs := d;
      if hasDocstore {
        EndPartly(docstore, docstore0, alive);
        docstore := docstore[..d];
      }
      ghost var before := embeddings;
      var a := 0;
      while a < |embeddings|
        modifies this`embeddings
        invariant 0 <= a <= |embeddings| == |before|
        invariant forall b | 0 <= b < a :: embeddings[b] == Survivors(embeddings0[b], alive)
        invariant forall b | a <= b < |embeddings| :: embeddings[b] == before[b]
      {
        EndPartly(embeddings[a], embeddings0[a], alive);
        embeddings := embeddings[a := embeddings[a][..d]];
        a := a + 1;
      }
    }

    /** CleanupDuplicates: of every document id one row is left (the last one in replace
        mode, the first one in insert mode), and every storage holds the same rows in
        their old order.  No id is lost, and hit counts that were right stay right. */
    method CleanupDuplicates(size: nat, columnarId: bool)
      requires Valid(size) && HasIds(size, columnarId)
      modifies this, columnar
      ensures Valid(size) && KeptOf(old(Contents(size)), size, Alive(old(Ids(size, columnarId)), replace))
      ensures HasIds(size, columnarId) && Ids(size, columnarId) == Survivors(old(Ids(size, columnarId)), Alive(old(Ids(size, columnarId)), replace))
      ensures forall j, k | 0 <= j < k < docs :: Ids(size, columnarId)[j] != Ids(size, columnarId)[k]
      ensures forall id <- old(Ids(size, columnarId)) :: id in Ids(size, columnarId)
      ensures old(CountsExact()) ==> CountsExact()
      ensures columnarId ==> ColumnKept(old(columnar.columns[0].values), columnar.columns[0].values)
      ensures !columnarId ==> KeysKept(old(Rows(rows, size, docs)), Rows(rows, size, docs))
      ensures !columnarId ==> KeepersKept(old(Rows(rows, size, docs)), replace, Rows(rows, size, docs))
    {
      ghost var was, ids := Contents(size), Ids(size, columnarId);
      ghost var alive := Alive(ids, replace);
      IdsAreRead(size, columnarId);
      RemoveRepeated(size, columnarId);
      IdsSurvive(was, size, columnarId, ids, alive);
      IdsAfter(ids, replace);
      if old(CountsExact()) {
        CountsStayExact(was.hitCounts, was.hits, alive);
      }
      if columnarId {
        ColumnStays(was.columns[0], columnar.columns[0], ids, alive, Ids(size, columnarId));
      } else {
        KeepersStay(was.rows, ids, replace);
        KeysStay(was.rows, ids, replace);
      }
    }

    /** The compaction itself, with the early exits. */
    method RemoveRepeated(size: nat, columnarId: bool)
      requires Valid(size) && HasIds(size, columnarId)
      modifies this, columnar
      ensures Valid(size) && KeptOf(old(Contents(size)), size, Alive(old(Ids(size, columnarId)), replace))
    {
      ghost var ids := Ids(size, columnarId);
      ghost var alive := Alive(ids, replace);
      if docs <= 1 {
        NothingToDo(size, alive);
        return;
      }
      var read := ReadIds(size, columnarId);
      var sorted := SortDocs(read);
      var any := AnyRepeated(sorted, ids, replace);
      if !any {
        NothingToDo(size, alive);
        return;
      }
      var rowMap := BuildRowMap(sorted, replace, ids);
      CompactAll(size, rowMap, alive);
    }

    /** Every row's hit count is the number of its hits. */
    ghost predicate CountsExact()
      reads this
    {
      forall i | 0 <= i < |hitCounts| :: hitCounts[i] == HitsOf(hits, i, |hits|)
    }

    /** Ids depend on the contents only. */
    lemma IdsAreRead(size: nat, columnarId: bool)
      requires Valid(size) && HasIds(size, columnarId)
      ensures IdsIn(Contents(size), columnarId, Ids(size, columnarId))
    {
    }

    lemma IdsSurvive(was: Storages, size: nat, columnarId: bool, ids: seq<int>, alive: seq<bool>)
      requires KeptOf(was, size, alive) && |ids| == |alive| && IdsIn(was, columnarId, ids)
      requires !columnarId ==> size >= 2
      ensures HasIds(size, columnarId) && Ids(size, columnarId) == Survivors(ids, alive)
    {
      if columnarId {
        ColumnIdsSurvive(was, size, ids, alive);
      } else {
        var part := (row: seq<int>) => if |row| >= 2 then DocIdOf(row) else 0;
        PartsSurvive(was.rows, ids, alive, Ids(size, columnarId), part);
      }
    }

    lemma ColumnIdsSurvive(was: Storages, size: nat, ids: seq<int>, alive: seq<bool>)
      requires KeptOf(was, size, alive) && |ids| == |alive| && IdsIn(was, true, ids)
      ensures HasIds(size, true) && Ids(size, true) == Survivors(ids, alive)
    {
      var part := (v: seq<int>) => if v != [] then Signed64(v[0]) else 0;
      var c, d := was.columns[0], columnar.columns[0];
      assert d.Ints?;
      forall i | 0 <= i < |ids| ensures ids[i] == part(Values(c)[i]) {
        assert Values(c)[i] == [c.values[i]];
      }
      forall k | 0 <= k < docs ensures Ids(size, true)[k] == part(Values(d)[k]) {
        assert Values(d)[k] == [d.values[k]];
      }
      PartsSurvive(Values(c), ids, alive, Ids(size, true), part);
    }

    /** Everything the accumulator holds. */
    ghost function Contents(size: nat): Storages
      requires Valid(size)
      reads this, columnar
    {
      Storages(Rows(rows, size, docs), hits, hitCounts, docstore, embeddings, columnar.columns)
    }

    /** Every storage holds exactly the survivors of what it held before. */
    ghost predicate KeptOf(was: Storages, size: nat, alive: seq<bool>)
      reads this, columnar
    {
      && Valid(size) && docs == Rank(alive, |alive|)
      && |was.rows| == |alive| && Rows(rows, size, docs) == Survivors(was.rows, alive)
      && (forall h <- was.hits :: h.row < |alive|) && hits == Renumbered(was.hits, alive, |was.hits|)
      && |was.hitCounts| == |alive| && hitCounts == Survivors(was.hitCounts, alive)
      && (hasDocstore ==> |was.docstore| == |alive| && docstore == Survivors(was.docstore, alive))
      && |embeddings| == |was.embeddings|
      && (forall a | 0 <= a < |embeddings| :: |was.embeddings[a]| == |alive| && embeddings[a] == Survivors(was.embeddings[a], alive))
      && |columnar.columns| == |was.columns|
      && forall a | 0 <= a < |columnar.columns| ::
           Columnar.Valid(was.columns[a]) && RowCount(was.columns[a]) == |alive| &&
           Emptied(columnar.columns[a]) == Emptied(was.columns[a]) &&
           Values(columnar.columns[a]) == Survivors(Values(was.columns[a]), alive)
    }

    method CompactAll(size: nat, rowMap: seq<nat>, ghost alive: seq<bool>)
      requires Valid(size) && |alive| == docs && MapOk(rowMap, alive)
      modifies this, columnar
      ensures KeptOf(old(Contents(size)), size, alive)
    {
      ghost var was := Contents(size);
      CompactHits(rowMap, alive);
      columnar.RemoveDuplicates(rowMap, alive);
      CompactRows(size, rowMap, alive);
      HitsInRange(was.hits, alive, |was.hits|);
      RankBounds(alive, 0, |alive|);
    }

    /** With no duplicate every storage is its own compaction. */
    lemma NothingToDo(size: nat, alive: seq<bool>)
      requires Valid(size) && |alive| == docs && forall i | 0 <= i < |alive| :: alive[i]
      ensures KeptOf(Contents(size), size, alive)
    {
      RenumberedAll(hits, alive, |hits|);
      assert hits[..|hits|] == hits;
      AllStay(Rows(rows, size, docs), alive);
      AllStay(hitCounts, alive);
      if hasDocstore {
        AllStay(docstore, alive);
      }
      forall a | 0 <= a < |embeddings| ensures embeddings[a] == Survivors(embeddings[a], alive) {
        AllStay(embeddings[a], alive);
      }
      forall a | 0 <= a < |columnar.columns| ensures Values(columnar.columns[a]) == Survivors(Values(columnar.columns[a]), alive) {
        AllStay(Values(columnar.columns[a]), alive);
      }
    }
  }

  lemma AllStay<T>(s: seq<T>, alive: seq<bool>)
    requires |s| == |alive| && forall i | 0 <= i < |alive| :: alive[i]
    ensures Rank(alive, |alive|) == |alive| && s == Survivors(s, alive)
  {
    AllAlive(s, alive, |alive|);
  }

  lemma {:induction false} HitsInRange(hits: seq<Hit>, alive: seq<bool>, n: nat)
    requires n <= |hits| && forall h <- hits :: h.row < |alive|
    ensures forall h <- Renumbered(hits, alive, n) :: h.row < Rank(alive, |alive|)
  {
    if n > 0 {
      HitsInRange(hits, alive, n - 1);
      var h := hits[n - 1];
      assert h in hits;
      if alive[h.row] {
        RankStrict(alive, h.row, |alive|);
      }
    }
  }

  lemma FlatPrefix(flat: seq<int>, size: nat, n: nat, d: nat)
    requires |flat| == Start(n, size) && d <= n
    ensures Start(d, size) <= |flat| && Rows(flat[..Start(d, size)], size, d) == Rows(flat, size, n)[..d]
  {
    RowsApart(d, n, size);
    forall k | 0 <= k < d ensures RowAt(flat[..Start(d, size)], size, d, k) == RowAt(flat, size, n, k) {
      RowsApart(k, d, size);
      Clipped(flat, Start(d, size), Start(k, size), Start(k, size) + size);
    }
  }

  lemma Clipped(s: seq<int>, end: nat, from: nat, to: nat)
    requires from <= to <= end <= |s|
    ensures s[..end][from..to] == s[from..to]
  {
  }
}
