/** Columnar attributes of a RAM segment: integers under a bit mask, and strings or value
    lists kept as one data vector with cumulative lengths. */
module Columnar {
  import opened Compaction

  datatype Column =
    | Ints(bits: nat, values: seq<int>)
    | Lists(data: seq<int>, lengths: seq<nat>, total: nat)

  function Pow2(k: nat): nat
    ensures Pow2(k) > 0
  {
    if k == 0 then 1 else 2 * Pow2(k - 1)
  }

  function RowCount(c: Column): nat
  {
    if c.Ints? then |c.values| else |c.lengths|
  }

  /** Lengths never decrease and the last one is the number of values. */
  ghost predicate Valid(c: Column)
  {
    match c
    case Ints(bits, values) => forall i | 0 <= i < |values| :: 0 <= values[i] < Pow2(bits)
    case Lists(data, lengths, total) =>
      && |data| == total == (if lengths == [] then 0 else lengths[|lengths| - 1])
      && forall i, j | 0 <= i <= j < |lengths| :: lengths[i] <= lengths[j]
  }

  /** GetLengthOffset */
  function LengthOffset(lengths: seq<nat>, row: nat): (int, int)
    requires row < |lengths|
  {
    if row > 0 then (lengths[row] as int - lengths[row - 1] as int, lengths[row - 1]) else (lengths[row], 0)
  }

  /** An iterator's Get. */
  ghost function Get(c: Column, row: nat): seq<int>
    requires Valid(c) && row < RowCount(c)
  {
    match c
    case Ints(_, values) => [values[row]]
    case Lists(data, lengths, _) =>
      var (len, off) := LengthOffset(lengths, row);
      data[off..off + len]
  }

  /** What a column keeps of a value. */
  function Stored(c: Column, v: seq<int>): seq<int>
  {
    if c.Lists? then v else if v == [] then [0] else [v[0] % Pow2(c.bits)]
  }

  function Emptied(c: Column): Column
  {
    if c.Ints? then Ints(c.bits, []) else Lists([], [], 0)
  }

  /** AddDoc */
  function AddDoc(c: Column, v: seq<int>): Column
  {
    match c
    case Ints(bits, values) => Ints(bits, values + Stored(c, v))
    case Lists(data, lengths, total) => Lists(data + v, lengths + [total + |v|], total + |v|)
  }

  /** An integer that fits the column's bits is stored as it is, any other one modulo them. */
  lemma StoredMeaning(c: Column, v: int)
    requires c.Ints?
    ensures |Stored(c, [v])| == 1 && 0 <= Stored(c, [v])[0] < Pow2(c.bits)
    ensures exists q: int :: v == Stored(c, [v])[0] + q * Pow2(c.bits)
    ensures 0 <= v < Pow2(c.bits) ==> Stored(c, [v]) == [v]
  {
    Residue(v, Pow2(c.bits));
  }

  lemma Residue(v: int, m: nat)
    requires m > 0
    ensures 0 <= v % m < m && v == v % m + (v / m) * m
    ensures 0 <= v < m ==> v % m == v
  {
  }

  /** A new row reads as stored and the earlier rows read as before. */
  lemma AddDocReads(c: Column, v: seq<int>)
    requires Valid(c)
    ensures Valid(AddDoc(c, v)) && RowCount(AddDoc(c, v)) == RowCount(c) + 1
    ensures Get(AddDoc(c, v), RowCount(c)) == Stored(c, v)
    ensures forall i | 0 <= i < RowCount(c) :: Get(AddDoc(c, v), i) == Get(c, i)
  {
    if c.Lists? {
      AddListValid(c, v);
      assert AddDoc(c, v).data[c.total..c.total + |v|] == v;
      forall i | 0 <= i < RowCount(c) ensures Get(AddDoc(c, v), i) == Get(c, i) {
        AddListKeeps(c, v, i);
      }
    }
  }

  lemma AddListValid(c: Column, v: seq<int>)
    requires Valid(c) && c.Lists?
    ensures Valid(AddDoc(c, v))
  {
  }

  lemma AddListKeeps(c: Column, v: seq<int>, i: nat)
    requires Valid(c) && Valid(AddDoc(c, v)) && c.Lists? && i < |c.lengths|
    ensures Get(AddDoc(c, v), i) == Get(c, i)
  {
    assert c.lengths[i] <= c.lengths[|c.lengths| - 1];
  }

  ghost function Values(c: Column): (r: seq<seq<int>>)
    requires Valid(c)
    ensures |r| == RowCount(c)
  {
    seq(RowCount(c), i requires 0 <= i < RowCount(c) => Get(c, i))
  }

  lemma ValuesAfterAdd(c: Column, v: seq<int>)
    requires Valid(c)
    ensures Valid(AddDoc(c, v)) && Values(AddDoc(c, v)) == Values(c) + [Stored(c, v)]
  {
    AddDocReads(c, v);
  }

  /** What was read from a column is stored again unchanged. */
  lemma StoredAgain(c: Column, row: nat)
    requires Valid(c) && row < RowCount(c)
    ensures Stored(c, Get(c, row)) == Get(c, row)
  {
    if c.Ints? {
      SmallMod(c.values[row], Pow2(c.bits));
    }
  }

  lemma SmallMod(x: int, m: int)
    requires 0 <= x < m
    ensures x % m == x
  {
  }

  const INVALID_ROWID: nat := 0xFFFF_FFFF

  /** The row map: a survivor's new number, or invalid. */
  predicate MapOk(rowMap: seq<nat>, alive: seq<bool>)
  {
    && |rowMap| == |alive| <= INVALID_ROWID
    && forall i | 0 <= i < |alive| :: rowMap[i] == if alive[i] then Rank(alive, i) else INVALID_ROWID
  }

  lemma MapTells(rowMap: seq<nat>, alive: seq<bool>, i: nat)
    requires MapOk(rowMap, alive) && i < |alive|
    ensures rowMap[i] != INVALID_ROWID <==> alive[i]
  {
    RankBounds(alive, 0, i);
  }

  /** The columns of a builder. */
  class ColumnarBuilder {
    var columns: seq<Column>

    ghost predicate AllValid(n: nat)
      reads this
    {
      forall a | 0 <= a < |columns| :: Valid(columns[a]) && RowCount(columns[a]) == n
    }

    constructor (columns: seq<Column>)
      ensures this.columns == columns
    {
      this.columns := columns;
    }

    /** Whether some row has to go. */
    method AnyInvalid(rowMap: seq<nat>, ghost alive: seq<bool>) returns (any: bool)
      requires MapOk(rowMap, alive)
      ensures any <==> exists i | 0 <= i < |alive| :: !alive[i]
    {
      any := false;
      var i := 0;
      while i < |rowMap| && !any
        invariant 0 <= i <= |rowMap| && (!any ==> forall j | 0 <= j < i :: alive[j])
        invariant any ==> exists j | 0 <= j < |alive| :: !alive[j]
      {
        MapTells(rowMap, alive, i);
        if rowMap[i] == INVALID_ROWID {
          any := true;
        }
        i := i + 1;
      }
    }

    /** RemoveColumnarDuplicates: build everything anew from the surviving rows. */
    method RemoveDuplicates(rowMap: seq<nat>, ghost alive: seq<bool>)
      requires MapOk(rowMap, alive) && AllValid(|alive|)
      modifies this
      ensures |columns| == |old(columns)| && AllValid(Rank(alive, |alive|))
      ensures forall a | 0 <= a < |columns| :: Values(columns[a]) == Survivors(Values(old(columns[a])), alive)
      ensures forall a | 0 <= a < |columns| :: Emptied(columns[a]) == Emptied(old(columns[a]))
    {
      var any := AnyInvalid(rowMap, alive);
      if !any {
        forall a | 0 <= a < |columns| ensures Values(columns[a]) == Survivors(Values(columns[a]), alive) {
          AllAlive(Values(columns[a]), alive, |alive|);
        }
        return;
      }
      var was := columns;
      var rebuilt := seq(|was|, a requires 0 <= a < |was| => Emptied(was[a]));
      assert forall a | 0 <= a < |columns| :: Rebuilt(columns[a], rebuilt[a], alive, 0);
      var row := 0;
      while row < |rowMap|
        invariant 0 <= row <= |rowMap| && columns == old(columns) && |rebuilt| == |columns|
        invariant forall a | 0 <= a < |columns| :: Rebuilt(columns[a], rebuilt[a], alive, row)
      {
        MapTells(rowMap, alive, row);
        if rowMap[row] != INVALID_ROWID {
          rebuilt := CopyRow(rebuilt, row, alive);
        }
        row := row + 1;
      }
      columns := rebuilt;
    }

    /** An iterator's read of one row. */
    static method ReadRow(c: Column, row: nat) returns (value: seq<int>)
      requires Valid(c) && row < RowCount(c)
      ensures value == Get(c, row)
    {
      if c.Ints? {
        value := [c.values[row]];
      } else {
        var (len, off) := LengthOffset(c.lengths, row);
        value := c.data[off..off + len];
      }
    }

    /** Copy one row of every column. */
    method CopyRow(into: seq<Column>, row: nat, ghost alive: seq<bool>) returns (r: seq<Column>)
      requires AllValid(|alive|) && |into| == |columns| && row < |alive| && alive[row]
      requires forall a | 0 <= a < |columns| :: Rebuilt(columns[a], into[a], alive, row)
      ensures |r| == |columns| && forall a | 0 <= a < |columns| :: Rebuilt(columns[a], r[a], alive, row + 1)
    {
      r := into;
      var a := 0;
      while a < |columns|
        invariant 0 <= a <= |columns| == |r|
        invariant forall b | 0 <= b < a :: Rebuilt(columns[b], r[b], alive, row + 1)
        invariant forall b | a <= b < |columns| :: r[b] == into[b]
      {
        var value := ReadRow(columns[a], row);
        RebuildStep(columns[a], r[a], alive, row);
        r := r[a := AddDoc(r[a], value)];
        a := a + 1;
      }
    }
  }

  /** A column rebuilt from the survivors among the first rows of another. */
  ghost predicate Rebuilt(c: Column, d: Column, alive: seq<bool>, row: nat)
  {
    && Valid(c) && RowCount(c) == |alive| && row <= |alive|
    && Valid(d) && Emptied(d) == Emptied(c) && Values(d) == Compact(Values(c), alive, row)
  }

  lemma RebuildStep(c: Column, d: Column, alive: seq<bool>, row: nat)
    requires Rebuilt(c, d, alive, row) && row < |alive| && alive[row]
    ensures Rebuilt(c, AddDoc(d, Get(c, row)), alive, row + 1)
  {
    ValuesAfterAdd(d, Get(c, row));
    StoredAgain(c, row);
  }

  lemma {:induction false} AllAlive<T>(s: seq<T>, alive: seq<bool>, i: nat)
    requires i <= |s| == |alive| && forall j | 0 <= j < |alive| :: alive[j]
    ensures Rank(alive, i) == i && Compact(s, alive, i) == s[..i]
  {
    if i > 0 {
      AllAlive(s, alive, i - 1);
      assert s[..i] == s[..i - 1] + [s[i - 1]];
    }
  }
}
