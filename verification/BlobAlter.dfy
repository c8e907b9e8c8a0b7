module BlobAlter {

  /** ALTER on blob rows: adding an attribute at the end and removing one. */

  import opened Bytes
  import opened BlobRow

  /** Memory that starts with the row of a list. */
  ghost predicate HoldsRow(mem: seq<byte>, list: Attrs)
  {
    Holds(mem, CalcFlags(|Concat(list)|), list)
  }

  function Without(list: Attrs, k: nat): Attrs
    requires k < |list|
  {
    list[..k] + list[k + 1..]
  }

  /** memcpy into a buffer. */
  method CopyTo(row: array<byte>, at: nat, b: seq<byte>) returns (next: nat)
    requires at + |b| <= row.Length
    modifies row
    ensures next == at + |b| && row[..next] == old(row[..at]) + b
  {
    var i := 0;
    while i < |b|
      invariant 0 <= i <= |b| && row[..at + i] == old(row[..at]) + b[..i]
    {
      row[at + i] := b[i];
      i := i + 1;
    }
    next := at + |b|;
    assert b[..|b|] == b;
  }

  lemma LastLength(flags: byte, list: Attrs)
    requires list != []
    ensures |Lens(flags, list, 0)| == Span(flags, |list|)
    ensures Lens(flags, list, 0)[Span(flags, |list|) - Width(flags)..] == LE(|Concat(list)|, Width(flags))
  {
    LensAt(flags, list, 0, |list| - 1);
    assert list[..|list|] == list;
  }

  /** Repeating the last cumulative length adds an empty value. */
  lemma EmptyValueAdded(flags: byte, list: Attrs)
    requires list != []
    ensures var s, w, row := Span(flags, |list|), Width(flags), Row(flags, list);
            w <= s < |row| && Row(flags, list + [[]]) == row[..1 + s] + row[1 + s - w..1 + s] + row[1 + s..]
  {
    LastLength(flags, list);
    LensSnoc(flags, list, 0, []);
    ConcatSnoc(list, []);
    var lens, all, last := Lens(flags, list, 0), Concat(list), LE(|Concat(list)|, Width(flags));
    Pieces([flags], lens, all, last);
  }

  lemma Pieces(f: seq<byte>, lens: seq<byte>, all: seq<byte>, last: seq<byte>)
    requires |last| <= |lens| && lens[|lens| - |last|..] == last
    ensures var row, s := f + lens + all, |f| + |lens|;
            row[..s] == f + lens && row[s - |last|..s] == last && row[s..] == all
    ensures f + (lens + last) + (all + []) == f + lens + last + all
  {
  }

  /** AddAttrToBlobRowNoData */
  method AddNoData(mem: seq<byte>, n: nat, ghost list: Attrs) returns (row: array<byte>)
    requires HoldsRow(mem, list) && n == |list| > 0
    ensures row[..] == RowOf(list + [[]])
  {
    ghost var flags := CalcFlags(|Concat(list)|);
    TotalIsLength(mem, flags, list);
    EmptyValueAdded(flags, list);
    ConcatSnoc(list, []);
    row := InsertField(mem, n, Row(flags, list));
  }

  /** Copy flag and lengths, the last length once more, and the values. */
  method InsertField(mem: seq<byte>, n: nat, ghost was: seq<byte>) returns (row: array<byte>)
    requires n > 0 && mem != [] && 1 + Span(mem[0], n) <= |was| && was <= mem && TotalLen(mem, n) == |was|
    ensures var s, w := Span(mem[0], n), Width(mem[0]); row[..] == was[..1 + s] + was[1 + s - w..1 + s] + was[1 + s..]
  {
    var total := TotalLen(mem, n);
    var w := Width(mem[0]);
    row := new byte[total + w];
    var lengths := Span(mem[0], n) + 1;
    assert mem[..lengths] == was[..lengths] && mem[lengths - w..lengths] == was[lengths - w..lengths] && mem[lengths..total] == was[lengths..];
    var p := CopyTo(row, 0, mem[..lengths]);
    p := CopyTo(row, p, mem[lengths - w..lengths]);
    p := CopyTo(row, p, mem[lengths..total]);
    assert row[..] == row[..p];
  }

  /** AddAttrToBlobRowFirst */
  method AddFirst(data: seq<byte>) returns (row: array<byte>)
    requires |data| <= MAX_TOTAL
    ensures row[..] == RowOf([data])
  {
    var flags := CalcFlags(|data|);
    var w := Width(flags);
    row := new byte[1 + w + |data|];
    var p := CopyTo(row, 0, [flags]);
    p := CopyTo(row, p, LE(|data|, w));
    p := CopyTo(row, p, data);
    assert row[..] == row[..p];
    assert Concat([data]) == data && Lens(flags, [data], 0) == LE(|data|, w) by {
      assert [data][1..] == [];
    }
  }

  /** The values that are kept among the first `i`; nothing is skipped if `skip` is not
      one of them. */
  ghost function Kept(list: Attrs, skip: nat, i: nat): Attrs
    requires i <= |list|
  {
    if i <= skip then list[..i] else list[..skip] + list[skip + 1..i]
  }

  lemma KeptNext(list: Attrs, skip: nat, i: nat)
    requires i < |list|
    ensures Kept(list, skip, i + 1) == if i == skip then Kept(list, skip, i) else Kept(list, skip, i) + [list[i]]
  {
  }

  /** The length of every value that is kept. */
  method ReadLengths(mem: seq<byte>, n: nat, skip: nat, ghost flags: byte, ghost list: Attrs) returns (lens: seq<nat>)
    requires Holds(mem, flags, list) && n == |list|
    ensures |lens| == |Kept(list, skip, n)| && forall j | 0 <= j < |lens| :: lens[j] == |Kept(list, skip, n)[j]|
  {
    lens := [];
    var i := 0;
    while i < n
      invariant 0 <= i <= n && |lens| == |Kept(list, skip, i)|
      invariant forall j | 0 <= j < |lens| :: lens[j] == |Kept(list, skip, i)[j]|
    {
      KeptNext(list, skip, i);
      if i != skip {
        var len := AttrLen(mem, i, n, flags, list);
        lens := lens + [len];
      }
      i := i + 1;
    }
  }

  /** GetBlobAttrLen: the difference of two neighbouring length fields. */
  method AttrLen(mem: seq<byte>, i: nat, n: nat, ghost flags: byte, ghost list: Attrs) returns (len: nat)
    requires Holds(mem, flags, list) && i < n == |list|
    ensures len == |list[i]|
  {
    LenReads(mem, flags, list, i);
    var len1 := ReadLen(mem, mem[0], i);
    var len0 := 0;
    ConcatPrefix(list, i);
    if i > 0 {
      LenReads(mem, flags, list, i - 1);
      len0 := ReadLen(mem, mem[0], i - 1);
    } else {
      assert list[..0] == [];
    }
    len := len1 - len0;
  }

  method Sum(lens: seq<nat>, ghost list: Attrs) returns (total: nat)
    requires |lens| == |list| && forall j | 0 <= j < |lens| :: lens[j] == |list[j]|
    ensures total == |Concat(list)|
  {
    total := 0;
    var i := 0;
    while i < |lens|
      invariant 0 <= i <= |lens| && total == |Concat(list[..i])|
    {
      ConcatPrefix(list, i);
      total := total + lens[i];
      i := i + 1;
    }
    assert list[..|list|] == list;
  }

  /** Cumulative lengths at the new width. */
  method WriteLengths(row: array<byte>, flags: byte, lens: seq<nat>, ghost list: Attrs) returns (p: nat)
    requires |lens| == |list| && forall j | 0 <= j < |lens| :: lens[j] == |list[j]|
    requires row.Length >= 1 + Span(flags, |lens|) && row[..1] == [flags]
    modifies row
    ensures p == 1 + Span(flags, |lens|) && row[..p] == [flags] + Lens(flags, list, 0)
  {
    var w := Width(flags);
    p := 1;
    var total := 0;
    var i := 0;
    while i < |lens|
      invariant 0 <= i <= |lens| && p == 1 + Span(flags, i) <= row.Length && total == |Concat(list[..i])|
      invariant row[..p] == [flags] + Lens(flags, list[..i], 0)
    {
      LensNext(flags, list, i, [flags]);
      total := total + lens[i];
      p := CopyTo(row, p, LE(total, w));
      i := i + 1;
    }
    assert list[..|list|] == list;
  }

  /** The values themselves, from the old row. */
  method WriteData(row: array<byte>, start: nat, mem: seq<byte>, n: nat, skip: nat, ghost flags: byte, ghost list: Attrs) returns (p: nat)
    requires Holds(mem, flags, list) && n == |list|
    requires start + |Concat(Kept(list, skip, n))| <= row.Length
    modifies row
    ensures p == start + |Concat(Kept(list, skip, n))| && row[..p] == old(row[..start]) + Concat(Kept(list, skip, n))
  {
    p := start;
    var i := 0;
    while i < n
      invariant 0 <= i <= n && p == start + |Concat(Kept(list, skip, i))| <= row.Length
      invariant row[..p] == old(row[..start]) + Concat(Kept(list, skip, i))
    {
      KeptBytes(list, skip, i, old(row[..start]));
      if i != skip {
        ReadsAttr(mem, flags, list, i);
        var value := GetBlobAttr(mem, i, n);
        p := CopyTo(row, p, value);
      }
      i := i + 1;
    }
  }

  lemma KeptBytes(list: Attrs, skip: nat, i: nat, before: seq<byte>)
    requires i < |list|
    ensures before + Concat(Kept(list, skip, i + 1)) == (before + Concat(Kept(list, skip, i))) + if i == skip then [] else list[i]
    ensures |Concat(Kept(list, skip, i + 1))| <= |Concat(Kept(list, skip, |list|))|
  {
    KeptNext(list, skip, i);
    KeptGrows(list, skip, i + 1);
    if i != skip {
      ConcatSnoc(Kept(list, skip, i), list[i]);
      Assoc(before, Concat(Kept(list, skip, i)), list[i]);
    }
  }

  lemma KeptGrows(list: Attrs, skip: nat, i: nat)
    requires i <= |list|
    ensures |Concat(Kept(list, skip, i))| <= |Concat(Kept(list, skip, |list|))|
    decreases |list| - i
  {
    if i < |list| {
      KeptNext(list, skip, i);
      if i != skip {
        ConcatSnoc(Kept(list, skip, i), list[i]);
      }
      KeptGrows(list, skip, i + 1);
    }
  }

  /** AddAttrToBlobRowWithData: the length fields may get wider. */
  method AddWithData(mem: seq<byte>, n: nat, data: seq<byte>, ghost list: Attrs) returns (row: array<byte>)
    requires HoldsRow(mem, list) && n == |list| > 0 && |Concat(list)| + |data| <= MAX_TOTAL
    ensures row[..] == RowOf(list + [data])
  {
    ghost var flags0 := CalcFlags(|Concat(list)|);
    ghost var all := list + [data];
    assert Kept(list, n, n) == list;
    var lens := ReadLengths(mem, n, n, flags0, list);
    lens := lens + [|data|];
    var total := Sum(lens, all);
    ConcatSnoc(list, data);
    var flags := CalcFlags(total);
    var size := 1 + Span(flags, n + 1) + total;
    row := new byte[size];
    row[0] := flags;
    assert row[..1] == [flags];
    var p := WriteLengths(row, flags, lens, all);
    p := WriteData(row, p, mem, n, n, flags0, list);
    p := CopyTo(row, p, data);
    assert row[..] == row[..p];
  }

  lemma NarrowerFits(small: nat, large: nat, n: nat)
    requires small <= large
    ensures Span(CalcFlags(small), n) <= Span(CalcFlags(large), n)
  {
  }

  /** sphRemoveAttrFromBlobRow: the buffer is sized with the old width, so the new row fits
      and may be followed by unused bytes.  Removing the only attribute leaves no row. */
  method Remove(mem: seq<byte>, n: nat, k: nat, ghost list: Attrs) returns (row: array<byte>)
    requires HoldsRow(mem, list) && k < n == |list|
    ensures n == 1 ==> row.Length == 0
    ensures n > 1 ==> HoldsRow(row[..], Without(list, k))
    ensures n > 1 ==> row.Length == 1 + Span(CalcFlags(|Concat(list)|), n - 1) + |Concat(Without(list, k))|
  {
    if n <= 1 {
      row := new byte[0];
      return;
    }
    ghost var flags0 := CalcFlags(|Concat(list)|);
    ghost var rest := Without(list, k);
    assert Kept(list, k, n) == rest;
    ReadsAttr(mem, flags0, list, 0);
    var lens := ReadLengths(mem, n, k, flags0, list);
    var total := Sum(lens, rest);
    WithoutShorter(list, k);
    var size := 1 + Span(mem[0], n - 1) + total;
    row := new byte[size];
    var flags := CalcFlags(total);
    NarrowerFits(total, |Concat(list)|, n - 1);
    row[0] := flags;
    assert row[..1] == [flags];
    var p := WriteLengths(row, flags, lens, rest);
    p := WriteData(row, p, mem, n, k, flags0, list);
    assert row[..p] == RowOf(rest);
    assert RowOf(rest) <= row[..];
  }

  lemma WithoutShorter(list: Attrs, k: nat)
    requires k < |list|
    ensures |Concat(Without(list, k))| <= |Concat(list)|
  {
    assert list == list[..k] + ([list[k]] + list[k + 1..]);
    ConcatSplit(list[..k], [list[k]] + list[k + 1..]);
    ConcatSplit([list[k]], list[k + 1..]);
    ConcatSplit(list[..k], list[k + 1..]);
  }

  // ---------------------------------------------------------------------
  // What a reader sees
  // ---------------------------------------------------------------------

  /** After adding, every old attribute reads as before and the new one reads as given. */
  lemma AddKeepsOthers(before: seq<byte>, after: seq<byte>, list: Attrs, data: seq<byte>, i: nat)
    requires HoldsRow(before, list) && HoldsRow(after, list + [data]) && i <= |list|
    ensures after != [] && 1 + Span(after[0], |list| + 1) <= |after|
    ensures GetBlobAttr(after, |list|, |list| + 1) == data
    ensures i < |list| ==>
              before != [] && 1 + Span(before[0], |list|) <= |before| &&
              GetBlobAttr(after, i, |list| + 1) == GetBlobAttr(before, i, |list|)
  {
    var all := list + [data];
    ReadsAttr(after, CalcFlags(|Concat(all)|), all, |list|);
    if i < |list| {
      ReadsAttr(after, CalcFlags(|Concat(all)|), all, i);
      ReadsAttr(before, CalcFlags(|Concat(list)|), list, i);
    }
  }

  lemma WithoutAt(list: Attrs, k: nat, i: nat, j: nat)
    requires k < |list| && i < |list| && i != k && j == if i < k then i else i - 1
    ensures |Without(list, k)| == |list| - 1 && Without(list, k)[j] == list[i]
  {
  }

  /** After removing number `k`, attributes in front of it keep their number and those
      behind it move down by one. */
  lemma RemoveKeepsOthers(before: seq<byte>, after: seq<byte>, list: Attrs, rest: Attrs, k: nat, i: nat, j: nat)
    requires k < |list| && rest == Without(list, k) && HoldsRow(before, list) && HoldsRow(after, rest)
    requires i < |list| && i != k && j == if i < k then i else i - 1
    ensures |rest| == |list| - 1
    ensures after != [] && 1 + Span(after[0], |rest|) <= |after|
    ensures before != [] && 1 + Span(before[0], |list|) <= |before|
    ensures GetBlobAttr(after, j, |rest|) == GetBlobAttr(before, i, |list|)
  {
    WithoutAt(list, k, i, j);
    ReadsHeld(after, rest, j, |rest|);
    ReadsHeld(before, list, i, |list|);
  }

  lemma ReadsHeld(mem: seq<byte>, list: Attrs, i: nat, n: nat)
    requires HoldsRow(mem, list) && i < |list| == n
    ensures mem != [] && 1 + Span(mem[0], n) <= |mem| && GetBlobAttr(mem, i, n) == list[i]
  {
    ReadsAttr(mem, CalcFlags(|Concat(list)|), list, i);
  }

  /** Adding an attribute and removing it again: every attribute reads as at the start. */
  method AddThenRemove(mem: seq<byte>, n: nat, data: seq<byte>, ghost list: Attrs) returns (row: array<byte>)
    requires HoldsRow(mem, list) && n == |list| > 0 && |Concat(list)| + |data| <= MAX_TOTAL
    ensures HoldsRow(row[..], list)
    ensures forall i | 0 <= i < n :: Decoded(row[..], i, n) == Decoded(mem, i, n)
  {
    var wide := AddWithData(mem, n, data, list);
    row := RemoveAdded(wide[..], mem, n, data, list);
  }

  /** The same for an attribute that was added without a value. */
  method AddNoDataThenRemove(mem: seq<byte>, n: nat, ghost list: Attrs) returns (row: array<byte>)
    requires HoldsRow(mem, list) && n == |list| > 0
    ensures HoldsRow(row[..], list)
    ensures forall i | 0 <= i < n :: Decoded(row[..], i, n) == Decoded(mem, i, n)
  {
    var wide := AddNoData(mem, n, list);
    row := RemoveAdded(wide[..], mem, n, [], list);
  }

  method RemoveAdded(wide: seq<byte>, ghost mem: seq<byte>, n: nat, ghost data: seq<byte>, ghost list: Attrs) returns (row: array<byte>)
    requires HoldsRow(mem, list) && n == |list| > 0 && |Concat(list)| + |data| <= MAX_TOTAL
    requires wide == RowOf(list + [data])
    ensures HoldsRow(row[..], list)
    ensures forall i | 0 <= i < n :: Decoded(row[..], i, n) == Decoded(mem, i, n)
  {
    ConcatSnoc(list, data);
    WrittenHolds(list + [data], []);
    assert RowOf(list + [data]) + [] == wide;
    row := Remove(wide, n + 1, n, list + [data]);
    assert Without(list + [data], n) == list;
    forall i | 0 <= i < n ensures Decoded(row[..], i, n) == Decoded(mem, i, n) {
      ReadsHeld(row[..], list, i, n);
      ReadsHeld(mem, list, i, n);
    }
  }

  /** A reader's result, for memory that is long enough. */
  ghost function Decoded(mem: seq<byte>, i: nat, n: nat): seq<byte>
    requires i < n
  {
    if mem != [] && 1 + Span(mem[0], n) <= |mem| then GetBlobAttr(mem, i, n) else []
  }
}
