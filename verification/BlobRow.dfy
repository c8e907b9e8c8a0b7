/** Rows of variable-length attributes: a flag byte that gives the width of the length
    fields, the cumulative lengths, and then all values one after the other. */
module BlobRow {
  import opened Bytes

  type Attrs = seq<seq<byte>>

  const LEN_BYTE: byte := 0
  const LEN_WORD: byte := 1
  const LEN_DWORD: byte := 2

  /** The largest row the `int` results of the readers can describe. */
  const MAX_TOTAL: nat := 0x7FFF_FFFF

  function CalcFlags(total: nat): (f: byte)
    ensures f <= LEN_DWORD && (total <= MAX_TOTAL ==> total < Limit(f))
  {
    if total < 0xFF then LEN_BYTE else if total < 0xFFFF then LEN_WORD else LEN_DWORD
  }

  function Width(flags: byte): nat
  {
    if flags == LEN_BYTE then 1 else if flags == LEN_WORD then 2 else 4
  }

  /** The bytes of `n` length fields. */
  function Span(flags: byte, n: nat): nat
  {
    if flags == LEN_BYTE then n else if flags == LEN_WORD then 2 * n else 4 * n
  }

  /** What a length field can hold. */
  function Limit(flags: byte): nat
  {
    if flags == LEN_BYTE then 0x100 else if flags == LEN_WORD then 0x1_0000 else 0x1_0000_0000
  }

  /** The narrowest length field in which the total length is not the all-ones value. */
  lemma NarrowestFlags(total: nat)
    requires total <= MAX_TOTAL
    ensures total < Limit(CalcFlags(total)) - 1
    ensures forall f: byte | f < CalcFlags(total) :: total >= Limit(f) - 1
    ensures Width(CalcFlags(total)) == if total < 0xFF then 1 else if total < 0xFFFF then 2 else 4
  {
  }

  lemma FieldReads(flags: byte, n: nat)
    requires n < Limit(flags)
    ensures FromLE(LE(n, Width(flags))) == n
  {
    assert Pow256(1) == 256 && Pow256(2) == 0x1_0000 && Pow256(3) == 0x100_0000 && Pow256(4) == 0x1_0000_0000;
    FromLEofLE(n, Width(flags));
  }

  function Concat(attrs: Attrs): seq<byte>
  {
    if attrs == [] then [] else attrs[0] + Concat(attrs[1..])
  }

  lemma {:induction false} ConcatSnoc(attrs: Attrs, a: seq<byte>)
    ensures Concat(attrs + [a]) == Concat(attrs) + a
  {
    if attrs == [] {
      assert [a][1..] == [] && attrs + [a] == [a];
    } else {
      assert (attrs + [a])[1..] == attrs[1..] + [a];
      ConcatSnoc(attrs[1..], a);
    }
  }

  lemma {:induction false} ConcatSplit(a: Attrs, b: Attrs)
    ensures Concat(a + b) == Concat(a) + Concat(b)
  {
    if a == [] {
      assert a + b == b;
    } else {
      assert (a + b)[1..] == a[1..] + b;
      ConcatSplit(a[1..], b);
    }
  }

  /** Cumulative lengths, each truncated to the width. */
  function Lens(flags: byte, attrs: Attrs, acc: nat): seq<byte>
    decreases |attrs|
  {
    if attrs == [] then [] else LE(acc + |attrs[0]|, Width(flags)) + Lens(flags, attrs[1..], acc + |attrs[0]|)
  }

  lemma {:induction false} LensSnoc(flags: byte, attrs: Attrs, acc: nat, a: seq<byte>)
    ensures Lens(flags, attrs + [a], acc) == Lens(flags, attrs, acc) + LE(acc + |Concat(attrs)| + |a|, Width(flags))
    decreases |attrs|
  {
    if attrs == [] {
      assert [a][1..] == [] && attrs + [a] == [a];
    } else {
      assert (attrs + [a])[1..] == attrs[1..] + [a];
      LensSnoc(flags, attrs[1..], acc + |attrs[0]|, a);
    }
  }

  lemma {:induction false} LensLength(flags: byte, attrs: Attrs, acc: nat)
    ensures |Lens(flags, attrs, acc)| == Span(flags, |attrs|)
    decreases |attrs|
  {
    if attrs != [] {
      LensLength(flags, attrs[1..], acc + |attrs[0]|);
    }
  }

  lemma SliceShift(a: seq<byte>, b: seq<byte>, from: nat, to: nat)
    requires from <= to <= |b|
    ensures (a + b)[|a| + from..|a| + to] == b[from..to]
  {
  }

  lemma FirstValue(attrs: Attrs)
    requires attrs != []
    ensures Concat(attrs[..1]) == attrs[0]
  {
    assert attrs[..1] == [attrs[0]] && attrs[..1][1..] == [];
    assert Concat([]) == [] && attrs[0] + [] == attrs[0];
  }

  lemma {:induction false} LensAt(flags: byte, attrs: Attrs, acc: nat, i: nat)
    requires i < |attrs|
    ensures |Lens(flags, attrs, acc)| == Span(flags, |attrs|)
    ensures Lens(flags, attrs, acc)[Span(flags, i)..Span(flags, i + 1)] == LE(acc + |Concat(attrs[..i + 1])|, Width(flags))
    decreases |attrs|
  {
    LensLength(flags, attrs, acc);
    var rest := Lens(flags, attrs[1..], acc + |attrs[0]|);
    if i == 0 {
      FirstValue(attrs);
    } else {
      LensAt(flags, attrs[1..], acc + |attrs[0]|, i - 1);
      assert attrs[..i + 1][1..] == attrs[1..][..i];
      SliceShift(LE(acc + |attrs[0]|, Width(flags)), rest, Span(flags, i - 1), Span(flags, i));
    }
  }

  /** One more value: its cumulative length is written. */
  lemma LensNext(flags: byte, attrs: Attrs, i: nat, before: seq<byte>)
    requires i < |attrs|
    ensures |Concat(attrs[..i + 1])| == |Concat(attrs[..i])| + |attrs[i]|
    ensures before + Lens(flags, attrs[..i + 1], 0) ==
            (before + Lens(flags, attrs[..i], 0)) + LE(|Concat(attrs[..i + 1])|, Width(flags))
  {
    assert attrs[..i + 1] == attrs[..i] + [attrs[i]];
    ConcatSnoc(attrs[..i], attrs[i]);
    LensSnoc(flags, attrs[..i], 0, attrs[i]);
  }

  /** A row written with the given flag. */
  function Row(flags: byte, attrs: Attrs): seq<byte>
  {
    [flags] + Lens(flags, attrs, 0) + Concat(attrs)
  }

  /** The row the builders write. */
  function RowOf(attrs: Attrs): seq<byte>
  {
    Row(CalcFlags(|Concat(attrs)|), attrs)
  }

  // ---------------------------------------------------------------------
  // Readers
  // ---------------------------------------------------------------------

  /** A length field. */
  function ReadLen(row: seq<byte>, flags: byte, i: nat): nat
    requires 1 + Span(flags, i + 1) <= |row|
  {
    FromLE(row[1 + Span(flags, i)..1 + Span(flags, i + 1)])
  }

  /** Memory that starts with a row whose widths are large enough; anything may follow. */
  ghost predicate Holds(mem: seq<byte>, flags: byte, attrs: Attrs)
  {
    && flags <= LEN_DWORD && |Concat(attrs)| <= MAX_TOTAL && |Concat(attrs)| < Limit(flags)
    && Row(flags, attrs) <= mem
  }

  lemma {:induction false} ConcatPrefix(attrs: Attrs, i: nat)
    requires i < |attrs|
    ensures Concat(attrs[..i]) + attrs[i] == Concat(attrs[..i + 1])
    ensures Concat(attrs[..i + 1]) <= Concat(attrs)
  {
    assert attrs[..i + 1] == attrs[..i] + [attrs[i]];
    ConcatSnoc(attrs[..i], attrs[i]);
    assert attrs == attrs[..i + 1] + attrs[i + 1..];
    ConcatSplit(attrs[..i + 1], attrs[i + 1..]);
  }

  lemma SpanGrows(flags: byte, i: nat, n: nat)
    requires i < n
    ensures Span(flags, i) <= Span(flags, i + 1) <= Span(flags, n)
  {
  }

  /** A piece of the middle part of a row. */
  lemma Inside(flags: byte, lens: seq<byte>, values: seq<byte>, mem: seq<byte>, from: nat, to: nat)
    requires [flags] + lens + values <= mem && from <= to <= |lens|
    ensures 1 + |lens| <= |mem| && mem[0] == flags && mem[1 + from..1 + to] == lens[from..to]
  {
    var row := [flags] + lens + values;
    assert mem[..|row|] == row;
    assert mem[1 + from..1 + to] == row[1 + from..1 + to];
  }

  /** Length field `i` is the number of value bytes up to and including value `i`. */
  lemma LenReads(mem: seq<byte>, flags: byte, attrs: Attrs, i: nat)
    requires Holds(mem, flags, attrs) && i < |attrs|
    ensures 1 + Span(flags, |attrs|) <= |mem| && mem[0] == flags
    ensures ReadLen(mem, flags, i) == |Concat(attrs[..i + 1])|
  {
    LensAt(flags, attrs, 0, i);
    SpanGrows(flags, i, |attrs|);
    Inside(flags, Lens(flags, attrs, 0), Concat(attrs), mem, Span(flags, i), Span(flags, i + 1));
    ConcatPrefix(attrs, i);
    FieldReads(flags, |Concat(attrs[..i + 1])|);
  }

  /** GetBlobAttr: where value `id` starts and how long it is. */
  function GetBlobAttr(row: seq<byte>, id: nat, n: nat): seq<byte>
    requires row != [] && id < n && 1 + Span(row[0], n) <= |row|
  {
    var len1 := ReadLen(row, row[0], id);
    var len0 := if id > 0 then ReadLen(row, row[0], id - 1) else 0;
    var data := row[1 + Span(row[0], n)..];
    if len0 <= len1 <= |data| then data[len0..len1] else []
  }

  lemma Behind(a: seq<byte>, b: seq<byte>, c: seq<byte>, mem: seq<byte>)
    requires a + b + c <= mem
    ensures c <= mem[|a| + |b|..]
  {
    var tail := mem[|a + b + c|..];
    assert mem == a + b + c + tail;
    assert mem[|a| + |b|..] == c + tail;
  }

  /** A value among all values. */
  lemma ValueAt(attrs: Attrs, i: nat, data: seq<byte>)
    requires i < |attrs| && Concat(attrs) <= data
    ensures |Concat(attrs[..i])| <= |Concat(attrs[..i + 1])| <= |data|
    ensures data[|Concat(attrs[..i])|..|Concat(attrs[..i + 1])|] == attrs[i]
  {
    ConcatPrefix(attrs, i);
    var len0, len1 := |Concat(attrs[..i])|, |Concat(attrs[..i + 1])|;
    assert data[..len1] == Concat(attrs[..i + 1]);
    assert data[len0..len1] == data[..len1][len0..];
  }

  /** Reading gives back what was written, at every width, whatever follows the row. */
  lemma ReadsAttr(mem: seq<byte>, flags: byte, attrs: Attrs, i: nat)
    requires Holds(mem, flags, attrs) && i < |attrs|
    ensures 1 + Span(flags, |attrs|) <= |mem| && mem[0] == flags
    ensures GetBlobAttr(mem, i, |attrs|) == attrs[i]
  {
    LenReads(mem, flags, attrs, i);
    if i > 0 {
      LenReads(mem, flags, attrs, i - 1);
    } else {
      assert attrs[..0] == [];
    }
    LensLength(flags, attrs, 0);
    Behind([flags], Lens(flags, attrs, 0), Concat(attrs), mem);
    ValueAt(attrs, i, mem[1 + Span(flags, |attrs|)..]);
  }

  /** sphGetBlobTotalLen */
  function TotalLen(row: seq<byte>, n: nat): nat
    requires row != [] && n > 0 && 1 + Span(row[0], n) <= |row|
  {
    ReadLen(row, row[0], n - 1) + Span(row[0], n) + 1
  }

  /** The computed length is the length of the row. */
  lemma TotalIsLength(mem: seq<byte>, flags: byte, attrs: Attrs)
    requires Holds(mem, flags, attrs) && attrs != []
    ensures mem != [] && mem[0] == flags && 1 + Span(flags, |attrs|) <= |mem|
    ensures TotalLen(mem, |attrs|) == |Row(flags, attrs)|
  {
    LenReads(mem, flags, attrs, |attrs| - 1);
    LensLength(flags, attrs, 0);
    assert attrs[..|attrs|] == attrs;
  }

  /** Two lists stored at the same place with the same number of attributes are equal. */
  lemma RowDetermines(mem: seq<byte>, f: byte, a: Attrs, g: byte, b: Attrs)
    requires Holds(mem, f, a) && Holds(mem, g, b) && |a| == |b|
    ensures a == b
  {
    forall i | 0 <= i < |a| ensures a[i] == b[i] {
      ReadsAttr(mem, f, a, i);
      ReadsAttr(mem, g, b, i);
    }
  }

  // ---------------------------------------------------------------------
  // Builders
  // ---------------------------------------------------------------------

  lemma OneByte(n: nat)
    ensures LE(n, 1) == [n % 256]
  {
    assert LE(n / 256, 0) == [];
  }

  /** A builder collects the packed values of one row and appends the row to its output:
      the output file or a pool in memory. */
  class BlobRowBuilder {
    var attrs: Attrs
    var output: seq<byte>

    constructor (output: seq<byte>)
      ensures attrs == [] && this.output == output
    {
      attrs := [];
      this.output := output;
    }

    /** The sum of the lengths. */
    method TotalLength() returns (total: nat)
      ensures total == |Concat(attrs)|
    {
      total := 0;
      var i := 0;
      while i < |attrs|
        invariant 0 <= i <= |attrs| && total == |Concat(attrs[..i])|
      {
        total := total + |attrs[i]|;
        ConcatPrefix(attrs, i);
        i := i + 1;
      }
      assert attrs[..|attrs|] == attrs;
    }

    /** Flush of the file builder: bytes, words and dwords through the writer. */
    method FlushFile() returns (offset: nat, length: nat)
      requires |Concat(attrs)| <= MAX_TOTAL
      modifies this`output
      ensures offset == |old(output)| && output == old(output) + RowOf(attrs) && length == |RowOf(attrs)|
    {
      offset := |output|;
      var total := TotalLength();
      var flags := CalcFlags(total);
      output := output + [flags];
      PutLengths(flags);
      PutData();
      length := |output| - offset;
    }

    /** Flush of the memory builder: the same, into a pool that is grown in place. */
    method FlushMem() returns (offset: nat, length: nat)
      requires |Concat(attrs)| <= MAX_TOTAL
      modifies this`output
      ensures offset == |old(output)| && output == old(output) + RowOf(attrs) && length == |RowOf(attrs)|
    {
      offset := |output|;
      var total := TotalLength();
      var flags := CalcFlags(total);
      output := output + [flags];
      PoolLengths(flags);
      PutData();
      length := |output| - offset;
    }

    /** Single bytes are added, words and dwords written into space added before. */
    method PoolLengths(flags: byte)
      modifies this`output
      ensures output == old(output) + Lens(flags, attrs, 0)
    {
      var total := 0;
      var i := 0;
      while i < |attrs|
        invariant 0 <= i <= |attrs| && total == |Concat(attrs[..i])|
        invariant output == old(output) + Lens(flags, attrs[..i], 0)
      {
        LensNext(flags, attrs, i, old(output));
        total := total + |attrs[i]|;
        ghost var before := output;
        if flags == LEN_BYTE {
          output := output + [total % 256];
          OneByte(total);
        } else {
          var at := |output|;
          output := output + seq(Width(flags), _ => 0);
          output := output[..at] + LE(total, Width(flags));
        }
        assert output == before + LE(total, Width(flags));
        i := i + 1;
      }
      assert attrs[..|attrs|] == attrs;
    }

    method PutLengths(flags: byte)
      modifies this`output
      ensures output == old(output) + Lens(flags, attrs, 0)
    {
      var total := 0;
      var i := 0;
      while i < |attrs|
        invariant 0 <= i <= |attrs| && total == |Concat(attrs[..i])|
        invariant output == old(output) + Lens(flags, attrs[..i], 0)
      {
        LensNext(flags, attrs, i, old(output));
        total := total + |attrs[i]|;
        output := output + LE(total, Width(flags));
        i := i + 1;
      }
      assert attrs[..|attrs|] == attrs;
    }

    method PutData()
      modifies this`output
      ensures output == old(output) + Concat(attrs)
    {
      var i := 0;
      while i < |attrs|
        invariant 0 <= i <= |attrs| && output == old(output) + Concat(attrs[..i])
      {
        ConcatPrefix(attrs, i);
        output := output + attrs[i];
        i := i + 1;
      }
      assert attrs[..|attrs|] == attrs;
    }

    /** Copy a row from another pool: the copy decodes to the same list, rows already in
        this pool stay where they are. */
    method CopyRow(src: seq<byte>, from: nat, n: nat, ghost flags: byte, ghost list: Attrs) returns (offset: nat)
      requires from <= |src| && Holds(src[from..], flags, list) && n == |list| > 0
      modifies this`output
      ensures offset == |old(output)| && output == old(output) + Row(flags, list)
      ensures Holds(output[offset..], flags, list)
    {
      TotalIsLength(src[from..], flags, list);
      var len := TotalLen(src[from..], n);
      offset := |output|;
      output := output + src[from..][..len];
      assert output[offset..] == Row(flags, list);
    }
  }

  /** What a builder wrote can be read. */
  lemma WrittenHolds(attrs: Attrs, tail: seq<byte>)
    requires |Concat(attrs)| <= MAX_TOTAL
    ensures Holds(RowOf(attrs) + tail, CalcFlags(|Concat(attrs)|), attrs)
  {
  }
}
