/** The packed form of GROUP_CONCAT values: plain text as it is, tagged texts behind a zero
    byte and a count.  Every routine is shown to produce the packed form of the value that
    `GroupConcat` says it should. */
module GroupConcatBytes {
  import opened Bytes
  import opened GroupConcat

  type int32 = n: int | INT_MIN <= n <= INT_MAX

  function I32(n: int32): (b: seq<byte>)
    ensures |b| == 4
  {
    LE(if n < 0 then n + 0x1_0000_0000 else n, 4)
  }

  function FromI32(b: seq<byte>): int32
    requires |b| == 4
  {
    FourBytes(b);
    var n := FromLE(b);
    if n >= 0x8000_0000 then n - 0x1_0000_0000 else n
  }

  lemma FourBytes(b: seq<byte>)
    requires |b| == 4
    ensures 0 <= FromLE(b) < 0x1_0000_0000
  {
    assert FromLE(b[1..]) == b[1] + 256 * FromLE(b[1..][1..]);
    assert b[1..][1..] == b[2..] && b[2..][1..] == b[3..];
    assert FromLE(b[3..]) == b[3];
  }

  lemma ReadsBack(n: int32, rest: seq<byte>)
    ensures (I32(n) + rest)[..4] == I32(n) && (I32(n) + rest)[4..] == rest && FromI32(I32(n)) == n
  {
    assert Pow256(4) == 0x1_0000_0000 by {
      assert Pow256(1) == 256 && Pow256(2) == 0x1_0000 && Pow256(3) == 0x100_0000;
    }
    FromLEofLE(if n < 0 then n + 0x1_0000_0000 else n, 4);
  }

  /** INT_MIN marks an exhausted block, so it cannot be a tag. */
  predicate EntryFits(e: Entry)
  {
    INT_MIN < e.tag <= INT_MAX && |e.text| <= INT_MAX
  }

  predicate AllFit(es: seq<Entry>)
  {
    forall i | 0 <= i < |es| :: EntryFits(es[i])
  }

  predicate EntriesFit(es: seq<Entry>)
  {
    |es| <= INT_MAX && AllFit(es)
  }

  function PackEntry(e: Entry): seq<byte>
    requires EntryFits(e)
  {
    I32(e.tag) + (I32(|e.text|) + e.text)
  }

  function PackEntries(es: seq<Entry>): seq<byte>
    requires AllFit(es)
  {
    if es == [] then [] else PackEntry(es[0]) + PackEntries(es[1..])
  }

  function PackBlock(count: int32, es: seq<Entry>): seq<byte>
    requires AllFit(es)
  {
    [0] + (I32(count) + PackEntries(es))
  }

  lemma {:induction false} PackSnoc(es: seq<Entry>, e: Entry)
    requires AllFit(es) && EntryFits(e)
    ensures PackEntries(es + [e]) == PackEntries(es) + PackEntry(e)
  {
    if es == [] {
      assert [e][1..] == [] && es + [e] == [e];
    } else {
      assert (es + [e])[1..] == es[1..] + [e];
      PackSnoc(es[1..], e);
    }
  }

  /** A plain text is told from a block by its first byte, so it must not start with zero. */
  predicate Packable(v: Value)
  {
    match v
    case None => true
    case Plain(t) => t != [] && t[0] != 0
    case Tagged(es) => EntriesFit(es)
  }

  function Pack(v: Value): seq<byte>
    requires Packable(v)
  {
    match v
    case None => []
    case Plain(t) => t
    case Tagged(es) => PackBlock(|es|, es)
  }

  lemma PackedKind(v: Value)
    requires Packable(v)
    ensures v.None? <==> Pack(v) == []
    ensures v.Plain? <==> Pack(v) != [] && Pack(v)[0] != 0
  {
  }

  /** Read the number of entries of a block. */
  method ReadCount(b: seq<byte>, ghost es: seq<Entry>) returns (count: int, rest: seq<byte>)
    requires EntriesFit(es) && b == PackBlock(|es|, es)
    ensures count == |es| && rest == PackEntries(es)
  {
    assert b[1..] == I32(|es|) + PackEntries(es);
    ReadsBack(|es|, PackEntries(es));
    count := FromI32(b[1..][..4]);
    rest := b[1..][4..];
  }

  /** Read one entry. */
  method ReadEntry(b: seq<byte>, ghost es: seq<Entry>) returns (tag: int, text: seq<byte>, rest: seq<byte>)
    requires es != [] && EntriesFit(es) && b == PackEntries(es)
    ensures tag == es[0].tag && text == es[0].text && rest == PackEntries(es[1..])
  {
    EntryReadsBack(es[0], PackEntries(es[1..]));
    tag := FromI32(b[..4]);
    var b1 := b[4..];
    var len := FromI32(b1[..4]);
    var b2 := b1[4..];
    text := b2[..len];
    rest := b2[len..];
  }

  lemma EntryReadsBack(e: Entry, rest: seq<byte>)
    requires EntryFits(e)
    ensures var b := PackEntry(e) + rest;
            |b| >= 8 + |e.text| && FromI32(b[..4]) == e.tag && FromI32(b[4..][..4]) == |e.text| &&
            b[4..][4..][..|e.text|] == e.text && b[4..][4..][|e.text|..] == rest
  {
    var b, tail := PackEntry(e) + rest, I32(|e.text|) + (e.text + rest);
    assert b == I32(e.tag) + tail;
    ReadsBack(e.tag, tail);
    ReadsBack(|e.text|, e.text + rest);
  }

  /** Packing loses nothing. */
  lemma {:induction false} PackInjective(a: seq<Entry>, b: seq<Entry>)
    requires EntriesFit(a) && EntriesFit(b) && |a| == |b| && PackEntries(a) == PackEntries(b)
    ensures a == b
  {
    if a != [] {
      EntryReadsBack(a[0], PackEntries(a[1..]));
      EntryReadsBack(b[0], PackEntries(b[1..]));
      PackInjective(a[1..], b[1..]);
      assert a == [a[0]] + a[1..] && b == [b[0]] + b[1..];
    }
  }

  lemma PatchCount(old0: int32, count: int32, es: seq<Entry>)
    requires AllFit(es)
    ensures var b := PackBlock(old0, es); b[..1] + I32(count) + b[5..] == PackBlock(count, es)
  {
  }

  method WriteCount(b: seq<byte>, count: int32, ghost old0: int32, ghost es: seq<Entry>) returns (r: seq<byte>)
    requires AllFit(es) && b == PackBlock(old0, es)
    ensures r == PackBlock(count, es)
  {
    PatchCount(old0, count, es);
    assert |b| >= 5;
    r := b[..1] + I32(count) + b[5..];
  }

  lemma BlockSnoc(count: int32, es: seq<Entry>, e: Entry)
    requires AllFit(es) && EntryFits(e)
    ensures PackBlock(count, es + [e]) == PackBlock(count, es) + PackEntry(e)
  {
    PackSnoc(es, e);
    var p, q := PackEntries(es), PackEntry(e);
    assert [0] + (I32(count) + (p + q)) == [0] + (I32(count) + p) + q;
  }

  /** Append tag, length and text to a block. */
  method AppendEntry(b: seq<byte>, tag: int32, text: seq<byte>, ghost count: int32, ghost es: seq<Entry>) returns (r: seq<byte>)
    requires AllFit(es) && EntryFits(Entry(tag, text)) && b == PackBlock(count, es)
    ensures r == PackBlock(count, es + [Entry(tag, text)])
  {
    BlockSnoc(count, es, Entry(tag, text));
    r := b + I32(tag);
    r := r + I32(|text|);
    r := r + text;
    assert r == b + PackEntry(Entry(tag, text));
  }

  class AggrConcat {
    const separator: seq<byte>

    constructor (separator: seq<byte>)
      ensures this.separator == separator
    {
      this.separator := separator;
    }

    method AppendStringToString(dst: seq<byte>, dstTag: int32, src: seq<byte>, srcTag: int32) returns (r: seq<byte>)
      requires Packable(Plain(dst)) && Packable(Plain(src)) && Packable(Updated(separator, Plain(dst), dstTag, Plain(src), srcTag))
      ensures r == Pack(Updated(separator, Plain(dst), dstTag, Plain(src), srcTag))
    {
      if dstTag == srcTag {
        r := dst + separator;
        r := r + src;
      } else {
        r := [0] + I32(2);
        assert r == PackBlock(2, []);
        ghost var a, b := Entry(dstTag, dst), Entry(srcTag, src);
        assert EntryFits([a, b][0]) && EntryFits([a, b][1]);
        r := AppendEntry(r, dstTag, dst, 2, []);
        assert [] + [a] == [a] && [a] + [b] == [a, b];
        r := AppendEntry(r, srcTag, src, 2, [a]);
      }
    }

    /** The part of the loop body that looks for the place of the text. */
    method EmitHead(text: seq<byte>, tag: int32, entryTag: int32, entryText: seq<byte>, b: seq<byte>, textFirst: bool,
                    ghost count: int32, ghost done: seq<Entry>) returns (r: seq<byte>)
      requires AllFit(done) && b == PackBlock(count, done)
      requires AllFit(HeadEntries(separator, tag, text, Entry(entryTag, entryText), textFirst))
      ensures AllFit(done + HeadEntries(separator, tag, text, Entry(entryTag, entryText), textFirst))
      ensures r == PackBlock(count, done + HeadEntries(separator, tag, text, Entry(entryTag, entryText), textFirst))
    {
      ghost var e := Entry(entryTag, entryText);
      ghost var head := HeadEntries(separator, tag, text, e, textFirst);
      assert EntryFits(head[0]);
      if tag > entryTag {
        assert EntryFits(head[1]);
        r := AppendEntry(b, tag, text, count, done);
        r := AppendEntry(r, entryTag, entryText, count, done + [Entry(tag, text)]);
        assert done + head == done + [Entry(tag, text)] + [e];
      } else if tag == entryTag {
        var joined;
        if textFirst {
          joined := text + separator + entryText;
        } else {
          joined := entryText + separator + text;
        }
        r := AppendEntry(b, tag, joined, count, done);
      } else {
        r := AppendEntry(b, entryTag, entryText, count, done);
      }
    }

    /** One turn of the loop of AppendBlobToString. */
    method InsertStep(text: seq<byte>, tag: int32, textFirst: bool, b: seq<byte>, block: seq<byte>, copied: bool,
                      ghost count: int32, ghost done: seq<Entry>, ghost left: seq<Entry>, ghost whole: seq<Entry>)
      returns (r: seq<byte>, rest: seq<byte>, copied': bool, added: nat, ghost done': seq<Entry>)
      requires left != [] && EntriesFit(left) && block == PackEntries(left) && AllFit(done) && b == PackBlock(count, done)
      requires AllFit(whole) && whole == done + if copied then left else Insert(separator, tag, text, left, textFirst)
      ensures rest == PackEntries(left[1..]) && AllFit(done') && r == PackBlock(count, done')
      ensures whole == done' + if copied' then left[1..] else Insert(separator, tag, text, left[1..], textFirst)
      ensures |done'| == |done| + 1 + added
    {
      var entryTag, entryText;
      entryTag, entryText, rest := ReadEntry(block, left);
      InsertHead(separator, tag, text, left, textFirst, done);
      assert EntryFits(left[0]);
      if copied {
        r := AppendEntry(b, entryTag, entryText, count, done);
        return r, rest, true, 0, done + [left[0]];
      }
      ghost var head := HeadEntries(separator, tag, text, left[0], textFirst);
      assert forall k | 0 <= k < |head| :: whole[|done| + k] == head[k];
      r := EmitHead(text, tag, entryTag, entryText, b, textFirst, count, done);
      return r, rest, tag >= entryTag, if tag > entryTag then 1 else 0, done + head;
    }

    /** A text into a block, behind or in front of the block's text for the same tag. */
    method AppendBlobToString(text: seq<byte>, tag: int32, block: seq<byte>, textFirst: bool, ghost es: seq<Entry>)
      returns (r: seq<byte>)
      requires EntriesFit(es) && block == Pack(Tagged(es)) && EntryFits(Entry(tag, text))
      requires EntriesFit(Insert(separator, tag, text, es, textFirst))
      ensures r == Pack(Tagged(Insert(separator, tag, text, es, textFirst)))
    {
      ghost var whole := Insert(separator, tag, text, es, textFirst);
      var size, rest := ReadCount(block, es);
      var out := size;
      r := [0] + I32(size);
      assert r == PackBlock(size, []);
      var copied := false;
      var i := 0;
      ghost var done: seq<Entry>, left := [], es;
      while i < size
        invariant 0 <= i <= size && |left| == size - i && EntriesFit(left) && rest == PackEntries(left)
        invariant AllFit(done) && r == PackBlock(size, done) && out == size - i + |done|
        invariant whole == done + if copied then left else Insert(separator, tag, text, left, textFirst)
      {
        var added;
        r, rest, copied, added, done := InsertStep(text, tag, textFirst, r, rest, copied, size, done, left, whole);
        out := out + added;
        left := left[1..];
        i := i + 1;
      }
      if !copied {
        r := AppendEntry(r, tag, text, size, done);
        done := done + [Entry(tag, text)];
        out := out + 1;
      }
      assert done == whole;
      r := WriteCount(r, out, size, whole);
    }

    /** The text for a tag that both blocks have. */
    method BothTexts(dst: seq<byte>, src: seq<byte>) returns (text: seq<byte>)
      ensures text == if dst == [] then src else Joined(separator, dst, src)
    {
      if dst == [] {
        return src;
      }
      text := dst + separator;
      text := text + src;
    }

    /** One turn of the loop of AppendBlobToBlob: write the larger of the two heads, or
        both joined, and advance. */
    method MergeStep(b: seq<byte>, dst: Cursor, src: Cursor, ghost d: seq<Entry>, ghost s: seq<Entry>, ghost done: seq<Entry>)
      returns (r: seq<byte>, dst': Cursor, src': Cursor, ghost d': seq<Entry>, ghost s': seq<Entry>, ghost e: Entry)
      requires EntriesFit(d) && EntriesFit(s) && AtHead(dst, d) && AtHead(src, s) && (d != [] || s != [])
      requires AllFit(done) && b == PackBlock(0, done) && AllFit(Merge(separator, d, s))
      ensures EntriesFit(d') && EntriesFit(s') && AtHead(dst', d') && AtHead(src', s')
      ensures EntryFits(e) && r == PackBlock(0, done + [e])
      ensures Merge(separator, d, s) == [e] + Merge(separator, d', s') && |d'| + |s'| < |d| + |s|
    {
      HeadOfMerge(separator, d, s);
      e := Merge(separator, d, s)[0];
      assert EntryFits(e);
      dst', src', d', s' := dst, src, d, s;
      if src.tag < dst.tag {
        r := AppendEntry(b, dst.tag, dst.text, 0, done);
        d' := d[1..];
        dst' := NextEntry(dst, d');
      } else if dst.tag < src.tag {
        r := AppendEntry(b, src.tag, src.text, 0, done);
        s' := s[1..];
        src' := NextEntry(src, s');
      } else {
        var text := BothTexts(dst.text, src.text);
        r := AppendEntry(b, src.tag, text, 0, done);
        d', s' := d[1..], s[1..];
        src' := NextEntry(src, s');
        dst' := NextEntry(dst, d');
      }
    }

    /** Two blocks into one. */
    method AppendBlobToBlob(dst: seq<byte>, src: seq<byte>, ghost ds: seq<Entry>, ghost ss: seq<Entry>) returns (r: seq<byte>)
      requires EntriesFit(ds) && EntriesFit(ss) && dst == Pack(Tagged(ds)) && src == Pack(Tagged(ss))
      requires EntriesFit(Merge(separator, ds, ss))
      ensures r == Pack(Tagged(Merge(separator, ds, ss)))
    {
      ghost var whole := Merge(separator, ds, ss);
      r := [0] + I32(0);
      assert r == PackBlock(0, []);
      var out := 0;
      var inSrc := OpenBlock(src, ss);
      var inDst := OpenBlock(dst, ds);
      ghost var d, s, done: seq<Entry> := ds, ss, [];
      while inSrc.tag != INT_MIN || inDst.tag != INT_MIN
        invariant EntriesFit(d) && EntriesFit(s) && AtHead(inDst, d) && AtHead(inSrc, s)
        invariant AllFit(done) && r == PackBlock(0, done) && out == |done|
        invariant whole == done + Merge(separator, d, s)
        decreases |d| + |s|
      {
        ghost var e;
        ghost var m := Merge(separator, d, s);
        assert forall k | 0 <= k < |m| :: m[k] == whole[|done| + k];
        r, inDst, inSrc, d, s, e := MergeStep(r, inDst, inSrc, d, s, done);
        ConsMoves(done, e, Merge(separator, d, s));
        done := done + [e];
        out := out + 1;
      }
      assert done == whole;
      r := WriteCount(r, out, 0, whole);
    }

    /** Finalize: the texts of a block, separated; other values stay as they are. */
    method Finalize(b: seq<byte>, ghost v: Value) returns (r: seq<byte>)
      requires Packable(v) && b == Pack(v)
      ensures r == Final(separator, v)
    {
      PackedKind(v);
      if b == [] || b[0] != 0 {
        return b;
      }
      r := FinalizeBlock(b, v.entries);
    }

    method FinalizeBlock(b: seq<byte>, ghost es: seq<Entry>) returns (r: seq<byte>)
      requires EntriesFit(es) && b == PackBlock(|es|, es)
      ensures r == JoinAll(separator, Texts(es))
    {
      var size, rest := ReadCount(b, es);
      r := [];
      var i := 0;
      ghost var left := es;
      while i < size
        invariant 0 <= i <= size && |left| == size - i && EntriesFit(left) && rest == PackEntries(left)
        invariant r + Unwritten(separator, i == 0, left) == Unwritten(separator, true, es)
      {
        WriteNext(separator, i == 0, left, r);
        var tag, text;
        tag, text, rest := ReadEntry(rest, left);
        if i > 0 {
          r := r + separator;
        }
        r := r + text;
        left := left[1..];
        i := i + 1;
      }
      UnwrittenIsJoin(separator, es);
    }
  }

  /** What Finalize still has to write; all but the first text get a separator. */
  ghost function Unwritten(sep: seq<byte>, first: bool, es: seq<Entry>): seq<byte>
    decreases |es|
  {
    if es == [] then [] else ((if first then [] else sep) + es[0].text) + Unwritten(sep, false, es[1..])
  }

  lemma WriteNext(sep: seq<byte>, first: bool, es: seq<Entry>, r: seq<byte>)
    requires es != []
    ensures r + Unwritten(sep, first, es) == ((if first then r else r + sep) + es[0].text) + Unwritten(sep, false, es[1..])
  {
    Regroup(r, if first then [] else sep, es[0].text, Unwritten(sep, false, es[1..]));
    assert r + [] == r;
  }

  lemma Regroup(a: seq<byte>, b: seq<byte>, c: seq<byte>, d: seq<byte>)
    ensures a + ((b + c) + d) == ((a + b) + c) + d
  {
  }

  lemma {:induction false} UnwrittenIsJoin(sep: seq<byte>, es: seq<Entry>)
    ensures Unwritten(sep, true, es) == JoinAll(sep, Texts(es))
    ensures es != [] ==> Unwritten(sep, false, es) == sep + JoinAll(sep, Texts(es))
  {
    if es != [] {
      var e, rest := es[0], es[1..];
      UnwrittenIsJoin(sep, rest);
      assert Texts(es)[1..] == Texts(rest) && (rest == [] <==> Texts(rest) == []);
      var tail := Unwritten(sep, false, rest);
      assert (sep + e.text) + tail == sep + (e.text + tail);
      if rest != [] {
        var j := JoinAll(sep, Texts(rest));
        assert e.text + (sep + j) == e.text + sep + j;
      }
    }
  }

  /** Reading a block: the current entry (tag INT_MIN when there is none), how many are
      behind it, and their bytes. */
  datatype Cursor = Cursor(tag: int, text: seq<byte>, n: int, rest: seq<byte>)

  ghost predicate AtHead(c: Cursor, es: seq<Entry>)
    requires EntriesFit(es)
  {
    if es == [] then c.tag == INT_MIN && c.n <= 0
    else c.tag == es[0].tag && c.text == es[0].text && c.n == |es| - 1 && c.rest == PackEntries(es[1..])
  }

  method NextEntry(c: Cursor, ghost es: seq<Entry>) returns (c': Cursor)
    requires EntriesFit(es) && (es == [] ==> c.n <= 0) && (es != [] ==> c.n == |es| && c.rest == PackEntries(es))
    ensures AtHead(c', es)
  {
    if c.n <= 0 {
      return c.(tag := INT_MIN);
    }
    var tag, text, rest := ReadEntry(c.rest, es);
    c' := Cursor(tag, text, c.n - 1, rest);
  }

  method OpenBlock(b: seq<byte>, ghost es: seq<Entry>) returns (c: Cursor)
    requires EntriesFit(es) && b == Pack(Tagged(es))
    ensures AtHead(c, es)
  {
    var count, rest := ReadCount(b, es);
    c := NextEntry(Cursor(INT_MIN, [], count, rest), es);
  }

  lemma ConsMoves(done: seq<Entry>, e: Entry, rest: seq<Entry>)
    ensures done + ([e] + rest) == (done + [e]) + rest
  {
  }

  /** What the first entry contributes to the result of an insertion. */
  ghost function HeadEntries(sep: seq<byte>, tag: int, text: seq<byte>, e: Entry, textFirst: bool): seq<Entry>
  {
    if tag > e.tag then [Entry(tag, text)] + [e]
    else if tag == e.tag then [Entry(tag, if textFirst then Joined(sep, text, e.text) else Joined(sep, e.text, text))]
    else [e]
  }

  lemma InsertHead(sep: seq<byte>, tag: int, text: seq<byte>, es: seq<Entry>, textFirst: bool, done: seq<Entry>)
    requires es != []
    ensures done + es == (done + [es[0]]) + es[1..]
    ensures done + Insert(sep, tag, text, es, textFirst) ==
            (done + HeadEntries(sep, tag, text, es[0], textFirst)) +
              (if tag >= es[0].tag then es[1..] else Insert(sep, tag, text, es[1..], textFirst))
  {
    var e, rest := es[0], es[1..];
    assert es == [e] + rest;
    ConsMoves(done, e, rest);
    if tag > e.tag {
      var n := Entry(tag, text);
      ConsMoves(done, n, es);
      ConsMoves(done + [n], e, rest);
      assert done + ([n] + [e]) == done + [n] + [e];
    } else if tag == e.tag {
      ConsMoves(done, HeadEntries(sep, tag, text, e, textFirst)[0], rest);
    } else {
      ConsMoves(done, e, Insert(sep, tag, text, rest, textFirst));
    }
  }

  lemma HeadOfMerge(sep: seq<byte>, d: seq<Entry>, s: seq<Entry>)
    requires d != [] || s != []
    ensures var m := Merge(sep, d, s);
            m != [] && m == [m[0]] + m[1..] &&
            if s == [] || (d != [] && s[0].tag < d[0].tag) then m[0] == d[0] && m[1..] == Merge(sep, d[1..], s)
            else if d == [] || d[0].tag < s[0].tag then m[0] == s[0] && m[1..] == Merge(sep, d, s[1..])
            else m[0] == Entry(s[0].tag, if d[0].text == [] then s[0].text else Joined(sep, d[0].text, s[0].text)) &&
                 m[1..] == Merge(sep, d[1..], s[1..])
  {
    var m := Merge(sep, d, s);
    assert m == [m[0]] + m[1..];
    if d == [] {
      assert Merge(sep, d, s[1..]) == s[1..];
    } else if s == [] {
      assert Merge(sep, d[1..], s) == d[1..];
    }
  }

  /** A match: its chunk's tag and the packed aggregate. */
  class Match {
    const tag: int32
    var data: seq<byte>

    constructor (tag: int32, data: seq<byte>)
      ensures this.tag == tag && this.data == data
    {
      this.tag := tag;
      this.data := data;
    }
  }

  /** Update: merge one match's aggregate into another's. */
  method Update(aggr: AggrConcat, dst: Match, src: Match, ghost d: Value, ghost s: Value)
    requires dst != src && INT_MIN < dst.tag && INT_MIN < src.tag
    requires Packable(d) && Packable(s) && dst.data == Pack(d) && src.data == Pack(s)
    requires |dst.data| <= INT_MAX && |src.data| <= INT_MAX
    requires Packable(Updated(aggr.separator, d, dst.tag, s, src.tag))
    modifies dst`data
    ensures dst.data == Pack(Updated(aggr.separator, d, dst.tag, s, src.tag))
  {
    PackedKind(d);
    PackedKind(s);
    if src.data == [] {
      return;
    }
    if dst.data == [] {
      dst.data := src.data;
    } else if src.data[0] != 0 && dst.data[0] != 0 {
      dst.data := aggr.AppendStringToString(dst.data, dst.tag, src.data, src.tag);
    } else if src.data[0] != 0 {
      dst.data := aggr.AppendBlobToString(src.data, src.tag, dst.data, false, d.entries);
    } else if dst.data[0] != 0 {
      dst.data := aggr.AppendBlobToString(dst.data, dst.tag, src.data, true, s.entries);
    } else {
      dst.data := aggr.AppendBlobToBlob(dst.data, src.data, d.entries, s.entries);
    }
  }
}
