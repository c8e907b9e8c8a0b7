module GroupConcat {

  /** GROUP_CONCAT over matches that come from several chunks.

      A match carries the number (tag) of the chunk it came from.  Values of one chunk are
      joined as plain text; as soon as two chunks meet, the value becomes a block of tagged
      texts.  First the values themselves, then what whole trees of merges compute. */

  import opened Bytes

  const INT_MIN: int := -0x8000_0000
  const INT_MAX: int := 0x7FFF_FFFF

  datatype Entry = Entry(tag: int, text: seq<byte>)

  /** An aggregate value: nothing yet, plain text, or tagged texts. */
  datatype Value = None | Plain(text: seq<byte>) | Tagged(entries: seq<Entry>)

  /** A text with the separator in front of the second part. */
  function Joined(sep: seq<byte>, a: seq<byte>, b: seq<byte>): seq<byte>
  {
    a + sep + b
  }

  /** AppendBlobToBlob: the destination's text comes first. */
  function Merge(sep: seq<byte>, dst: seq<Entry>, src: seq<Entry>): seq<Entry>
    decreases |dst| + |src|
  {
    if dst == [] then src
    else if src == [] then dst
    else if src[0].tag < dst[0].tag then [dst[0]] + Merge(sep, dst[1..], src)
    else if dst[0].tag < src[0].tag then [src[0]] + Merge(sep, dst, src[1..])
    else
      [Entry(src[0].tag, if dst[0].text == [] then src[0].text else Joined(sep, dst[0].text, src[0].text))]
      + Merge(sep, dst[1..], src[1..])
  }

  /** AppendBlobToString: put a plain text among tagged ones. */
  function Insert(sep: seq<byte>, tag: int, text: seq<byte>, entries: seq<Entry>, textFirst: bool): seq<Entry>
    decreases |entries|
  {
    if entries == [] then [Entry(tag, text)]
    else
      var e := entries[0];
      if tag > e.tag then [Entry(tag, text)] + entries
      else if tag == e.tag then
        [Entry(tag, if textFirst then Joined(sep, text, e.text) else Joined(sep, e.text, text))] + entries[1..]
      else [e] + Insert(sep, tag, text, entries[1..], textFirst)
  }

  /** Update: the value of the destination after the source was merged into it. */
  function Updated(sep: seq<byte>, dst: Value, dstTag: int, src: Value, srcTag: int): Value
  {
    match (dst, src)
    case (_, None) => dst
    case (None, _) => src
    case (Plain(a), Plain(b)) =>
      if dstTag == srcTag then Plain(Joined(sep, a, b)) else Tagged([Entry(dstTag, a), Entry(srcTag, b)])
    case (Tagged(es), Plain(b)) => Tagged(Insert(sep, srcTag, b, es, false))
    case (Plain(a), Tagged(es)) => Tagged(Insert(sep, dstTag, a, es, true))
    case (Tagged(ds), Tagged(ss)) => Tagged(Merge(sep, ds, ss))
  }

  function JoinAll(sep: seq<byte>, texts: seq<seq<byte>>): seq<byte>
  {
    if texts == [] then [] else if |texts| == 1 then texts[0] else texts[0] + sep + JoinAll(sep, texts[1..])
  }

  function Texts(entries: seq<Entry>): seq<seq<byte>>
  {
    if entries == [] then [] else [entries[0].text] + Texts(entries[1..])
  }

  /** Finalize: back to plain text. */
  function Final(sep: seq<byte>, v: Value): seq<byte>
  {
    match v
    case None => []
    case Plain(t) => t
    case Tagged(es) => JoinAll(sep, Texts(es))
  }

  // ---------------------------------------------------------------------
  // Ordered values
  // ---------------------------------------------------------------------

  /** Tags strictly decrease and no text is empty. */
  predicate Ordered(entries: seq<Entry>)
  {
    && (forall e <- entries :: e.text != [])
    && forall i, j | 0 <= i < j < |entries| :: entries[i].tag > entries[j].tag
  }

  /** What a value stands for. */
  function Groups(v: Value, tag: int): seq<Entry>
  {
    match v
    case None => []
    case Plain(t) => [Entry(tag, t)]
    case Tagged(es) => es
  }

  predicate GoodValue(v: Value)
  {
    match v
    case None => true
    case Plain(t) => t != []
    case Tagged(es) => es != [] && Ordered(es)
  }

  /** The text collected for one tag; empty if there is none. */
  function TextOf(entries: seq<Entry>, tag: int): seq<byte>
  {
    if entries == [] then [] else if entries[0].tag == tag then entries[0].text else TextOf(entries[1..], tag)
  }

  lemma {:induction false} TextOfAt(entries: seq<Entry>, i: nat)
    requires Ordered(entries) && i < |entries|
    ensures TextOf(entries, entries[i].tag) == entries[i].text
  {
    if i > 0 {
      TextOfAt(entries[1..], i - 1);
    }
  }

  lemma {:induction false} TextOfAbsent(entries: seq<Entry>, tag: int)
    requires forall e <- entries :: e.tag != tag
    ensures TextOf(entries, tag) == []
  {
    if entries != [] {
      assert entries[0] in entries;
      TextOfAbsent(entries[1..], tag);
    }
  }

  /** Join two texts of one tag; an absent text leaves the other alone. */
  function Combine(sep: seq<byte>, a: seq<byte>, b: seq<byte>): seq<byte>
  {
    if a == [] then b else if b == [] then a else Joined(sep, a, b)
  }

  lemma TagsBelow(entries: seq<Entry>)
    requires Ordered(entries) && entries != []
    ensures Ordered(entries[1..]) && forall e <- entries[1..] :: e.tag < entries[0].tag
  {
    assert forall e <- entries[1..] :: e in entries;
  }

  lemma OrderedCons(e: Entry, rest: seq<Entry>)
    requires e.text != [] && Ordered(rest) && forall r <- rest :: r.tag < e.tag
    ensures Ordered([e] + rest)
    ensures forall t: int :: TextOf([e] + rest, t) == if t == e.tag then e.text else TextOf(rest, t)
  {
    var all := [e] + rest;
    assert all[1..] == rest;
    forall i, j | 0 <= i < j < |all| ensures all[i].tag > all[j].tag {
      assert rest[j - 1] in rest;
      if i > 0 {
        assert rest[i - 1].tag > rest[j - 1].tag;
      }
    }
  }

  /** Merging ordered blocks gives an ordered block that holds, for every tag, both texts. */
  lemma {:induction false} MergeMeaning(sep: seq<byte>, dst: seq<Entry>, src: seq<Entry>, bound: int)
    requires Ordered(dst) && Ordered(src)
    requires (forall e <- dst :: e.tag < bound) && forall e <- src :: e.tag < bound
    ensures Ordered(Merge(sep, dst, src)) && forall e <- Merge(sep, dst, src) :: e.tag < bound
    ensures forall t: int :: TextOf(Merge(sep, dst, src), t) == Combine(sep, TextOf(dst, t), TextOf(src, t))
    decreases |dst| + |src|
  {
    if dst != [] && src != [] {
      TagsBelow(dst);
      TagsBelow(src);
      var d, s := dst[0], src[0];
      assert d in dst && s in src;
      if s.tag < d.tag {
        assert forall e <- src :: e.tag <= s.tag;
        MergeMeaning(sep, dst[1..], src, d.tag);
        OrderedCons(d, Merge(sep, dst[1..], src));
        TextOfAbsent(src, d.tag);
      } else if d.tag < s.tag {
        assert forall e <- dst :: e.tag <= d.tag;
        MergeMeaning(sep, dst, src[1..], s.tag);
        OrderedCons(s, Merge(sep, dst, src[1..]));
        TextOfAbsent(dst, s.tag);
      } else {
        MergeMeaning(sep, dst[1..], src[1..], d.tag);
        OrderedCons(Entry(s.tag, Joined(sep, d.text, s.text)), Merge(sep, dst[1..], src[1..]));
      }
    }
  }

  lemma {:induction false} InsertMeaning(sep: seq<byte>, tag: int, text: seq<byte>, entries: seq<Entry>, textFirst: bool, bound: int)
    requires Ordered(entries) && text != [] && tag < bound && forall e <- entries :: e.tag < bound
    ensures var r := Insert(sep, tag, text, entries, textFirst);
            r != [] && Ordered(r) && (forall e <- r :: e.tag < bound) &&
            forall t: int :: TextOf(r, t) ==
              (if t != tag then TextOf(entries, t)
               else if textFirst then Combine(sep, text, TextOf(entries, tag))
               else Combine(sep, TextOf(entries, tag), text))
    decreases |entries|
  {
    if entries == [] {
      OrderedCons(Entry(tag, text), []);
      assert [Entry(tag, text)] + [] == [Entry(tag, text)];
    } else {
      var e := entries[0];
      TagsBelow(entries);
      assert e in entries;
      assert entries == [e] + entries[1..];
      OrderedCons(e, entries[1..]);
      if tag > e.tag {
        assert forall x <- entries :: x.tag <= e.tag;
        OrderedCons(Entry(tag, text), entries);
        TextOfAbsent(entries, tag);
      } else if tag == e.tag {
        OrderedCons(Entry(tag, if textFirst then Joined(sep, text, e.text) else Joined(sep, e.text, text)), entries[1..]);
        TextOfAbsent(entries[1..], tag);
      } else {
        InsertMeaning(sep, tag, text, entries[1..], textFirst, e.tag);
        OrderedCons(e, Insert(sep, tag, text, entries[1..], textFirst));
      }
    }
  }

  /** When an update keeps the order of the tags and the tag of every text.  Two plain
      texts of different chunks must arrive highest tag first, and an empty destination
      must carry the tag of a plain source. */
  predicate KeepsTags(dst: Value, dstTag: int, src: Value, srcTag: int)
  {
    && (dst.Plain? && src.Plain? ==> dstTag >= srcTag)
    && (dst.None? && src.Plain? ==> dstTag == srcTag)
  }

  /** For every tag, the destination's text and then the source's. */
  ghost predicate Combines(sep: seq<byte>, r: seq<Entry>, dst: seq<Entry>, src: seq<Entry>)
  {
    forall t: int :: TextOf(r, t) == Combine(sep, TextOf(dst, t), TextOf(src, t))
  }

  lemma OneEntry(e: Entry)
    requires e.text != []
    ensures Ordered([e]) && forall t: int :: TextOf([e], t) == if t == e.tag then e.text else []
  {
    assert [e] + [] == [e];
    OrderedCons(e, []);
  }

  lemma UpdateKeeps(sep: seq<byte>, dst: Value, dstTag: int, src: Value, srcTag: int)
    requires GoodValue(dst) && GoodValue(src) && KeepsTags(dst, dstTag, src, srcTag)
    ensures var r := Updated(sep, dst, dstTag, src, srcTag);
            GoodValue(r) && Combines(sep, Groups(r, dstTag), Groups(dst, dstTag), Groups(src, srcTag))
  {
    var bound := Bound(Groups(dst, dstTag), Groups(src, srcTag));
    match (dst, src)
    case (_, None) =>
    case (None, _) =>
    case (Plain(a), Plain(b)) =>
      OneEntry(Entry(dstTag, a));
      OneEntry(Entry(srcTag, b));
      if dstTag == srcTag {
        OneEntry(Entry(dstTag, Joined(sep, a, b)));
      } else {
        OrderedCons(Entry(dstTag, a), [Entry(srcTag, b)]);
        assert [Entry(dstTag, a)] + [Entry(srcTag, b)] == [Entry(dstTag, a), Entry(srcTag, b)];
      }
    case (Tagged(es), Plain(b)) =>
      OneEntry(Entry(srcTag, b));
      InsertMeaning(sep, srcTag, b, es, false, bound);
    case (Plain(a), Tagged(es)) =>
      OneEntry(Entry(dstTag, a));
      InsertMeaning(sep, dstTag, a, es, true, bound);
    case (Tagged(ds), Tagged(ss)) =>
      MergeMeaning(sep, ds, ss, bound);
      MergeNonEmpty(sep, ds, ss);
  }

  lemma MergeNonEmpty(sep: seq<byte>, dst: seq<Entry>, src: seq<Entry>)
    requires dst != [] || src != []
    ensures Merge(sep, dst, src) != []
  {
  }

  ghost function Bound(a: seq<Entry>, b: seq<Entry>): (n: int)
    ensures (forall e <- a :: e.tag < n) && forall e <- b :: e.tag < n
    decreases |a| + |b|
  {
    if a != [] then
      var m := Bound(a[1..], b);
      assert forall e <- a :: e == a[0] || e in a[1..];
      if a[0].tag < m then m else a[0].tag + 1
    else if b != [] then
      var m := Bound(a, b[1..]);
      assert forall e <- b :: e == b[0] || e in b[1..];
      if b[0].tag < m then m else b[0].tag + 1
    else 0
  }

  /** The condition is exact. */
  lemma UpdateIff(sep: seq<byte>, dst: Value, dstTag: int, src: Value, srcTag: int)
    requires GoodValue(dst) && GoodValue(src)
    ensures KeepsTags(dst, dstTag, src, srcTag) <==>
            var r := Updated(sep, dst, dstTag, src, srcTag);
            GoodValue(r) && Combines(sep, Groups(r, dstTag), Groups(dst, dstTag), Groups(src, srcTag))
  {
    if KeepsTags(dst, dstTag, src, srcTag) {
      UpdateKeeps(sep, dst, dstTag, src, srcTag);
    } else if dst.Plain? && src.Plain? {
      var es := [Entry(dstTag, dst.text), Entry(srcTag, src.text)];
      assert Updated(sep, dst, dstTag, src, srcTag) == Tagged(es);
      assert es[0].tag < es[1].tag;
    } else {
      var b := src.text;
      OneEntry(Entry(dstTag, b));
      OneEntry(Entry(srcTag, b));
      assert TextOf([], srcTag) == [];
      assert TextOf(Groups(Updated(sep, dst, dstTag, src, srcTag), dstTag), srcTag) == [];
    }
  }

  // ---------------------------------------------------------------------
  // Whole trees of merges
  // ---------------------------------------------------------------------

  /** Matches are leaves; a node merges its right match into its left one, which keeps
      its tag. */
  datatype Tree = Leaf(tag: int, text: seq<byte>) | Node(dst: Tree, src: Tree)

  function TagOf(t: Tree): int
  {
    match t
    case Leaf(tag, _) => tag
    case Node(dst, _) => TagOf(dst)
  }

  function Eval(sep: seq<byte>, t: Tree): Value
  {
    match t
    case Leaf(_, text) => if text == [] then None else Plain(text)
    case Node(dst, src) => Updated(sep, Eval(sep, dst), TagOf(dst), Eval(sep, src), TagOf(src))
  }

  predicate Smooth(sep: seq<byte>, t: Tree)
  {
    t.Node? ==>
      && Smooth(sep, t.dst) && Smooth(sep, t.src)
      && KeepsTags(Eval(sep, t.dst), TagOf(t.dst), Eval(sep, t.src), TagOf(t.src))
  }

  /** The non-empty texts of one chunk, in the order in which they were merged. */
  function Leaves(t: Tree, tag: int): seq<seq<byte>>
  {
    match t
    case Leaf(g, text) => if g == tag && text != [] then [text] else []
    case Node(dst, src) => Leaves(dst, tag) + Leaves(src, tag)
  }

  predicate NoneEmpty(texts: seq<seq<byte>>)
  {
    forall i | 0 <= i < |texts| :: texts[i] != []
  }

  lemma {:induction false} JoinConcat(sep: seq<byte>, a: seq<seq<byte>>, b: seq<seq<byte>>)
    requires NoneEmpty(a) && NoneEmpty(b)
    ensures JoinAll(sep, a + b) == Combine(sep, JoinAll(sep, a), JoinAll(sep, b))
    ensures JoinAll(sep, a) == [] <==> a == []
  {
    if a == [] {
      assert a + b == b;
    } else {
      JoinConcat(sep, a[1..], b);
      assert (a + b)[1..] == a[1..] + b;
      if |a| == 1 {
        if b == [] {
          assert a + b == a;
        } else {
          assert a[1..] + b == b;
        }
      } else if b != [] {
        JoinNonEmpty(sep, b);
        var x, y, z := a[0], JoinAll(sep, a[1..]), JoinAll(sep, b);
        assert x + sep + (y + sep + z) == (x + sep + y) + sep + z;
      } else {
        assert a + b == a && a[1..] + b == a[1..];
      }
    }
  }

  lemma JoinNonEmpty(sep: seq<byte>, a: seq<seq<byte>>)
    requires a != [] && a[0] != []
    ensures JoinAll(sep, a) != []
  {
  }

  lemma {:induction false} LeavesNonEmpty(t: Tree, tag: int)
    ensures NoneEmpty(Leaves(t, tag))
  {
    if t.Node? {
      LeavesNonEmpty(t.dst, tag);
      LeavesNonEmpty(t.src, tag);
    }
  }

  /** Every tag's text is the join of that chunk's texts, in merge order. */
  lemma {:induction false} EvalMeaning(sep: seq<byte>, t: Tree)
    requires Smooth(sep, t)
    ensures GoodValue(Eval(sep, t))
    ensures forall tag: int :: TextOf(Groups(Eval(sep, t), TagOf(t)), tag) == JoinAll(sep, Leaves(t, tag))
  {
    match t
    case Leaf(g, text) =>
      if text != [] {
        OneEntry(Entry(g, text));
      }
    case Node(dst, src) =>
      EvalMeaning(sep, dst);
      EvalMeaning(sep, src);
      UpdateKeeps(sep, Eval(sep, dst), TagOf(dst), Eval(sep, src), TagOf(src));
      forall tag: int ensures TextOf(Groups(Eval(sep, t), TagOf(t)), tag) == JoinAll(sep, Leaves(t, tag)) {
        LeavesNonEmpty(dst, tag);
        LeavesNonEmpty(src, tag);
        JoinConcat(sep, Leaves(dst, tag), Leaves(src, tag));
      }
  }

  /** An ordered block is determined by its texts. */
  lemma {:induction false} Unique(a: seq<Entry>, b: seq<Entry>)
    requires Ordered(a) && Ordered(b)
    requires forall t: int :: TextOf(a, t) == TextOf(b, t)
    ensures a == b
    decreases |a|
  {
    if a == [] {
    } else {
      assert a[0] in a && TextOf(a, a[0].tag) == TextOf(b, a[0].tag);
      assert b != [];
      assert b[0] in b && TextOf(b, b[0].tag) == TextOf(a, b[0].tag);
      TagsBelow(a);
      TagsBelow(b);
      if a[0].tag < b[0].tag {
        TextOfAbsent(a, b[0].tag);
      } else if b[0].tag < a[0].tag {
        TextOfAbsent(b, a[0].tag);
      }
      assert a[0].tag == b[0].tag;
      forall t: int ensures TextOf(a[1..], t) == TextOf(b[1..], t) {
        assert TextOf(a, t) == TextOf(b, t);
        if t == a[0].tag {
          TextOfAbsent(a[1..], t);
          TextOfAbsent(b[1..], t);
        }
      }
      Unique(a[1..], b[1..]);
      assert a == [a[0]] + a[1..] && b == [b[0]] + b[1..];
    }
  }

  lemma FinalIsJoin(sep: seq<byte>, v: Value, tag: int)
    ensures Final(sep, v) == JoinAll(sep, Texts(Groups(v, tag)))
  {
    if v.Plain? {
      assert Texts([Entry(tag, v.text)]) == [v.text];
    }
  }

  /** However the chunks were spread over sorters and however those were merged: if every
      chunk contributed the same texts in the same order, the final string is the same. */
  lemma SameAnswer(sep: seq<byte>, t: Tree, u: Tree)
    requires Smooth(sep, t) && Smooth(sep, u)
    requires forall tag: int :: Leaves(t, tag) == Leaves(u, tag)
    ensures Final(sep, Eval(sep, t)) == Final(sep, Eval(sep, u))
  {
    EvalMeaning(sep, t);
    EvalMeaning(sep, u);
    var a, b := Groups(Eval(sep, t), TagOf(t)), Groups(Eval(sep, u), TagOf(u));
    OrderedGroups(Eval(sep, t), TagOf(t));
    OrderedGroups(Eval(sep, u), TagOf(u));
    forall tag: int ensures TextOf(a, tag) == TextOf(b, tag) {
      assert Leaves(t, tag) == Leaves(u, tag);
    }
    Unique(a, b);
    FinalIsJoin(sep, Eval(sep, t), TagOf(t));
    FinalIsJoin(sep, Eval(sep, u), TagOf(u));
  }

  lemma OrderedGroups(v: Value, tag: int)
    requires GoodValue(v)
    ensures Ordered(Groups(v, tag))
  {
    if v.Plain? {
      OneEntry(Entry(tag, v.text));
    }
  }

  /** The final string: the chunks' texts, highest tag first. */
  lemma FinalAnswer(sep: seq<byte>, t: Tree)
    requires Smooth(sep, t)
    ensures var groups := Groups(Eval(sep, t), TagOf(t));
            && Final(sep, Eval(sep, t)) == JoinAll(sep, Texts(groups))
            && (forall i, j | 0 <= i < j < |groups| :: groups[i].tag > groups[j].tag)
            && (forall i | 0 <= i < |groups| :: groups[i].text == JoinAll(sep, Leaves(t, groups[i].tag)))
            && (forall tag: int | Leaves(t, tag) != [] :: exists i | 0 <= i < |groups| :: groups[i].tag == tag)
  {
    EvalMeaning(sep, t);
    var groups := Groups(Eval(sep, t), TagOf(t));
    FinalIsJoin(sep, Eval(sep, t), TagOf(t));
    OrderedGroups(Eval(sep, t), TagOf(t));
    forall i | 0 <= i < |groups| ensures groups[i].text == JoinAll(sep, Leaves(t, groups[i].tag)) {
      TextOfAt(groups, i);
    }
    forall tag: int | Leaves(t, tag) != [] ensures exists i | 0 <= i < |groups| :: groups[i].tag == tag {
      LeavesNonEmpty(t, tag);
      JoinNonEmpty(sep, Leaves(t, tag));
      if forall i | 0 <= i < |groups| :: groups[i].tag != tag {
        TextOfAbsent(groups, tag);
      }
    }
  }

  // ---------------------------------------------------------------------
  // Nothing is lost, in any tree
  // ---------------------------------------------------------------------

  /** The non-empty texts of all chunks, in merge order. */
  function AllLeaves(t: Tree): seq<seq<byte>>
  {
    match t
    case Leaf(_, text) => if text == [] then [] else [text]
    case Node(dst, src) => AllLeaves(dst) + AllLeaves(src)
  }

  /** Each entry's text is the join of some texts. */
  predicate MadeOf(sep: seq<byte>, entries: seq<Entry>, parts: seq<seq<seq<byte>>>)
  {
    && |entries| == |parts|
    && forall i | 0 <= i < |parts| :: parts[i] != [] && NoneEmpty(parts[i]) && entries[i].text == JoinAll(sep, parts[i])
  }

  function Flat(parts: seq<seq<seq<byte>>>): seq<seq<byte>>
  {
    if parts == [] then [] else parts[0] + Flat(parts[1..])
  }

  lemma MadeOfTail(sep: seq<byte>, entries: seq<Entry>, parts: seq<seq<seq<byte>>>)
    requires MadeOf(sep, entries, parts) && entries != []
    ensures MadeOf(sep, entries[1..], parts[1..])
    ensures entries[0].text != [] && entries == [entries[0]] + entries[1..] && multiset(Flat(parts)) == multiset(parts[0]) + multiset(Flat(parts[1..]))
  {
    JoinNonEmpty(sep, parts[0]);
  }

  lemma MadeOfCons(sep: seq<byte>, e: Entry, part: seq<seq<byte>>, entries: seq<Entry>, parts: seq<seq<seq<byte>>>)
    requires MadeOf(sep, entries, parts) && part != [] && NoneEmpty(part) && e.text == JoinAll(sep, part)
    ensures MadeOf(sep, [e] + entries, [part] + parts)
    ensures multiset(Flat([part] + parts)) == multiset(part) + multiset(Flat(parts))
  {
    assert ([part] + parts)[1..] == parts;
  }

  /** The texts of one entry, behind those of another. */
  lemma JoinedParts(sep: seq<byte>, a: seq<byte>, pa: seq<seq<byte>>, b: seq<byte>, pb: seq<seq<byte>>)
    requires pa != [] && pb != [] && NoneEmpty(pa) && NoneEmpty(pb) && a == JoinAll(sep, pa) && b == JoinAll(sep, pb)
    ensures pa + pb != [] && NoneEmpty(pa + pb) && Joined(sep, a, b) == JoinAll(sep, pa + pb)
  {
    JoinConcat(sep, pa, pb);
    JoinNonEmpty(sep, pa);
    JoinNonEmpty(sep, pb);
  }

  lemma {:induction false} MergeParts(sep: seq<byte>, dst: seq<Entry>, pd: seq<seq<seq<byte>>>, src: seq<Entry>, ps: seq<seq<seq<byte>>>)
    returns (p: seq<seq<seq<byte>>>)
    requires MadeOf(sep, dst, pd) && MadeOf(sep, src, ps)
    ensures MadeOf(sep, Merge(sep, dst, src), p) && multiset(Flat(p)) == multiset(Flat(pd)) + multiset(Flat(ps))
    decreases |dst| + |src|
  {
    if dst == [] {
      p := ps;
    } else if src == [] {
      p := pd;
    } else {
      MadeOfTail(sep, dst, pd);
      MadeOfTail(sep, src, ps);
      if src[0].tag < dst[0].tag {
        var rest := MergeParts(sep, dst[1..], pd[1..], src, ps);
        MadeOfCons(sep, dst[0], pd[0], Merge(sep, dst[1..], src), rest);
        p := [pd[0]] + rest;
      } else if dst[0].tag < src[0].tag {
        var rest := MergeParts(sep, dst, pd, src[1..], ps[1..]);
        MadeOfCons(sep, src[0], ps[0], Merge(sep, dst, src[1..]), rest);
        p := [ps[0]] + rest;
      } else {
        var rest := MergeParts(sep, dst[1..], pd[1..], src[1..], ps[1..]);
        JoinedParts(sep, dst[0].text, pd[0], src[0].text, ps[0]);
        MadeOfCons(sep, Entry(src[0].tag, Joined(sep, dst[0].text, src[0].text)), pd[0] + ps[0], Merge(sep, dst[1..], src[1..]), rest);
        p := [pd[0] + ps[0]] + rest;
      }
    }
  }

  lemma {:induction false} InsertParts(sep: seq<byte>, tag: int, text: seq<byte>, pt: seq<seq<byte>>, entries: seq<Entry>, pe: seq<seq<seq<byte>>>, textFirst: bool)
    returns (p: seq<seq<seq<byte>>>)
    requires MadeOf(sep, entries, pe) && pt != [] && NoneEmpty(pt) && text == JoinAll(sep, pt)
    ensures MadeOf(sep, Insert(sep, tag, text, entries, textFirst), p) && multiset(Flat(p)) == multiset(pt) + multiset(Flat(pe))
    decreases |entries|
  {
    if entries == [] {
      MadeOfCons(sep, Entry(tag, text), pt, [], []);
      assert [Entry(tag, text)] + [] == [Entry(tag, text)] && [pt] + [] == [pt];
      p := [pt];
    } else {
      var e := entries[0];
      MadeOfTail(sep, entries, pe);
      if tag > e.tag {
        MadeOfCons(sep, Entry(tag, text), pt, entries, pe);
        p := [pt] + pe;
      } else if tag == e.tag {
        var joined := if textFirst then pt + pe[0] else pe[0] + pt;
        JoinedParts(sep, text, pt, e.text, pe[0]);
        JoinedParts(sep, e.text, pe[0], text, pt);
        MadeOfCons(sep, Entry(tag, if textFirst then Joined(sep, text, e.text) else Joined(sep, e.text, text)), joined, entries[1..], pe[1..]);
        p := [joined] + pe[1..];
      } else {
        var rest := InsertParts(sep, tag, text, pt, entries[1..], pe[1..], textFirst);
        MadeOfCons(sep, e, pe[0], Insert(sep, tag, text, entries[1..], textFirst), rest);
        p := [pe[0]] + rest;
      }
    }
  }

  /** An update keeps every text of both sides and adds none, whatever the tags are. */
  lemma UpdateParts(sep: seq<byte>, dst: Value, dstTag: int, pd: seq<seq<seq<byte>>>, src: Value, srcTag: int, ps: seq<seq<seq<byte>>>)
    returns (p: seq<seq<seq<byte>>>)
    requires MadeOf(sep, Groups(dst, dstTag), pd) && MadeOf(sep, Groups(src, srcTag), ps)
    ensures MadeOf(sep, Groups(Updated(sep, dst, dstTag, src, srcTag), dstTag), p)
    ensures multiset(Flat(p)) == multiset(Flat(pd)) + multiset(Flat(ps))
  {
    match (dst, src)
    case (_, None) =>
      p := pd;
    case (None, _) =>
      p := ps;
    case (Plain(a), Plain(b)) =>
      SinglePart(pd);
      SinglePart(ps);
      if dstTag == srcTag {
        JoinedParts(sep, a, pd[0], b, ps[0]);
        p := [pd[0] + ps[0]];
        SinglePart(p);
      } else {
        MadeOfCons(sep, Entry(dstTag, a), pd[0], [Entry(srcTag, b)], ps);
        assert [Entry(dstTag, a)] + [Entry(srcTag, b)] == [Entry(dstTag, a), Entry(srcTag, b)];
        p := [pd[0]] + ps;
      }
    case (Tagged(es), Plain(b)) =>
      SinglePart(ps);
      p := InsertParts(sep, srcTag, b, ps[0], es, pd, false);
    case (Plain(a), Tagged(es)) =>
      SinglePart(pd);
      p := InsertParts(sep, dstTag, a, pd[0], es, ps, true);
    case (Tagged(ds), Tagged(ss)) =>
      p := MergeParts(sep, ds, pd, ss, ps);
  }

  lemma SinglePart(p: seq<seq<seq<byte>>>)
    requires |p| == 1
    ensures Flat(p) == p[0]
  {
    assert p[1..] == [] && p[0] + [] == p[0];
  }

  lemma {:induction false} EvalParts(sep: seq<byte>, t: Tree) returns (p: seq<seq<seq<byte>>>)
    ensures MadeOf(sep, Groups(Eval(sep, t), TagOf(t)), p) && multiset(Flat(p)) == multiset(AllLeaves(t))
  {
    match t
    case Leaf(tag, text) =>
      p := if text == [] then [] else [[text]];
      if text != [] {
        SinglePart(p);
      }
    case Node(dst, src) =>
      var pd := EvalParts(sep, dst);
      var ps := EvalParts(sep, src);
      p := UpdateParts(sep, Eval(sep, dst), TagOf(dst), pd, Eval(sep, src), TagOf(src), ps);
  }

  lemma {:induction false} JoinOfParts(sep: seq<byte>, entries: seq<Entry>, parts: seq<seq<seq<byte>>>)
    requires MadeOf(sep, entries, parts)
    ensures NoneEmpty(Flat(parts)) && JoinAll(sep, Texts(entries)) == JoinAll(sep, Flat(parts))
  {
    if entries != [] {
      MadeOfTail(sep, entries, parts);
      JoinOfParts(sep, entries[1..], parts[1..]);
      JoinConcat(sep, parts[0], Flat(parts[1..]));
      assert Texts(entries)[1..] == Texts(entries[1..]);
      if |entries| == 1 {
        SinglePart(parts);
      } else {
        MadeOfTail(sep, entries[1..], parts[1..]);
        JoinNonEmpty(sep, Flat(parts[1..]));
      }
    }
  }

  /** For every tree of merges, in whatever order the chunks meet: the final string joins all
      the non-empty texts, each exactly once, in some order. */
  lemma NothingLost(sep: seq<byte>, t: Tree) returns (order: seq<seq<byte>>)
    ensures multiset(order) == multiset(AllLeaves(t)) && Final(sep, Eval(sep, t)) == JoinAll(sep, order)
    ensures |Final(sep, Eval(sep, t))| == if AllLeaves(t) == [] then 0 else Charge(sep, AllLeaves(t)) - |sep|
  {
    var p := EvalParts(sep, t);
    order := Flat(p);
    FinalIsJoin(sep, Eval(sep, t), TagOf(t));
    JoinOfParts(sep, Groups(Eval(sep, t), TagOf(t)), p);
    JoinLength(sep, order);
    ChargeOfMultiset(sep, order, AllLeaves(t));
    assert |multiset(order)| == |order| && |multiset(AllLeaves(t))| == |AllLeaves(t)|;
  }

  /** The lengths of some texts, with one separator each. */
  function Charge(sep: seq<byte>, texts: seq<seq<byte>>): nat
  {
    if texts == [] then 0 else |texts[0]| + |sep| + Charge(sep, texts[1..])
  }

  lemma {:induction false} JoinLength(sep: seq<byte>, texts: seq<seq<byte>>)
    ensures |JoinAll(sep, texts)| == if texts == [] then 0 else Charge(sep, texts) - |sep|
  {
    if texts != [] {
      JoinLength(sep, texts[1..]);
    }
  }

  lemma {:induction false} ChargeRemove(sep: seq<byte>, texts: seq<seq<byte>>, i: nat)
    requires i < |texts|
    ensures Charge(sep, texts) == |texts[i]| + |sep| + Charge(sep, texts[..i] + texts[i + 1..])
  {
    var rest := texts[..i] + texts[i + 1..];
    if i == 0 {
      assert rest == texts[1..];
    } else {
      ChargeRemove(sep, texts[1..], i - 1);
      assert rest[0] == texts[0] && rest[1..] == texts[1..][..i - 1] + texts[1..][i..];
    }
  }

  lemma OneTaken(s: seq<seq<byte>>, i: nat)
    requires i < |s|
    ensures multiset(s[..i] + s[i + 1..]) == multiset(s) - multiset{s[i]}
  {
    assert s == s[..i] + [s[i]] + s[i + 1..];
  }

  lemma {:induction false} ChargeOfMultiset(sep: seq<byte>, a: seq<seq<byte>>, b: seq<seq<byte>>)
    requires multiset(a) == multiset(b)
    ensures Charge(sep, a) == Charge(sep, b)
    decreases |a|
  {
    assert |a| == |multiset(a)| == |multiset(b)| == |b|;
    if a != [] {
      assert a[0] in multiset(b);
      var i :| 0 <= i < |b| && b[i] == a[0];
      var rest := b[..i] + b[i + 1..];
      ChargeRemove(sep, b, i);
      OneTaken(a, 0);
      OneTaken(b, i);
      assert a[..0] + a[1..] == a[1..];
      ChargeOfMultiset(sep, a[1..], rest);
    }
  }

  /** A side without a value leaves the other side's string alone. */
  lemma EmptyIsNeutral(sep: seq<byte>, v: Value, tag: int, other: int)
    ensures Final(sep, Updated(sep, None, tag, v, other)) == Final(sep, v)
    ensures Updated(sep, v, tag, None, other) == v
  {
  }

  /** Without the condition the answer does depend on the merge order: chunk 1 into chunk
      2 and chunk 2 into chunk 1 give different strings. */
  lemma OrderMatters()
    ensures var a, b, sep := Leaf(1, [97]), Leaf(2, [98]), [44];
            && (forall tag: int :: Leaves(Node(a, b), tag) == Leaves(Node(b, a), tag))
            && Smooth(sep, Node(b, a)) && !Smooth(sep, Node(a, b))
            && Final(sep, Eval(sep, Node(a, b))) == [97, 44, 98]
            && Final(sep, Eval(sep, Node(b, a))) == [98, 44, 97]
  {
    var a, b, sep: seq<byte> := Leaf(1, [97]), Leaf(2, [98]), [44];
    assert Eval(sep, a) == Plain([97]) && Eval(sep, b) == Plain([98]);
    var e1, e2 := Entry(1, [97]), Entry(2, [98]);
    assert Eval(sep, Node(a, b)) == Tagged([e1, e2]) && Eval(sep, Node(b, a)) == Tagged([e2, e1]);
    TwoTexts(sep, e1, e2);
    TwoTexts(sep, e2, e1);
  }

  lemma TwoTexts(sep: seq<byte>, a: Entry, b: Entry)
    ensures JoinAll(sep, Texts([a, b])) == a.text + sep + b.text
  {
    assert [a, b][1..] == [b] && [b][1..] == [];
    assert Texts([b]) == [b.text] && Texts([a, b]) == [a.text, b.text];
    assert [a.text, b.text][1..] == [b.text];
  }
}
