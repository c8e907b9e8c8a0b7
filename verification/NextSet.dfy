module NextSet {

  /** The mixed-radix counter that walks over all combinations of grouping keys.  A dimension
      without values is skipped. */

  /** How many values each dimension has. */
  type Dims = seq<nat>

  /** An index per dimension; empty dimensions stay at zero. */
  predicate Fits(s: seq<int>, dims: Dims)
  {
    |s| == |dims| && forall i | 0 <= i < |s| :: if dims[i] == 0 then s[i] == 0 else 0 <= s[i] < dims[i]
  }

  function Zeros(n: nat): seq<int>
  {
    seq(n, _ => 0)
  }

  /** The number of combinations. */
  function Total(dims: Dims): (t: nat)
    ensures t > 0
  {
    if dims == [] then 1
    else if dims[0] == 0 then Total(dims[1..])
    else
      var rest := Total(dims[1..]);
      Monotone(dims[0], 1, rest);
      dims[0] * rest
  }

  /** The place of an index vector in the walk: the first dimension runs fastest. */
  function Rank(s: seq<int>, dims: Dims): int
    requires Fits(s, dims)
  {
    if dims == [] then 0
    else if dims[0] == 0 then Rank(s[1..], dims[1..])
    else s[0] + dims[0] * Rank(s[1..], dims[1..])
  }

  lemma Monotone(d: nat, a: int, b: int)
    requires a <= b
    ensures d * a <= d * b
  {
    assert d * (b - a) >= 0;
    assert d * b == d * a + d * (b - a);
  }

  lemma {:induction false} RankBounds(s: seq<int>, dims: Dims)
    requires Fits(s, dims)
    ensures 0 <= Rank(s, dims) < Total(dims)
  {
    if dims != [] {
      var d, r := dims[0], Rank(s[1..], dims[1..]);
      RankBounds(s[1..], dims[1..]);
      Monotone(d, 0, r);
      Monotone(d, r + 1, Total(dims[1..]));
      OneMore(d, r);
    }
  }

  lemma OneMore(d: int, r: int)
    ensures d * (r + 1) == d * r + d
  {
  }

  /** A number has one digit and one rest. */
  lemma SameDigit(d: nat, x: int, r: int, y: int, t: int)
    requires 0 <= x < d && 0 <= y < d && x + d * r == y + d * t
    ensures x == y && r == t
  {
    assert d * r - d * t == d * (r - t);
    if r > t {
      Monotone(d, 1, r - t);
    } else if r < t {
      Monotone(d, r - t, -1);
    }
  }

  lemma {:induction false} RankInjective(a: seq<int>, b: seq<int>, dims: Dims)
    requires Fits(a, dims) && Fits(b, dims) && Rank(a, dims) == Rank(b, dims)
    ensures a == b
  {
    if dims != [] {
      var d, r, t := dims[0], Rank(a[1..], dims[1..]), Rank(b[1..], dims[1..]);
      if d != 0 {
        SameDigit(d, a[0], r, b[0], t);
      }
      RankInjective(a[1..], b[1..], dims[1..]);
      assert a == [a[0]] + a[1..] && b == [b[0]] + b[1..];
    }
  }

  lemma {:induction false} ZerosFirst(dims: Dims)
    ensures Fits(Zeros(|dims|), dims) && Rank(Zeros(|dims|), dims) == 0
  {
    if dims != [] {
      assert Zeros(|dims|)[1..] == Zeros(|dims[1..]|);
      ZerosFirst(dims[1..]);
    }
  }

  /** One step of the counter. */
  function Next(s: seq<int>, dims: Dims): (seq<int>, bool)
    requires Fits(s, dims)
  {
    if dims == [] then (s, false)
    else if dims[0] == 0 then
      var (rest, more) := Next(s[1..], dims[1..]);
      ([s[0]] + rest, more)
    else if s[0] + 1 >= dims[0] then
      var (rest, more) := Next(s[1..], dims[1..]);
      ([0] + rest, more)
    else (s[0 := s[0] + 1], true)
  }

  /** The step goes to the next place; behind the last one it says so and starts over. */
  lemma {:induction false} NextIsSuccessor(s: seq<int>, dims: Dims)
    requires Fits(s, dims)
    ensures var (r, more) := Next(s, dims);
            && Fits(r, dims)
            && (more <==> Rank(s, dims) + 1 < Total(dims))
            && (if more then Rank(r, dims) == Rank(s, dims) + 1 else r == Zeros(|s|))
  {
    if dims != [] {
      var d := dims[0];
      var (rest, more) := Next(s[1..], dims[1..]);
      NextIsSuccessor(s[1..], dims[1..]);
      RankBounds(s[1..], dims[1..]);
      assert ([0] + rest)[1..] == rest && ([s[0]] + rest)[1..] == rest && s[0 := s[0] + 1][1..] == s[1..];
      assert Zeros(|s|) == [0] + Zeros(|s[1..]|);
      if d != 0 {
        Carry(d, s[0], Rank(s[1..], dims[1..]), Total(dims[1..]));
      }
    }
  }

  /** Counting up in one digit, with or without a carry. */
  lemma Carry(d: nat, x: int, k: int, t: int)
    requires 0 <= x < d && 0 <= k < t
    ensures x + 1 < d ==> x + d * k + 1 < d * t
    ensures x + 1 == d ==> x + d * k + 1 == d * (k + 1) && (d * (k + 1) < d * t <==> k + 1 < t)
  {
    Monotone(d, k + 1, t);
    assert d * (k + 1) == d * k + d;
    if k + 1 < t {
      Monotone(d, k + 2, t);
      assert d * (k + 2) == d * (k + 1) + d;
    }
  }

  lemma NextUnfolds(s: seq<int>, dims: Dims, prefix: seq<int>)
    requires Fits(s, dims) && s != []
    ensures Fits(s[1..], dims[1..])
    ensures if dims[0] == 0 || s[0] + 1 >= dims[0] then
              && prefix + Next(s, dims).0 == (prefix + [if dims[0] == 0 then s[0] else 0]) + Next(s[1..], dims[1..]).0
              && Next(s, dims).1 == Next(s[1..], dims[1..]).1
            else
              prefix + Next(s, dims).0 == (prefix + [s[0] + 1]) + s[1..] && Next(s, dims).1
  {
    assert s[0 := s[0] + 1] == [s[0] + 1] + s[1..];
  }

  /** One round of the loop, in terms of the whole array. */
  lemma NextAt(was: seq<int>, dims: Dims, i: nat)
    requires i < |was| == |dims| && Fits(was[i..], dims[i..])
    ensures Fits(was[i + 1..], dims[i + 1..]) && was[i := 0][i + 1..] == was[i + 1..]
    ensures var next, rest := Next(was[i..], dims[i..]), Next(was[i + 1..], dims[i + 1..]);
            if dims[i] == 0 then was[..i] + next.0 == was[..i + 1] + rest.0 && next.1 == rest.1
            else if was[i] + 1 >= dims[i] then was[..i] + next.0 == was[i := 0][..i + 1] + rest.0 && next.1 == rest.1
            else was[..i] + next.0 == was[i := was[i] + 1] && next.1
  {
    assert was[i..][0] == was[i] && was[i..][1..] == was[i + 1..] && dims[i..][0] == dims[i] && dims[i..][1..] == dims[i + 1..];
    NextUnfolds(was[i..], dims[i..], was[..i]);
    assert was[..i + 1] == was[..i] + [was[i]] && was[i := 0][..i + 1] == was[..i] + [0];
    assert was[i := was[i] + 1] == (was[..i] + [was[i] + 1]) + was[i + 1..];
  }

  /** NextSet on the index array, in place. */
  method Advance(set_: array<int>, dims: Dims) returns (more: bool)
    requires Fits(set_[..], dims)
    modifies set_
    ensures set_[..] == Next(old(set_[..]), dims).0 && more == Next(old(set_[..]), dims).1
  {
    ghost var start := set_[..];
    assert set_[..0] == [] && set_[0..] == set_[..] && dims[0..] == dims;
    var i := 0;
    while i < set_.Length
      invariant 0 <= i <= set_.Length == |dims| && Fits(set_[i..], dims[i..])
      invariant Next(start, dims).0 == set_[..i] + Next(set_[i..], dims[i..]).0
      invariant Next(start, dims).1 == Next(set_[i..], dims[i..]).1
    {
      var max := dims[i];
      ghost var was := set_[..];
      NextAt(was, dims, i);
      if max == 0 {
        i := i + 1;
        continue;
      }
      set_[i] := set_[i] + 1;
      if set_[i] >= max {
        set_[i] := 0;
        assert set_[..] == was[i := 0];
      } else {
        assert set_[..] == was[i := was[i] + 1];
        return true;
      }
      i := i + 1;
    }
    assert set_[..i] == set_[..];
    return false;
  }

  /** The walk: every combination is visited, each exactly once and in the order of its
      rank, and the counter ends where it started. */
  method VisitAll(dims: Dims) returns (visited: seq<seq<int>>, final: array<int>)
    ensures |visited| == Total(dims) && final[..] == Zeros(|dims|)
    ensures forall k | 0 <= k < |visited| :: Fits(visited[k], dims) && Rank(visited[k], dims) == k
    ensures forall s | Fits(s, dims) :: Visited(s, visited, dims)
  {
    final := new int[|dims|](_ => 0);
    ZerosFirst(dims);
    assert final[..] == Zeros(|dims|);
    visited := [];
    var more := true;
    while more
      invariant Fits(final[..], dims) && (more ==> Rank(final[..], dims) == |visited|)
      invariant !more ==> |visited| == Total(dims) && final[..] == Zeros(|dims|)
      invariant forall k | 0 <= k < |visited| :: Fits(visited[k], dims) && Rank(visited[k], dims) == k
      decreases if more then Total(dims) - Rank(final[..], dims) + 1 else 0
    {
      RankBounds(final[..], dims);
      NextIsSuccessor(final[..], dims);
      visited := visited + [final[..]];
      more := Advance(final, dims);
      RankBounds(final[..], dims);
    }
    forall s | Fits(s, dims) ensures Visited(s, visited, dims) {
      RankBounds(s, dims);
      RankInjective(visited[Rank(s, dims)], s, dims);
    }
  }

  /** The vector is in the walk at its rank. */
  ghost predicate Visited(s: seq<int>, visited: seq<seq<int>>, dims: Dims)
    requires Fits(s, dims)
  {
    0 <= Rank(s, dims) < |visited| && visited[Rank(s, dims)] == s
  }
}
