/** Bytes, little-endian integers of a fixed width, and the variable-length integers of
    the binary formats (most significant septets first). */
module Bytes {

  type byte = b: int | 0 <= b < 256

  function Pow256(k: nat): nat
    ensures Pow256(k) > 0
  {
    if k == 0 then 1 else 256 * Pow256(k - 1)
  }

  /** The low `k` bytes of `n`, least significant first. */
  function LE(n: nat, k: nat): (b: seq<byte>)
    ensures |b| == k
  {
    if k == 0 then [] else [n % 256] + LE(n / 256, k - 1)
  }

  function FromLE(b: seq<byte>): nat
  {
    if b == [] then 0 else b[0] + 256 * FromLE(b[1..])
  }

  /** Writing truncates to the width, and reading gives back what was kept. */
  lemma {:induction false} FromLEofLE(n: nat, k: nat)
    ensures n < Pow256(k) ==> FromLE(LE(n, k)) == n
    ensures FromLE(LE(n, k)) < Pow256(k)
  {
    if k > 0 {
      FromLEofLE(n / 256, k - 1);
      assert LE(n, k)[1..] == LE(n / 256, k - 1);
    }
  }

  /** Leading septets carry the continuation bit. */
  function ZipHigh(v: nat): seq<byte>
  {
    if v == 0 then [] else ZipHigh(v / 128) + [128 + v % 128]
  }

  function Zip(v: nat): seq<byte>
  {
    ZipHigh(v / 128) + [v % 128]
  }

  datatype Unzipped = Short | Value(v: nat, rest: seq<byte>)

  /** Read septets until one has no continuation bit. */
  function UnzipFrom(acc: nat, b: seq<byte>): Unzipped
    decreases |b|
  {
    if b == [] then Short
    else if b[0] >= 128 then UnzipFrom(acc * 128 + (b[0] - 128), b[1..])
    else Value(acc * 128 + b[0], b[1..])
  }

  function Unzip(b: seq<byte>): Unzipped
  {
    UnzipFrom(0, b)
  }

  lemma {:induction false} UnzipHigh(v: nat, rest: seq<byte>)
    ensures UnzipFrom(0, ZipHigh(v) + rest) == UnzipFrom(v, rest)
  {
    if v != 0 {
      var tail := [128 + v % 128] + rest;
      assert ZipHigh(v) + rest == ZipHigh(v / 128) + tail;
      UnzipHigh(v / 128, tail);
      assert tail[1..] == rest;
    } else {
      assert ZipHigh(v) + rest == rest;
    }
  }

  lemma UnzipZip(v: nat, rest: seq<byte>)
    ensures Unzip(Zip(v) + rest) == Value(v, rest)
  {
    var tail := [v % 128] + rest;
    assert Zip(v) + rest == ZipHigh(v / 128) + tail;
    UnzipHigh(v / 128, tail);
    assert tail[1..] == rest;
  }

  // ---------------------------------------------------------------------
  // Which digits are where
  // ---------------------------------------------------------------------

  lemma DivUnique(x: int, p: int, q: int, r: int)
    requires p > 0 && x == q * p + r && 0 <= r < p
    ensures x / p == q
  {
    var d := x / p - q;
    assert x == (x / p) * p + x % p;
    assert d * p == r - x % p;
    Multiple(d, p);
  }

  lemma Multiple(d: int, p: int)
    requires p > 0
    ensures (d > 0 ==> d * p >= p) && (d < 0 ==> d * p <= -p)
  {
  }

  lemma Parts(d: int, m: int, p: int, q: int, r: int)
    requires m == q * p + r
    ensures d * m == q * (d * p) + d * r
  {
    assert d * m == d * (q * p) + d * r;
    assert d * (q * p) == q * (d * p);
  }

  lemma Below(d: int, r: int, p: int, rest: int)
    requires 0 <= rest < d && 0 <= r < p
    ensures 0 <= d * r + rest < d * p
  {
    assert d * (r + 1) <= d * p;
  }

  /** Dividing in two steps. */
  lemma DivDiv(n: nat, d: nat, p: nat)
    requires d > 0 && p > 0
    ensures d * p > 0 && n / d / p == n / (d * p)
  {
    var m := n / d;
    var q, r := m / p, m % p;
    Parts(d, m, p, q, r);
    Below(d, r, p, n % d);
    DivUnique(n, d * p, q, d * r + n % d);
  }

  /** Byte `i` of a fixed-width integer is its digit `i` to the base 256. */
  lemma {:induction false} LEAt(n: nat, k: nat, i: nat)
    requires i < k
    ensures LE(n, k)[i] == n / Pow256(i) % 256
  {
    if i > 0 {
      LEAt(n / 256, k - 1, i - 1);
      DivDiv(n, 256, Pow256(i - 1));
    }
  }

  function Pow128(k: nat): nat
    ensures Pow128(k) > 0
  {
    if k == 0 then 1 else 128 * Pow128(k - 1)
  }

  /** Counted from the end, leading septet `i` is digit `i` to the base 128. */
  lemma {:induction false} ZipHighAt(v: nat, i: nat)
    requires i < |ZipHigh(v)|
    ensures ZipHigh(v)[|ZipHigh(v)| - 1 - i] == 128 + v / Pow128(i) % 128
  {
    if i > 0 {
      var high := ZipHigh(v / 128);
      ZipHighAt(v / 128, i - 1);
      NextDigit(v, i);
      assert ZipHigh(v)[|high| - i] == high[|high| - i];
    } else {
      assert Pow128(0) == 1;
    }
  }

  lemma NextDigit(v: nat, i: nat)
    requires i > 0
    ensures v / 128 / Pow128(i - 1) == v / Pow128(i)
  {
    DivDiv(v, 128, Pow128(i - 1));
  }

  lemma {:induction false} ZipHighLeads(v: nat)
    requires v > 0
    ensures ZipHigh(v) != [] && ZipHigh(v)[0] > 128
  {
    if v >= 128 {
      ZipHighLeads(v / 128);
    } else {
      assert v / 128 == 0 && ZipHigh(v / 128) == [];
    }
  }

  /** The digits of a variable-length integer to the base 128, most significant first, none of
      them a leading zero; all but the last carry the continuation bit. */
  lemma ZipAt(v: nat, i: nat)
    requires i < |Zip(v)|
    ensures Zip(v)[|Zip(v)| - 1 - i] == v / Pow128(i) % 128 + if i == 0 then 0 else 128
    ensures |Zip(v)| > 1 ==> Zip(v)[0] > 128
  {
    if i > 0 {
      ZipDigit(v, i);
    } else {
      assert Pow128(0) == 1;
    }
    if v / 128 > 0 {
      ZipHighLeads(v / 128);
    }
  }

  lemma ZipDigit(v: nat, i: nat)
    requires 0 < i < |Zip(v)|
    ensures Zip(v)[|Zip(v)| - 1 - i] == v / Pow128(i) % 128 + 128
  {
    ZipHighAt(v / 128, i - 1);
    NextDigit(v, i);
  }

  predicate Suffix(t: seq<byte>, b: seq<byte>)
  {
    |t| <= |b| && t == b[|b| - |t|..]
  }

  lemma SuffixTrans(a: seq<byte>, b: seq<byte>, c: seq<byte>)
    requires Suffix(a, b) && Suffix(b, c)
    ensures Suffix(a, c)
  {
  }

  lemma DropIsSuffix(b: seq<byte>, n: nat)
    requires n <= |b|
    ensures Suffix(b[n..], b)
  {
  }

  lemma {:induction false} UnzipSuffix(acc: nat, b: seq<byte>)
    requires UnzipFrom(acc, b).Value?
    ensures Suffix(UnzipFrom(acc, b).rest, b)
    decreases |b|
  {
    DropIsSuffix(b, 1);
    if b[0] >= 128 {
      UnzipSuffix(acc * 128 + (b[0] - 128), b[1..]);
      SuffixTrans(UnzipFrom(acc, b).rest, b[1..], b);
    }
  }

  lemma Assoc(a: seq<byte>, b: seq<byte>, c: seq<byte>)
    ensures a + (b + c) == (a + b) + c
  {
  }
}
