module Pack64 {

  /** 64-bit integers of the PHP client on platforms without 64-bit integers or without
      bcmath: numbers travel as decimal strings and the arithmetic is done in doubles. */

  import opened Decimal

  const TWO32: int := 0x1_0000_0000
  const TWO53: int := 0x20_0000_0000_0000
  const TWO63: int := 0x8000_0000_0000_0000
  const TWO64: int := 0x1_0000_0000_0000_0000
  const TEN13: int := 10_000_000_000_000

  /** The two 32-bit words of a packed number, high word first. */
  datatype Words = Words(h: int, l: int)

  predicate Fits(w: Words)
  {
    0 <= w.h < TWO32 && 0 <= w.l < TWO32
  }

  function Number(w: Words): int
  {
    w.h * TWO32 + w.l
  }

  /** Two's complement. */
  function Wrap(v: int): int
  {
    if v < 0 then v + TWO64 else v
  }

  lemma NumberFits(w: Words)
    requires Fits(w)
    ensures 0 <= Number(w) < TWO64
  {
  }

  // ---------------------------------------------------------------------
  // Doubles
  // ---------------------------------------------------------------------

  /** Rounding to double precision: integers up to 2^53 are exact, and values between
      2^-32 (about 2.3e-10) and 2^64 have a relative error of at most 2^-53.  Nothing is
      said outside, where doubles may underflow or overflow. */
  ghost predicate Rounds(fl: real -> real)
  {
    && (forall n: int | 0 <= n <= TWO53 :: Exact(fl, n))
    && (forall x: real | InRange(x) :: Near(fl, x))
  }

  predicate InRange(x: real)
  {
    x == 0.0 || 0.0000000002 <= x <= 18446744073709551616.0
  }

  ghost predicate Near(fl: real -> real, x: real)
  {
    x - x / 9007199254740992.0 <= fl(x) <= x + x / 9007199254740992.0
  }

  ghost predicate Exact(fl: real -> real, n: int)
  {
    fl(n as real) == n as real
  }

  lemma Plus(fl: real -> real, a: int, b: int)
    requires Rounds(fl) && 0 <= a + b <= TWO53
    ensures fl(a as real + b as real) == (a + b) as real
  {
    assert Exact(fl, a + b);
    assert a as real + b as real == (a + b) as real;
  }

  lemma Minus(fl: real -> real, a: int, b: int)
    requires Rounds(fl) && 0 <= a - b <= TWO53
    ensures fl(a as real - b as real) == (a - b) as real
  {
    assert Exact(fl, a - b);
    assert a as real - b as real == (a - b) as real;
  }

  lemma Times(fl: real -> real, a: int, c: int)
    requires Rounds(fl) && 0 <= a * c <= TWO53
    ensures fl(a as real * c as real) == (a * c) as real
  {
    assert Exact(fl, a * c);
    RealTimes(a, c);
  }

  lemma RealTimes(a: int, c: int)
    ensures a as real * c as real == (a * c) as real
  {
  }

  /** The floor of a rounded quotient is the quotient of the integers. */
  lemma FloorByTwo32(fl: real -> real, a: int)
    requires Rounds(fl) && 0 <= a < TWO53
    ensures fl(a as real / 4294967296.0).Floor == a / TWO32
  {
    var x, q, r := a as real / 4294967296.0, a / TWO32, a % TWO32;
    assert InRange(x) && Near(fl, x) && x == q as real + r as real / 4294967296.0;
    if r == 0 {
      assert Exact(fl, q);
    }
  }

  lemma FloorByTen7(fl: real -> real, a: int)
    requires Rounds(fl) && 0 <= a < TWO53
    ensures fl(a as real / 10000000.0).Floor == a / 10_000_000
  {
    var x, q, r := a as real / 10000000.0, a / 10_000_000, a % 10_000_000;
    assert InRange(x) && Near(fl, x) && x == q as real + r as real / 10000000.0;
    if r == 0 {
      assert Exact(fl, q);
    }
  }

  lemma FloorByTen5(fl: real -> real, a: int)
    requires Rounds(fl) && 0 <= a < TWO53
    ensures fl(a as real / 100000.0).Floor == a / 100_000
  {
    var x, q, r := a as real / 100000.0, a / 100_000, a % 100_000;
    assert InRange(x) && Near(fl, x) && x == q as real + r as real / 100000.0;
    if r == 0 {
      assert Exact(fl, q);
    }
  }

  // ---------------------------------------------------------------------
  // Packing
  // ---------------------------------------------------------------------

  function Abs(x: int): nat { if x < 0 then -x else x }

  /** The string cut in front of its last 13 characters, both parts as numbers. */
  function Split(s: string): (nat, nat)
  {
    var p := if |s| > 13 then |s| - 13 else 0;
    (Abs(ToNumber(s[..p])), Abs(ToNumber(s[p..])))
  }

  /** The cut is the split by 10^13, for negative numbers as well. */
  lemma SplitIsByTen13(v: int)
    ensures Split(Show(v)) == (Abs(v) / TEN13, Abs(v) % TEN13)
  {
    if v < 0 {
      SplitSigned("-", -v);
    } else {
      SplitSigned("", v);
      assert "" + Dec(v) == Dec(v);
    }
  }

  lemma SplitSigned(sign: string, n: nat)
    requires sign == "" || sign == "-"
    ensures Split(sign + Dec(n)) == (n / TEN13, n % TEN13)
  {
    if n >= TEN13 {
      DivMod(n);
      LargeSplit(sign, n / TEN13, n % TEN13);
    } else {
      ShortDec(n);
      ParseDec(n);
      SmallSplit(sign + Dec(n), sign, Dec(n));
      SmallDivMod(n);
    }
  }

  lemma SmallDivMod(n: nat)
    requires n < TEN13
    ensures n / TEN13 == 0 && n % TEN13 == n
  {
  }

  lemma DivMod(n: int)
    requires n >= TEN13
    ensures n / TEN13 > 0 && n / TEN13 * TEN13 + n % TEN13 == n
  {
  }

  lemma ShortDec(n: nat)
    requires n < TEN13
    ensures |Dec(n)| <= 13
  {
    TenTo13();
    DecLength(n, 13);
  }

  lemma TenTo13()
    ensures Pow10(13) == TEN13
  {
  }

  lemma LargeSplit(sign: string, h: int, l: int)
    requires (sign == "" || sign == "-") && h > 0 && 0 <= l < TEN13
    ensures Split(sign + Dec(h * TEN13 + l)) == (h, l)
  {
    TenTo13();
    CutAt(h, 13, l, TEN13);
    ParseDec(h);
    ParsePad(13, l);
    LongSplit(sign, Dec(h), Pad(13, l));
  }

  lemma CutAt(h: nat, k: nat, l: nat, p: nat)
    requires h > 0 && l < p == Pow10(k)
    ensures Dec(h * p + l) == Dec(h) + Pad(k, l)
  {
    Cut(h, k, l);
  }

  lemma LongSplit(sign: string, d: string, t: string)
    requires (sign == "" || sign == "-") && |t| == 13 && t[0] != '-' && d != "" && d[0] != '-'
    ensures Split(sign + (d + t)) == (Parse(d), Parse(t))
  {
    var s := sign + (d + t);
    assert s[..|s| - 13] == sign + d && s[|s| - 13..] == t;
    Signed(sign, d);
    Signed("", t);
  }

  lemma Signed(sign: string, d: string)
    requires sign == "" || sign == "-"
    requires d != "" && d[0] != '-'
    ensures Abs(ToNumber(sign + d)) == Parse(d) && Abs(ToNumber(d)) == Parse(d)
  {
    if sign == "-" {
      assert (sign + d)[1..] == d;
    } else {
      assert sign + d == d;
    }
  }

  lemma SmallSplit(s: string, sign: string, d: string)
    requires (sign == "" || sign == "-") && s == sign + d && d != "" && |d| <= 13 && d[0] != '-'
    ensures Split(s) == (0, Parse(d))
  {
    Signed(sign, d);
    if |s| > 13 {
      assert s[..1] == "-" && s[1..] == d;
      assert ToNumber("-") == 0 by {
        assert "-"[1..] == "";
      }
    } else {
      assert s[..0] == "" && s[0..] == s;
    }
  }

  /** The words of `hi * 10^13 + lo` in doubles. */
  function FloatWords(fl: real -> real, hi: real, lo: real): (real, real)
  {
    var m := fl(lo + fl(hi * 1316134912.0));
    var q := fl(m / 4294967296.0).Floor as real;
    (fl(fl(hi * 2328.0) + q), fl(m - fl(q * 4294967296.0)))
  }

  /** No intermediate reaches 2^53, so every step is exact. */
  lemma FloatWordsExact(fl: real -> real, n: int)
    requires Rounds(fl) && 0 <= n < TWO64
    ensures FloatWords(fl, (n / TEN13) as real, (n % TEN13) as real) == ((n / TWO32) as real, (n % TWO32) as real)
  {
    var hi, lo := n / TEN13, n % TEN13;
    assert 0 <= hi <= 1844674 && 0 <= lo < TEN13;
    FloatSteps(fl, hi, lo);
    WordsOfSplit(n, hi, lo, lo + hi * 1316134912, (lo + hi * 1316134912) / TWO32);
  }

  lemma Middle(fl: real -> real, hi: int, lo: int)
    requires Rounds(fl) && 0 <= hi <= 1844674 && 0 <= lo < TEN13
    ensures 0 <= lo + hi * 1316134912 < TWO53
    ensures fl(lo as real + fl(hi as real * 1316134912.0)) == (lo + hi * 1316134912) as real
  {
    Times(fl, hi, 1316134912);
    Plus(fl, lo, hi * 1316134912);
  }

  lemma Low(fl: real -> real, m: int)
    requires Rounds(fl) && 0 <= m < TWO53
    ensures fl(m as real - fl((m / TWO32) as real * 4294967296.0)) == (m % TWO32) as real
  {
    var q := m / TWO32;
    Times(fl, q, TWO32);
    Minus(fl, m, q * TWO32);
  }

  lemma High(fl: real -> real, hi: int, q: int)
    requires Rounds(fl) && 0 <= hi <= 1844674 && 0 <= q < TWO32
    ensures fl(fl(hi as real * 2328.0) + q as real) == (hi * 2328 + q) as real
  {
    Times(fl, hi, 2328);
    Plus(fl, hi * 2328, q);
  }

  lemma FloatSteps(fl: real -> real, hi: int, lo: int)
    requires Rounds(fl) && 0 <= hi <= 1844674 && 0 <= lo < TEN13
    ensures var m := lo + hi * 1316134912;
            FloatWords(fl, hi as real, lo as real) == ((hi * 2328 + m / TWO32) as real, (m % TWO32) as real)
  {
    var m := lo + hi * 1316134912;
    Middle(fl, hi, lo);
    FloorByTwo32(fl, m);
    Low(fl, m);
    High(fl, hi, m / TWO32);
  }

  /** 10^13 is 2328 * 2^32 + 1316134912. */
  lemma WordsOfSplit(n: int, hi: int, lo: int, m: int, q: int)
    requires 0 <= n && n == hi * TEN13 + lo && m == lo + hi * 1316134912 && m >= 0 && q == m / TWO32
    ensures hi * 2328 + q == n / TWO32 && m % TWO32 == n % TWO32
  {
    assert n == (hi * 2328 + q) * TWO32 + (m - q * TWO32);
    assert 0 <= m - q * TWO32 < TWO32;
  }

  /** sphPackU64, x32 without bcmath. */
  function PackUnsignedX32(fl: real -> real, s: string): Words
  {
    FloatParts(fl, Split(s).0, Split(s).1)
  }

  function FloatParts(fl: real -> real, hi: int, lo: int): Words
  {
    var (h, l) := FloatWords(fl, hi as real, lo as real);
    Words(h.Floor, l.Floor)
  }

  /** sphPackI64, x32 without bcmath. */
  function PackSignedX32(fl: real -> real, s: string): Words
  {
    Negated(PackUnsignedX32(fl, s), ToNumber(s) < 0)
  }

  function Negated(w: Words, negative: bool): Words
  {
    if !negative then w
    else if w.l == 0 then Words(TWO32 - w.h, w.l)
    else Words(TWO32 - 1 - w.h, TWO32 - w.l)
  }

  /** sphPackU64, x64 without bcmath, for numbers that do not fit a signed integer. */
  function PackUnsignedX64(fl: real -> real, s: string): Words
  {
    IntParts(fl, Split(s).0, Split(s).1)
  }

  function IntParts(fl: real -> real, hi: int, lo: int): Words
  {
    var m := lo + hi * 1316134912;
    Words(hi * 2328 + fl(m as real / 4294967296.0).Floor, m % TWO32)
  }

  /** Small integers on x32: sign extension. */
  function PackIntX32(v: int): Words
  {
    Words(if v < 0 then TWO32 - 1 else 0, v % TWO32)
  }

  /** Integers on x64: shift and mask. */
  function PackIntX64(v: int): Words
  {
    Words(Wrap(v) / TWO32, Wrap(v) % TWO32)
  }

  lemma FloatPartsExact(fl: real -> real, n: nat)
    requires Rounds(fl) && n < TWO64
    ensures FloatParts(fl, n / TEN13, n % TEN13) == Words(n / TWO32, n % TWO32)
  {
    FloatWordsExact(fl, n);
  }

  lemma IntPartsExact(fl: real -> real, n: nat)
    requires Rounds(fl) && n < TWO64
    ensures IntParts(fl, n / TEN13, n % TEN13) == Words(n / TWO32, n % TWO32)
  {
    var hi, lo := n / TEN13, n % TEN13;
    Middle(fl, hi, lo);
    var m := lo + hi * 1316134912;
    FloorByTwo32(fl, m);
    WordsOfSplit(n, hi, lo, m, m / TWO32);
  }

  /** Packing a decimal string gives the two words of the number. */
  lemma PackUnsignedExact(fl: real -> real, n: nat)
    requires Rounds(fl) && n < TWO64
    ensures PackUnsignedX32(fl, Dec(n)) == Words(n / TWO32, n % TWO32) == PackUnsignedX64(fl, Dec(n))
  {
    SplitIsByTen13(n);
    FloatPartsExact(fl, n);
    IntPartsExact(fl, n);
  }

  /** Packing gives two's complement words. */
  lemma PackSignedExact(fl: real -> real, v: int)
    requires Rounds(fl) && -TWO63 <= v < TWO63
    ensures PackSignedX32(fl, Show(v)) == Words(Wrap(v) / TWO32, Wrap(v) % TWO32)
  {
    SplitIsByTen13(v);
    FloatPartsExact(fl, Abs(v));
    ShowSign(v);
    Complement(v);
  }

  lemma PackIntExact(v: int)
    requires -0x8000_0000 <= v < 0x8000_0000
    ensures PackIntX32(v) == PackIntX64(v)
  {
  }

  lemma ShowSign(v: int)
    ensures ToNumber(Show(v)) == v
  {
    ParseDec(Abs(v));
    if v < 0 {
      assert Show(v)[1..] == Dec(-v);
    }
  }

  /** Negating word by word. */
  lemma Complement(v: int)
    requires -TWO63 <= v < TWO63
    ensures Negated(Words(Abs(v) / TWO32, Abs(v) % TWO32), v < 0) == Words(Wrap(v) / TWO32, Wrap(v) % TWO32)
  {
  }

  // ---------------------------------------------------------------------
  // Unpacking
  // ---------------------------------------------------------------------

  /** `hi * 2^32 + lo` split by 10^7, in doubles. */
  function FloatDigits(fl: real -> real, hi: real, lo: real): (real, real)
  {
    var q := fl(hi / 10000000.0).Floor as real;
    var r := fl(hi - fl(q * 10000000.0));
    FloatRest(fl, q, r, fl(lo + fl(r * 4967296.0)))
  }

  function FloatRest(fl: real -> real, q: real, r: real, m: real): (real, real)
  {
    var mq := fl(m / 10000000.0).Floor as real;
    (fl(fl(fl(q * 4294967296.0) + fl(r * 429.0)) + mq), fl(m - fl(mq * 10000000.0)))
  }

  lemma Remainder(fl: real -> real, a: int)
    requires Rounds(fl) && 0 <= a < TWO53
    ensures fl(a as real - fl((a / 10_000_000) as real * 10000000.0)) == (a % 10_000_000) as real
  {
    var q := a / 10_000_000;
    Times(fl, q, 10_000_000);
    Minus(fl, a, q * 10_000_000);
  }

  lemma MiddleDigits(fl: real -> real, r: int, lo: int)
    requires Rounds(fl) && 0 <= r < 10_000_000 && 0 <= lo < TWO32
    ensures 0 <= lo + r * 4967296 < TWO53 && fl(lo as real + fl(r as real * 4967296.0)) == (lo + r * 4967296) as real
  {
    Times(fl, r, 4967296);
    Plus(fl, lo, r * 4967296);
  }

  lemma HighDigits(fl: real -> real, q: int, r: int, mq: int)
    requires Rounds(fl) && 0 <= q < 430 && 0 <= r < 10_000_000 && 0 <= mq < 5_000_000
    ensures fl(fl(fl(q as real * 4294967296.0) + fl(r as real * 429.0)) + mq as real) == (q * TWO32 + r * 429 + mq) as real
  {
    Times(fl, q, TWO32);
    Times(fl, r, 429);
    Plus(fl, q * TWO32, r * 429);
    Plus(fl, q * TWO32 + r * 429, mq);
  }

  /** 2^32 is 429 * 10^7 + 4967296. */
  lemma DigitsOfWords(hi: int, lo: int)
    requires 0 <= hi < TWO32 && 0 <= lo < TWO32
    ensures var q, r := hi / 10_000_000, hi % 10_000_000;
            var m := lo + r * 4967296;
            var n := hi * TWO32 + lo;
            q * TWO32 + r * 429 + m / 10_000_000 == n / 10_000_000 && m % 10_000_000 == n % 10_000_000
  {
    var q, r := hi / 10_000_000, hi % 10_000_000;
    var m := lo + r * 4967296;
    assert hi * TWO32 + lo == (q * TWO32 + r * 429) * 10_000_000 + m;
  }

  lemma FloatDigitsSteps(fl: real -> real, hi: int, lo: int, q: int, r: int, m: int, mq: int)
    requires Rounds(fl) && 0 <= hi < TWO32 && 0 <= lo < TWO32
    requires q == hi / 10_000_000 && r == hi % 10_000_000 && m == lo + r * 4967296 && mq == m / 10_000_000
    ensures FloatDigits(fl, hi as real, lo as real) == ((q * TWO32 + r * 429 + mq) as real, (m % 10_000_000) as real)
  {
    FirstPart(fl, hi, lo, q, r, m);
    SecondPart(fl, q, r, m, mq);
  }

  lemma FirstPart(fl: real -> real, hi: int, lo: int, q: int, r: int, m: int)
    requires Rounds(fl) && 0 <= hi < TWO32 && 0 <= lo < TWO32
    requires q == hi / 10_000_000 && r == hi % 10_000_000 && m == lo + r * 4967296
    ensures FloatDigits(fl, hi as real, lo as real) == FloatRest(fl, q as real, r as real, m as real)
  {
    FloorByTen7(fl, hi);
    Remainder(fl, hi);
    MiddleDigits(fl, r, lo);
  }

  lemma SecondPart(fl: real -> real, q: int, r: int, m: int, mq: int)
    requires Rounds(fl) && 0 <= q < 430 && 0 <= r < 10_000_000 && 0 <= m < 50_000_000_000_000 && mq == m / 10_000_000
    ensures FloatRest(fl, q as real, r as real, m as real) == ((q * TWO32 + r * 429 + mq) as real, (m % 10_000_000) as real)
  {
    FloorByTen7(fl, m);
    Remainder(fl, m);
    HighDigits(fl, q, r, mq);
  }

  lemma FloatDigitsExact(fl: real -> real, hi: int, lo: int)
    requires Rounds(fl) && 0 <= hi < TWO32 && 0 <= lo < TWO32
    ensures var n := hi * TWO32 + lo;
            FloatDigits(fl, hi as real, lo as real) == ((n / 10_000_000) as real, (n % 10_000_000) as real)
  {
    var q, r := hi / 10_000_000, hi % 10_000_000;
    var m := lo + r * 4967296;
    FloatDigitsSteps(fl, hi, lo, q, r, m, m / 10_000_000);
    DigitsOfWords(hi, lo);
  }

  /** High part, then the low part with leading zeros; no high part if it is zero. */
  function Glue(h: nat, k: nat, l: nat): string
  {
    if h == 0 then Dec(l) else Dec(h) + Pad(k, l)
  }

  lemma GlueIsDec(h: nat, k: nat, l: nat, p: nat)
    requires l < p == Pow10(k)
    ensures Glue(h, k, l) == Dec(h * p + l)
  {
    if h > 0 {
      CutAt(h, k, l, p);
    } else {
      assert h * p == 0;
    }
  }

  function Whole(x: real): nat
  {
    if x.Floor < 0 then 0 else x.Floor
  }

  lemma GlueSeven(n: nat)
    ensures Glue(n / 10_000_000, 7, n % 10_000_000) == Dec(n)
  {
    assert Pow10(7) == 10_000_000;
    GlueIsDec(n / 10_000_000, 7, n % 10_000_000, 10_000_000);
  }

  lemma GlueFive(n: nat)
    ensures Glue(n / 100_000, 5, n % 100_000) == Dec(n)
  {
    assert Pow10(5) == 100_000;
    GlueIsDec(n / 100_000, 5, n % 100_000, 100_000);
  }

  /** The part in front of the last seven digits, and those. */
  function DigitsX32(fl: real -> real, w: Words): (nat, nat)
  {
    var (h, l) := FloatDigits(fl, w.h as real, w.l as real);
    (Whole(h), Whole(l))
  }

  lemma DigitsX32Exact(fl: real -> real, w: Words)
    requires Fits(w) && Rounds(fl)
    ensures DigitsX32(fl, w) == (Number(w) / 10_000_000, Number(w) % 10_000_000)
  {
    FloatDigitsExact(fl, w.h, w.l);
    NumberFits(w);
  }

  /** sphUnpackU64, x32 without bcmath. */
  function UnpackUnsignedX32(fl: real -> real, w: Words): string
  {
    if w.h == 0 then Show(w.l) else Glue(DigitsX32(fl, w).0, 7, DigitsX32(fl, w).1)
  }

  lemma UnpackUnsignedExact(fl: real -> real, w: Words)
    requires Fits(w) && Rounds(fl)
    ensures UnpackUnsignedX32(fl, w) == Dec(Number(w))
  {
    DigitsX32Exact(fl, w);
    GlueSeven(Number(w));
  }

  /** High and low part of the split by 10^5, before the carry. */
  function PartsX64(fl: real -> real, w: Words): (int, int)
  {
    (fl(w.h as real / 100000.0).Floor * TWO32 + fl(w.l as real / 100000.0).Floor,
     w.h % 100_000 * TWO32 + w.l % 100_000)
  }

  /** The part in front of the last five digits, and those. */
  function DigitsX64(fl: real -> real, h: int, l: int): (int, int)
  {
    if l > 100_000 then (h + fl(l as real / 100000.0).Floor, l % 100_000) else (h, l)
  }

  /** sphUnpackU64, x64 without bcmath: integers where they fit, else split by 10^5. */
  function UnpackUnsignedX64(fl: real -> real, w: Words): string
  {
    if w.h <= 2147483647 then Show(Number(w))
    else
      var (h, l) := DigitsX64(fl, PartsX64(fl, w).0, PartsX64(fl, w).1);
      Glue(Abs(h), 5, Abs(l))
  }

  lemma SplitByTen5(w: Words)
    requires Fits(w)
    ensures var n := Number(w);
            var h, l := w.h / 100_000 * TWO32 + w.l / 100_000, w.h % 100_000 * TWO32 + w.l % 100_000;
            l >= 0 && h + l / 100_000 == n / 100_000 && l % 100_000 == n % 100_000
  {
    var n := Number(w);
    var h, l := w.h / 100_000 * TWO32 + w.l / 100_000, w.h % 100_000 * TWO32 + w.l % 100_000;
    assert n == h * 100_000 + l;
  }

  lemma PartsX64Exact(fl: real -> real, w: Words)
    requires Fits(w) && Rounds(fl)
    ensures PartsX64(fl, w).0 == w.h / 100_000 * TWO32 + w.l / 100_000
    ensures 0 <= PartsX64(fl, w).1 < TWO53 && PartsX64(fl, w).1 != 100_000
  {
    FloorByTen5(fl, w.h);
    FloorByTen5(fl, w.l);
  }

  /** The carry test leaves out 10^5 itself.  That low part cannot come up: below 2^32 it is
      a remainder by 10^5. */
  lemma DigitsX64Exact(fl: real -> real, h: int, l: int)
    requires Rounds(fl) && 0 <= l < TWO53 && l != 100_000
    ensures DigitsX64(fl, h, l) == (h + l / 100_000, l % 100_000)
  {
    FloorByTen5(fl, l);
  }

  lemma UnpackUnsignedX64Exact(fl: real -> real, w: Words)
    requires Fits(w) && Rounds(fl)
    ensures UnpackUnsignedX64(fl, w) == Dec(Number(w))
  {
    NumberFits(w);
    PartsX64Exact(fl, w);
    DigitsX64Exact(fl, PartsX64(fl, w).0, PartsX64(fl, w).1);
    SplitByTen5(w);
    GlueFive(Number(w));
  }

  // ---------------------------------------------------------------------
  // Signed unpacking
  // ---------------------------------------------------------------------

  function SignedWord(u: int): int
  {
    if u >= 0x8000_0000 then u - TWO32 else u
  }

  function SignedNumber(w: Words): int
  {
    if Number(w) >= TWO63 then Number(w) - TWO64 else Number(w)
  }

  /** The decimal digits of a number plus a carry-in; the last seven may overflow. */
  function DigitsWithCarry(fl: real -> real, u: Words, c: real): string
  {
    CarryIn(fl, FloatDigits(fl, u.h as real, u.l as real).0, FloatDigits(fl, u.h as real, u.l as real).1, c)
  }

  function CarryIn(fl: real -> real, h0: real, l0: real, c: real): string
  {
    var l := fl(l0 + c);
    if l == 10000000.0 then Glue(Whole(fl(h0 + 1.0)), 7, Whole(0.0)) else Glue(Whole(h0), 7, Whole(l))
  }

  /** The general case on x32: a negative number is complemented and one is added at the
      end. */
  function GeneralX32(fl: real -> real, w: Words): string
  {
    if SignedWord(w.h) < 0 then "-" + DigitsWithCarry(fl, Complemented(w), 1.0)
    else DigitsWithCarry(fl, w, 0.0)
  }

  function Complemented(w: Words): Words
  {
    Words(TWO32 - 1 - w.h, TWO32 - 1 - w.l)
  }

  lemma ComplementedPlusOne(w: Words)
    requires Fits(w) && SignedWord(w.h) < 0
    ensures Fits(Complemented(w)) && Number(Complemented(w)) + 1 == -SignedNumber(w)
  {
  }

  /** sphUnpackI64 on x32 without bcmath; words are signed integers there. */
  function UnpackSignedX32(fl: real -> real, w: Words): string
  {
    var h, l := SignedWord(w.h), SignedWord(w.l);
    if h == 0 then Show(w.l)
    else if h == -1 then if l < 0 then Show(l) else Show(l - TWO32)
    else GeneralX32(fl, w)
  }

  function UnpackSignedX64(w: Words): int
  {
    SignedNumber(w)
  }

  lemma CarryInExact(fl: real -> real, n: nat, c: int)
    requires Rounds(fl) && n < TWO64 && 0 <= c <= 1
    ensures CarryIn(fl, (n / 10_000_000) as real, (n % 10_000_000) as real, c as real) == Dec(n + c)
  {
    CarryDigits(n, c);
    GlueSeven(n + c);
    CarryInGlues(fl, n / 10_000_000, n % 10_000_000, c, (n + c) / 10_000_000, (n + c) % 10_000_000);
  }

  lemma CarryInGlues(fl: real -> real, h: nat, l: nat, c: int, h': nat, l': nat)
    requires Rounds(fl) && h < TWO53 && l < 10_000_000 && 0 <= c <= 1
    requires if l + c == 10_000_000 then h' == h + 1 && l' == 0 else h' == h && l' == l + c
    ensures CarryIn(fl, h as real, l as real, c as real) == Glue(h', 7, l')
  {
    Plus(fl, l, c);
    if l + c == 10_000_000 {
      Plus(fl, h, 1);
      CarryOver(fl, h as real, l as real, c as real, h + 1);
    } else {
      CarryStays(fl, h, l as real, c as real, l + c);
    }
  }

  lemma CarryOver(fl: real -> real, h: real, l: real, c: real, h': nat)
    requires fl(l + c) == 10000000.0 && fl(h + 1.0) == h' as real
    ensures CarryIn(fl, h, l, c) == Glue(h', 7, 0)
  {
    WholeOf(h');
    WholeOf(0);
  }

  lemma CarryStays(fl: real -> real, h: nat, l: real, c: real, l': nat)
    requires fl(l + c) == l' as real && l' != 10_000_000
    ensures CarryIn(fl, h as real, l, c) == Glue(h, 7, l')
  {
    WholeOf(h);
    WholeOf(l');
  }

  lemma WholeOf(n: nat)
    ensures Whole(n as real) == n
  {
  }

  lemma CarryDigits(n: nat, c: int)
    requires 0 <= c <= 1
    ensures var h, l := n / 10_000_000, n % 10_000_000 + c;
            if l == 10_000_000 then (n + c) / 10_000_000 == h + 1 && (n + c) % 10_000_000 == 0
            else (n + c) / 10_000_000 == h && (n + c) % 10_000_000 == l
  {
  }

  lemma DigitsWithCarryExact(fl: real -> real, u: Words, c: int)
    requires Fits(u) && Rounds(fl) && 0 <= c <= 1
    ensures DigitsWithCarry(fl, u, c as real) == Dec(Number(u) + c)
  {
    NumberFits(u);
    FloatDigitsExact(fl, u.h, u.l);
    WithDigits(fl, u, c as real, (Number(u) / 10_000_000) as real, (Number(u) % 10_000_000) as real);
    CarryInExact(fl, Number(u), c);
  }

  lemma WithDigits(fl: real -> real, u: Words, c: real, h: real, l: real)
    requires FloatDigits(fl, u.h as real, u.l as real) == (h, l)
    ensures DigitsWithCarry(fl, u, c) == CarryIn(fl, h, l, c)
  {
  }

  lemma GeneralX32Exact(fl: real -> real, w: Words)
    requires Fits(w) && Rounds(fl)
    ensures GeneralX32(fl, w) == Show(SignedNumber(w))
  {
    NumberFits(w);
    if SignedWord(w.h) < 0 {
      ComplementedPlusOne(w);
      DigitsWithCarryExact(fl, Complemented(w), 1);
    } else {
      DigitsWithCarryExact(fl, w, 0);
    }
  }

  lemma UnpackSignedExact(fl: real -> real, w: Words)
    requires Fits(w) && Rounds(fl)
    ensures UnpackSignedX32(fl, w) == Show(SignedNumber(w))
  {
    if SignedWord(w.h) != 0 && SignedWord(w.h) != -1 {
      GeneralX32Exact(fl, w);
    }
  }

  // ---------------------------------------------------------------------
  // Round trips
  // ---------------------------------------------------------------------

  lemma WordsOf(n: int)
    requires 0 <= n < TWO64
    ensures Fits(Words(n / TWO32, n % TWO32)) && Number(Words(n / TWO32, n % TWO32)) == n
  {
  }

  /** Unsigned numbers survive packing on either platform and unpacking on either. */
  lemma UnsignedRoundTrip(fl: real -> real, n: nat)
    requires Rounds(fl) && n < TWO64
    ensures UnpackUnsignedX32(fl, PackUnsignedX32(fl, Dec(n))) == Dec(n)
    ensures UnpackUnsignedX64(fl, PackUnsignedX32(fl, Dec(n))) == Dec(n)
    ensures UnpackUnsignedX32(fl, PackUnsignedX64(fl, Dec(n))) == Dec(n)
    ensures UnpackUnsignedX64(fl, PackUnsignedX64(fl, Dec(n))) == Dec(n)
  {
    var w := Words(n / TWO32, n % TWO32);
    WordsOf(n);
    PackUnsignedExact(fl, n);
    UnpackUnsignedExact(fl, w);
    UnpackUnsignedX64Exact(fl, w);
  }

  /** So do signed numbers. */
  lemma SignedRoundTrip(fl: real -> real, v: int)
    requires Rounds(fl) && -TWO63 <= v < TWO63
    ensures UnpackSignedX32(fl, PackSignedX32(fl, Show(v))) == Show(v)
    ensures UnpackSignedX32(fl, PackIntX64(v)) == Show(v)
    ensures UnpackSignedX64(PackSignedX32(fl, Show(v))) == v == UnpackSignedX64(PackIntX64(v))
    ensures -0x8000_0000 <= v < 0x8000_0000 ==> PackIntX32(v) == PackIntX64(v)
  {
    var n := Wrap(v);
    WordsOf(n);
    PackSignedExact(fl, v);
    UnpackSignedExact(fl, Words(n / TWO32, n % TWO32));
    if -0x8000_0000 <= v < 0x8000_0000 {
      PackIntExact(v);
    }
  }
}
