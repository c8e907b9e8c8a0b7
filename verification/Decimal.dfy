/** Decimal strings. */
module Decimal {

  function Digit(d: int): char
    requires 0 <= d < 10
  {
    "0123456789"[d]
  }

  /** Plain decimal form. */
  function Dec(n: nat): (s: string)
    ensures |s| > 0 && s[0] != '-'
  {
    if n < 10 then [Digit(n)] else Dec(n / 10) + [Digit(n % 10)]
  }

  /** Exactly `k` digits, with leading zeros. */
  function Pad(k: nat, n: nat): (s: string)
    ensures |s| == k && (k > 0 ==> s[0] != '-')
  {
    if k == 0 then "" else Pad(k - 1, n / 10) + [Digit(n % 10)]
  }

  function Show(v: int): string
  {
    if v < 0 then "-" + Dec(-v) else Dec(v)
  }

  function Value(c: char): nat
  {
    if '0' <= c <= '9' then (c as int) - ('0' as int) else 0
  }

  function Parse(s: string): nat
  {
    if s == "" then 0 else 10 * Parse(s[..|s| - 1]) + Value(s[|s| - 1])
  }

  /** The number in a string of digits that may have a sign; a lone sign counts as zero. */
  function ToNumber(s: string): int
  {
    if s != "" && s[0] == '-' then -(Parse(s[1..]) as int) else Parse(s)
  }

  function Pow10(k: nat): (p: nat)
    ensures p > 0
  {
    if k == 0 then 1 else 10 * Pow10(k - 1)
  }

  lemma DigitValue(d: int)
    requires 0 <= d < 10
    ensures Value(Digit(d)) == d && Digit(d) != '-'
  {
  }

  lemma {:induction false} ParseDec(n: nat)
    ensures Parse(Dec(n)) == n
  {
    DigitValue(n % 10);
    var s := Dec(n);
    if n >= 10 {
      ParseDec(n / 10);
      assert s[..|s| - 1] == Dec(n / 10);
    } else {
      assert s[..|s| - 1] == "";
    }
  }

  lemma {:induction false} ParsePad(k: nat, n: nat)
    requires n < Pow10(k)
    ensures Parse(Pad(k, n)) == n
  {
    if k > 0 {
      DigitValue(n % 10);
      ParsePad(k - 1, n / 10);
      var s := Pad(k, n);
      assert s[..|s| - 1] == Pad(k - 1, n / 10);
    }
  }

  /** Decimal strings can be cut at any digit. */
  lemma {:induction false} Cut(h: nat, k: nat, l: nat)
    requires h > 0 && l < Pow10(k)
    ensures Dec(h * Pow10(k) + l) == Dec(h) + Pad(k, l)
    decreases k
  {
    if k == 0 {
      assert h * Pow10(0) + l == h;
      assert Dec(h) + Pad(0, l) == Dec(h);
    } else {
      var p, n := Pow10(k - 1), h * Pow10(k) + l;
      Tenfold(h, p);
      assert n == 10 * (h * p) + l;
      Cut(h, k - 1, l / 10);
      AtLeast(h, p);
      assert n / 10 == h * p + l / 10 && n % 10 == l % 10;
      assert Dec(h) + Pad(k, l) == (Dec(h) + Pad(k - 1, l / 10)) + [Digit(l % 10)];
    }
  }

  lemma Tenfold(h: nat, p: nat)
    ensures h * (10 * p) == 10 * (h * p)
  {
  }

  lemma AtLeast(h: nat, p: nat)
    requires h > 0 && p > 0
    ensures h * p > 0
  {
  }

  lemma {:induction false} DecLength(n: nat, k: nat)
    requires k > 0
    ensures |Dec(n)| <= k <==> n < Pow10(k)
    decreases k
  {
    if k == 1 {
      assert Pow10(1) == 10;
    } else if n >= 10 {
      DecLength(n / 10, k - 1);
    } else {
      Pow10Grows(k);
    }
  }

  lemma {:induction false} Pow10Grows(k: nat)
    requires k > 0
    ensures Pow10(k) >= 10
  {
    if k > 1 {
      Pow10Grows(k - 1);
    } else {
      assert Pow10(1) == 10;
    }
  }
}
