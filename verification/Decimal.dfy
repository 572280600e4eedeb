/** Decimal digit strings, and the numbers both runtimes read from strings of digits and dots. */
module Decimal {
  import opened Wrappers
  import Text

  predicate IsDigit(c: char) {
    '0' <= c <= '9'
  }

  predicate AllDigits(s: string) {
    forall i | 0 <= i < |s| :: IsDigit(s[i])
  }

  function DigitValue(c: char): (d: nat)
    requires IsDigit(c)
    ensures d < 10
  {
    c as int - '0' as int
  }

  function DigitChar(d: nat): (c: char)
    requires d < 10
    ensures IsDigit(c) && DigitValue(c) == d
  {
    ('0' as int + d) as char
  }

  function Value(s: string): nat
    requires AllDigits(s)
  {
    if s == "" then 0 else 10 * Value(s[..|s| - 1]) + DigitValue(s[|s| - 1])
  }

  function Pow10(k: nat): (p: nat)
    ensures p > 0
  {
    if k == 0 then 1 else 10 * Pow10(k - 1)
  }

  function ToDigits(n: nat): (s: string)
    ensures s != "" && AllDigits(s)
  {
    if n < 10 then [DigitChar(n)] else ToDigits(n / 10) + [DigitChar(n % 10)]
  }

  /** `toString().padStart(k, "0")`, for a number of at most `k` digits. */
  function Padded(n: nat, k: nat): (s: string)
    ensures |s| == k && AllDigits(s)
  {
    if k == 0 then "" else Padded(n / 10, k - 1) + [DigitChar(n % 10)]
  }

  lemma {:induction false} ValueSnoc(s: string, c: char)
    requires AllDigits(s) && IsDigit(c)
    ensures AllDigits(s + [c]) && Value(s + [c]) == 10 * Value(s) + DigitValue(c)
  {
    assert (s + [c])[..|s|] == s;
  }

  lemma {:induction false} DigitsRoundTrip(n: nat)
    ensures Value(ToDigits(n)) == n
  {
    if n < 10 {
      ValueSnoc("", DigitChar(n));
      assert "" + [DigitChar(n)] == [DigitChar(n)];
    } else {
      DigitsRoundTrip(n / 10);
      ValueSnoc(ToDigits(n / 10), DigitChar(n % 10));
    }
  }

  lemma {:induction false} PaddedValue(n: nat, k: nat)
    requires n < Pow10(k)
    ensures Value(Padded(n, k)) == n
  {
    if k > 0 {
      PaddedValue(n / 10, k - 1);
      ValueSnoc(Padded(n / 10, k - 1), DigitChar(n % 10));
    }
  }

  lemma {:induction false} ValueConcat(a: string, b: string)
    requires AllDigits(a) && AllDigits(b)
    ensures AllDigits(a + b) && Value(a + b) == Value(a) * Pow10(|b|) + Value(b)
  {
    if b == "" {
      assert a + b == a;
    } else {
      var n := |b| - 1;
      assert a + b == (a + b[..n]) + [b[n]];
      ValueConcat(a, b[..n]);
      ValueSnoc(a + b[..n], b[n]);
      Shift(Value(a), Pow10(n));
    }
  }

  // Products, one identity at a time.

  lemma {:induction false} Shift(v: nat, p: nat)
    ensures v * (10 * p) == 10 * (v * p)
  {
  }

  /** `a` times `b`, where `a` is ten times `p` and `b` is `q`. */
  lemma {:induction false} TenTimesProduct(a: int, b: int, p: int, q: int)
    requires a == 10 * p && b == q
    ensures a * b == 10 * (p * q)
  {
  }

  lemma {:induction false} Distribute(p: int, x: int, y: int)
    ensures p * (x + y) == p * x + p * y
  {
  }

  lemma {:induction false} ProductIsNonNegative(p: int, x: int)
    requires p >= 0 && x >= 0
    ensures p * x >= 0
  {
  }

  /** A decimal numeral of `k + 1` digits: its leading digit, and what remains without it. */
  lemma {:induction false} LeadingDigit(n: nat, k: nat)
    requires Pow10(k) <= n < Pow10(k + 1)
    ensures |ToDigits(n)| == k + 1
    ensures 0 < n / Pow10(k) < 10 && ToDigits(n)[0] == DigitChar(n / Pow10(k))
    ensures AllDigits(ToDigits(n)[1..]) && Value(ToDigits(n)[1..]) == n % Pow10(k)
  {
    var p := Pow10(k);
    if k == 0 {
      assert ToDigits(n)[1..] == "";
      assert n / p == n && n % p == 0;
    } else {
      var front, last := ToDigits(n / 10), DigitChar(n % 10);
      var q := Pow10(k - 1);
      assert p == 10 * q;
      LeadingDigit(n / 10, k - 1);
      assert ToDigits(n)[1..] == front[1..] + [last];
      ValueSnoc(front[1..], last);
      DivideByTenFirst(n, q);
    }
  }

  lemma {:induction false} DivideByTenFirst(n: nat, q: nat)
    requires q > 0
    ensures n / (10 * q) == (n / 10) / q
    ensures n % (10 * q) == 10 * ((n / 10) % q) + n % 10
  {
    var m, r := n / 10, n % 10;
    var d, e := m / q, m % q;
    TenTimesProduct(10 * q, d, q, d);
    assert n == (10 * q) * d + (10 * e + r);
    QuotientIsUnique(n, 10 * q, d, 10 * e + r);
  }

  lemma {:induction false} NextMultiple(p: nat, d: nat, e: nat)
    requires d < e
    ensures p * e >= p * d + p
  {
    var k := e - d - 1;
    Distribute(p, d, 1 + k);
    Distribute(p, 1, k);
    ProductIsNonNegative(p, k);
    assert d + (1 + k) == e;
  }

  lemma {:induction false} QuotientIsUnique(n: nat, p: nat, d: nat, r: nat)
    requires p > 0 && n == p * d + r && r < p
    ensures n / p == d && n % p == r
  {
    var d', r' := n / p, n % p;
    assert n == p * d' + r';
    if d' < d {
      NextMultiple(p, d', d);
    } else if d < d' {
      NextMultiple(p, d, d');
    }
  }

  lemma {:induction false} FiveDigits(n: nat)
    requires 10_000 <= n < 100_000
    ensures |ToDigits(n)| == 5 && ToDigits(n)[0] == DigitChar(n / 10_000)
    ensures AllDigits(ToDigits(n)[1..]) && Value(ToDigits(n)[1..]) == n % 10_000
  {
    assert Pow10(4) == 10_000 && Pow10(5) == 100_000 by { SmallPowers(); }
    LeadingDigit(n, 4);
  }

  lemma {:induction false} SixDigits(n: nat)
    requires 100_000 <= n < 1_000_000
    ensures |ToDigits(n)| == 6 && ToDigits(n)[0] == DigitChar(n / 100_000)
    ensures AllDigits(ToDigits(n)[1..]) && Value(ToDigits(n)[1..]) == n % 100_000
  {
    assert Pow10(5) == 100_000 && Pow10(6) == 1_000_000 by { SmallPowers(); }
    LeadingDigit(n, 5);
  }

  // ----- numbers read from strings

  /** `mantissa / 10^scale`, negated if `negative`. */
  datatype Number = Number(negative: bool, mantissa: nat, scale: nat)

  /** Digits with at most one dot among them and at least one digit. */
  function ReadUnsigned(s: string): Option<Number> {
    var parts := Text.Split(s, '.');
    if |parts| == 1 && s != "" && AllDigits(s) then Some(Number(false, Value(s), 0))
    else if |parts| == 2 && AllDigits(parts[0]) && AllDigits(parts[1]) && |s| > 1 then
      ValueConcat(parts[0], parts[1]);
      Some(Number(false, Value(parts[0] + parts[1]), |parts[1]|))
    else None
  }

  /** `Number(s)` for a string of digits, commas, dots and signs; `None` is NaN. The empty string reads as 0. */
  function ReadNumber(s: string): Option<Number> {
    if s == "" then Some(Number(false, 0, 0))
    else if s[0] == '-' then
      match ReadUnsigned(s[1..]) case None => None case Some(n) => Some(n.(negative := true))
    else if s[0] == '+' then ReadUnsigned(s[1..])
    else ReadUnsigned(s)
  }

  lemma {:induction false} DigitsDoNotSplit(s: string, c: char)
    requires AllDigits(s) && !IsDigit(c)
    ensures Text.Split(s, c) == [s] && c !in s
  {
    if s != "" {
      DigitsDoNotSplit(s[1..], c);
      assert s == [s[0]] + s[1..];
    }
  }

  lemma {:induction false} ReadDigits(s: string)
    requires AllDigits(s) && s != ""
    ensures ReadNumber(s) == Some(Number(false, Value(s), 0))
  {
    DigitsDoNotSplit(s, '.');
  }

  lemma {:induction false} ReadFraction(s: string, f: string)
    requires AllDigits(s) && AllDigits(f) && s != ""
    ensures ReadNumber(s + "." + f) == Some(Number(false, Value(s) * Pow10(|f|) + Value(f), |f|))
  {
    DigitsDoNotSplit(s, '.');
    DigitsDoNotSplit(f, '.');
    assert s + "." + f == s + (['.'] + f);
    Text.SplitPrefix(s, '.', ['.'] + f);
    assert (['.'] + f)[1..] == f;
    assert s + "" == s;
    assert Text.Split(s + "." + f, '.') == [s, f];
    ValueConcat(s, f);
    assert (s + "." + f)[0] == s[0];
  }

  /** `m / 10^k`, without the last `k` digits. */
  function Dropped(m: nat, k: nat): nat {
    if k == 0 then m else Dropped(m / 10, k - 1)
  }

  /** The last `k` digits are zeros. */
  predicate EndsInZeros(m: nat, k: nat) {
    k == 0 || (m % 10 == 0 && EndsInZeros(m / 10, k - 1))
  }

  /** The magnitude in hundredths, rounded at the third decimal with half going up: `toFixed(2)`. */
  function Hundredths(n: Number): nat {
    if n.scale == 0 then 100 * n.mantissa
    else if n.scale == 1 then 10 * n.mantissa
    else if n.scale == 2 then n.mantissa
    else (Dropped(n.mantissa, n.scale - 3) + 5) / 10
  }

  lemma {:induction false} SmallPowers()
    ensures Pow10(0) == 1 && Pow10(1) == 10 && Pow10(2) == 100 && Pow10(3) == 1000
    ensures Pow10(4) == 10000 && Pow10(5) == 100000 && Pow10(6) == 1000000
  {
  }

  lemma {:induction false} DroppedBounds(m: nat, k: nat)
    ensures Pow10(k) * Dropped(m, k) <= m < Pow10(k) * Dropped(m, k) + Pow10(k)
  {
    if k > 0 {
      var p, q := Pow10(k - 1), Dropped(m / 10, k - 1);
      DroppedBounds(m / 10, k - 1);
      TenTimesProduct(Pow10(k), Dropped(m, k), p, q);
      TenTimesBounds(m, p * q, p);
    }
  }

  lemma {:induction false} TenTimesBounds(m: nat, x: int, p: int)
    requires x <= m / 10 < x + p
    ensures 10 * x <= m < 10 * x + 10 * p
  {
  }

  /** Beyond two decimals the result is within half a hundredth, the half itself going up. */
  lemma {:induction false} HundredthsIsNearest(n: Number)
    requires n.scale > 2
    ensures var p := Pow10(n.scale - 2);
      2 * (p * Hundredths(n)) - p <= 2 * n.mantissa < 2 * (p * Hundredths(n)) + p
  {
    var k := n.scale - 3;
    var p, q := Pow10(k), Dropped(n.mantissa, k);
    var h := (q + 5) / 10;
    DroppedBounds(n.mantissa, k);
    assert Pow10(n.scale - 2) == 10 * p;
    NearestTen(p, q, h, n.mantissa);
  }

  lemma {:induction false} NearestTen(p: nat, q: nat, h: nat, m: nat)
    requires p > 0 && h == (q + 5) / 10 && p * q <= m < p * q + p
    ensures 2 * ((10 * p) * h) - 10 * p <= 2 * m < 2 * ((10 * p) * h) + 10 * p
  {
    var r := q - 10 * h;
    assert -5 <= r <= 4;
    Distribute(p, 10 * h, r);
    assert 10 * h + r == q;
    TenTimesProduct(10 * h, p, h, p);
    TenTimesProduct(10 * p, h, p, h);
    MulBounds(p, r, -5, 4);
  }

  lemma {:induction false} MulBounds(p: nat, x: int, lo: int, hi: int)
    requires lo <= x <= hi
    ensures p * lo <= p * x <= p * hi
  {
    Distribute(p, lo, x - lo);
    ProductIsNonNegative(p, x - lo);
    assert lo + (x - lo) == x;
    Distribute(p, x, hi - x);
    ProductIsNonNegative(p, hi - x);
    assert x + (hi - x) == hi;
  }
}
