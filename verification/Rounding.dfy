/** What the roundings of the money code mean: the nearest value, and which one of two equally near. */
module Rounding {
  import opened Decimal
  import opened AmountParser
  import opened Currency

  /** `toMinorUnits` gives the nearest integer, the upper one of two: `x - 1/2 < result <= x + 1/2`. */
  lemma {:induction false} ToMinorUnitsIsNearest(hundredths: int, digits: nat)
    requires digits in {0, 2, 3}
    ensures var scaled := hundredths * Pow10(digits);
      2 * scaled - 100 < 200 * ToMinorUnits(hundredths, digits) <= 2 * scaled + 100
  {
    SmallPowers();
  }

  lemma {:induction false} ZerosIffExact(m: nat, k: nat)
    ensures EndsInZeros(m, k) <==> m == Pow10(k) * Dropped(m, k)
  {
    if k > 0 {
      ZerosIffExact(m / 10, k - 1);
      TenTimesProduct(Pow10(k), Dropped(m, k), Pow10(k - 1), Dropped(m / 10, k - 1));
      TenTimesExact(m, Pow10(k - 1) * Dropped(m / 10, k - 1));
    }
  }

  lemma {:induction false} TenTimesExact(m: nat, x: int)
    ensures m == 10 * x <==> m % 10 == 0 && m / 10 == x
  {
  }

  /** Beyond two decimals, Python's result is within half a hundredth, and even at exactly half. */
  lemma {:induction false} HalfEvenIsNearest(n: Number)
    requires n.scale > 2
    ensures var p, h := Pow10(n.scale - 2), HalfEvenHundredths(n);
      && 2 * (p * h) - p <= 2 * n.mantissa <= 2 * (p * h) + p
      && (2 * n.mantissa == 2 * (p * h) - p || 2 * n.mantissa == 2 * (p * h) + p ==> h % 2 == 0)
  {
    var k := n.scale - 3;
    var p, shorter := Pow10(k), Dropped(n.mantissa, k);
    DroppedBounds(n.mantissa, k);
    ZerosIffExact(n.mantissa, k);
    assert Pow10(n.scale - 2) == 10 * p;
    HalfEvenTen(p, shorter, n.mantissa, HalfEvenHundredths(n));
  }

  lemma {:induction false} HalfEvenTen(p: nat, shorter: nat, m: nat, h: nat)
    requires p > 0 && p * shorter <= m < p * shorter + p
    requires var q, next := shorter / 10, shorter % 10;
      h == if next > 5 || (next == 5 && (q % 2 == 1 || m != p * shorter)) then q + 1 else q
    ensures 2 * ((10 * p) * h) - 10 * p <= 2 * m <= 2 * ((10 * p) * h) + 10 * p
    ensures 2 * m == 2 * ((10 * p) * h) - 10 * p || 2 * m == 2 * ((10 * p) * h) + 10 * p ==> h % 2 == 0
  {
    var q, next := shorter / 10, shorter % 10;
    assert 10 * q + next == shorter;
    Distribute(p, 10 * q, next);
    TenTimesProduct(10 * q, p, q, p);
    TenTimesProduct(10 * p, q, p, q);
    TenTimesProduct(10 * p, q + 1, p, q + 1);
    Distribute(p, q, 1);
    MulBounds(p, next, if next > 5 then 6 else if next == 5 then 5 else 0, if next < 5 then 4 else if next == 5 then 5 else 9);
    HalfEvenChoice(p, p * q, p * next, m, q, next, h, (10 * p) * h);
  }

  /** The choice itself, the products having names. */
  lemma {:induction false} HalfEvenChoice(p: nat, pq: nat, pnext: int, m: nat, q: nat, next: nat, h: nat, ph: nat)
    requires p > 0 && next < 10 && 10 * pq + pnext <= m < 10 * pq + pnext + p
    requires next > 5 ==> 6 * p <= pnext <= 9 * p
    requires next == 5 ==> pnext == 5 * p
    requires next < 5 ==> 0 <= pnext <= 4 * p
    requires h == if next > 5 || (next == 5 && (q % 2 == 1 || m != 10 * pq + pnext)) then q + 1 else q
    requires ph == if h == q then 10 * pq else 10 * pq + 10 * p
    ensures 2 * ph - 10 * p <= 2 * m <= 2 * ph + 10 * p
    ensures 2 * m == 2 * ph - 10 * p || 2 * m == 2 * ph + 10 * p ==> h % 2 == 0
  {
  }
}
