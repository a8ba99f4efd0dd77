/**
 * Exact base-10 money, standing in for C# `decimal` and
 * `Math.Round(x, 2, MidpointRounding.ToEven)`.
 *
 * Amounts that the aggregate stores (unit prices, line totals, sale totals)
 * are whole cents. A price handed in from outside is a `Decimal`, i.e.
 * `mantissa / 10^scale`, so that its rounding to cents is visible.
 */
module Money {

  function Pow10(n: nat): (r: nat)
    ensures r >= 1
  {
    if n == 0 then 1 else 10 * Pow10(n - 1)
  }

  /** `mantissa / 10^scale`, as C# `decimal` holds it. */
  datatype Decimal = Decimal(mantissa: int, scale: nat)

  /** A whole number of cents as a `Decimal`. */
  function Cents(c: int): Decimal {
    Decimal(c, 2)
  }

  function Dist(a: int, b: int): nat {
    if a <= b then b - a else a - b
  }

  /** `r` is `n / d` rounded to the nearest integer, a tie going to the even
      neighbour: the definition of `MidpointRounding.ToEven`. */
  ghost predicate IsRoundedHalfEven(r: int, n: int, d: int)
    requires d > 0
  {
    && 2 * Dist(r * d, n) <= d
    && (2 * Dist(r * d, n) == d ==> r % 2 == 0)
  }

  function RoundNonNegative(n: nat, d: nat): (r: nat)
    requires d > 0
    ensures IsRoundedHalfEven(r, n, d)
  {
    var q := n / d;
    var rem := n % d;
    QuotientNeighbours(n, d);
    if 2 * rem < d then q
    else if 2 * rem > d then q + 1
    else if q % 2 == 0 then q
    else q + 1
  }

  /** `n / d` lies `n % d` above its floor and `d - n % d` below the next
      integer. */
  lemma QuotientNeighbours(n: nat, d: nat)
    requires d > 0
    ensures Dist((n / d) * d, n) == n % d
    ensures Dist((n / d + 1) * d, n) == d - n % d
  {
    assert n == (n / d) * d + n % d;
    assert (n / d + 1) * d == (n / d) * d + d;
  }

  /** Division by `d` rounded half-to-even; negative values round
      symmetrically, as `Math.Round` does. */
  function RoundHalfEven(n: int, d: int): (r: int)
    requires d > 0
    ensures IsRoundedHalfEven(r, n, d)
  {
    if n >= 0 then RoundNonNegative(n, d)
    else
      var q: int := RoundNonNegative(-n, d);
      RoundingNegates(q, -n, d);
      -q
  }

  /** Rounding is symmetric about zero. */
  lemma RoundingNegates(q: int, n: int, d: int)
    requires d > 0 && IsRoundedHalfEven(q, n, d)
    ensures IsRoundedHalfEven(-q, -n, d)
  {
    assert (-q) * d == -(q * d);
    assert Dist((-q) * d, -n) == Dist(q * d, n);
  }

  /** Sign facts about `k * d` for positive `d`. */
  lemma MulFacts(k: int, d: int)
    requires d > 0
    ensures k >= 1 ==> k * d >= d
    ensures k >= 2 ==> k * d >= 2 * d
  {
    if k >= 2 {
      assert k * d == (k - 2) * d + 2 * d;
    } else if k >= 1 {
      assert k * d == (k - 1) * d + d;
    }
  }

  /** At most one integer is the half-to-even rounding of `n / d`, so
      `RoundHalfEven` is the only function meeting its contract. */
  lemma RoundingUnique(a: int, b: int, n: int, d: int)
    requires d > 0
    requires IsRoundedHalfEven(a, n, d) && IsRoundedHalfEven(b, n, d)
    ensures a == b
  {
    assert Dist(a * d, b * d) == Dist(a, b) * d by {
      if a <= b {
        assert b * d - a * d == (b - a) * d;
      } else {
        assert a * d - b * d == (a - b) * d;
      }
    }
    MulFacts(Dist(a, b), d);
  }

  /** An exact multiple rounds to its quotient. */
  lemma RoundExact(k: int, d: int)
    requires d > 0
    ensures RoundHalfEven(k * d, d) == k
  {
    assert IsRoundedHalfEven(k, k * d, d);
    RoundingUnique(RoundHalfEven(k * d, d), k, k * d, d);
  }

  /** Rounding a value in `[0, k]` stays in `[0, k]`. */
  lemma RoundBounds(n: int, d: int, k: int)
    requires d > 0 && 0 <= n <= k * d
    ensures 0 <= RoundHalfEven(n, d) <= k
  {
    var r := RoundHalfEven(n, d);
    assert r * d - k * d == (r - k) * d;
    MulFacts(r - k, d);
    assert (-r) * d == -(r * d);
    MulFacts(-r, d);
  }

  lemma Pow10Add(a: nat, b: nat)
    ensures Pow10(a + b) == Pow10(a) * Pow10(b)
  {
    if a > 0 {
      Pow10Add(a - 1, b);
    }
  }

  /** Scaling numerator and denominator by the same positive factor does not
      change the rounding. */
  lemma RoundingScales(r: int, n: int, d: int, f: int)
    requires d > 0 && f > 0
    requires IsRoundedHalfEven(r, n, d)
    ensures IsRoundedHalfEven(r, n * f, d * f)
  {
    assert Dist(r * (d * f), n * f) == Dist(r * d, n) * f by {
      assert r * (d * f) == (r * d) * f;
      if r * d <= n {
        assert n * f - (r * d) * f == (n - r * d) * f;
      } else {
        assert (r * d) * f - n * f == (r * d - n) * f;
      }
    }
    assert 2 * (Dist(r * d, n) * f) == (2 * Dist(r * d, n)) * f;
    assert (d * f) == d * f;
    if 2 * Dist(r * d, n) < d {
      assert (2 * Dist(r * d, n)) * f < d * f;
    }
  }

  lemma MulAssoc(a: int, b: int, c: int)
    ensures (a * b) * c == a * (b * c)
  {
  }

  /** With at most two decimals the amount is already a whole number of cents. */
  lemma ScaleUpExact(m: int, s: nat)
    requires s <= 2
    ensures IsRoundedHalfEven(m * Pow10(2 - s), m * 100, Pow10(s))
  {
    Pow10Add(2 - s, s);
    assert Pow10(2) == 100;
    MulAssoc(m, Pow10(2 - s), Pow10(s));
  }

  /** With more than two decimals, rounding `m / 10^(s-2)` rounds the cent
      amount `m * 100 / 10^s`. */
  lemma ScaleDownRounds(m: int, s: nat)
    requires s > 2
    ensures IsRoundedHalfEven(RoundHalfEven(m, Pow10(s - 2)), m * 100, Pow10(s))
    ensures m >= 0 ==> RoundHalfEven(m, Pow10(s - 2)) >= 0
  {
    var d := Pow10(s - 2);
    CentsDenominator(s);
    RoundingScales(RoundHalfEven(m, d), m, d, 100);
  }

  lemma CentsDenominator(s: nat)
    requires s >= 2
    ensures Pow10(s) == Pow10(s - 2) * 100
  {
    Pow10Add(s - 2, 2);
    assert Pow10(2) == 100;
  }

  /** `Math.Round(price, 2, MidpointRounding.ToEven)`, in cents. */
  function RoundToCents(x: Decimal): (r: int)
    ensures IsRoundedHalfEven(r, x.mantissa * 100, Pow10(x.scale))
    ensures x.mantissa >= 0 ==> r >= 0
  {
    if x.scale <= 2 then
      ScaleUpExact(x.mantissa, x.scale);
      x.mantissa * Pow10(2 - x.scale)
    else
      ScaleDownRounds(x.mantissa, x.scale);
      RoundHalfEven(x.mantissa, Pow10(x.scale - 2))
  }

  /** A whole number of cents survives the rounding to cents unchanged: the
      rounding applied to sums of already-rounded amounts is a no-op. */
  lemma RoundToCentsOfCents(c: int)
    ensures RoundToCents(Cents(c)) == c
  {
    assert IsRoundedHalfEven(c, c * 100, Pow10(2));
    RoundingUnique(RoundToCents(Cents(c)), c, c * 100, Pow10(2));
  }
}
