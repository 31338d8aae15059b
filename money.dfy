/** Amounts of money and the calculator's rounding.

    The source keeps amounts as JavaScript numbers with two decimals and
    rounds with `parseFloat(value.toFixed(2))`.  Here every amount is an
    exact number of cents, and rounding is exact: `toFixed` makes the value
    non-negative, picks the nearest representable decimal and, on a tie,
    the larger one, i.e. halves are rounded away from zero. */
module Money {

  /** An amount of money, in cents (may be negative: balances are signed). */
  type Cents = int

  function Abs(x: int): (r: nat)
    ensures r == x || r == -x
  {
    if x < 0 then -x else x
  }

  function Min(a: int, b: int): (r: int)
    ensures r <= a && r <= b
    ensures r == a || r == b
  {
    if a <= b then a else b
  }

  /** `roundHalfUp` of the exact value `num / den` cents: the nearest whole
      number of cents, with halves going away from zero. */
  function RoundHalfUp(num: int, den: int): (r: Cents)
    requires den > 0
    ensures 2 * Abs(num - r * den) <= den
    ensures 2 * Abs(num - r * den) == den ==> Abs(r * den) > Abs(num)
  {
    if num >= 0 then
      var q := (2 * num + den) / (2 * den);
      HalfUpNonNegative(num, den, q);
      q
    else
      var q := (2 * -num + den) / (2 * den);
      HalfUpNonNegative(-num, den, q);
      assert (-q) * den == -(q * den);
      -q
  }

  /** Rounding a non-negative quotient half up with integer division. */
  lemma HalfUpNonNegative(a: nat, d: int, q: int)
    requires d > 0 && q == (2 * a + d) / (2 * d)
    ensures q >= 0 && 2 * Abs(a - q * d) <= d && (2 * Abs(a - q * d) == d ==> q * d > a)
  {
    var m := (2 * a + d) % (2 * d);
    assert 2 * a + d == 2 * d * q + m && 0 <= m < 2 * d;
    assert 2 * (a - q * d) == m - d;
  }

  /** The two properties of RoundHalfUp pin its result down: no other
      number of cents is as near to `num / den` with the same tie rule. */
  lemma RoundHalfUpUnique(num: int, den: int, r: int)
    requires den > 0
    requires 2 * Abs(num - r * den) <= den
    requires 2 * Abs(num - r * den) == den ==> Abs(r * den) > Abs(num)
    ensures r == RoundHalfUp(num, den)
  {
    NearestUnique(num, den, r, RoundHalfUp(num, den));
  }

  /** Two whole numbers of cents that both round `num / den` half away from
      zero are equal. */
  lemma NearestUnique(num: int, den: int, r: int, s: int)
    requires den > 0
    requires 2 * Abs(num - r * den) <= den
    requires 2 * Abs(num - r * den) == den ==> Abs(r * den) > Abs(num)
    requires 2 * Abs(num - s * den) <= den
    requires 2 * Abs(num - s * den) == den ==> Abs(s * den) > Abs(num)
    ensures r == s
  {
    if r != s {
      // Both lie within half a unit of num / den, so they are one unit apart,
      // both are ties, and num / den lies exactly between two whole cents.
      var rd, sd := r * den, s * den;
      Distribute(r, s, den);
      UnitApart(r - s, den);
      NonZeroMultiple(r + s, den);
      TiesDisagree(num, den, rd, sd);
      assert false;
    }
  }

  lemma Distribute(r: int, s: int, d: int)
    ensures (r - s) * d == r * d - s * d
    ensures (r + s) * d == r * d + s * d
  {
  }

  /** An integer multiple `k * d` of `d` within one `d` of zero has |k| <= 1. */
  lemma UnitApart(k: int, d: int)
    requires d > 0 && -d <= k * d <= d && k != 0
    ensures k == 1 || k == -1
  {
  }

  lemma NonZeroMultiple(m: int, d: int)
    requires d > 0 && m != 0
    ensures Abs(m * d) >= d
  {
    if m > 0 {
      assert (m - 1) * d >= 0;
    } else {
      assert (-m - 1) * d >= 0;
    }
  }

  /** Two candidates `a` and `b`, one `d` apart, that are both halfway
      from `num` cannot both lie farther from zero than `num`. */
  lemma TiesDisagree(num: int, d: int, a: int, b: int)
    requires d > 0 && (a - b == d || b - a == d)
    requires 2 * Abs(num - a) <= d && 2 * Abs(num - b) <= d
    requires Abs(a + b) >= d
    ensures 2 * Abs(num - a) == d && 2 * Abs(num - b) == d
    ensures Abs(a) <= Abs(num) || Abs(b) <= Abs(num)
  {
  }

  /** Rounding a value that is already a whole number of cents changes nothing. */
  lemma RoundWholeCents(c: Cents)
    ensures RoundHalfUp(c, 1) == c
  {
  }

  /** The two fair shares the test suite states: 500.00 over two people is
      250.00 each, and 1000.00 over three is 333.33 each. */
  lemma ShareExamples()
    ensures RoundHalfUp(50000, 2) == 25000
    ensures RoundHalfUp(100000, 3) == 33333
  {
  }
}
