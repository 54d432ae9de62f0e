/** Integers as double-precision numbers: rounding, and the shortest numeral that rounds back. */
module DoubleText {
  const TWO_TO_53: int := 9_007_199_254_740_992

  /** From here on numbers print with an exponent. */
  const LIMIT: int := 1_000_000_000_000_000_000_000

  /** The distance between the doubles at and above `m`. */
  function Ulp(m: nat): (u: nat)
    ensures u > 0
  {
    if m < TWO_TO_53 then 1 else 2 * Ulp(m / 2)
  }

  function Multiple(q: nat, u: nat): nat { q * u }

  function Quotient(m: nat, u: nat): nat
    requires u > 0
  {
    m / u
  }

  /** The double nearest to `m`, ties to an even significand. */
  function RoundMagnitude(m: nat): nat {
    var u := Ulp(m);
    var q := Quotient(m, u);
    var r := m - Multiple(q, u);
    Multiple(if 2 * r < u || (2 * r == u && q % 2 == 0) then q else q + 1, u)
  }

  function Magnitude(n: int): nat { if n < 0 then -n else n }

  function Signed(negative: bool, m: nat): int { if negative then 0 - m else m }

  function Round(n: int): int { Signed(n < 0, RoundMagnitude(Magnitude(n))) }

  /** An integer that is a double, below the size at which doubles print with an exponent. */
  predicate IsFinite(n: int) { -LIMIT < n < LIMIT && Round(n) == n }

  function Pow10(k: nat): (p: nat)
    ensures p > 0
  {
    if k == 0 then 1 else 10 * Pow10(k - 1)
  }

  /** With `k` zeros at the end if such a numeral rounds to `m`, the closer one of two; else with fewer. */
  function ShortestFrom(m: nat, k: nat): nat {
    if k == 0 then m
    else
      var p := Pow10(k);
      var q := Quotient(m, p);
      var low, high := Multiple(q, p), Multiple(q + 1, p);
      var lowFits, highFits := low > 0 && RoundMagnitude(low) == m, RoundMagnitude(high) == m;
      if lowFits && (!highFits || 2 * m < low + high || (2 * m == low + high && q % 2 == 0)) then low
      else if highFits then high
      else ShortestFrom(m, k - 1)
  }

  /** The numeral that prints: of the fewest digits that round back. */
  function Shortest(m: nat): nat { ShortestFrom(m, DigitCount(m)) }

  function DigitCount(m: nat): nat { if m < 10 then 1 else 1 + DigitCount(m / 10) }

  lemma {:induction false} ShortestFromRoundsBack(m: nat, k: nat)
    requires RoundMagnitude(m) == m
    ensures RoundMagnitude(ShortestFrom(m, k)) == m
  {
    hide RoundMagnitude, Multiple, Quotient, Pow10;
    if k > 0 {
      ShortestFromRoundsBack(m, k - 1);
    }
  }

  /** Reading the printed numeral of a double as a double gives it back. */
  lemma ShortestRoundsBack(n: int)
    requires IsFinite(n)
    ensures var printed := Shortest(Magnitude(n));
            Round(Signed(n < 0, printed)) == n && (n < 0 ==> printed > 0)
  {
    ZeroRoundsToZero();
    hide RoundMagnitude, ShortestFrom;
    ShortestFromRoundsBack(Magnitude(n), DigitCount(Magnitude(n)));
  }

  lemma ZeroRoundsToZero()
    ensures RoundMagnitude(0) == 0
  {
  }
}
