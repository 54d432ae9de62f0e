/** Integral doubles as JSON numbers: below 1e21 they print as plain digits, the shortest that read back. */
module IntegerText {
  import opened AncestorKey
  import opened DoubleText
  import opened ShortestDigits
  import opened JsonNumber

  /** The decimal of an integral double. */
  function FromInteger(n: int): Number {
    var digits := DigitsOf(Shortest(Magnitude(n)));
    Normalized(n < 0, digits, |digits|)
  }

  // ---- How many digits print ----

  lemma {:induction false} NumeralLength(n: nat, k: nat)
    requires k > 0 && n < Pow10(k)
    ensures |Numeral(n)| <= k
  {
    if n >= 10 {
      assert k > 1;
      NumeralLength(n / 10, k - 1);
    }
  }

  lemma LimitIsPower()
    ensures Pow10(21) == LIMIT
  {
    assert Pow10(7) == 10_000_000;
    assert Pow10(14) == 10_000_000 * Pow10(7);
    assert Pow10(21) == 10_000_000 * Pow10(14);
  }

  function Pow2(k: nat): (p: nat)
    ensures p > 0
  {
    if k == 0 then 1 else 2 * Pow2(k - 1)
  }

  lemma {:induction false} UlpOfScaled(q: nat, k: nat)
    requires TWO_TO_52 <= q < TWO_TO_53
    ensures Ulp(Multiple(q, Pow2(k))) == Pow2(k)
  {
    if k > 0 {
      UlpOfScaled(q, k - 1);
      assert Multiple(q, Pow2(k)) == 2 * Multiple(q, Pow2(k - 1));
      MultiplesGrow(TWO_TO_52, q, Pow2(k));
      assert Multiple(TWO_TO_52, Pow2(k)) == TWO_TO_53 * Pow2(k - 1);
      assert Multiple(q, Pow2(k)) >= TWO_TO_53;
    }
  }

  const LIMIT_QUOTIENT: nat := 7_629_394_531_250_000

  lemma LimitIsScaled()
    ensures Pow2(17) == 131_072 && Multiple(LIMIT_QUOTIENT, Pow2(17)) == LIMIT
  {
    assert Pow2(8) == 256;
    assert Pow2(16) == 256 * Pow2(8);
  }

  /** 1e21 is a double: in units of its spacing it has 53 binary digits. */
  lemma LimitIsDouble()
    ensures RoundMagnitude(LIMIT) == LIMIT
  {
    LimitIsScaled();
    UlpOfScaled(LIMIT_QUOTIENT, 17);
    hide Ulp, Pow2;
    assert Quotient(LIMIT, Pow2(17)) == LIMIT_QUOTIENT;
  }

  /** The digits of a number below 1e21 do not round up to it. */
  lemma PrintsBelowLimit(m: nat)
    requires m < LIMIT && RoundMagnitude(m) == m
    ensures Shortest(m) < LIMIT
  {
    hide RoundMagnitude, Shortest, ShortestFrom;
    ShortestReads(m);
    LimitIsDouble();
    if Shortest(m) >= LIMIT {
      RoundIsMonotone(LIMIT, Shortest(m));
    }
  }

  lemma ShortestReads(m: nat)
    requires RoundMagnitude(m) == m
    ensures RoundMagnitude(Shortest(m)) == m
  {
    ShortestFromRoundsBack(m, DigitCount(m));
  }

  // ---- The text ----

  lemma {:induction false} TrailingZeros(digits: Text)
    requires AllDigits(digits)
    ensures |WithoutTrailing(digits)| <= |digits| && AllDigits(WithoutTrailing(digits))
    ensures digits == WithoutTrailing(digits) + Zeros(|digits| - |WithoutTrailing(digits)|)
    ensures WithoutTrailing(digits) != [] ==>
              WithoutTrailing(digits)[0] == digits[0] && WithoutTrailing(digits)[|WithoutTrailing(digits)| - 1] != ZERO
    ensures digits != [] && digits[0] != ZERO ==> WithoutTrailing(digits) != []
  {
    if digits != [] && digits[|digits| - 1] == ZERO {
      var front := digits[..|digits| - 1];
      TrailingZeros(front);
      assert digits == front + [ZERO];
      assert Zeros(|digits| - |WithoutTrailing(front)|) == Zeros(|front| - |WithoutTrailing(front)|) + [ZERO];
    } else {
      assert digits == digits + Zeros(0);
    }
  }

  lemma WholeDigitsPrint(negative: bool, digits: Text)
    requires digits != [] && AllDigits(digits) && digits[0] != ZERO && |digits| <= 21
    ensures IsNumber(Normalized(negative, digits, |digits|))
    ensures NumberText(Normalized(negative, digits, |digits|)) == Sign(negative) + digits
  {
    TrailingZeros(digits);
    var n := Normalized(negative, digits, |digits|);
    assert n.digits == WithoutTrailing(digits) && n.point == |digits|;
    assert NotationText(NotationOf(n)) == digits;
  }

  lemma NumeralStarts(m: nat)
    requires m > 0
    ensures DigitsOf(m)[0] != ZERO
  {
    assert Numeral(m)[0] != '0';
  }

  /** An integral double prints its sign and the shortest digits that read back as it. */
  lemma IntegerPrints(n: int)
    requires IsFinite(n)
    ensures IsNumber(FromInteger(n))
    ensures NumberText(FromInteger(n)) == Sign(n < 0) + DigitsOf(Shortest(Magnitude(n)))
    ensures Round(Signed(n < 0, Shortest(Magnitude(n)))) == n
  {
    var printed := Shortest(Magnitude(n));
    ShortestRoundsBack(n);
    MagnitudeIsDouble(n);
    hide Shortest, IsFinite, Round;
    if n == 0 {
      ZeroPrints();
    } else {
      PositivePrints(Magnitude(n));
      WholeDigitsPrint(n < 0, DigitsOf(printed));
    }
  }

  lemma MagnitudeIsDouble(n: int)
    requires IsFinite(n)
    ensures Magnitude(n) < LIMIT && RoundMagnitude(Magnitude(n)) == Magnitude(n)
  {
    hide RoundMagnitude;
  }

  lemma PositivePrints(m: nat)
    requires 0 < m < LIMIT && RoundMagnitude(m) == m
    ensures |DigitsOf(Shortest(m))| <= 21 && DigitsOf(Shortest(m))[0] != ZERO
  {
    PrintsBelowLimit(m);
    ShortestReads(m);
    ZeroRoundsToZero();
    hide RoundMagnitude, Shortest;
    LimitIsPower();
    NumeralLength(Shortest(m), 21);
    NumeralStarts(Shortest(m));
  }

  lemma ZeroPrints()
    ensures Shortest(0) == 0 && DigitsOf(0) == [ZERO]
    ensures FromInteger(0) == Number(false, [], 0)
  {
    ZeroIsShortest();
    hide Shortest;
    assert Numeral(0) == "0";
    assert DigitsOf(0) == [ZERO];
    assert WithoutLeading([ZERO]) == WithoutLeading([]);
  }

  lemma ZeroIsShortest()
    ensures Shortest(0) == 0
  {
    assert DigitCount(0) == 1 && ShortestFrom(0, 0) == 0;
    StepOfSearch(0, 1);
    TenReads();
    hide ShortestFrom, RoundMagnitude;
  }

  lemma TenReads()
    ensures Low(0, 1) == 0 && High(0, 1) == 10 && RoundMagnitude(10) == 10
  {
    assert Pow10(1) == 10;
    assert Ulp(10) == 1;
  }
}
