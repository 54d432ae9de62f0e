/**
 The printed digits of an integral double are the fewest that round back to it, and among those the
 nearest: rounding is monotone, so only the two multiples around the number matter.
 */
module ShortestDigits {
  import opened DoubleText

  const TWO_TO_52: int := 4_503_599_627_370_496

  // ---- Quotients and multiples ----

  lemma QuotientBounds(m: nat, u: nat)
    requires u > 0
    ensures Multiple(Quotient(m, u), u) <= m < Multiple(Quotient(m, u) + 1, u)
  {
  }

  lemma MultiplesGrow(a: nat, b: nat, u: nat)
    requires a <= b
    ensures Multiple(a, u) <= Multiple(b, u)
  {
  }

  lemma NextMultiple(q: nat, u: nat)
    ensures Multiple(q + 1, u) == Multiple(q, u) + u
  {
  }

  lemma QuotientAtLeast(q: nat, u: nat, m: nat)
    requires u > 0 && Multiple(q, u) <= m
    ensures q <= Quotient(m, u)
  {
    hide Quotient;
    QuotientBounds(m, u);
    if Quotient(m, u) + 1 <= q {
      MultiplesGrow(Quotient(m, u) + 1, q, u);
    }
  }

  lemma QuotientBelow(q: nat, u: nat, m: nat)
    requires u > 0 && m < Multiple(q, u)
    ensures Quotient(m, u) < q
  {
    hide Quotient;
    QuotientBounds(m, u);
    if q <= Quotient(m, u) {
      MultiplesGrow(q, Quotient(m, u), u);
    }
  }

  // ---- Rounding is monotone ----

  /** A number has at most 53 binary digits in units of its spacing, and all 53 where that is above 1. */
  lemma {:induction false} UlpBounds(m: nat)
    ensures m < Multiple(TWO_TO_53, Ulp(m))
    ensures Ulp(m) > 1 ==> Multiple(TWO_TO_52, Ulp(m)) <= m
  {
    if m >= TWO_TO_53 {
      UlpBounds(m / 2);
    }
  }

  lemma {:induction false} UlpGrows(a: nat, b: nat)
    requires a <= b
    ensures Ulp(a) == Ulp(b) || 2 * Ulp(a) <= Ulp(b)
  {
    if b >= TWO_TO_53 {
      if a >= TWO_TO_53 {
        UlpGrows(a / 2, b / 2);
      }
    }
  }

  function RoundedQuotient(m: nat): nat {
    var u := Ulp(m);
    var q := Quotient(m, u);
    var r := m - Multiple(q, u);
    if 2 * r < u || (2 * r == u && q % 2 == 0) then q else q + 1
  }

  lemma RoundIsMultiple(m: nat)
    ensures RoundMagnitude(m) == Multiple(RoundedQuotient(m), Ulp(m))
    ensures Quotient(m, Ulp(m)) <= RoundedQuotient(m) <= Quotient(m, Ulp(m)) + 1
  {
    hide Ulp, Quotient, Multiple;
  }

  lemma RoundInOneSpacing(a: nat, b: nat)
    requires a <= b && Ulp(a) == Ulp(b)
    ensures RoundMagnitude(a) <= RoundMagnitude(b)
  {
    var u := Ulp(a);
    RoundIsMultiple(a);
    RoundIsMultiple(b);
    QuotientBounds(a, u);
    QuotientAtLeast(Quotient(a, u), u, b);
    hide RoundMagnitude, Ulp, Quotient, Multiple;
    MultiplesGrow(RoundedQuotient(a), RoundedQuotient(b), u);
  }

  lemma RoundAcrossSpacings(a: nat, b: nat)
    requires a <= b && 2 * Ulp(a) <= Ulp(b)
    ensures RoundMagnitude(a) <= RoundMagnitude(b)
  {
    var u, v := Ulp(a), Ulp(b);
    RoundIsMultiple(a);
    RoundIsMultiple(b);
    UlpBounds(a);
    UlpBounds(b);
    QuotientBelow(TWO_TO_53, u, a);
    QuotientAtLeast(TWO_TO_52, v, b);
    hide RoundMagnitude, Ulp, Quotient, Multiple;
    MultiplesGrow(RoundedQuotient(a), TWO_TO_53, u);
    MultiplesGrow(TWO_TO_52, RoundedQuotient(b), v);
    Doubled(u, v);
  }

  lemma Doubled(u: nat, v: nat)
    requires 2 * u <= v
    ensures Multiple(TWO_TO_53, u) <= Multiple(TWO_TO_52, v)
  {
  }

  lemma RoundIsMonotone(a: nat, b: nat)
    requires a <= b
    ensures RoundMagnitude(a) <= RoundMagnitude(b)
  {
    hide RoundMagnitude, Ulp;
    UlpGrows(a, b);
    if Ulp(a) == Ulp(b) {
      RoundInOneSpacing(a, b);
    } else {
      RoundAcrossSpacings(a, b);
    }
  }

  // ---- The two multiples around a number ----

  /** A numeral with `k` zeros at the end, at least. */
  ghost predicate HasZeros(x: nat, k: nat) { x > 0 && exists q: nat :: x == Multiple(q, Pow10(k)) }

  /** A numeral with that many zeros which reads back as `m`. */
  ghost predicate Fits(m: nat, k: nat, x: nat) { HasZeros(x, k) && RoundMagnitude(x) == m }

  lemma {:induction false} MoreZeros(x: nat, j: nat, k: nat)
    requires HasZeros(x, j) && k <= j
    ensures HasZeros(x, k)
    decreases j
  {
    if k < j {
      var q: nat :| x == Multiple(q, Pow10(j));
      assert x == Multiple(10 * q, Pow10(j - 1));
      MoreZeros(x, j - 1, k);
    }
  }

  function Low(m: nat, k: nat): nat { Multiple(Quotient(m, Pow10(k)), Pow10(k)) }

  function High(m: nat, k: nat): nat { Multiple(Quotient(m, Pow10(k)) + 1, Pow10(k)) }

  lemma NeighboursHaveZeros(m: nat, k: nat)
    ensures HasZeros(High(m, k), k) && (Low(m, k) > 0 ==> HasZeros(Low(m, k), k))
    ensures Low(m, k) <= m < High(m, k)
  {
    QuotientBounds(m, Pow10(k));
    hide Quotient, Pow10, Multiple;
  }

  /** Every other numeral with so many zeros lies farther out. */
  lemma NothingBetween(m: nat, k: nat, x: nat)
    requires HasZeros(x, k)
    ensures x <= Low(m, k) || High(m, k) <= x
  {
    var p := Pow10(k);
    var q: nat :| x == Multiple(q, p);
    hide Quotient, Pow10, Multiple;
    if q <= Quotient(m, p) {
      MultiplesGrow(q, Quotient(m, p), p);
    } else {
      MultiplesGrow(Quotient(m, p) + 1, q, p);
    }
  }

  /** If any numeral with `k` zeros reads back as `m`, one of the two neighbours does, on the same side. */
  lemma NeighbourFits(m: nat, k: nat, x: nat)
    requires RoundMagnitude(m) == m && Fits(m, k, x)
    ensures x <= m ==> Fits(m, k, Low(m, k)) && x <= Low(m, k)
    ensures x > m ==> Fits(m, k, High(m, k)) && High(m, k) <= x
  {
    hide RoundMagnitude, Low, High, HasZeros;
    NeighboursHaveZeros(m, k);
    NothingBetween(m, k, x);
    if x <= m {
      RoundIsMonotone(x, Low(m, k));
      RoundIsMonotone(Low(m, k), m);
    } else {
      RoundIsMonotone(m, High(m, k));
      RoundIsMonotone(High(m, k), x);
    }
  }

  // ---- The digits that print ----

  function Distance(a: nat, b: nat): nat { if a <= b then b - a else a - b }

  /** How many zeros the search stops at. */
  function ZerosFrom(m: nat, k: nat): nat {
    if k == 0 || StopsAt(m, k) then k
    else ZerosFrom(m, k - 1)
  }

  lemma StepOfSearch(m: nat, k: nat)
    requires k > 0
    ensures ShortestFrom(m, k) ==
            var low, high := Low(m, k), High(m, k);
            var lowFits, highFits := low > 0 && RoundMagnitude(low) == m, RoundMagnitude(high) == m;
            if lowFits && (!highFits || 2 * m < low + high || (2 * m == low + high && Quotient(m, Pow10(k)) % 2 == 0)) then low
            else if highFits then high
            else ShortestFrom(m, k - 1)
  {
    hide RoundMagnitude, Quotient, Multiple;
  }

  /** One of the two neighbours reads back. */
  predicate StopsAt(m: nat, k: nat) {
    (Low(m, k) > 0 && RoundMagnitude(Low(m, k)) == m) || RoundMagnitude(High(m, k)) == m
  }

  lemma StopsIffFits(m: nat, k: nat, x: nat)
    requires RoundMagnitude(m) == m && Fits(m, k, x)
    ensures StopsAt(m, k)
  {
    hide RoundMagnitude, Low, High;
    NeighbourFits(m, k, x);
  }

  lemma NearerNeighbourPrints(m: nat, k: nat)
    requires k > 0 && m > 0 && RoundMagnitude(m) == m && StopsAt(m, k)
    ensures Fits(m, k, ShortestFrom(m, k))
    ensures forall x :: Fits(m, k, x) ==> Distance(ShortestFrom(m, k), m) <= Distance(x, m)
  {
    StepOfSearch(m, k);
    NeighboursHaveZeros(m, k);
    hide RoundMagnitude, Low, High, HasZeros, ShortestFrom, Quotient;
    forall x | Fits(m, k, x)
      ensures Distance(ShortestFrom(m, k), m) <= Distance(x, m)
    {
      NeighbourFits(m, k, x);
    }
  }

  lemma SearchGoesOn(m: nat, k: nat)
    requires k > 0 && !StopsAt(m, k)
    ensures ShortestFrom(m, k) == ShortestFrom(m, k - 1)
  {
    StepOfSearch(m, k);
    hide RoundMagnitude, Low, High, ShortestFrom, Quotient;
  }

  /** From `k` zeros down: no numeral with more zeros reads back, and of those with as many the nearest prints. */
  lemma {:induction false} SearchIsShortest(m: nat, k: nat)
    requires m > 0 && RoundMagnitude(m) == m
    ensures var zeros := ZerosFrom(m, k);
            zeros <= k && Fits(m, zeros, ShortestFrom(m, k)) &&
            (forall j, x :: zeros < j <= k ==> !Fits(m, j, x)) &&
            (forall x :: Fits(m, zeros, x) ==> Distance(ShortestFrom(m, k), m) <= Distance(x, m))
  {
    if k == 0 {
      ItselfHasNoZeros(m);
    } else {
      hide RoundMagnitude, StopsAt, Fits, ShortestFrom, Distance;
      if StopsAt(m, k) {
        NearerNeighbourPrints(m, k);
      } else {
        SearchIsShortest(m, k - 1);
        SearchGoesOn(m, k);
        forall x ensures !Fits(m, k, x) {
          if Fits(m, k, x) {
            StopsIffFits(m, k, x);
          }
        }
      }
    }
  }

  lemma ItselfHasNoZeros(m: nat)
    requires m > 0
    ensures HasZeros(m, 0)
  {
    assert m == Multiple(m, Pow10(0));
  }

  lemma {:induction false} CountBoundsNumber(m: nat)
    ensures m < Pow10(DigitCount(m))
  {
    if m >= 10 {
      CountBoundsNumber(m / 10);
    }
  }

  /** A numeral with more zeros than the number has digits reads back as something larger. */
  lemma TooManyZeros(m: nat, j: nat, x: nat)
    requires m > 0 && RoundMagnitude(m) == m && j > DigitCount(m)
    ensures !Fits(m, j, x)
  {
    if Fits(m, j, x) {
      var d := DigitCount(m);
      CountBoundsNumber(m);
      TenTimes(m, d, j, x);
      hide RoundMagnitude, Ulp;
      RoundIsMonotone(2 * m, x);
      RoundDoubles(m);
    }
  }

  lemma TenTimes(m: nat, d: nat, j: nat, x: nat)
    requires m < Pow10(d) && j > d && HasZeros(x, j)
    ensures x >= 2 * m
  {
    MoreZeros(x, j, d + 1);
    var q: nat :| x == Multiple(q, Pow10(d + 1));
    assert q >= 1;
    MultiplesGrow(1, q, Pow10(d + 1));
  }

  /** Twice a number rounds to something larger than the number. */
  lemma RoundDoubles(m: nat)
    requires m > 0
    ensures RoundMagnitude(2 * m) > m
  {
    var b := 2 * m;
    RoundIsMultiple(b);
    QuotientBounds(b, Ulp(b));
    UlpBounds(b);
    if Ulp(b) > 1 {
      SpacingIsSmall(b, Ulp(b));
    }
    hide RoundMagnitude, Ulp, Quotient, Multiple;
    MultiplesGrow(Quotient(b, Ulp(b)), RoundedQuotient(b), Ulp(b));
    NextMultiple(Quotient(b, Ulp(b)), Ulp(b));
  }

  lemma SpacingIsSmall(b: nat, u: nat)
    requires Multiple(TWO_TO_52, u) <= b
    ensures 4 * u <= b
  {
  }

  /**
   The printed numeral reads back as the double, no numeral with more zeros at its end does, and none with
   as many is nearer.
   */
  lemma PrintsShortest(m: nat)
    requires m > 0 && RoundMagnitude(m) == m
    ensures exists zeros ::
              && Fits(m, zeros, Shortest(m))
              && (forall j, x :: j > zeros ==> !Fits(m, j, x))
              && (forall x :: Fits(m, zeros, x) ==> Distance(Shortest(m), m) <= Distance(x, m))
  {
    hide RoundMagnitude, HasZeros, ShortestFrom, ZerosFrom;
    SearchIsShortest(m, DigitCount(m));
    var zeros := ZerosFrom(m, DigitCount(m));
    forall j, x | j > zeros
      ensures !Fits(m, j, x)
    {
      if j > DigitCount(m) {
        TooManyZeros(m, j, x);
      }
    }
    assert Fits(m, zeros, Shortest(m));
  }

  lemma RoundKeepsSmall(m: nat)
    requires m < TWO_TO_53
    ensures RoundMagnitude(m) == m
  {
  }

  /** An integer below two to the 53rd prints all its digits. */
  lemma SafeIsShortest(m: nat)
    requires m < TWO_TO_53
    ensures Shortest(m) == m
  {
    hide RoundMagnitude, ShortestFrom;
    RoundKeepsSmall(m);
    ShortestFromRoundsBack(m, DigitCount(m));
    var printed := Shortest(m);
    if printed < TWO_TO_53 {
      RoundKeepsSmall(printed);
    } else {
      RoundIsMonotone(TWO_TO_53, printed);
      EdgeIsDouble();
    }
  }

  lemma EdgeIsDouble()
    ensures RoundMagnitude(TWO_TO_53) == TWO_TO_53
  {
    assert Ulp(TWO_TO_52) == 1;
    assert Ulp(TWO_TO_53) == 2;
    assert Quotient(TWO_TO_53, 2) == TWO_TO_52;
  }
}
