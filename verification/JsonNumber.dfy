/**
 Finite numbers as JSON texts: the decimal that ECMA-262 section 6.1.6.1.20 assigns to a number, its four
 notations, and a reader of RFC 8259 section 6 numbers that inverts them.
 */
module JsonNumber {
  import opened Common
  import opened AncestorKey

  /** Strings are UTF-16 code units, as the printers see them. */
  newtype CodeUnit = x: int | 0 <= x < 0x1_0000
  type Text = seq<CodeUnit>

  const MINUS: CodeUnit := 0x2D
  const PLUS: CodeUnit := 0x2B
  const DOT: CodeUnit := 0x2E
  const ZERO: CodeUnit := 0x30
  const SMALL_E: CodeUnit := 0x65
  const CAPITAL_E: CodeUnit := 0x45

  /**
   A number is given by its shortest decimal: `0.digits` times ten to the power `point`. No digits is zero,
   which may be negative.
   */
  datatype Number = Number(negative: bool, digits: Text, point: int)

  predicate IsDigitUnit(c: CodeUnit) { ZERO <= c <= 0x39 }

  predicate AllDigits(t: Text) { forall i :: 0 <= i < |t| ==> IsDigitUnit(t[i]) }

  /** No zeros at either end of the digits. */
  predicate IsNumber(n: Number) {
    AllDigits(n.digits) &&
    if n.digits == [] then n.point == 0 else n.digits[0] != ZERO && n.digits[|n.digits| - 1] != ZERO
  }

  // ---- Digits ----

  function Units(s: string): (t: Text)
    requires All(s, IsDigit)
    ensures |t| == |s| && AllDigits(t)
  {
    seq(|s|, i requires 0 <= i < |s| => s[i] as CodeUnit)
  }

  function Chars(t: Text): (s: string)
    requires AllDigits(t)
    ensures |s| == |t| && All(s, IsDigit)
  {
    seq(|t|, i requires 0 <= i < |t| && IsDigitUnit(t[i]) => t[i] as char)
  }

  lemma CharsOfUnits(s: string)
    requires All(s, IsDigit)
    ensures Chars(Units(s)) == s
  {
  }

  function DigitsOf(n: nat): (t: Text)
    ensures t != [] && AllDigits(t)
  {
    Units(Numeral(n))
  }

  function Zeros(k: nat): (t: Text)
    ensures |t| == k && AllDigits(t)
  {
    seq(k, _ => ZERO)
  }

  function DigitRun(t: Text): (n: nat)
    ensures n <= |t| && AllDigits(t[..n])
    ensures n < |t| ==> !IsDigitUnit(t[n])
  {
    if t == [] || !IsDigitUnit(t[0]) then 0 else 1 + DigitRun(t[1..])
  }

  lemma {:induction false} DigitRunReads(s: Text, tail: Text)
    requires AllDigits(s) && (tail == [] || !IsDigitUnit(tail[0]))
    ensures DigitRun(s + tail) == |s|
  {
    if s == [] {
      assert s + tail == tail;
    } else {
      DigitRunReads(s[1..], tail);
      assert (s + tail)[1..] == s[1..] + tail;
    }
  }

  // ---- Printing ----

  function Sign(negative: bool): Text { if negative then [MINUS] else [] }

  function Exponent(e: int): Text { [SMALL_E, if e < 0 then MINUS else PLUS] + DigitsOf(Size(e)) }

  function Size(e: int): nat { if e < 0 then -e else e }

  /** The digits before the point, the digits after it, and the exponent if one is written. */
  datatype Notation = Notation(whole: Text, fraction: Text, exponent: Option<int>)

  function NotationOf(n: Number): Notation
    requires n.digits != []
  {
    var k := |n.digits|;
    if k <= n.point <= 21 then Notation(n.digits + Zeros(n.point - k), [], None)
    else if 0 < n.point <= 21 then Notation(n.digits[..n.point], n.digits[n.point..], None)
    else if -6 < n.point <= 0 then Notation([ZERO], Zeros(-n.point) + n.digits, None)
    else Notation(n.digits[..1], n.digits[1..], Some(n.point - 1))
  }

  function FractionText(fraction: Text): Text { if fraction == [] then [] else [DOT] + fraction }

  function ExponentText(exponent: Option<int>): Text { if exponent.None? then [] else Exponent(exponent.value) }

  function NotationText(x: Notation): Text { x.whole + (FractionText(x.fraction) + ExponentText(x.exponent)) }

  /** `JSON.stringify` of a finite number; a negative zero prints like zero. */
  function NumberText(n: Number): Text {
    if n.digits == [] then [ZERO] else Sign(n.negative) + NotationText(NotationOf(n))
  }

  // ---- Reading ----

  function WithoutLeading(digits: Text): Text
  {
    if digits != [] && digits[0] == ZERO then WithoutLeading(digits[1..]) else digits
  }

  function WithoutTrailing(digits: Text): Text
  {
    if digits != [] && digits[|digits| - 1] == ZERO then WithoutTrailing(digits[..|digits| - 1]) else digits
  }

  /** The number of these digits with the point after the first `point`. */
  function Normalized(negative: bool, digits: Text, point: int): Number {
    var significant := WithoutLeading(digits);
    if significant == [] then Number(negative, [], 0)
    else Number(negative, WithoutTrailing(significant), point - (|digits| - |significant|))
  }

  function ReadFraction(t: Text): (r: Option<(Text, Text)>)
    ensures r.Some? ==> |r.value.1| <= |t| && AllDigits(r.value.0)
  {
    if t == [] || t[0] != DOT then Some(([], t))
    else
      var k := DigitRun(t[1..]);
      if k == 0 then None else Some((t[1..][..k], t[1..][k..]))
  }

  function ReadExponent(t: Text): (r: Option<(int, Text)>)
    ensures r.Some? ==> |r.value.1| <= |t|
  {
    if t == [] || (t[0] != SMALL_E && t[0] != CAPITAL_E) then Some((0, t))
    else
      var negative := |t| > 1 && t[1] == MINUS;
      var rest := if negative || (|t| > 1 && t[1] == PLUS) then t[2..] else t[1..];
      var k := DigitRun(rest);
      if k == 0 then None
      else
        var e := NumeralValue(Chars(rest[..k]));
        Some((if negative then 0 - e else e, rest[k..]))
  }

  /** Digits without a sign: a whole part without leading zeros, then fraction and exponent. */
  function ReadUnsigned(negative: bool, t: Text): (r: Option<(Number, Text)>)
    ensures r.Some? ==> |r.value.1| < |t|
  {
    var k := DigitRun(t);
    if k == 0 || (k > 1 && t[0] == ZERO) then None
    else
      var fraction :- ReadFraction(t[k..]);
      var exponent :- ReadExponent(fraction.1);
      Some((Normalized(negative, t[..k] + fraction.0, k + exponent.0), exponent.1))
  }

  function ReadNumber(t: Text): (r: Option<(Number, Text)>)
    ensures r.Some? ==> |r.value.1| < |t|
  {
    if t != [] && t[0] == MINUS then ReadUnsigned(true, t[1..]) else ReadUnsigned(false, t)
  }

  predicate EndsNumber(t: Text) {
    t == [] || (!IsDigitUnit(t[0]) && t[0] != DOT && t[0] != SMALL_E && t[0] != CAPITAL_E)
  }

  // ---- The reader inverts the printer ----

  /** How a notation reads: without sign, leading zeros only as a single zero, the exponent spelt out. */
  predicate IsNotation(x: Notation) {
    x.whole != [] && AllDigits(x.whole) && AllDigits(x.fraction) && (|x.whole| > 1 ==> x.whole[0] != ZERO)
  }

  function NumberOf(negative: bool, x: Notation): Number {
    Normalized(negative, x.whole + x.fraction, |x.whole| + if x.exponent.Some? then x.exponent.value else 0)
  }

  lemma FractionReads(fraction: Text, rest: Text)
    requires AllDigits(fraction) && (rest == [] || (!IsDigitUnit(rest[0]) && rest[0] != DOT))
    ensures ReadFraction(FractionText(fraction) + rest) == Some((fraction, rest))
  {
    var t := FractionText(fraction) + rest;
    if fraction == [] {
      assert t == rest;
    } else {
      assert t[1..] == fraction + rest;
      DigitRunReads(fraction, rest);
    }
  }

  lemma DigitsRead(e: nat, tail: Text)
    requires tail == [] || !IsDigitUnit(tail[0])
    ensures var t, k := DigitsOf(e) + tail, |DigitsOf(e)|;
            DigitRun(t) == k && t[..k] == DigitsOf(e) && t[k..] == tail && NumeralValue(Chars(t[..k])) == e
  {
    var digits := DigitsOf(e);
    CharsOfUnits(Numeral(e));
    ValueOfNumeral(e);
    DigitRunReads(digits, tail);
    hide Numeral, NumeralValue, DigitRun, Units, Chars;
    assert (digits + tail)[..|digits|] == digits && (digits + tail)[|digits|..] == tail;
  }

  lemma ExponentDigitsRead(negative: bool, e: nat, tail: Text)
    requires tail == [] || !IsDigitUnit(tail[0])
    ensures ReadExponent([SMALL_E, if negative then MINUS else PLUS] + DigitsOf(e) + tail) ==
            Some((if negative then 0 - e else e, tail))
  {
    DigitsRead(e, tail);
    var t := [SMALL_E, if negative then MINUS else PLUS] + DigitsOf(e) + tail;
    hide NumeralValue, DigitRun, Chars, DigitsOf;
    assert |t| > 1 && t[0] == SMALL_E && t[1] == if negative then MINUS else PLUS;
    assert t[2..] == DigitsOf(e) + tail;
  }

  lemma ExponentReads(exponent: Option<int>, tail: Text)
    requires EndsNumber(tail)
    ensures ReadExponent(ExponentText(exponent) + tail) == Some((if exponent.Some? then exponent.value else 0, tail))
  {
    if exponent.None? {
      assert ExponentText(exponent) + tail == tail;
    } else {
      ExponentDigitsRead(exponent.value < 0, Size(exponent.value), tail);
      hide ReadExponent, DigitsOf;
    }
  }

  lemma ExponentStarts(exponent: Option<int>, tail: Text)
    requires EndsNumber(tail)
    ensures var rest := ExponentText(exponent) + tail; rest == [] || (!IsDigitUnit(rest[0]) && rest[0] != DOT)
  {
    if exponent.None? {
      assert ExponentText(exponent) + tail == tail;
    }
  }

  lemma WholeReads(negative: bool, whole: Text, rest: Text)
    requires whole != [] && AllDigits(whole) && (|whole| > 1 ==> whole[0] != ZERO)
    requires rest == [] || !IsDigitUnit(rest[0])
    ensures ReadUnsigned(negative, whole + rest) ==
            var fraction :- ReadFraction(rest);
            var exponent :- ReadExponent(fraction.1);
            Some((Normalized(negative, whole + fraction.0, |whole| + exponent.0), exponent.1))
  {
    var t := whole + rest;
    DigitRunReads(whole, rest);
    hide DigitRun, ReadFraction, ReadExponent, Normalized, AllDigits;
    assert t[..|whole|] == whole && t[|whole|..] == rest && t[0] == whole[0];
  }

  lemma FractionStarts(fraction: Text, rest: Text)
    requires rest == [] || !IsDigitUnit(rest[0])
    ensures var t := FractionText(fraction) + rest; t == [] || !IsDigitUnit(t[0])
  {
    if fraction == [] {
      assert FractionText(fraction) + rest == rest;
    }
  }

  /** What follows the whole part. */
  lemma RestReads(x: Notation, tail: Text) returns (rest: Text)
    requires IsNotation(x) && EndsNumber(tail)
    ensures NotationText(x) + tail == x.whole + rest && (rest == [] || !IsDigitUnit(rest[0]))
    ensures ReadFraction(rest) == Some((x.fraction, ExponentText(x.exponent) + tail))
  {
    var exponent := ExponentText(x.exponent) + tail;
    rest := FractionText(x.fraction) + exponent;
    hide ReadFraction, FractionText, ExponentText;
    assert NotationText(x) + tail == x.whole + rest;
    ExponentStarts(x.exponent, tail);
    FractionReads(x.fraction, exponent);
    FractionStarts(x.fraction, exponent);
  }

  lemma NotationReads(negative: bool, x: Notation, tail: Text)
    requires IsNotation(x) && EndsNumber(tail)
    ensures ReadUnsigned(negative, NotationText(x) + tail) == Some((NumberOf(negative, x), tail))
  {
    hide ReadFraction, ReadExponent, ExponentText, NotationText, Normalized, ReadUnsigned, EndsNumber;
    var rest := RestReads(x, tail);
    ExponentReads(x.exponent, tail);
    WholeReads(negative, x.whole, rest);
  }

  // ---- Each notation stands for the number ----

  lemma {:induction false} LeadingZerosGo(k: nat, digits: Text)
    requires digits == [] || digits[0] != ZERO
    ensures WithoutLeading(Zeros(k) + digits) == digits
  {
    var t := Zeros(k) + digits;
    if k == 0 {
      assert t == digits;
    } else {
      LeadingZerosGo(k - 1, digits);
      assert t[1..] == Zeros(k - 1) + digits;
    }
  }

  lemma {:induction false} TrailingZerosGo(k: nat, digits: Text)
    requires digits == [] || digits[|digits| - 1] != ZERO
    ensures WithoutTrailing(digits + Zeros(k)) == digits
  {
    var t := digits + Zeros(k);
    if k == 0 {
      assert t == digits;
    } else {
      TrailingZerosGo(k - 1, digits);
      assert t[..|t| - 1] == digits + Zeros(k - 1);
    }
  }

  lemma PaddedIsNormal(n: Number, front: nat, back: nat)
    requires IsNumber(n) && n.digits != []
    ensures Normalized(n.negative, Zeros(front) + n.digits + Zeros(back), n.point + front) == n
  {
    var all := Zeros(front) + n.digits + Zeros(back);
    assert all == Zeros(front) + (n.digits + Zeros(back));
    LeadingZerosGo(front, n.digits + Zeros(back));
    TrailingZerosGo(back, n.digits);
  }

  function ZerosBefore(n: Number): nat { if -6 < n.point <= 0 then 1 - n.point else 0 }

  function ZerosAfter(n: Number): nat { if |n.digits| <= n.point <= 21 then n.point - |n.digits| else 0 }

  /** The digits of a notation are those of the number between zeros. */
  lemma NotationPads(n: Number)
    requires IsNumber(n) && n.digits != []
    ensures var x := NotationOf(n); x.whole + x.fraction == Zeros(ZerosBefore(n)) + n.digits + Zeros(ZerosAfter(n))
  {
    var x := NotationOf(n);
    if -6 < n.point <= 0 {
      assert [ZERO] + Zeros(-n.point) == Zeros(1 - n.point);
    }
  }

  lemma NotationHasForm(n: Number)
    requires IsNumber(n) && n.digits != []
    ensures IsNotation(NotationOf(n))
    ensures var x := NotationOf(n);
            |x.whole| + (if x.exponent.Some? then x.exponent.value else 0) == n.point + ZerosBefore(n)
  {
  }

  lemma NotationStandsForNumber(n: Number)
    requires IsNumber(n) && n.digits != []
    ensures IsNotation(NotationOf(n)) && NumberOf(n.negative, NotationOf(n)) == n
  {
    hide NotationOf, Normalized, IsNumber;
    NotationPads(n);
    NotationHasForm(n);
    PaddedIsNormal(n, ZerosBefore(n), ZerosAfter(n));
  }

  /** The part before the point has one digit when an exponent is written; and a fraction does not end in zeros. */
  lemma ExponentIff(n: Number)
    requires IsNumber(n) && n.digits != []
    ensures SMALL_E in NumberText(n) <==> n.point > 21 || n.point < -5
    ensures DOT in NumberText(n) <==>
              if n.point > 21 || n.point < -5 then |n.digits| > 1 else n.point < |n.digits|
    ensures MINUS == NumberText(n)[0] <==> n.negative
  {
    var x := NotationOf(n);
    NotationStandsForNumber(n);
    NotationStarts(x);
    hide Zeros, DigitsOf;
    WhereSpecials(x);
    hide NotationText;
    var text := NumberText(n);
    assert text == Sign(n.negative) + NotationText(x);
    assert forall c :: c in text <==> c in Sign(n.negative) || c in NotationText(x);
  }

  /** An exponent carries its sign, `+` included, and ends the text. */
  lemma ExponentEndsText(n: Number) returns (i: nat)
    requires IsNumber(n) && n.digits != [] && (n.point > 21 || n.point < -5)
    ensures i <= |NumberText(n)|
    ensures NumberText(n)[i..] == [SMALL_E, if n.point > 0 then PLUS else MINUS] + DigitsOf(Size(n.point - 1))
  {
    var x := NotationOf(n);
    assert x.exponent == Some(n.point - 1);
    assert ExponentText(x.exponent) == Exponent(n.point - 1);
    hide NotationOf, FractionText, ExponentText, Sign, DigitsOf;
    i := LastOfThree(Sign(n.negative), x.whole, FractionText(x.fraction), ExponentText(x.exponent));
  }

  lemma LastOfThree(a: Text, b: Text, c: Text, d: Text) returns (i: nat)
    ensures i <= |a + (b + (c + d))| && (a + (b + (c + d)))[i..] == d
  {
    i := |a| + |b| + |c|;
  }

  lemma WhereSpecials(x: Notation)
    requires IsNotation(x)
    ensures SMALL_E in NotationText(x) <==> x.exponent.Some?
    ensures DOT in NotationText(x) <==> x.fraction != []
  {
    NoSpecials(x.whole);
    NoSpecials(x.fraction);
    if x.exponent.Some? {
      NoSpecials(DigitsOf(Size(x.exponent.value)));
    }
    hide DigitsOf;
    var f, e := FractionText(x.fraction), ExponentText(x.exponent);
    assert forall c :: c in NotationText(x) <==> c in x.whole || c in f || c in e;
    assert x.exponent.Some? ==> e[0] == SMALL_E;
    assert x.fraction != [] ==> f[0] == DOT;
    if x.exponent.Some? {
      var digits := DigitsOf(Size(x.exponent.value));
      assert forall c :: c in e <==> c in e[..2] || c in digits;
    }
  }

  lemma NoSpecials(t: Text)
    requires AllDigits(t)
    ensures SMALL_E !in t && DOT !in t
  {
  }

  /** Zero has no sign in print. */
  function Plain(n: Number): Number { if n.digits == [] then Number(false, [], 0) else n }

  /** Every finite number, in whichever notation it prints, reads back. */
  lemma NumberReads(n: Number, tail: Text)
    requires IsNumber(n) && EndsNumber(tail)
    ensures ReadNumber(NumberText(n) + tail) == Some((Plain(n), tail))
  {
    if n.digits == [] {
      NotationReads(false, Notation([ZERO], [], None), tail);
      ZeroReads(tail);
    } else {
      hide NotationOf, NotationText, ReadUnsigned, NumberOf;
      NotationStandsForNumber(n);
      NotationReads(n.negative, NotationOf(n), tail);
      SignReads(n.negative, NotationText(NotationOf(n)), tail);
      NotationStarts(NotationOf(n));
    }
  }

  lemma ZeroReads(tail: Text)
    ensures NotationText(Notation([ZERO], [], None)) == [ZERO]
    ensures NumberOf(false, Notation([ZERO], [], None)) == Number(false, [], 0)
  {
    assert [ZERO] + [] == [ZERO] && [ZERO][1..] == [];
    assert WithoutLeading([ZERO]) == WithoutLeading([]);
  }

  lemma SignReads(negative: bool, body: Text, tail: Text)
    requires body != [] && body[0] != MINUS
    ensures ReadNumber(Sign(negative) + body + tail) == ReadUnsigned(negative, body + tail)
  {
    hide ReadUnsigned;
    var t := Sign(negative) + body + tail;
    if negative {
      assert t[1..] == body + tail;
    } else {
      assert t == body + tail;
    }
  }

  lemma NotationStarts(x: Notation)
    requires IsNotation(x)
    ensures NotationText(x) != [] && IsDigitUnit(NotationText(x)[0])
  {
    assert NotationText(x)[0] == x.whole[0];
  }

  lemma NumberStarts(n: Number)
    requires IsNumber(n)
    ensures NumberText(n) != [] && (NumberText(n)[0] == MINUS || IsDigitUnit(NumberText(n)[0]))
  {
    if n.digits != [] {
      NotationStandsForNumber(n);
      NotationStarts(NotationOf(n));
      hide NotationOf, NotationText;
    }
  }
}
