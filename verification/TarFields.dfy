/** What the octal fields of a header say, whatever bytes they hold. */
module TarFields {
  import opened Common
  import opened TarReader

  ghost predicate AllSpaces(s: Bytes) { forall i :: 0 <= i < |s| ==> IsSpace(s[i]) }

  ghost predicate AllOctal(s: Bytes) { forall i :: 0 <= i < |s| ==> IsOctalDigit(s[i]) }

  /** White space, a sign or none, octal digits as far as they go, and anything. */
  ghost predicate IsParted(t: Bytes, pad: Bytes, sign: Bytes, digits: Bytes, rest: Bytes) {
    && t == pad + (sign + (digits + rest)) && AllSpaces(pad)
    && (sign == [] || sign == [0x2B] || sign == [0x2D])
    && digits != [] && AllOctal(digits) && (rest == [] || !IsOctalDigit(rest[0]))
  }

  function Signed(sign: Bytes, digits: Bytes): int { if sign == [0x2D] then -OctalValue(digits) else OctalValue(digits) }

  ghost predicate Says(t: Bytes, n: int) {
    exists pad, sign, digits, rest :: IsParted(t, pad, sign, digits, rest) && n == Signed(sign, digits)
  }

  lemma {:induction false} TrimStartParts(s: Bytes) returns (pad: Bytes)
    ensures s == pad + TrimStart(s) && AllSpaces(pad) && (TrimStart(s) == [] || !IsSpace(TrimStart(s)[0]))
  {
    pad := [];
    if s != [] && IsSpace(s[0]) {
      var more := TrimStartParts(s[1..]);
      pad := [s[0]] + more;
    }
  }

  lemma {:induction false} TrimEndParts(s: Bytes) returns (pad: Bytes)
    ensures s == TrimEnd(s) + pad && AllSpaces(pad)
  {
    pad := [];
    if s != [] && IsSpace(s[|s| - 1]) {
      var more := TrimEndParts(s[..|s| - 1]);
      pad := more + [s[|s| - 1]];
      assert s == s[..|s| - 1] + [s[|s| - 1]];
    }
  }

  lemma {:induction false} TrimStartCutsPad(pad: Bytes, x: Bytes)
    requires AllSpaces(pad) && (x == [] || !IsSpace(x[0]))
    ensures TrimStart(pad + x) == x
  {
    if pad == [] {
      assert pad + x == x;
    } else {
      assert (pad + x)[1..] == pad[1..] + x;
      TrimStartCutsPad(pad[1..], x);
    }
  }

  lemma {:induction false} OctalPrefixParts(s: Bytes) returns (rest: Bytes)
    ensures s == OctalPrefix(s) + rest && AllOctal(OctalPrefix(s)) && (rest == [] || !IsOctalDigit(rest[0]))
  {
    rest := s;
    if s != [] && IsOctalDigit(s[0]) {
      rest := OctalPrefixParts(s[1..]);
    }
  }

  lemma {:induction false} OctalPrefixIs(digits: Bytes, rest: Bytes)
    requires AllOctal(digits) && (rest == [] || !IsOctalDigit(rest[0]))
    ensures OctalPrefix(digits + rest) == digits
  {
    if digits == [] {
      assert digits + rest == rest;
    } else {
      assert (digits + rest)[1..] == digits[1..] + rest;
      OctalPrefixIs(digits[1..], rest);
    }
  }

  lemma ParsesParts(sign: Bytes, digits: Bytes, rest: Bytes)
    requires IsParted(sign + (digits + rest), [], sign, digits, rest)
    ensures ParseOctal(sign + (digits + rest)) == Some(Signed(sign, digits))
  {
    OctalPrefixIs(digits, rest);
    var raw := sign + (digits + rest);
    if sign == [] {
      assert raw == digits + rest && raw[0] == digits[0];
    } else {
      assert raw[0] == sign[0] && raw[1..] == digits + rest;
    }
    hide OctalPrefix, OctalValue;
  }

  lemma PartsOfParsed(raw: Bytes) returns (sign: Bytes, digits: Bytes, rest: Bytes)
    requires ParseOctal(raw).Some?
    ensures IsParted(raw, [], sign, digits, rest) && ParseOctal(raw) == Some(Signed(sign, digits))
  {
    var signed := raw != [] && (raw[0] == 0x2B || raw[0] == 0x2D);
    sign := if signed then raw[..1] else [];
    var tail := if signed then raw[1..] else raw;
    digits := OctalPrefix(tail);
    rest := OctalPrefixParts(tail);
    hide OctalPrefix, OctalValue;
    assert raw == [] + (sign + (digits + rest));
  }

  /** Cutting white space off the end of a text stays clear of what is none. */
  lemma FrontStays(front: Bytes, rest: Bytes, raw: Bytes, back: Bytes)
    requires front != [] && !IsSpace(front[|front| - 1]) && front + rest == raw + back && AllSpaces(back)
    ensures |front| <= |raw| && front <= raw && raw[|front|..] <= rest
  {
    var x := front + rest;
    forall i | |raw| <= i < |x|
      ensures IsSpace(x[i])
    {
      assert x[i] == back[i - |raw|];
    }
    assert x[|front| - 1] == front[|front| - 1];
    assert x[..|front|] == front && x[..|raw|] == raw;
    assert x[|front|..] == rest && raw[|front|..] == x[|front|..|raw|];
  }

  lemma OctalIsNoSpace(digits: Bytes)
    requires digits != [] && AllOctal(digits)
    ensures !IsSpace(digits[|digits| - 1])
  {
  }

  lemma LastOfBoth(sign: Bytes, digits: Bytes, rest: Bytes)
    requires digits != []
    ensures sign + (digits + rest) == sign + digits + rest
    ensures (sign + digits)[|sign + digits| - 1] == digits[|digits| - 1]
  {
  }

  /** Cutting the white space after the digits leaves the sign and the digits. */
  lemma TrimEndKeepsDigits(sign: Bytes, digits: Bytes, rest: Bytes) returns (shorter: Bytes)
    requires IsParted(sign + (digits + rest), [], sign, digits, rest)
    ensures TrimEnd(sign + (digits + rest)) == sign + (digits + shorter)
    ensures IsParted(sign + (digits + shorter), [], sign, digits, shorter)
  {
    var raw := TrimEnd(sign + (digits + rest));
    var back := TrimEndParts(sign + (digits + rest));
    OctalIsNoSpace(digits);
    LastOfBoth(sign, digits, rest);
    hide TrimEnd, AllSpaces, AllOctal, IsSpace;
    FrontStays(sign + digits, rest, raw, back);
    shorter := raw[|sign + digits|..];
    LastOfBoth(sign, digits, shorter);
    assert raw == sign + digits + shorter;
    NothingBefore(sign + (digits + shorter));
  }

  lemma NothingBefore(s: Bytes)
    ensures s == [] + s && AllSpaces([])
  {
  }

  /**
   An octal field reads as `n` exactly when it is blank and `n` is zero, or its text up to the first NUL is
   a number `n` in octal, white space before it, anything after it; otherwise extraction throws.
   */
  lemma OctalFieldIff(block: Bytes, start: nat, length: nat, n: int)
    requires start + length <= |block|
    ensures TarOctal(block, start, length) == Success(n) <==>
            var t := TarString(block, start, length); (AllSpaces(t) && n == 0) || Says(t, n)
  {
    var t := TarString(block, start, length);
    hide TarString;
    if TarOctal(block, start, length) == Success(n) {
      FieldIsRead(t, n);
    }
    if AllSpaces(t) {
      TrimStartCutsPad(t, []);
      assert t + [] == t;
    }
    if Says(t, n) {
      SaidIsRead(t, n);
    }
  }

  function Raw(t: Bytes): Bytes { TrimEnd(TrimStart(t)) }

  lemma Regroup(sign: Bytes, digits: Bytes, rest: Bytes, back: Bytes)
    ensures sign + (digits + rest) + back == sign + (digits + (rest + back))
  {
  }

  lemma SpaceFirst(s: Bytes)
    requires AllSpaces(s)
    ensures s == [] || !IsOctalDigit(s[0])
  {
  }

  lemma PartsExtend(raw: Bytes, sign: Bytes, digits: Bytes, rest: Bytes, pad: Bytes, back: Bytes)
    requires IsParted(raw, [], sign, digits, rest) && AllSpaces(pad) && AllSpaces(back)
    ensures IsParted(pad + (raw + back), pad, sign, digits, rest + back)
  {
    SpaceFirst(back);
    Regroup(sign, digits, rest, back);
    NothingBefore(sign + (digits + rest));
    hide AllSpaces, AllOctal;
  }

  lemma FieldIsRead(t: Bytes, n: int)
    requires if Raw(t) == [] then n == 0 else ParseOctal(Raw(t)) == Some(n)
    ensures (AllSpaces(t) && n == 0) || Says(t, n)
  {
    var pad := TrimStartParts(t);
    var back := TrimEndParts(TrimStart(t));
    var raw := Raw(t);
    hide TrimStart, TrimEnd, ParseOctal, OctalValue, IsParted;
    if raw != [] {
      var sign, digits, rest := PartsOfParsed(raw);
      PartsExtend(raw, sign, digits, rest, pad, back);
      assert IsParted(t, pad, sign, digits, rest + back);
    } else {
      SpacesJoin(pad, back);
    }
  }

  lemma SpacesJoin(a: Bytes, b: Bytes)
    requires AllSpaces(a) && AllSpaces(b)
    ensures AllSpaces(a + b) && [] + b == b
  {
  }

  lemma SaidIsRead(t: Bytes, n: int)
    requires Says(t, n)
    ensures Raw(t) != [] && ParseOctal(Raw(t)) == Some(n)
  {
    hide TrimStart, TrimEnd, ParseOctal, OctalValue;
    var pad, sign, digits, rest :| IsParted(t, pad, sign, digits, rest) && n == Signed(sign, digits);
    var x := sign + (digits + rest);
    assert x[0] == if sign == [] then digits[0] else sign[0];
    TrimStartCutsPad(pad, x);
    assert x == [] + x;
    var shorter := TrimEndKeepsDigits(sign, digits, rest);
    ParsesParts(sign, digits, shorter);
  }

  // ---- Slices ----

  /** A slice of the archive, its bounds cut to it; a negative one counts from the end. */
  lemma SliceIs(data: Bytes, start: int, end: int)
    ensures 0 <= start <= end <= |data| ==> Subarray(data, start, end) == data[start..end]
    ensures end > |data| ==> Subarray(data, start, end) == Subarray(data, start, |data|)
    ensures -|data| <= start < 0 ==> Subarray(data, start, end) == Subarray(data, |data| + start, end)
    ensures -|data| <= end < 0 ==> Subarray(data, start, end) == Subarray(data, start, |data| + end)
    ensures start < -|data| ==> Subarray(data, start, end) == Subarray(data, 0, end)
    ensures end < -|data| || 0 <= end <= start || start >= |data| ==> Subarray(data, start, end) == []
  {
  }
}
