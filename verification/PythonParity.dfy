/**
 When the printer meant to mirror Python's `json.dumps(value, sort_keys=True)` prints the same text: for
 strings, and for whole values.
 */
module PythonParity {
  import opened Common
  import opened JsonNumber
  import opened CanonicalJson
  import opened AncestorKey
  import opened DoubleText
  import opened ShortestDigits
  import opened IntegerText
  import StableSort

  // ---- Strings ----

  /** `'%0*x' % (width, n)` */
  function PythonHex(n: int, width: nat): Text
    requires n >= 0
  {
    if width == 0 then [] else PythonHex(n / 16, width - 1) + [PythonDigit(n % 16)]
  }

  function PythonDigit(d: int): CodeUnit
    requires 0 <= d < 16
  {
    "0123456789abcdef"[d] as CodeUnit
  }

  /** `json.dumps` of one UTF-16 unit: seven short escapes, printable ASCII as it is, all else by number. */
  function PythonEscapeUnit(c: CodeUnit): Text {
    if c == 0x5C then [0x5C, 0x5C]
    else if c == 0x22 then [0x5C, 0x22]
    else if c == 0x08 then [0x5C, 0x62]
    else if c == 0x0C then [0x5C, 0x66]
    else if c == 0x0A then [0x5C, 0x6E]
    else if c == 0x0D then [0x5C, 0x72]
    else if c == 0x09 then [0x5C, 0x74]
    else if 0x20 <= c < 0x7F then [c]
    else [0x5C, 0x75] + PythonHex(c as int, 4)
  }

  lemma HexDigitsAgree(d: CodeUnit)
    requires d < 16
    ensures PythonDigit(d as int) == HexDigit(d)
  {
  }

  lemma FourDigits(n: int)
    requires n >= 0
    ensures PythonHex(n, 4) ==
            [PythonDigit(n / 4096 % 16), PythonDigit(n / 256 % 16), PythonDigit(n / 16 % 16), PythonDigit(n % 16)]
  {
    hide PythonDigit;
    Sixteenths(n);
    OneDigit(n, 4);
    OneDigit(n / 16, 3);
    OneDigit(n / 256, 2);
    OneDigit(n / 4096, 1);
    hide PythonHex;
  }

  lemma OneDigit(n: int, width: nat)
    requires n >= 0 && width > 0
    ensures PythonHex(n, width) == PythonHex(n / 16, width - 1) + [PythonDigit(n % 16)]
    ensures PythonHex(n, 0) == [] && PythonHex(n / 16, 0) == []
  {
  }

  lemma Sixteenths(n: int)
    ensures n / 16 / 16 == n / 256 && n / 256 / 16 == n / 4096 && n / 4096 / 16 == n / 65536
  {
  }

  lemma UnitNibbles(c: CodeUnit)
    ensures (c % 16) as int == c as int % 16 && (c / 16 % 16) as int == c as int / 16 % 16
    ensures (c / 256 % 16) as int == c as int / 256 % 16
    ensures c / 4096 < 16 && (c / 4096) as int == c as int / 4096 % 16
  {
  }

  lemma HexAgrees(c: CodeUnit)
    ensures [0x5C, 0x75] + PythonHex(c as int, 4) == HexEscape(c)
  {
    FourDigits(c as int);
    UnitNibbles(c);
    HexDigitsAgree(c % 16);
    HexDigitsAgree(c / 16 % 16);
    HexDigitsAgree(c / 256 % 16);
    HexDigitsAgree(c / 4096);
    hide HexDigit, PythonDigit, PythonHex;
    var a, b, d, e := HexDigit(c / 4096), HexDigit(c / 256 % 16), HexDigit(c / 16 % 16), HexDigit(c % 16);
    assert PythonHex(c as int, 4) == [a, b, d, e];
    assert HexEscape(c) == [0x5C, 0x75, a, b, d, e];
  }

  /** Both escape alike below DEL; Python alone escapes from there on. */
  lemma EscapesAgree(c: CodeUnit)
    ensures PythonEscapeUnit(c) == if c < 0x7F then EscapeUnit(c) else HexEscape(c)
  {
    HexAgrees(c);
    hide HexEscape, PythonHex;
  }

  function PythonQuoteBody(s: Text): Text {
    if s == [] then [] else PythonEscapeUnit(s[0]) + PythonQuoteBody(s[1..])
  }

  /** Below DEL, or half of a surrogate pair without the other half. */
  predicate HasPythonParity(s: Text) {
    s != [] ==>
      !(|s| > 1 && IsHighSurrogate(s[0]) && IsLowSurrogate(s[1])) &&
      (s[0] < 0x7F || IsHighSurrogate(s[0]) || IsLowSurrogate(s[0])) && HasPythonParity(s[1..])
  }

  ghost predicate IsAscii(t: Text) { forall c :: c in t ==> c < 0x7F }

  lemma {:induction false} PythonIsAscii(s: Text)
    ensures IsAscii(PythonQuoteBody(s))
  {
    if s != [] {
      PythonIsAscii(s[1..]);
      EscapesAreAscii(s[0]);
    }
  }

  lemma EscapesAreAscii(c: CodeUnit)
    ensures IsAscii(PythonEscapeUnit(c))
  {
    EscapesAgree(c);
    hide PythonEscapeUnit;
    forall d: CodeUnit | d < 16
      ensures HexDigit(d) < 0x7F
    {
    }
  }

  lemma {:induction false} RawUnitIsNotAscii(s: Text)
    requires !HasPythonParity(s)
    ensures !IsAscii(QuoteBody(s))
    decreases |s|
  {
    if |s| > 1 && IsHighSurrogate(s[0]) && IsLowSurrogate(s[1]) {
      assert QuoteBody(s)[0] == s[0];
      assert s[0] in QuoteBody(s);
    } else if s[0] < 0x7F || IsHighSurrogate(s[0]) || IsLowSurrogate(s[0]) {
      RawUnitIsNotAscii(s[1..]);
      assert forall c :: c in QuoteBody(s[1..]) ==> c in QuoteBody(s);
    } else {
      assert QuoteBody(s)[0] == s[0];
      assert s[0] in QuoteBody(s);
    }
  }

  /** A string prints as Python's `json.dumps` prints it exactly when it holds no such unit or pair. */
  lemma {:induction false} PythonParityIff(s: Text)
    ensures PythonQuoteBody(s) == QuoteBody(s) <==> HasPythonParity(s)
    decreases |s|
  {
    PythonIsAscii(s);
    if HasPythonParity(s) {
      if s != [] {
        EscapesAgree(s[0]);
        PythonParityIff(s[1..]);
      }
    } else {
      RawUnitIsNotAscii(s);
    }
  }

  // ---- Values ----

  /** What Python prints; the order of `fields` is that of insertion. */
  datatype PyValue =
    | PyNone
    | PyBool(b: bool)
    | PyInt(i: int)
    | PyStr(s: Text)
    | PyList(items: seq<PyValue>)
    | PyDict(fields: seq<PyField>)

  datatype PyField = PyField(key: Text, value: PyValue)

  /** Keys are distinct, and integers are doubles below 1e21, as the JavaScript side holds them. */
  ghost predicate IsPyValue(p: PyValue)
    decreases p
  {
    match p
    case PyInt(i) => IsFinite(i)
    case PyList(items) => forall k :: 0 <= k < |items| ==> IsPyValue(items[k])
    case PyDict(fields) =>
      (forall j, k :: 0 <= j < k < |fields| ==> fields[j].key != fields[k].key) &&
      (forall k :: 0 <= k < |fields| ==> IsPyValue(fields[k].value))
    case _ => true
  }

  /** The decimal with exactly the integer's digits, where a double prints the shortest. */
  function ExactInteger(i: int): Number {
    var digits := DigitsOf(Magnitude(i));
    Normalized(i < 0, digits, |digits|)
  }

  /** The value as a JavaScript tree, its integers by `number`. */
  function ToJson(p: PyValue, number: int -> Number): Json
    decreases p, 1
  {
    match p
    case PyNone => Null
    case PyBool(b) => Bool(b)
    case PyInt(i) => Num(number(i))
    case PyStr(s) => Str(s)
    case PyList(items) => Arr(ToItems(items, number))
    case PyDict(fields) => Obj(ToFields(fields, number))
  }

  function ToItems(items: seq<PyValue>, number: int -> Number): (vs: seq<Json>)
    ensures |vs| == |items|
    decreases items, 0
  {
    if items == [] then [] else [ToJson(items[0], number)] + ToItems(items[1..], number)
  }

  function ToFields(fields: seq<PyField>, number: int -> Number): (fs: seq<Field>)
    ensures |fs| == |fields|
    decreases fields, 0
  {
    if fields == [] then [] else [Field(fields[0].key, ToJson(fields[0].value, number))] + ToFields(fields[1..], number)
  }

  // ---- Python's printer ----

  /** Python compares code points, so a surrogate pair counts as one. */
  function CodePoints(t: Text): seq<int> {
    if t == [] then []
    else if |t| > 1 && IsHighSurrogate(t[0]) && IsLowSurrogate(t[1])
    then [0x10000 + (t[0] as int - 0xD800) * 0x400 + (t[1] as int - 0xDC00)] + CodePoints(t[2..])
    else [t[0] as int] + CodePoints(t[1..])
  }

  predicate PointsLess(a: seq<int>, b: seq<int>) {
    if b == [] then false
    else if a == [] then true
    else a[0] < b[0] || (a[0] == b[0] && PointsLess(a[1..], b[1..]))
  }

  predicate PythonLess(a: Entry, b: Entry) { PointsLess(CodePoints(a.key), CodePoints(b.key)) }

  function PythonQuote(s: Text): Text { [QUOTE] + PythonQuoteBody(s) + [QUOTE] }

  /** `json.dumps(separators=(item, key))`. */
  datatype Separators = Separators(item: Text, key: Text)

  /** What Python writes when no separators are given. */
  const DEFAULT: Separators := Separators([0x2C, 0x20], [0x3A, 0x20])
  const COMPACT: Separators := Separators([0x2C], [0x3A])

  function PythonPart(e: Entry, sep: Separators): Text { PythonQuote(e.key) + sep.key + e.text }

  function PythonParts(entries: seq<Entry>, sep: Separators): (parts: seq<Text>)
    ensures |parts| == |entries|
  {
    seq(|entries|, k requires 0 <= k < |entries| => PythonPart(entries[k], sep))
  }

  /** `item.join(parts)` */
  function PythonJoin(parts: seq<Text>, item: Text): Text {
    if parts == [] then []
    else if |parts| == 1 then parts[0]
    else PythonJoin(parts[..|parts| - 1], item) + item + parts[|parts| - 1]
  }

  function UnitsOf(s: string): Text {
    seq(|s|, i requires 0 <= i < |s| => if s[i] as int < 0x10000 then s[i] as CodeUnit else 0)
  }

  lemma WordsAgree()
    ensures UnitsOf("null") == NULL_TEXT && UnitsOf("true") == TRUE_TEXT && UnitsOf("false") == FALSE_TEXT
  {
  }

  function PythonDumps(p: PyValue, sep: Separators): Text
    decreases p, 1
  {
    match p
    case PyNone => UnitsOf("null")
    case PyBool(b) => if b then UnitsOf("true") else UnitsOf("false")
    case PyInt(i) => Sign(i < 0) + DigitsOf(Magnitude(i))
    case PyStr(s) => PythonQuote(s)
    case PyList(items) => [OPEN_ARRAY] + PythonJoin(PythonItems(items, sep), sep.item) + [CLOSE_ARRAY]
    case PyDict(fields) =>
      [OPEN_OBJECT] + PythonJoin(PythonParts(StableSort.Sort(PythonLess, PythonFields(fields, sep)), sep), sep.item)
      + [CLOSE_OBJECT]
  }

  function PythonItems(items: seq<PyValue>, sep: Separators): (parts: seq<Text>)
    ensures |parts| == |items|
    decreases items, 0
  {
    if items == [] then [] else [PythonDumps(items[0], sep)] + PythonItems(items[1..], sep)
  }

  function PythonFields(fields: seq<PyField>, sep: Separators): (entries: seq<Entry>)
    ensures |entries| == |fields|
    decreases fields, 0
  {
    if fields == [] then []
    else [Entry(fields[0].key, PythonDumps(fields[0].value, sep))] + PythonFields(fields[1..], sep)
  }

  // ---- Separators and gaps ----

  /** The separators that put `gap` after each comma and colon. */
  function SeparatorsOf(gap: Text): Separators { Separators([COMMA] + gap, [COLON] + gap) }

  lemma GapsOfSeparators()
    ensures SeparatorsOf([]) == COMPACT && SeparatorsOf([SPACE]) == DEFAULT
  {
  }

  lemma {:induction false} JoinInTheMiddle(parts: seq<Text>, last: Text, gap: Text)
    requires parts != []
    ensures Join(parts + [last], gap) == Join(parts, gap) + ([COMMA] + gap) + last
  {
    var all := parts + [last];
    if |parts| == 1 {
      assert all[1..] == [last];
      assert Join([last], gap) == last;
      assert Join(all, gap) == parts[0] + [COMMA] + gap + last;
    } else {
      JoinInTheMiddle(parts[1..], last, gap);
      assert all[1..] == parts[1..] + [last];
      JoinRegroups(parts[0], gap, Join(parts[1..], gap), last);
    }
  }

  lemma JoinRegroups(first: Text, gap: Text, middle: Text, last: Text)
    ensures first + [COMMA] + gap + (middle + ([COMMA] + gap) + last) ==
            first + [COMMA] + gap + middle + ([COMMA] + gap) + last
  {
  }

  /** Joining from the left and from the right give one text. */
  lemma {:induction false} JoinsAlike(parts: seq<Text>, gap: Text)
    ensures PythonJoin(parts, [COMMA] + gap) == Join(parts, gap)
  {
    if |parts| > 1 {
      var front, last := parts[..|parts| - 1], parts[|parts| - 1];
      JoinsAlike(front, gap);
      JoinInTheMiddle(front, last, gap);
      assert parts == front + [last];
    }
  }

  // ---- With parity of every string ----

  /** Every string and every key has parity. */
  ghost predicate StringsHaveParity(p: PyValue)
    decreases p
  {
    match p
    case PyStr(s) => HasPythonParity(s)
    case PyList(items) => forall k :: 0 <= k < |items| ==> StringsHaveParity(items[k])
    case PyDict(fields) =>
      forall k :: 0 <= k < |fields| ==> HasPythonParity(fields[k].key) && StringsHaveParity(fields[k].value)
    case _ => true
  }

  lemma {:induction false} ParityHasUnits(t: Text)
    requires HasPythonParity(t)
    ensures |CodePoints(t)| == |t| && forall k :: 0 <= k < |t| ==> CodePoints(t)[k] == t[k] as int
  {
    if t != [] {
      ParityHasUnits(t[1..]);
    }
  }

  lemma {:induction false} SameOrder(a: Text, b: Text, x: seq<int>, y: seq<int>)
    requires |x| == |a| && forall k :: 0 <= k < |a| ==> x[k] == a[k] as int
    requires |y| == |b| && forall k :: 0 <= k < |b| ==> y[k] == b[k] as int
    ensures PointsLess(x, y) <==> KeyLess(a, b)
  {
    if a != [] && b != [] {
      SameOrder(a[1..], b[1..], x[1..], y[1..]);
    }
  }

  lemma SortsAlike(entries: seq<Entry>)
    requires forall e :: e in entries ==> HasPythonParity(e.key)
    ensures StableSort.Sort(PythonLess, entries) == StableSort.Sort(EntryLess, entries)
    ensures forall e :: e in StableSort.Sort(EntryLess, entries) ==> HasPythonParity(e.key)
  {
    var same := (a: Entry, b) => a == b && HasPythonParity(a.key);
    forall a, c, b, d | same(a, b) && same(c, d)
      ensures PythonLess(a, c) == EntryLess(b, d)
    {
      ParityHasUnits(a.key);
      ParityHasUnits(c.key);
      SameOrder(a.key, c.key, CodePoints(a.key), CodePoints(c.key));
    }
    hide HasPythonParity, PythonLess, EntryLess, StableSort.Sort;
    StableSort.SortRelates(PythonLess, EntryLess, same, entries, entries);
    StableSort.SameMembers(entries, StableSort.Sort(EntryLess, entries));
    var xs, ys := StableSort.Sort(PythonLess, entries), StableSort.Sort(EntryLess, entries);
    assert forall k :: 0 <= k < |xs| ==> same(xs[k], ys[k]);
  }

  lemma PartAlike(e: Entry, gap: Text)
    requires HasPythonParity(e.key)
    ensures PythonPart(e, SeparatorsOf(gap)) == Quote(e.key) + [COLON] + gap + e.text
  {
    PythonParityIff(e.key);
    assert Quote(e.key) + ([COLON] + gap) == Quote(e.key) + [COLON] + gap;
  }

  lemma PartsAlike(entries: seq<Entry>, gap: Text)
    requires forall e :: e in entries ==> HasPythonParity(e.key)
    ensures PythonParts(entries, SeparatorsOf(gap)) == Parts(entries, gap)
  {
    hide HasPythonParity, PythonPart, Quote;
    forall k | 0 <= k < |entries|
      ensures PythonPart(entries[k], SeparatorsOf(gap)) == Quote(entries[k].key) + [COLON] + gap + entries[k].text
    {
      PartAlike(entries[k], gap);
    }
  }

  lemma ExactIntegerPrints(i: int)
    requires IsFinite(i)
    ensures IsNumber(ExactInteger(i)) && NumberText(ExactInteger(i)) == Sign(i < 0) + DigitsOf(Magnitude(i))
  {
    if i == 0 {
      ZeroPrints();
      hide Shortest;
    } else {
      LimitIsPower();
      NumeralLength(Magnitude(i), 21);
      NumeralStarts(Magnitude(i));
      WholeDigitsPrint(i < 0, DigitsOf(Magnitude(i)));
    }
  }

  /** Python's text is then the canonical printer's, of the tree with exact digits. */
  lemma {:induction false} PrintsExactTree(p: PyValue, gap: Text)
    requires IsPyValue(p) && StringsHaveParity(p)
    ensures PythonDumps(p, SeparatorsOf(gap)) == Stringify(ToJson(p, ExactInteger), gap)
    decreases p, 1
  {
    hide IsFinite, ExactInteger, NumberText, Magnitude, Sign, DigitsOf, Join, PythonJoin, StableSort.Sort, Parts, PythonParts;
    WordsAgree();
    match p
    case PyInt(i) => ExactIntegerPrints(i);
    case PyStr(s) => PythonParityIff(s);
    case PyList(items) =>
      PrintsExactItems(items, gap);
      JoinsAlike(PythonItems(items, SeparatorsOf(gap)), gap);
    case PyDict(fields) =>
      PrintsExactFields(fields, gap);
      DictPrintsAlike(fields, ToFields(fields, ExactInteger), gap);
    case _ =>
  }

  lemma DictPrintsAlike(fields: seq<PyField>, fs: seq<Field>, gap: Text)
    requires PythonFields(fields, SeparatorsOf(gap)) == StringifyFields(fs, gap)
    requires forall e :: e in PythonFields(fields, SeparatorsOf(gap)) ==> HasPythonParity(e.key)
    ensures PythonDumps(PyDict(fields), SeparatorsOf(gap)) == Stringify(Obj(fs), gap)
  {
    hide PythonFields, StringifyFields, Join, PythonJoin, Parts, PythonParts, HasPythonParity;
    SortsAlike(PythonFields(fields, SeparatorsOf(gap)));
    PartsAlike(StableSort.Sort(EntryLess, PythonFields(fields, SeparatorsOf(gap))), gap);
    JoinsAlike(Parts(StableSort.Sort(EntryLess, PythonFields(fields, SeparatorsOf(gap))), gap), gap);
  }

  lemma {:induction false} PrintsExactItems(items: seq<PyValue>, gap: Text)
    requires forall k :: 0 <= k < |items| ==> IsPyValue(items[k]) && StringsHaveParity(items[k])
    ensures PythonItems(items, SeparatorsOf(gap)) == StringifyItems(ToItems(items, ExactInteger), gap)
    decreases items, 0
  {
    if items != [] {
      PrintsExactTree(items[0], gap);
      PrintsExactItems(items[1..], gap);
    }
  }

  lemma {:induction false} PrintsExactFields(fields: seq<PyField>, gap: Text)
    requires forall k :: 0 <= k < |fields| ==>
               IsPyValue(fields[k].value) && HasPythonParity(fields[k].key) && StringsHaveParity(fields[k].value)
    ensures PythonFields(fields, SeparatorsOf(gap)) == StringifyFields(ToFields(fields, ExactInteger), gap)
    ensures forall e :: e in PythonFields(fields, SeparatorsOf(gap)) ==> HasPythonParity(e.key)
    decreases fields, 0
  {
    if fields != [] {
      PrintsExactTree(fields[0].value, gap);
      PrintsExactFields(fields[1..], gap);
    }
  }

  // ---- Without: one text is ASCII, the other is not ----

  lemma AsciiConcat(a: Text, b: Text)
    requires IsAscii(a) && IsAscii(b)
    ensures IsAscii(a + b)
  {
  }

  lemma {:induction false} JoinIsAscii(parts: seq<Text>, gap: Text)
    requires IsAscii(gap)
    requires forall part :: part in parts ==> IsAscii(part)
    ensures IsAscii(Join(parts, gap))
  {
    if |parts| > 1 {
      JoinIsAscii(parts[1..], gap);
      AsciiConcat(parts[0], [COMMA]);
      AsciiConcat(parts[0] + [COMMA], gap);
      AsciiConcat(parts[0] + [COMMA] + gap, Join(parts[1..], gap));
    }
  }

  lemma QuotedIsAscii(s: Text)
    ensures IsAscii(PythonQuote(s))
  {
    PythonIsAscii(s);
  }

  lemma BracketedIsAscii(open: CodeUnit, body: Text, close: CodeUnit)
    requires open < 0x7F && close < 0x7F && IsAscii(body)
    ensures IsAscii([open] + body + [close])
  {
  }

  lemma PythonPartIsAscii(e: Entry, gap: Text)
    requires IsAscii(gap)
    requires IsAscii(e.text)
    ensures IsAscii(PythonPart(e, SeparatorsOf(gap)))
  {
    QuotedIsAscii(e.key);
    AsciiConcat([COLON], gap);
    AsciiConcat(PythonQuote(e.key), [COLON] + gap);
    AsciiConcat(PythonQuote(e.key) + ([COLON] + gap), e.text);
  }

  lemma DictIsAscii(entries: seq<Entry>, gap: Text)
    requires IsAscii(gap)
    requires forall e :: e in entries ==> IsAscii(e.text)
    ensures IsAscii(Join(PythonParts(StableSort.Sort(PythonLess, entries), SeparatorsOf(gap)), gap))
  {
    var sorted := StableSort.Sort(PythonLess, entries);
    StableSort.SameMembers(sorted, entries);
    hide StableSort.Sort, PythonPart, IsAscii;
    forall part | part in PythonParts(sorted, SeparatorsOf(gap))
      ensures IsAscii(part)
    {
      var k :| 0 <= k < |sorted| && PythonParts(sorted, SeparatorsOf(gap))[k] == part;
      PythonPartIsAscii(sorted[k], gap);
    }
    JoinIsAscii(PythonParts(sorted, SeparatorsOf(gap)), gap);
  }

  lemma LiteralIsAscii(p: PyValue, gap: Text)
    requires p.PyNone? || p.PyBool? || p.PyInt?
    ensures IsAscii(PythonDumps(p, SeparatorsOf(gap)))
  {
    WordsAgree();
    if p.PyInt? {
      var digits := DigitsOf(Magnitude(p.i));
      assert forall c :: c in digits ==> IsDigitUnit(c);
    }
  }

  lemma {:induction false} PythonDumpsIsAscii(p: PyValue, gap: Text)
    requires IsAscii(gap)
    ensures IsAscii(PythonDumps(p, SeparatorsOf(gap)))
    decreases p, 1
  {
    hide IsAscii, PythonQuote, Join, PythonJoin, DigitsOf, Magnitude, Sign, StableSort.Sort, PythonParts;
    var sep := SeparatorsOf(gap);
    match p
    case PyStr(s) => QuotedIsAscii(s);
    case PyList(items) =>
      PythonItemsAreAscii(items, gap);
      JoinIsAscii(PythonItems(items, sep), gap);
      JoinsAlike(PythonItems(items, sep), gap);
      BracketedIsAscii(OPEN_ARRAY, Join(PythonItems(items, sep), gap), CLOSE_ARRAY);
    case PyDict(fields) =>
      PythonFieldsAreAscii(fields, gap);
      DictIsAscii(PythonFields(fields, sep), gap);
      var parts := PythonParts(StableSort.Sort(PythonLess, PythonFields(fields, sep)), sep);
      JoinsAlike(parts, gap);
      BracketedIsAscii(OPEN_OBJECT, Join(parts, gap), CLOSE_OBJECT);
    case _ => LiteralIsAscii(p, gap);
  }

  lemma {:induction false} PythonItemsAreAscii(items: seq<PyValue>, gap: Text)
    requires IsAscii(gap)
    ensures forall part :: part in PythonItems(items, SeparatorsOf(gap)) ==> IsAscii(part)
    decreases items, 0
  {
    if items != [] {
      PythonDumpsIsAscii(items[0], gap);
      PythonItemsAreAscii(items[1..], gap);
    }
  }

  lemma {:induction false} PythonFieldsAreAscii(fields: seq<PyField>, gap: Text)
    requires IsAscii(gap)
    ensures forall e :: e in PythonFields(fields, SeparatorsOf(gap)) ==> IsAscii(e.text)
    decreases fields, 0
  {
    if fields != [] {
      PythonDumpsIsAscii(fields[0].value, gap);
      PythonFieldsAreAscii(fields[1..], gap);
    }
  }

  lemma {:induction false} JoinKeepsUnits(parts: seq<Text>, k: nat, gap: Text)
    requires k < |parts| && !IsAscii(parts[k])
    ensures !IsAscii(Join(parts, gap))
  {
    var c :| c in parts[k] && c >= 0x7F;
    if |parts| > 1 {
      if k > 0 {
        JoinKeepsUnits(parts[1..], k - 1, gap);
        var d :| d in Join(parts[1..], gap) && d >= 0x7F;
        assert d in Join(parts, gap);
      } else {
        assert c in Join(parts, gap);
      }
    }
  }

  lemma QuotedIsNotAscii(s: Text)
    requires !HasPythonParity(s)
    ensures !IsAscii(Quote(s))
  {
    RawUnitIsNotAscii(s);
    var c :| c in QuoteBody(s) && c >= 0x7F;
    assert c in Quote(s);
  }

  lemma {:induction false} ItemAt(items: seq<PyValue>, number: int -> Number, k: nat, gap: Text)
    requires k < |items|
    ensures ToItems(items, number)[k] == ToJson(items[k], number)
    ensures StringifyItems(ToItems(items, number), gap)[k] == Stringify(ToJson(items[k], number), gap)
  {
    if k > 0 {
      ItemAt(items[1..], number, k - 1, gap);
    }
  }

  lemma {:induction false} FieldAt(fields: seq<PyField>, number: int -> Number, k: nat, gap: Text)
    requires k < |fields|
    ensures ToFields(fields, number)[k] == Field(fields[k].key, ToJson(fields[k].value, number))
    ensures StringifyFields(ToFields(fields, number), gap)[k] ==
            Entry(fields[k].key, Stringify(ToJson(fields[k].value, number), gap))
  {
    if k > 0 {
      FieldAt(fields[1..], number, k - 1, gap);
    }
  }

  lemma PartIsNotAscii(e: Entry, gap: Text)
    requires !HasPythonParity(e.key) || !IsAscii(e.text)
    ensures !IsAscii(Quote(e.key) + [COLON] + gap + e.text)
  {
    var part := Quote(e.key) + [COLON] + gap + e.text;
    if !IsAscii(e.text) {
      var c :| c in e.text && c >= 0x7F;
      assert c in part;
    } else {
      QuotedIsNotAscii(e.key);
      var c :| c in Quote(e.key) && c >= 0x7F;
      assert c in part;
    }
  }

  lemma ObjectIsNotAscii(entries: seq<Entry>, e: Entry, gap: Text)
    requires e in entries && (!HasPythonParity(e.key) || !IsAscii(e.text))
    ensures !IsAscii(Join(Parts(StableSort.Sort(EntryLess, entries), gap), gap))
  {
    var sorted := StableSort.Sort(EntryLess, entries);
    StableSort.SameMembers(sorted, entries);
    var k :| 0 <= k < |sorted| && sorted[k] == e;
    PartIsNotAscii(e, gap);
    JoinKeepsUnits(Parts(sorted, gap), k, gap);
  }

  lemma BracketedIsNotAscii(open: Text, body: Text, close: Text)
    requires !IsAscii(body)
    ensures !IsAscii(open + body + close)
  {
    var c :| c in body && c >= 0x7F;
    assert c in open + body + close;
  }

  lemma ListPrintsNonAscii(items: seq<PyValue>, number: int -> Number, k: nat, gap: Text)
    requires k < |items| && !IsAscii(Stringify(ToJson(items[k], number), gap))
    ensures !IsAscii(Stringify(ToJson(PyList(items), number), gap))
  {
    hide IsAscii;
    ItemAt(items, number, k, gap);
    var parts := StringifyItems(ToItems(items, number), gap);
    hide ToItems, StringifyItems, Join;
    JoinKeepsUnits(parts, k, gap);
    BracketedIsNotAscii([OPEN_ARRAY], Join(parts, gap), [CLOSE_ARRAY]);
  }

  lemma DictPrintsNonAscii(fields: seq<PyField>, number: int -> Number, k: nat, gap: Text)
    requires k < |fields|
    requires !HasPythonParity(fields[k].key) || !IsAscii(Stringify(ToJson(fields[k].value, number), gap))
    ensures !IsAscii(Stringify(ToJson(PyDict(fields), number), gap))
  {
    FieldAt(fields, number, k, gap);
    PrintedObjectIsNotAscii(ToFields(fields, number), StringifyFields(ToFields(fields, number), gap)[k], gap);
  }

  lemma PrintedObjectIsNotAscii(fs: seq<Field>, e: Entry, gap: Text)
    requires e in StringifyFields(fs, gap) && (!HasPythonParity(e.key) || !IsAscii(e.text))
    ensures !IsAscii(Stringify(Obj(fs), gap))
  {
    hide IsAscii, HasPythonParity, StringifyFields, Join, Parts, StableSort.Sort;
    var entries := StringifyFields(fs, gap);
    ObjectIsNotAscii(entries, e, gap);
    BracketedIsNotAscii([OPEN_OBJECT], Join(Parts(StableSort.Sort(EntryLess, entries), gap), gap), [CLOSE_OBJECT]);
  }

  lemma {:induction false} PrintsNonAscii(p: PyValue, number: int -> Number, gap: Text)
    requires !StringsHaveParity(p)
    ensures !IsAscii(Stringify(ToJson(p, number), gap))
    decreases p
  {
    hide IsAscii, Quote, HasPythonParity;
    match p
    case PyStr(s) => QuotedIsNotAscii(s);
    case PyList(items) =>
      hide Stringify, ToJson;
      var k :| 0 <= k < |items| && !StringsHaveParity(items[k]);
      PrintsNonAscii(items[k], number, gap);
      ListPrintsNonAscii(items, number, k, gap);
    case PyDict(fields) =>
      hide Stringify, ToJson;
      var k :| 0 <= k < |fields| && !(HasPythonParity(fields[k].key) && StringsHaveParity(fields[k].value));
      if !StringsHaveParity(fields[k].value) {
        PrintsNonAscii(fields[k].value, number, gap);
      }
      DictPrintsNonAscii(fields, number, k, gap);
    case _ =>
  }

  // ---- The numbers ----

  /** Both ways to write the integers agree on each of them. */
  ghost predicate AgreeOnIntegers(p: PyValue, f: int -> Number, g: int -> Number)
    decreases p
  {
    match p
    case PyInt(i) => Plain(f(i)) == Plain(g(i))
    case PyList(items) => forall k :: 0 <= k < |items| ==> AgreeOnIntegers(items[k], f, g)
    case PyDict(fields) => forall k :: 0 <= k < |fields| ==> AgreeOnIntegers(fields[k].value, f, g)
    case _ => true
  }

  lemma {:induction false} SameIffIntegersAgree(p: PyValue, f: int -> Number, g: int -> Number)
    requires IsPyValue(p)
    ensures Same(ToJson(p, f), ToJson(p, g)) <==> AgreeOnIntegers(p, f, g)
    decreases p
  {
    match p
    case PyList(items) =>
      forall k | 0 <= k < |items|
        ensures Same(ToJson(items[k], f), ToJson(items[k], g)) <==> AgreeOnIntegers(items[k], f, g)
      {
        SameIffIntegersAgree(items[k], f, g);
      }
      hide Denote;
      SameItemsIff(items, f, g);
    case PyDict(fields) =>
      forall k | 0 <= k < |fields|
        ensures Same(ToJson(fields[k].value, f), ToJson(fields[k].value, g)) <==> AgreeOnIntegers(fields[k].value, f, g)
      {
        SameIffIntegersAgree(fields[k].value, f, g);
      }
      hide Denote;
      SameFieldsIff(fields, f, g);
    case _ =>
  }

  lemma SameItemsIff(items: seq<PyValue>, f: int -> Number, g: int -> Number)
    ensures Same(ToJson(PyList(items), f), ToJson(PyList(items), g)) <==>
            forall k :: 0 <= k < |items| ==> Same(ToJson(items[k], f), ToJson(items[k], g))
  {
    forall k | 0 <= k < |items|
      ensures DenoteItems(ToItems(items, f))[k] == Denote(ToJson(items[k], f))
      ensures DenoteItems(ToItems(items, g))[k] == Denote(ToJson(items[k], g))
    {
      DenotedItemAt(items, f, k);
      DenotedItemAt(items, g, k);
    }
    var xs, ys := DenoteItems(ToItems(items, f)), DenoteItems(ToItems(items, g));
    assert Same(ToJson(PyList(items), f), ToJson(PyList(items), g)) <==> xs == ys;
    hide Denote, DenoteItems, ToItems;
    assert (forall k :: 0 <= k < |items| ==> xs[k] == ys[k]) ==> xs == ys;
  }

  lemma {:induction false} DenotedItemAt(items: seq<PyValue>, number: int -> Number, k: nat)
    requires k < |items|
    ensures DenoteItems(ToItems(items, number))[k] == Denote(ToJson(items[k], number))
  {
    if k > 0 {
      DenotedItemAt(items[1..], number, k - 1);
    }
  }

  lemma DenotedFields(fields: seq<PyField>, number: int -> Number)
    requires forall j, k :: 0 <= j < k < |fields| ==> fields[j].key != fields[k].key
    ensures var m := DenoteFields(ToFields(fields, number));
            (forall key :: key in m <==> exists k :: 0 <= k < |fields| && fields[k].key == key) &&
            (forall k :: 0 <= k < |fields| ==>
               fields[k].key in m && m[fields[k].key] == Denote(ToJson(fields[k].value, number)))
  {
    var fs := ToFields(fields, number);
    forall k | 0 <= k < |fields|
      ensures fs[k] == Field(fields[k].key, ToJson(fields[k].value, number))
    {
      FieldAt(fields, number, k, []);
    }
    hide Denote, DenoteFields, ToJson, ToFields;
    DenoteFieldsAt(fs);
  }

  lemma MapsEqualIff(fields: seq<PyField>, m: map<Text, Value>, n: map<Text, Value>)
    requires forall key :: key in m <==> exists k :: 0 <= k < |fields| && fields[k].key == key
    requires forall key :: key in n <==> exists k :: 0 <= k < |fields| && fields[k].key == key
    ensures m == n <==> forall k :: 0 <= k < |fields| ==>
                          fields[k].key in m && fields[k].key in n && m[fields[k].key] == n[fields[k].key]
  {
    assert m.Keys == n.Keys;
  }

  lemma SameFieldsIff(fields: seq<PyField>, f: int -> Number, g: int -> Number)
    requires forall j, k :: 0 <= j < k < |fields| ==> fields[j].key != fields[k].key
    ensures Same(ToJson(PyDict(fields), f), ToJson(PyDict(fields), g)) <==>
            forall k :: 0 <= k < |fields| ==> Same(ToJson(fields[k].value, f), ToJson(fields[k].value, g))
  {
    DenotedFields(fields, f);
    DenotedFields(fields, g);
    DenoteOfDict(fields, f);
    DenoteOfDict(fields, g);
    hide Denote, DenoteFields, ToJson, ToFields;
    MapsEqualIff(fields, DenoteFields(ToFields(fields, f)), DenoteFields(ToFields(fields, g)));
  }

  lemma DenoteOfDict(fields: seq<PyField>, number: int -> Number)
    ensures Denote(ToJson(PyDict(fields), number)) == ObjValue(DenoteFields(ToFields(fields, number)))
  {
  }

  lemma {:induction false} JsonIsWellFormed(p: PyValue, number: int -> Number)
    requires IsPyValue(p) && forall i :: IsFinite(i) ==> IsNumber(number(i))
    ensures WellFormed(ToJson(p, number))
    decreases p
  {
    match p
    case PyList(items) =>
      forall k | 0 <= k < |items|
        ensures WellFormed(ToItems(items, number)[k])
      {
        ItemAt(items, number, k, []);
        JsonIsWellFormed(items[k], number);
      }
    case PyDict(fields) =>
      forall k | 0 <= k < |fields|
        ensures ToFields(fields, number)[k].key == fields[k].key && WellFormed(ToFields(fields, number)[k].value)
      {
        FieldAt(fields, number, k, []);
        JsonIsWellFormed(fields[k].value, number);
      }
    case _ =>
  }

  /** Every integer is the shortest numeral of itself. */
  ghost predicate IntegersAreShortest(p: PyValue)
    decreases p
  {
    match p
    case PyInt(i) => Shortest(Magnitude(i)) == Magnitude(i)
    case PyList(items) => forall k :: 0 <= k < |items| ==> IntegersAreShortest(items[k])
    case PyDict(fields) => forall k :: 0 <= k < |fields| ==> IntegersAreShortest(fields[k].value)
    case _ => true
  }

  lemma TextDecidesDigits(negative: bool, a: nat, b: nat)
    ensures Sign(negative) + DigitsOf(a) == Sign(negative) + DigitsOf(b) <==> a == b
  {
    var x, y := Sign(negative) + DigitsOf(a), Sign(negative) + DigitsOf(b);
    assert DigitsOf(a) == x[|Sign(negative)|..] && DigitsOf(b) == y[|Sign(negative)|..];
    CharsOfUnits(Numeral(a));
    CharsOfUnits(Numeral(b));
    ValueOfNumeral(a);
    ValueOfNumeral(b);
  }

  lemma TextDecidesNumber(m: Number, n: Number)
    requires IsNumber(m) && IsNumber(n)
    ensures NumberText(m) == NumberText(n) <==> Plain(m) == Plain(n)
  {
    NumberReads(m, []);
    NumberReads(n, []);
    hide ReadNumber, NotationText, NotationOf;
    assert NumberText(m) + [] == NumberText(m) && NumberText(n) + [] == NumberText(n);
  }

  lemma IntegersAgreeIff(i: int)
    requires IsFinite(i)
    ensures Plain(ExactInteger(i)) == Plain(FromInteger(i)) <==> Shortest(Magnitude(i)) == Magnitude(i)
  {
    ExactIntegerPrints(i);
    IntegerPrints(i);
    hide IsFinite, Shortest, ExactInteger, FromInteger, NumberText, IsNumber, DigitsOf, Sign, Round;
    TextDecidesNumber(ExactInteger(i), FromInteger(i));
    TextDecidesDigits(i < 0, Magnitude(i), Shortest(Magnitude(i)));
  }

  lemma {:induction false} AgreeIffShortest(p: PyValue)
    requires IsPyValue(p)
    ensures AgreeOnIntegers(p, ExactInteger, FromInteger) <==> IntegersAreShortest(p)
    decreases p
  {
    match p
    case PyInt(i) => IntegersAgreeIff(i);
    case PyList(items) =>
      forall k | 0 <= k < |items|
        ensures AgreeOnIntegers(items[k], ExactInteger, FromInteger) <==> IntegersAreShortest(items[k])
      {
        AgreeIffShortest(items[k]);
      }
    case PyDict(fields) =>
      forall k | 0 <= k < |fields|
        ensures AgreeOnIntegers(fields[k].value, ExactInteger, FromInteger) <==> IntegersAreShortest(fields[k].value)
      {
        AgreeIffShortest(fields[k].value);
      }
    case _ =>
  }

  // ---- The exact condition ----

  lemma NumbersAreNumbers()
    ensures forall i :: IsFinite(i) ==> IsNumber(ExactInteger(i)) && IsNumber(FromInteger(i))
  {
    forall i | IsFinite(i)
      ensures IsNumber(ExactInteger(i)) && IsNumber(FromInteger(i))
    {
      ExactIntegerPrints(i);
      IntegerPrints(i);
    }
  }

  /** With whichever white gap after commas and colons, as long as it is ASCII. */
  lemma GapParityIff(p: PyValue, gap: Text)
    requires IsPyValue(p) && AllWhitespace(gap) && IsAscii(gap)
    ensures PythonDumps(p, SeparatorsOf(gap)) == Stringify(ToJson(p, FromInteger), gap) <==>
            StringsHaveParity(p) && IntegersAreShortest(p)
  {
    var exact, rounded := ToJson(p, ExactInteger), ToJson(p, FromInteger);
    hide Stringify, PythonDumps, ToJson, IsFinite, FromInteger, ExactInteger, IsNumber;
    if StringsHaveParity(p) {
      NumbersAreNumbers();
      JsonIsWellFormed(p, ExactInteger);
      JsonIsWellFormed(p, FromInteger);
      PrintsExactTree(p, gap);
      StringifyIdentifiesSame(exact, rounded, gap);
      SameIffIntegersAgree(p, ExactInteger, FromInteger);
      AgreeIffShortest(p);
    } else {
      PythonDumpsIsAscii(p, gap);
      PrintsNonAscii(p, FromInteger, gap);
    }
  }

  /** A whole value prints as Python prints it exactly when all its strings have parity and its integers are their own shortest. */
  lemma ValueParityIff(p: PyValue)
    requires IsPyValue(p)
    ensures PythonDumps(p, DEFAULT) == PythonDefaultJson(ToJson(p, FromInteger)) <==>
            StringsHaveParity(p) && IntegersAreShortest(p)
  {
    hide PythonDumps, Stringify, ToJson;
    GapsOfSeparators();
    GapParityIff(p, [SPACE]);
  }

  /** And so with compact separators, for the canonical text. */
  lemma CompactParityIff(p: PyValue)
    requires IsPyValue(p)
    ensures PythonDumps(p, COMPACT) == CanonicalJsonStringify(ToJson(p, FromInteger)) <==>
            StringsHaveParity(p) && IntegersAreShortest(p)
  {
    hide PythonDumps, Stringify, ToJson;
    GapsOfSeparators();
    GapParityIff(p, []);
  }

  /** All characters below DEL, and integers of at most 53 binary digits. */
  ghost predicate IsPlainPython(p: PyValue)
    decreases p
  {
    match p
    case PyInt(i) => Magnitude(i) < TWO_TO_53
    case PyStr(s) => IsAscii(s)
    case PyList(items) => forall k :: 0 <= k < |items| ==> IsPlainPython(items[k])
    case PyDict(fields) => forall k :: 0 <= k < |fields| ==> IsAscii(fields[k].key) && IsPlainPython(fields[k].value)
    case _ => true
  }

  lemma {:induction false} AsciiHasParity(s: Text)
    requires IsAscii(s)
    ensures HasPythonParity(s)
  {
    if s != [] {
      assert s[0] in s && (|s| > 1 ==> s[1] in s);
      assert forall c :: c in s[1..] ==> c in s;
      AsciiHasParity(s[1..]);
    }
  }

  lemma {:induction false} PlainHasParity(p: PyValue)
    requires IsPlainPython(p)
    ensures StringsHaveParity(p) && IntegersAreShortest(p)
    decreases p
  {
    hide IsAscii, HasPythonParity, Shortest, Magnitude;
    match p
    case PyInt(i) => SafeIsShortest(Magnitude(i));
    case PyStr(s) => AsciiHasParity(s);
    case PyList(items) =>
      forall k | 0 <= k < |items|
        ensures StringsHaveParity(items[k]) && IntegersAreShortest(items[k])
      {
        PlainHasParity(items[k]);
      }
    case PyDict(fields) =>
      forall k | 0 <= k < |fields|
        ensures HasPythonParity(fields[k].key)
        ensures StringsHaveParity(fields[k].value) && IntegersAreShortest(fields[k].value)
      {
        AsciiHasParity(fields[k].key);
        PlainHasParity(fields[k].value);
      }
    case _ =>
  }

  /** Such values print alike on both sides. */
  lemma PlainValuesPrintAlike(p: PyValue)
    requires IsPyValue(p) && IsPlainPython(p)
    ensures PythonDumps(p, DEFAULT) == PythonDefaultJson(ToJson(p, FromInteger))
    ensures PythonDumps(p, COMPACT) == CanonicalJsonStringify(ToJson(p, FromInteger))
  {
    PlainHasParity(p);
    ValueParityIff(p);
    CompactParityIff(p);
  }
}
