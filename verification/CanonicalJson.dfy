/**
 The two canonical JSON printers behind the cache keys, and a parser of the JSON text of
 RFC 8259 that inverts both.
 */
module CanonicalJson {
  import opened Common
  import opened JsonNumber
  import StableSort

  datatype Json =
    | Undefined
    | Null
    | NonFinite
    | Bool(b: bool)
    | Num(n: Number)
    | Str(s: Text)
    | Arr(items: seq<Json>)
    | Obj(fields: seq<Field>)

  /** Object properties in insertion order. */
  datatype Field = Field(key: Text, value: Json)

  const QUOTE: CodeUnit := 0x22
  const BACKSLASH: CodeUnit := 0x5C
  const COMMA: CodeUnit := 0x2C
  const COLON: CodeUnit := 0x3A
  const OPEN_ARRAY: CodeUnit := 0x5B
  const CLOSE_ARRAY: CodeUnit := 0x5D
  const OPEN_OBJECT: CodeUnit := 0x7B
  const CLOSE_OBJECT: CodeUnit := 0x7D
  const NULL_TEXT: Text := [0x6E, 0x75, 0x6C, 0x6C]
  const TRUE_TEXT: Text := [0x74, 0x72, 0x75, 0x65]
  const FALSE_TEXT: Text := [0x66, 0x61, 0x6C, 0x73, 0x65]

  // ---- Strings ----

  predicate IsHighSurrogate(c: CodeUnit) { 0xD800 <= c <= 0xDBFF }

  predicate IsLowSurrogate(c: CodeUnit) { 0xDC00 <= c <= 0xDFFF }

  function HexDigit(d: CodeUnit): CodeUnit
    requires d < 16
  {
    if d < 10 then 0x30 + d else 0x57 + d
  }

  function HexEscape(c: CodeUnit): Text {
    [BACKSLASH, 0x75, HexDigit(c / 0x1000), HexDigit(c / 0x100 % 16), HexDigit(c / 0x10 % 16), HexDigit(c % 16)]
  }

  /** `JSON.stringify` of one code unit that is not half of a surrogate pair. */
  function EscapeUnit(c: CodeUnit): Text {
    if c == QUOTE || c == BACKSLASH then [BACKSLASH, c]
    else if c == 0x08 then [BACKSLASH, 0x62]
    else if c == 0x0C then [BACKSLASH, 0x66]
    else if c == 0x0A then [BACKSLASH, 0x6E]
    else if c == 0x0D then [BACKSLASH, 0x72]
    else if c == 0x09 then [BACKSLASH, 0x74]
    else if c < 0x20 || IsHighSurrogate(c) || IsLowSurrogate(c) then HexEscape(c)
    else [c]
  }

  function QuoteBody(s: Text): Text {
    if s == [] then []
    else if |s| > 1 && IsHighSurrogate(s[0]) && IsLowSurrogate(s[1]) then [s[0], s[1]] + QuoteBody(s[2..])
    else EscapeUnit(s[0]) + QuoteBody(s[1..])
  }

  /** `JSON.stringify` of a string. */
  function Quote(s: Text): Text {
    [QUOTE] + QuoteBody(s) + [QUOTE]
  }

  function FromHexDigit(c: CodeUnit): (d: Option<CodeUnit>)
    ensures d.Some? ==> d.value < 16
  {
    if 0x30 <= c <= 0x39 then Some(c - 0x30)
    else if 0x61 <= c <= 0x66 then Some(c - 0x57)
    else if 0x41 <= c <= 0x46 then Some(c - 0x37)
    else None
  }

  function SimpleEscape(c: CodeUnit): Option<CodeUnit> {
    if c == QUOTE || c == BACKSLASH || c == 0x2F then Some(c)
    else if c == 0x62 then Some(0x08)
    else if c == 0x66 then Some(0x0C)
    else if c == 0x6E then Some(0x0A)
    else if c == 0x72 then Some(0x0D)
    else if c == 0x74 then Some(0x09)
    else None
  }

  /** One character of a string body: its code unit and how much text it took. */
  function ParseUnit(t: Text): (r: Option<(CodeUnit, nat)>)
    requires t != []
    ensures r.Some? ==> 0 < r.value.1 <= |t|
  {
    if t[0] != BACKSLASH then if t[0] < 0x20 then None else Some((t[0], 1))
    else if |t| < 2 then None
    else if t[1] != 0x75 then
      var c :- SimpleEscape(t[1]);
      Some((c, 2))
    else if |t| < 6 then None
    else
      var a :- FromHexDigit(t[2]);
      var b :- FromHexDigit(t[3]);
      var c :- FromHexDigit(t[4]);
      var d :- FromHexDigit(t[5]);
      Some(((((a as int * 16 + b as int) * 16 + c as int) * 16 + d as int) as CodeUnit, 6))
  }

  /** A string body up to its closing quote. */
  function ParseBody(t: Text): (r: Option<(Text, Text)>)
    ensures r.Some? ==> |r.value.1| < |t|
    decreases |t|
  {
    if t == [] then None
    else if t[0] == QUOTE then Some(([], t[1..]))
    else
      var u :- ParseUnit(t);
      var r :- ParseBody(t[u.1..]);
      Some(([u.0] + r.0, r.1))
  }

  lemma HexDigitReads(d: CodeUnit)
    requires d < 16
    ensures FromHexDigit(HexDigit(d)) == Some(d)
  {
  }

  lemma NibblesRejoin(c: int)
    requires 0 <= c < 0x1_0000
    ensures ((c / 0x1000 * 16 + c / 0x100 % 16) * 16 + c / 0x10 % 16) * 16 + c % 16 == c
  {
    assert c / 0x100 / 16 == c / 0x1000 && c / 0x10 / 16 == c / 0x100;
  }

  lemma HexReads(c: CodeUnit)
    ensures FromHexDigit(HexDigit(c / 0x1000)) == Some(c / 0x1000)
    ensures FromHexDigit(HexDigit(c / 0x100 % 16)) == Some(c / 0x100 % 16)
    ensures FromHexDigit(HexDigit(c / 0x10 % 16)) == Some(c / 0x10 % 16)
    ensures FromHexDigit(HexDigit(c % 16)) == Some(c % 16)
    ensures (((c / 0x1000) as int * 16 + (c / 0x100 % 16) as int) * 16 + (c / 0x10 % 16) as int) * 16
            + (c % 16) as int == c as int
  {
    hide HexDigit, FromHexDigit;
    HexDigitReads(c / 0x1000);
    HexDigitReads(c / 0x100 % 16);
    HexDigitReads(c / 0x10 % 16);
    HexDigitReads(c % 16);
    NibblesRejoin(c as int);
  }

  lemma UnitReads(c: CodeUnit, tail: Text)
    ensures ParseUnit(EscapeUnit(c) + tail) == Some((c, |EscapeUnit(c)|))
    ensures EscapeUnit(c)[0] != QUOTE
  {
    var t := EscapeUnit(c) + tail;
    if EscapeUnit(c) == HexEscape(c) {
      HexReads(c);
      hide HexDigit, FromHexDigit;
      assert t[0] == BACKSLASH && t[1] == 0x75;
      assert t[2] == HexDigit(c / 0x1000) && t[3] == HexDigit(c / 0x100 % 16);
      assert t[4] == HexDigit(c / 0x10 % 16) && t[5] == HexDigit(c % 16);
    }
  }

  /** One more parsed character in front of a parsed body. */
  lemma BodyStep(t: Text, unit: Text, c: CodeUnit, rest: Text, s: Text, tail: Text)
    requires unit != [] && unit[0] != QUOTE && t == unit + rest
    requires ParseUnit(t) == Some((c, |unit|)) && ParseBody(rest) == Some((s, tail))
    ensures ParseBody(t) == Some(([c] + s, tail))
  {
    assert t[|unit|..] == rest && t[0] == unit[0];
  }

  /** The quoted body written in front of `end`. */
  function BodyOnto(s: Text, end: Text): Text {
    if s == [] then end
    else if |s| > 1 && IsHighSurrogate(s[0]) && IsLowSurrogate(s[1])
    then [s[0]] + ([s[1]] + BodyOnto(s[2..], end))
    else EscapeUnit(s[0]) + BodyOnto(s[1..], end)
  }

  lemma {:induction false} BodyOntoIsAppend(s: Text, end: Text)
    ensures BodyOnto(s, end) == QuoteBody(s) + end
    decreases |s|
  {
    hide EscapeUnit;
    if s == [] {
    } else if |s| > 1 && IsHighSurrogate(s[0]) && IsLowSurrogate(s[1]) {
      BodyOntoIsAppend(s[2..], end);
    } else {
      BodyOntoIsAppend(s[1..], end);
    }
  }

  lemma {:induction false} BodyReads(s: Text, tail: Text)
    ensures ParseBody(BodyOnto(s, [QUOTE] + tail)) == Some((s, tail))
    decreases |s|
  {
    var end := [QUOTE] + tail;
    if s == [] {
      assert end[1..] == tail;
    } else if |s| > 1 && IsHighSurrogate(s[0]) && IsLowSurrogate(s[1]) {
      BodyReads(s[2..], tail);
      PairReads(s[0], s[1], BodyOnto(s[2..], end), s[2..], tail);
      assert s == [s[0]] + ([s[1]] + s[2..]);
    } else {
      BodyReads(s[1..], tail);
      var unit, rest := EscapeUnit(s[0]), BodyOnto(s[1..], end);
      UnitReads(s[0], rest);
      BodyStep(unit + rest, unit, s[0], rest, s[1..], tail);
      assert s == [s[0]] + s[1..];
    }
  }

  lemma PairReads(high: CodeUnit, low: CodeUnit, rest: Text, s: Text, tail: Text)
    requires IsHighSurrogate(high) && IsLowSurrogate(low) && ParseBody(rest) == Some((s, tail))
    ensures ParseBody([high] + ([low] + rest)) == Some(([high] + ([low] + s), tail))
  {
    BodyStep([low] + rest, [low], low, rest, s, tail);
    BodyStep([high] + ([low] + rest), [high], high, [low] + rest, [low] + s, tail);
  }

  // ---- Numbers ----

  /** A numeral stands for the number it denotes, with or without a sign on zero. */
  function ParseNumber(t: Text): (r: Option<(Json, Text)>)
    ensures r.Some? ==> |r.value.1| < |t|
  {
    var n :- ReadNumber(t);
    Some((Num(Plain(n.0)), n.1))
  }

  lemma Regroup(a: Text, b: Text, c: Text)
    ensures a + b + c == a + (b + c)
  {
  }

  // ---- Printing ----

  /** A key with its value already printed. */
  datatype Entry = Entry(key: Text, text: Text)

  /** The default key order: by code unit, then by length. */
  predicate KeyLess(a: Text, b: Text) {
    if b == [] then false
    else if a == [] then true
    else a[0] < b[0] || (a[0] == b[0] && KeyLess(a[1..], b[1..]))
  }

  /** `gap` is what the printer writes after a comma and after a colon. */
  function Stringify(v: Json, gap: Text): Text
    decreases v, 1
  {
    match v
    case Undefined => NULL_TEXT
    case Null => NULL_TEXT
    case NonFinite => NULL_TEXT
    case Bool(b) => if b then TRUE_TEXT else FALSE_TEXT
    case Num(n) => NumberText(n)
    case Str(s) => Quote(s)
    case Arr(items) => [OPEN_ARRAY] + Join(StringifyItems(items, gap), gap) + [CLOSE_ARRAY]
    case Obj(fields) =>
      [OPEN_OBJECT] + Join(Parts(StableSort.Sort(EntryLess, StringifyFields(fields, gap)), gap), gap) + [CLOSE_OBJECT]
  }

  function StringifyItems(items: seq<Json>, gap: Text): (parts: seq<Text>)
    ensures |parts| == |items|
    decreases items, 0
  {
    if items == [] then [] else [Stringify(items[0], gap)] + StringifyItems(items[1..], gap)
  }

  /** Every property printed; the keys are sorted afterwards. */
  function StringifyFields(fields: seq<Field>, gap: Text): (entries: seq<Entry>)
    ensures |entries| == |fields|
    decreases fields, 0
  {
    if fields == [] then []
    else [Entry(fields[0].key, Stringify(fields[0].value, gap))] + StringifyFields(fields[1..], gap)
  }

  predicate EntryLess(a: Entry, b: Entry) { KeyLess(a.key, b.key) }

  function Parts(entries: seq<Entry>, gap: Text): (parts: seq<Text>)
    ensures |parts| == |entries|
  {
    seq(|entries|, i requires 0 <= i < |entries| => Quote(entries[i].key) + [COLON] + gap + entries[i].text)
  }

  function Join(parts: seq<Text>, gap: Text): Text {
    if parts == [] then []
    else if |parts| == 1 then parts[0]
    else parts[0] + [COMMA] + gap + Join(parts[1..], gap)
  }

  const SPACE: CodeUnit := 0x20

  function CanonicalJsonStringify(v: Json): Text { Stringify(v, []) }

  function PythonDefaultJson(v: Json): Text { Stringify(v, [SPACE]) }

  // ---- Equality up to key order ----

  /** What a printed value stands for: objects are maps, and all nullish values are one. */
  datatype Value =
    | NullValue
    | BoolValue(b: bool)
    | NumValue(n: Number)
    | StrValue(s: Text)
    | ArrValue(items: seq<Value>)
    | ObjValue(fields: map<Text, Value>)

  function Denote(v: Json): Value
    decreases v, 1
  {
    match v
    case Bool(b) => BoolValue(b)
    case Num(n) => NumValue(Plain(n))
    case Str(s) => StrValue(s)
    case Arr(items) => ArrValue(DenoteItems(items))
    case Obj(fields) => ObjValue(DenoteFields(fields))
    case _ => NullValue
  }

  function DenoteItems(items: seq<Json>): (vs: seq<Value>)
    ensures |vs| == |items|
    decreases items, 0
  {
    if items == [] then [] else [Denote(items[0])] + DenoteItems(items[1..])
  }

  function DenoteFields(fields: seq<Field>): map<Text, Value>
    decreases fields, 0
  {
    if fields == [] then map[] else DenoteFields(fields[1..])[fields[0].key := Denote(fields[0].value)]
  }

  /** The same JSON value, whatever the order of object keys. */
  predicate Same(v: Json, w: Json) {
    Denote(v) == Denote(w)
  }

  /** Object keys are distinct at every level, as they are in a JavaScript object, and numbers are given by their decimals. */
  ghost predicate WellFormed(v: Json)
    decreases v
  {
    match v
    case Num(n) => IsNumber(n)
    case Arr(items) => forall i :: 0 <= i < |items| ==> WellFormed(items[i])
    case Obj(fields) =>
      && (forall i, j :: 0 <= i < j < |fields| ==> fields[i].key != fields[j].key)
      && (forall i :: 0 <= i < |fields| ==> WellFormed(fields[i].value))
    case _ => true
  }

  // ---- Canonical trees ----

  predicate FieldLess(a: Field, b: Field) { KeyLess(a.key, b.key) }

  /** Nulls collapsed, zero without a sign, and every object's keys sorted. */
  function Canon(v: Json): Json
    decreases v, 1
  {
    match v
    case Undefined => Null
    case NonFinite => Null
    case Num(n) => Num(Plain(n))
    case Arr(items) => Arr(CanonItems(items))
    case Obj(fields) => Obj(StableSort.Sort(FieldLess, CanonFields(fields)))
    case _ => v
  }

  function CanonItems(items: seq<Json>): (cs: seq<Json>)
    ensures |cs| == |items|
    decreases items, 0
  {
    if items == [] then [] else [Canon(items[0])] + CanonItems(items[1..])
  }

  function CanonFields(fields: seq<Field>): (cs: seq<Field>)
    ensures |cs| == |fields|
    decreases fields, 0
  {
    if fields == [] then [] else [Field(fields[0].key, Canon(fields[0].value))] + CanonFields(fields[1..])
  }

  /** No undefined, no non-finite number and no negative zero anywhere. */
  ghost predicate IsPlain(v: Json)
    decreases v
  {
    match v
    case Undefined => false
    case NonFinite => false
    case Num(n) => IsNumber(n) && Plain(n) == n
    case Arr(items) => forall i :: 0 <= i < |items| ==> IsPlain(items[i])
    case Obj(fields) => forall i :: 0 <= i < |fields| ==> IsPlain(fields[i].value)
    case _ => true
  }

  lemma {:induction false} CanonIsPlain(v: Json)
    requires WellFormed(v)
    ensures IsPlain(Canon(v))
    decreases v, 1
  {
    match v
    case Arr(items) => CanonItemsArePlain(items);
    case Obj(fields) =>
      CanonFieldsArePlain(fields);
      StableSort.SameMembers(CanonFields(fields), StableSort.Sort(FieldLess, CanonFields(fields)));
    case _ =>
  }

  lemma {:induction false} CanonItemsArePlain(items: seq<Json>)
    requires forall i :: 0 <= i < |items| ==> WellFormed(items[i])
    ensures forall c :: c in CanonItems(items) ==> IsPlain(c)
    decreases items, 0
  {
    if items != [] {
      CanonIsPlain(items[0]);
      CanonItemsArePlain(items[1..]);
    }
  }

  lemma {:induction false} CanonFieldsArePlain(fields: seq<Field>)
    requires forall i :: 0 <= i < |fields| ==> WellFormed(fields[i].value)
    ensures forall f :: f in CanonFields(fields) ==> IsPlain(f.value)
    decreases fields, 0
  {
    if fields != [] {
      CanonIsPlain(fields[0].value);
      CanonFieldsArePlain(fields[1..]);
    }
  }

  // ---- Rendering a tree in its own key order, in front of `tail` ----

  function RenderOnto(v: Json, gap: Text, tail: Text): Text
    decreases v, 1
  {
    match v
    case Undefined => NULL_TEXT + tail
    case Null => NULL_TEXT + tail
    case NonFinite => NULL_TEXT + tail
    case Bool(b) => (if b then TRUE_TEXT else FALSE_TEXT) + tail
    case Num(n) => NumberText(n) + tail
    case Str(s) => [QUOTE] + BodyOnto(s, [QUOTE] + tail)
    case Arr(items) => [OPEN_ARRAY] + ItemsOnto(items, gap, tail)
    case Obj(fields) => [OPEN_OBJECT] + FieldsOnto(fields, gap, tail)
  }

  function ItemsOnto(items: seq<Json>, gap: Text, tail: Text): Text
    decreases items, 0
  {
    if items == [] then [CLOSE_ARRAY] + tail
    else RenderOnto(items[0], gap, AfterItem(items, gap, tail))
  }

  function AfterItem(items: seq<Json>, gap: Text, tail: Text): Text
    requires items != []
    decreases items[1..], 1
  {
    if |items| == 1 then [CLOSE_ARRAY] + tail else [COMMA] + (gap + ItemsOnto(items[1..], gap, tail))
  }

  function FieldsOnto(fields: seq<Field>, gap: Text, tail: Text): Text
    decreases fields, 0
  {
    if fields == [] then [CLOSE_OBJECT] + tail
    else [QUOTE] + BodyOnto(fields[0].key, [QUOTE] + ([COLON] + (gap +
           RenderOnto(fields[0].value, gap, AfterField(fields, gap, tail)))))
  }

  function AfterField(fields: seq<Field>, gap: Text, tail: Text): Text
    requires fields != []
    decreases fields[1..], 1
  {
    if |fields| == 1 then [CLOSE_OBJECT] + tail else [COMMA] + (gap + FieldsOnto(fields[1..], gap, tail))
  }

  /** `text` is the rendering of `v`. */
  ghost predicate RendersAs(v: Json, gap: Text, text: Text) {
    forall tail :: RenderOnto(v, gap, tail) == text + tail
  }

  lemma {:induction false} JoinRenders(items: seq<Json>, parts: seq<Text>, gap: Text, tail: Text)
    requires |items| == |parts| && forall i :: 0 <= i < |items| ==> RendersAs(items[i], gap, parts[i])
    ensures ItemsOnto(items, gap, tail) == Join(parts, gap) + ([CLOSE_ARRAY] + tail)
    decreases |items|
  {
    if items != [] {
      JoinRenders(items[1..], parts[1..], gap, tail);
      assert RendersAs(items[0], gap, parts[0]);
      var rest := Join(parts[1..], gap) + ([CLOSE_ARRAY] + tail);
      if |items| > 1 {
        assert parts[0] + ([COMMA] + (gap + rest)) == Join(parts, gap) + ([CLOSE_ARRAY] + tail);
      }
    }
  }

  ghost predicate FieldRendersAs(f: Field, gap: Text, e: Entry) {
    f.key == e.key && RendersAs(f.value, gap, e.text)
  }

  lemma FieldOnto(f: Field, gap: Text, e: Entry, tail: Text)
    requires FieldRendersAs(f, gap, e)
    ensures [QUOTE] + BodyOnto(f.key, [QUOTE] + ([COLON] + (gap + RenderOnto(f.value, gap, tail))))
            == Quote(e.key) + [COLON] + gap + e.text + tail
  {
    assert RenderOnto(f.value, gap, tail) == e.text + tail;
    BodyOntoIsAppend(f.key, [QUOTE] + ([COLON] + (gap + (e.text + tail))));
    hide RenderOnto, QuoteBody, BodyOnto;
    FieldRegroups([QUOTE], QuoteBody(f.key), [COLON], gap, e.text, tail);
  }

  lemma FieldRegroups(quote: Text, body: Text, colon: Text, gap: Text, text: Text, tail: Text)
    ensures quote + (body + (quote + (colon + (gap + (text + tail))))) == quote + body + quote + colon + gap + text + tail
  {
  }

  lemma {:induction false} JoinFieldsRenders(fields: seq<Field>, entries: seq<Entry>, gap: Text, tail: Text)
    requires |fields| == |entries| && forall i :: 0 <= i < |fields| ==> FieldRendersAs(fields[i], gap, entries[i])
    ensures FieldsOnto(fields, gap, tail) == Join(Parts(entries, gap), gap) + ([CLOSE_OBJECT] + tail)
    decreases |fields|
  {
    if fields != [] {
      JoinFieldsRenders(fields[1..], entries[1..], gap, tail);
      FieldOnto(fields[0], gap, entries[0], AfterField(fields, gap, tail));
      hide Quote, RenderOnto, FieldRendersAs;
      var parts := Parts(entries, gap);
      assert parts[1..] == Parts(entries[1..], gap);
      assert FieldsOnto(fields, gap, tail) == parts[0] + AfterField(fields, gap, tail);
      JoinStep(parts, gap, [CLOSE_OBJECT] + tail);
    }
  }

  lemma JoinStep(parts: seq<Text>, gap: Text, end: Text)
    requires parts != []
    ensures Join(parts, gap) + end ==
            parts[0] + if |parts| == 1 then end else [COMMA] + (gap + (Join(parts[1..], gap) + end))
  {
  }

  /** Sorting before printing and sorting printed entries give the same object. */
  lemma SortedFieldsRender(fields: seq<Field>, entries: seq<Entry>, gap: Text, tail: Text)
    requires |fields| == |entries| && forall i :: 0 <= i < |fields| ==> FieldRendersAs(fields[i], gap, entries[i])
    ensures FieldsOnto(StableSort.Sort(FieldLess, fields), gap, tail) ==
            Join(Parts(StableSort.Sort(EntryLess, entries), gap), gap) + ([CLOSE_OBJECT] + tail)
  {
    var rel := (f, e) => FieldRendersAs(f, gap, e);
    forall f, e | rel(f, e) ensures f.key == e.key {
    }
    hide FieldRendersAs;
    StableSort.SortRelates(FieldLess, EntryLess, rel, fields, entries);
    JoinFieldsRenders(StableSort.Sort(FieldLess, fields), StableSort.Sort(EntryLess, entries), gap, tail);
  }

  /** Both printers render the canonical tree. */
  lemma {:induction false} StringifyRenders(v: Json, gap: Text)
    ensures RendersAs(Canon(v), gap, Stringify(v, gap))
    decreases v, 2
  {
    match v
    case Str(s) => StringRenders(s, gap);
    case Arr(items) => ArrayRenders(items, gap);
    case Obj(fields) => ObjectRenders(fields, gap);
    case _ =>
  }

  lemma StringRenders(s: Text, gap: Text)
    ensures RendersAs(Canon(Str(s)), gap, Stringify(Str(s), gap))
  {
    forall tail ensures RenderOnto(Str(s), gap, tail) == Quote(s) + tail {
      BodyOntoIsAppend(s, [QUOTE] + tail);
      hide QuoteBody, BodyOnto;
    }
  }

  lemma {:induction false} ArrayRenders(items: seq<Json>, gap: Text)
    ensures RendersAs(Canon(Arr(items)), gap, Stringify(Arr(items), gap))
    decreases items, 1
  {
    StringifyItemsRender(items, gap);
    hide RendersAs;
    forall tail ensures RenderOnto(Arr(CanonItems(items)), gap, tail) == Stringify(Arr(items), gap) + tail {
      JoinRenders(CanonItems(items), StringifyItems(items, gap), gap, tail);
      hide Join, ItemsOnto;
    }
    RendersAsIntro(Arr(CanonItems(items)), gap, Stringify(Arr(items), gap));
  }

  lemma ObjectOnto(fields: seq<Field>, entries: seq<Entry>, gap: Text, tail: Text)
    requires |fields| == |entries| && forall i :: 0 <= i < |fields| ==> FieldRendersAs(fields[i], gap, entries[i])
    ensures RenderOnto(Obj(StableSort.Sort(FieldLess, fields)), gap, tail) ==
            [OPEN_OBJECT] + Join(Parts(StableSort.Sort(EntryLess, entries), gap), gap) + [CLOSE_OBJECT] + tail
  {
    SortedFieldsRender(fields, entries, gap, tail);
    hide Join, Parts, FieldsOnto, FieldRendersAs;
    var body := Join(Parts(StableSort.Sort(EntryLess, entries), gap), gap);
    Bracketed([OPEN_OBJECT], body, [CLOSE_OBJECT], tail);
  }

  lemma Bracketed(open: Text, body: Text, close: Text, tail: Text)
    ensures open + body + close + tail == open + (body + (close + tail))
  {
  }

  lemma {:induction false} ObjectRenders(fields: seq<Field>, gap: Text)
    ensures RendersAs(Canon(Obj(fields)), gap, Stringify(Obj(fields), gap))
    decreases fields, 1
  {
    StringifyFieldsRender(fields, gap);
    hide FieldRendersAs, FieldsOnto, Join, Parts;
    forall tail {
      ObjectOnto(CanonFields(fields), StringifyFields(fields, gap), gap, tail);
    }
  }

  lemma RendersAsIntro(v: Json, gap: Text, text: Text)
    requires forall tail :: RenderOnto(v, gap, tail) == text + tail
    ensures RendersAs(v, gap, text)
  {
  }

  lemma {:induction false} StringifyItemsRender(items: seq<Json>, gap: Text)
    ensures forall i :: 0 <= i < |items| ==> RendersAs(CanonItems(items)[i], gap, StringifyItems(items, gap)[i])
    decreases items, 0
  {
    if items != [] {
      StringifyRenders(items[0], gap);
      StringifyItemsRender(items[1..], gap);
    }
  }

  lemma {:induction false} StringifyFieldsRender(fields: seq<Field>, gap: Text)
    ensures forall i :: 0 <= i < |fields| ==>
              FieldRendersAs(CanonFields(fields)[i], gap, StringifyFields(fields, gap)[i])
    decreases fields, 0
  {
    if fields != [] {
      StringifyRenders(fields[0].value, gap);
      StringifyFieldsRender(fields[1..], gap);
    }
  }

  // ---- Parsing ----

  predicate IsWhitespace(c: CodeUnit) { c == 0x20 || c == 0x09 || c == 0x0A || c == 0x0D }

  ghost predicate AllWhitespace(t: Text) {
    forall i :: 0 <= i < |t| ==> IsWhitespace(t[i])
  }

  function SkipWhitespace(t: Text): (r: Text)
    ensures |r| <= |t| && (r != [] ==> !IsWhitespace(r[0]))
  {
    if t != [] && IsWhitespace(t[0]) then SkipWhitespace(t[1..]) else t
  }

  /** The text after one structural character, whitespace around it allowed. */
  function Expect(t: Text, c: CodeUnit): (r: Option<Text>)
    ensures r.Some? ==> |r.value| < |t|
  {
    var s := SkipWhitespace(t);
    if s != [] && s[0] == c then Some(s[1..]) else None
  }

  function ParseLiteral(t: Text): (r: Option<(Json, Text)>)
    ensures r.Some? ==> |r.value.1| < |t|
  {
    if NULL_TEXT <= t then Some((Null, t[|NULL_TEXT|..]))
    else if TRUE_TEXT <= t then Some((Bool(true), t[|TRUE_TEXT|..]))
    else if FALSE_TEXT <= t then Some((Bool(false), t[|FALSE_TEXT|..]))
    else ParseNumber(t)
  }

  /** One value and the text after it. */
  function ParseValue(t: Text): (r: Option<(Json, Text)>)
    ensures r.Some? ==> |r.value.1| < |t|
    decreases |t|, 0
  {
    var s := SkipWhitespace(t);
    if s == [] then None
    else if s[0] == QUOTE then
      var r :- ParseBody(s[1..]);
      Some((Str(r.0), r.1))
    else if s[0] == OPEN_ARRAY then
      match Expect(s[1..], CLOSE_ARRAY)
      case Some(rest) => Some((Arr([]), rest))
      case None =>
        var r :- ParseItems(s[1..]);
        Some((Arr(r.0), r.1))
    else if s[0] == OPEN_OBJECT then
      match Expect(s[1..], CLOSE_OBJECT)
      case Some(rest) => Some((Obj([]), rest))
      case None =>
        var r :- ParseFields(s[1..]);
        Some((Obj(r.0), r.1))
    else ParseLiteral(s)
  }

  /** A non-empty list of values up to the closing bracket. */
  function ParseItems(t: Text): (r: Option<(seq<Json>, Text)>)
    ensures r.Some? ==> |r.value.1| < |t|
    decreases |t|, 1
  {
    var v :- ParseValue(t);
    match Expect(v.1, CLOSE_ARRAY)
    case Some(rest) => Some(([v.0], rest))
    case None =>
      var next :- Expect(v.1, COMMA);
      var r :- ParseItems(next);
      Some(([v.0] + r.0, r.1))
  }

  function ParseFields(t: Text): (r: Option<(seq<Field>, Text)>)
    ensures r.Some? ==> |r.value.1| < |t|
    decreases |t|, 1
  {
    var start :- Expect(t, QUOTE);
    var key :- ParseBody(start);
    var after :- Expect(key.1, COLON);
    var v :- ParseValue(after);
    match Expect(v.1, CLOSE_OBJECT)
    case Some(rest) => Some(([Field(key.0, v.0)], rest))
    case None =>
      var next :- Expect(v.1, COMMA);
      var r :- ParseFields(next);
      Some(([Field(key.0, v.0)] + r.0, r.1))
  }

  function ParseJson(t: Text): Option<Json> {
    var v :- ParseValue(t);
    if SkipWhitespace(v.1) == [] then Some(v.0) else None
  }

  // ---- The parser inverts rendering ----

  lemma {:induction false} SkipsLead(lead: Text, t: Text)
    requires AllWhitespace(lead) && (t != [] ==> !IsWhitespace(t[0]))
    ensures SkipWhitespace(lead + t) == t
  {
    if lead == [] {
      assert lead + t == t;
    } else {
      SkipsLead(lead[1..], t);
      assert (lead + t)[1..] == lead[1..] + t;
    }
  }

  lemma ExpectReads(lead: Text, c: CodeUnit, rest: Text)
    requires AllWhitespace(lead) && !IsWhitespace(c)
    ensures Expect(lead + ([c] + rest), c) == Some(rest)
    ensures forall d :: d != c ==> Expect(lead + ([c] + rest), d) == None
  {
    SkipsLead(lead, [c] + rest);
    assert ([c] + rest)[1..] == rest;
  }

  /** A rendered value starts with a character that is neither whitespace nor structural closing. */
  lemma RenderStarts(v: Json, gap: Text, tail: Text)
    requires IsPlain(v)
    ensures var t := RenderOnto(v, gap, tail);
            t != [] && !IsWhitespace(t[0]) && t[0] != CLOSE_ARRAY && t[0] != CLOSE_OBJECT
  {
    match v
    case Num(n) =>
      NumberStarts(n);
      hide NumberText;
    case _ =>
  }

  lemma LiteralReads(v: Json, gap: Text, tail: Text)
    requires IsPlain(v) && (v.Null? || v.Bool? || v.Num?) && EndsNumber(tail)
    ensures ParseLiteral(RenderOnto(v, gap, tail)) == Some((v, tail))
    ensures RenderOnto(v, gap, tail)[0] !in {QUOTE, OPEN_ARRAY, OPEN_OBJECT}
  {
    var t := RenderOnto(v, gap, tail);
    match v
    case Null => assert t[|NULL_TEXT|..] == tail;
    case Bool(b) =>
      var word := if b then TRUE_TEXT else FALSE_TEXT;
      assert t[0] == word[0] && t[|word|..] == tail && word <= t;
    case Num(n) =>
      NumberReads(n, tail);
      hide ReadNumber, NumberText;
      NumberStarts(n);
      assert t[0] == NumberText(n)[0];
  }

  /** Parsing what a plain tree renders as gives the tree back and leaves the rest. */
  lemma {:induction false} ValueReads(v: Json, gap: Text, lead: Text, tail: Text)
    requires IsPlain(v) && AllWhitespace(gap) && AllWhitespace(lead) && EndsNumber(tail)
    ensures ParseValue(lead + RenderOnto(v, gap, tail)) == Some((v, tail))
    decreases v, 2
  {
    var t := RenderOnto(v, gap, tail);
    RenderStarts(v, gap, tail);
    SkipsLead(lead, t);
    match v
    case Str(s) =>
      BodyReads(s, tail);
      assert t[1..] == BodyOnto(s, [QUOTE] + tail);
    case Arr(items) =>
      assert t[1..] == ItemsOnto(items, gap, tail);
      if items == [] {
        ExpectReads([], CLOSE_ARRAY, tail);
        assert [] + ([CLOSE_ARRAY] + tail) == [CLOSE_ARRAY] + tail;
      } else {
        ItemsRead(items, gap, [], tail);
        assert [] + ItemsOnto(items, gap, tail) == ItemsOnto(items, gap, tail);
        RenderStarts(items[0], gap, AfterItem(items, gap, tail));
        assert Expect(t[1..], CLOSE_ARRAY) == None;
      }
    case Obj(fields) =>
      assert t[1..] == FieldsOnto(fields, gap, tail);
      if fields == [] {
        ExpectReads([], CLOSE_OBJECT, tail);
        assert [] + ([CLOSE_OBJECT] + tail) == [CLOSE_OBJECT] + tail;
      } else {
        FieldsRead(fields, gap, [], tail);
        assert [] + FieldsOnto(fields, gap, tail) == FieldsOnto(fields, gap, tail);
        assert Expect(t[1..], CLOSE_OBJECT) == None;
      }
    case _ => LiteralReads(v, gap, tail);
  }

  lemma {:induction false} ItemsRead(items: seq<Json>, gap: Text, lead: Text, tail: Text)
    requires items != [] && forall i :: 0 <= i < |items| ==> IsPlain(items[i])
    requires AllWhitespace(gap) && AllWhitespace(lead)
    ensures ParseItems(lead + ItemsOnto(items, gap, tail)) == Some((items, tail))
    decreases items, 1
  {
    var next := AfterItem(items, gap, tail);
    ValueReads(items[0], gap, lead, next);
    assert [] + next == next;
    if |items| == 1 {
      ExpectReads([], CLOSE_ARRAY, tail);
      assert items == [items[0]];
    } else {
      var rest := gap + ItemsOnto(items[1..], gap, tail);
      ExpectReads([], COMMA, rest);
      ItemsRead(items[1..], gap, gap, tail);
      assert items == [items[0]] + items[1..];
    }
  }

  lemma {:induction false} FieldsRead(fields: seq<Field>, gap: Text, lead: Text, tail: Text)
    requires fields != [] && forall i :: 0 <= i < |fields| ==> IsPlain(fields[i].value)
    requires AllWhitespace(gap) && AllWhitespace(lead)
    ensures ParseFields(lead + FieldsOnto(fields, gap, tail)) == Some((fields, tail))
    decreases fields, 1
  {
    var value, next := fields[0].value, AfterField(fields, gap, tail);
    ValueReads(value, gap, gap, next);
    FieldHeadReads(fields[0].key, gap + RenderOnto(value, gap, next), lead);
    assert [] + next == next;
    if |fields| == 1 {
      ExpectReads([], CLOSE_OBJECT, tail);
      assert fields == [fields[0]];
      FieldReads1(lead + FieldsOnto(fields, gap, tail), fields[0], gap + RenderOnto(value, gap, next), next, tail);
    } else {
      var rest := gap + FieldsOnto(fields[1..], gap, tail);
      ExpectReads([], COMMA, rest);
      FieldsRead(fields[1..], gap, gap, tail);
      FieldReadsMore(lead + FieldsOnto(fields, gap, tail), fields, gap + RenderOnto(value, gap, next), next, rest, tail);
    }
  }

  ghost predicate HeadReads(t: Text, f: Field, after: Text, next: Text) {
    && Expect(t, QUOTE).Some? && ParseBody(Expect(t, QUOTE).value) == Some((f.key, [COLON] + after))
    && Expect([COLON] + after, COLON) == Some(after)
    && ParseValue(after) == Some((f.value, next))
  }

  lemma FieldReads1(t: Text, f: Field, after: Text, next: Text, tail: Text)
    requires HeadReads(t, f, after, next) && Expect(next, CLOSE_OBJECT) == Some(tail)
    ensures ParseFields(t) == Some(([f], tail))
  {
  }

  lemma FieldReadsMore(t: Text, fields: seq<Field>, after: Text, next: Text, rest: Text, tail: Text)
    requires fields != [] && HeadReads(t, fields[0], after, next)
    requires Expect(next, CLOSE_OBJECT) == None && Expect(next, COMMA) == Some(rest)
    requires ParseFields(rest) == Some((fields[1..], tail))
    ensures ParseFields(t) == Some((fields, tail))
  {
    hide Expect, ParseBody, ParseValue;
    assert fields == [fields[0]] + fields[1..];
  }

  /** The quoted key and its colon. */
  lemma FieldHeadReads(key: Text, after: Text, lead: Text)
    requires AllWhitespace(lead)
    ensures var t := lead + ([QUOTE] + BodyOnto(key, [QUOTE] + ([COLON] + after)));
            && Expect(t, QUOTE) == Some(BodyOnto(key, [QUOTE] + ([COLON] + after)))
            && ParseBody(Expect(t, QUOTE).value) == Some((key, [COLON] + after))
    ensures Expect([COLON] + after, COLON) == Some(after)
  {
    ExpectReads(lead, QUOTE, BodyOnto(key, [QUOTE] + ([COLON] + after)));
    BodyReads(key, [COLON] + after);
    ExpectReads([], COLON, after);
    assert [] + ([COLON] + after) == [COLON] + after;
  }

  // ---- Canonical trees are equal exactly when the values are ----

  lemma {:induction false} KeyLessIsStrictOrder(a: Text, b: Text, c: Text)
    ensures KeyLess(a, b) ==> !KeyLess(b, a)
    ensures !KeyLess(a, b) && !KeyLess(b, c) ==> !KeyLess(a, c)
    ensures a != b ==> KeyLess(a, b) || KeyLess(b, a)
    decreases |a| + |b| + |c|
  {
    if a != [] && b != [] && c != [] {
      KeyLessIsStrictOrder(a[1..], b[1..], c[1..]);
      assert a == [a[0]] + a[1..] && b == [b[0]] + b[1..];
    } else if a != [] && b != [] {
      KeyLessIsStrictOrder(a[1..], b[1..], c);
      assert a == [a[0]] + a[1..] && b == [b[0]] + b[1..];
    }
  }

  ghost predicate DistinctKeys(fields: seq<Field>) {
    forall i, j :: 0 <= i < j < |fields| ==> fields[i].key != fields[j].key
  }

  lemma {:induction false} CanonFieldsAt(fields: seq<Field>, i: nat)
    requires i < |fields|
    ensures CanonFields(fields)[i] == Field(fields[i].key, Canon(fields[i].value))
  {
    if i > 0 {
      CanonFieldsAt(fields[1..], i - 1);
    }
  }

  /** A permutation of fields with distinct keys has distinct keys. */
  lemma PermutedKeysDistinct(fs: seq<Field>, gs: seq<Field>)
    requires DistinctKeys(fs) && multiset(fs) == multiset(gs)
    ensures DistinctKeys(gs)
  {
    StableSort.SameMembers(fs, gs);
    forall i, j | 0 <= i < j < |gs| ensures gs[i].key != gs[j].key {
      assert gs == gs[..i] + [gs[i]] + gs[i + 1..j] + [gs[j]] + gs[j + 1..];
      assert gs[i] == gs[j] ==> multiset(gs)[gs[i]] >= 2;
      KeysOccurOnce(fs, gs[i]);
      assert gs[i] in fs && gs[j] in fs;
    }
  }

  lemma {:induction false} KeysOccurOnce(fs: seq<Field>, f: Field)
    requires DistinctKeys(fs)
    ensures multiset(fs)[f] <= 1
  {
    if fs != [] {
      KeysOccurOnce(fs[1..], f);
      assert fs == [fs[0]] + fs[1..];
      assert fs[0] !in fs[1..];
    }
  }

  /** Sorted by distinct keys, the arrangement depends only on which fields there are. */
  lemma SortedFieldsUnique(fs: seq<Field>, gs: seq<Field>)
    requires DistinctKeys(fs) && DistinctKeys(gs)
    requires forall f :: f in fs <==> f in gs
    ensures StableSort.Sort(FieldLess, fs) == StableSort.Sort(FieldLess, gs)
  {
    SortedFieldsAreStrict(fs);
    SortedFieldsAreStrict(gs);
    StableSort.SameMembers(fs, StableSort.Sort(FieldLess, fs));
    StableSort.SameMembers(gs, StableSort.Sort(FieldLess, gs));
    forall a, b ensures FieldLess(a, b) ==> !FieldLess(b, a) {
      KeyLessIsStrictOrder(a.key, b.key, a.key);
    }
    StableSort.StrictlyIsUnique(FieldLess, StableSort.Sort(FieldLess, fs), StableSort.Sort(FieldLess, gs));
  }

  lemma SortedFieldsAreStrict(fs: seq<Field>)
    requires DistinctKeys(fs)
    ensures StableSort.Strictly(FieldLess, StableSort.Sort(FieldLess, fs))
  {
    var sorted := StableSort.Sort(FieldLess, fs);
    forall a, b, c
      ensures FieldLess(a, b) ==> !FieldLess(b, a)
      ensures !FieldLess(a, b) && !FieldLess(b, c) ==> !FieldLess(a, c)
    {
      KeyLessIsStrictOrder(a.key, b.key, c.key);
    }
    StableSort.SortOrders(FieldLess, fs);
    PermutedKeysDistinct(fs, sorted);
    forall i, j | 0 <= i < j < |sorted| ensures FieldLess(sorted[i], sorted[j]) {
      KeyLessIsStrictOrder(sorted[i].key, sorted[j].key, []);
    }
  }

  lemma {:induction false} DenoteFieldsAt(fields: seq<Field>)
    requires DistinctKeys(fields)
    ensures forall k :: k in DenoteFields(fields) ==> exists i :: 0 <= i < |fields| && fields[i].key == k
    ensures forall i :: 0 <= i < |fields| ==>
              fields[i].key in DenoteFields(fields) && DenoteFields(fields)[fields[i].key] == Denote(fields[i].value)
    decreases |fields|
  {
    if fields != [] {
      DenoteFieldsAt(fields[1..]);
      hide Denote;
      var rest := DenoteFields(fields[1..]);
      forall k | k in DenoteFields(fields) ensures exists i :: 0 <= i < |fields| && fields[i].key == k {
        if k != fields[0].key {
          var i :| 0 <= i < |fields[1..]| && fields[1..][i].key == k;
          assert fields[i + 1].key == k;
        } else {
          assert fields[0].key == k;
        }
      }
      forall i | 0 <= i < |fields|
        ensures fields[i].key in DenoteFields(fields) && DenoteFields(fields)[fields[i].key] == Denote(fields[i].value)
      {
        assert i > 0 ==> fields[i] == fields[1..][i - 1];
      }
    }
  }

  lemma DenoteFieldsPermuted(fs: seq<Field>, gs: seq<Field>)
    requires DistinctKeys(fs) && DistinctKeys(gs)
    requires forall f :: f in fs <==> f in gs
    ensures DenoteFields(fs) == DenoteFields(gs)
  {
    DenoteFieldsAt(fs);
    DenoteFieldsAt(gs);
    DenoteFieldsWithin(fs, gs);
    DenoteFieldsWithin(gs, fs);
  }

  lemma DenoteFieldsWithin(fs: seq<Field>, gs: seq<Field>)
    requires DistinctKeys(fs) && DistinctKeys(gs)
    requires forall f :: f in fs <==> f in gs
    ensures forall k :: k in DenoteFields(fs) ==> k in DenoteFields(gs) && DenoteFields(gs)[k] == DenoteFields(fs)[k]
  {
    DenoteFieldsAt(fs);
    DenoteFieldsAt(gs);
    hide Denote, DenoteFields;
    forall k | k in DenoteFields(fs)
      ensures k in DenoteFields(gs) && DenoteFields(gs)[k] == DenoteFields(fs)[k]
    {
      var i :| 0 <= i < |fs| && fs[i].key == k;
      assert fs[i] in gs;
      var j :| 0 <= j < |gs| && gs[j] == fs[i];
    }
  }

  lemma CanonKeysDistinct(fields: seq<Field>)
    requires DistinctKeys(fields)
    ensures DistinctKeys(CanonFields(fields))
  {
    forall i | 0 <= i < |fields| ensures CanonFields(fields)[i].key == fields[i].key {
      CanonFieldsAt(fields, i);
    }
  }

  /** Canonicalising changes the tree, not the value. */
  lemma {:induction false} CanonKeepsValue(v: Json)
    requires WellFormed(v)
    ensures Denote(Canon(v)) == Denote(v)
    decreases v, 1
  {
    match v
    case Arr(items) => CanonItemsKeepValue(items);
    case Obj(fields) =>
      CanonFieldsKeepValue(fields);
      var cf := CanonFields(fields);
      var sorted := StableSort.Sort(FieldLess, cf);
      CanonKeysDistinct(fields);
      PermutedKeysDistinct(cf, sorted);
      StableSort.SameMembers(cf, sorted);
      DenoteFieldsPermuted(cf, sorted);
    case _ =>
  }

  lemma {:induction false} CanonItemsKeepValue(items: seq<Json>)
    requires forall i :: 0 <= i < |items| ==> WellFormed(items[i])
    ensures DenoteItems(CanonItems(items)) == DenoteItems(items)
    decreases items, 0
  {
    if items != [] {
      CanonKeepsValue(items[0]);
      CanonItemsKeepValue(items[1..]);
    }
  }

  lemma {:induction false} CanonFieldsKeepValue(fields: seq<Field>)
    requires forall i :: 0 <= i < |fields| ==> WellFormed(fields[i].value)
    ensures DenoteFields(CanonFields(fields)) == DenoteFields(fields)
    decreases fields, 0
  {
    if fields != [] {
      CanonKeepsValue(fields[0].value);
      CanonFieldsKeepValue(fields[1..]);
    }
  }

  /** The canonical tree depends only on the value. */
  lemma {:induction false} SameValueSameCanon(v: Json, w: Json)
    requires WellFormed(v) && WellFormed(w) && Denote(v) == Denote(w)
    ensures Canon(v) == Canon(w)
    decreases v, 1
  {
    match v
    case Arr(items) => SameItemsSameCanon(items, w.items);
    case Obj(fields) => SameFieldsSameCanon(fields, w.fields);
    case _ =>
  }

  lemma {:induction false} SameItemsSameCanon(vs: seq<Json>, ws: seq<Json>)
    requires forall i :: 0 <= i < |vs| ==> WellFormed(vs[i])
    requires forall i :: 0 <= i < |ws| ==> WellFormed(ws[i])
    requires DenoteItems(vs) == DenoteItems(ws)
    ensures CanonItems(vs) == CanonItems(ws)
    decreases vs, 0
  {
    if vs != [] {
      assert |vs| == |ws|;
      assert DenoteItems(vs)[0] == DenoteItems(ws)[0];
      SameValueSameCanon(vs[0], ws[0]);
      assert DenoteItems(vs)[1..] == DenoteItems(ws)[1..];
      SameItemsSameCanon(vs[1..], ws[1..]);
    }
  }

  lemma {:induction false} SameFieldsSameCanon(fs: seq<Field>, gs: seq<Field>)
    requires DistinctKeys(fs) && DistinctKeys(gs) && DenoteFields(fs) == DenoteFields(gs)
    requires forall i :: 0 <= i < |fs| ==> WellFormed(fs[i].value)
    requires forall j :: 0 <= j < |gs| ==> WellFormed(gs[j].value)
    ensures StableSort.Sort(FieldLess, CanonFields(fs)) == StableSort.Sort(FieldLess, CanonFields(gs))
    decreases fs, 0
  {
    var cf, cg := CanonFields(fs), CanonFields(gs);
    CanonKeysDistinct(fs);
    CanonKeysDistinct(gs);
    DenoteFieldsAt(fs);
    DenoteFieldsAt(gs);
    forall i | 0 <= i < |cf| ensures cf[i] in cg {
      var j :| 0 <= j < |gs| && gs[j].key == fs[i].key;
      SameFieldSameCanon(fs, gs, i, j);
    }
    forall j | 0 <= j < |cg| ensures cg[j] in cf {
      var i :| 0 <= i < |fs| && fs[i].key == gs[j].key;
      SameFieldSameCanon(fs, gs, i, j);
    }
    SortedFieldsUnique(cf, cg);
  }

  lemma {:induction false} SameFieldSameCanon(fs: seq<Field>, gs: seq<Field>, i: nat, j: nat)
    requires i < |fs| && j < |gs| && fs[i].key == gs[j].key
    requires Denote(fs[i].value) == Denote(gs[j].value)
    requires WellFormed(fs[i].value) && WellFormed(gs[j].value)
    ensures CanonFields(fs)[i] == CanonFields(gs)[j]
    decreases fs[i].value, 2
  {
    SameValueSameCanon(fs[i].value, gs[j].value);
    CanonFieldsAt(fs, i);
    CanonFieldsAt(gs, j);
  }

  // ---- Main results ----

  /** One parser inverts both printers, up to the canonical form. */
  lemma ParseInvertsStringify(v: Json, gap: Text)
    requires WellFormed(v) && AllWhitespace(gap)
    ensures ParseJson(Stringify(v, gap)) == Some(Canon(v))
  {
    CanonIsPlain(v);
    StringifyRenders(v, gap);
    assert RenderOnto(Canon(v), gap, []) == Stringify(v, gap) + [] == Stringify(v, gap);
    ValueReads(Canon(v), gap, [], []);
    assert [] + Stringify(v, gap) == Stringify(v, gap);
  }

  /** Printed texts are equal exactly when the values are equal up to key order. */
  lemma StringifyIdentifiesSame(v: Json, w: Json, gap: Text)
    requires WellFormed(v) && WellFormed(w) && AllWhitespace(gap)
    ensures Stringify(v, gap) == Stringify(w, gap) <==> Same(v, w)
  {
    ParseInvertsStringify(v, gap);
    ParseInvertsStringify(w, gap);
    CanonKeepsValue(v);
    CanonKeepsValue(w);
    if Same(v, w) {
      SameValueSameCanon(v, w);
    }
    StringifyRenders(v, gap);
    StringifyRenders(w, gap);
    assert RenderOnto(Canon(v), gap, []) == Stringify(v, gap) + [] == Stringify(v, gap);
    assert RenderOnto(Canon(w), gap, []) == Stringify(w, gap) + [] == Stringify(w, gap);
  }

  /** The two printers identify exactly the same pairs of values. */
  lemma PrintersIdentifySamePairs(v: Json, w: Json)
    requires WellFormed(v) && WellFormed(w)
    ensures CanonicalJsonStringify(v) == CanonicalJsonStringify(w) <==> Same(v, w)
    ensures PythonDefaultJson(v) == PythonDefaultJson(w) <==> Same(v, w)
  {
    StringifyIdentifiesSame(v, w, []);
    StringifyIdentifiesSame(v, w, [SPACE]);
  }
}
