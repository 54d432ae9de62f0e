/** What the text of a layered cook key identifies: its parts, as long as none of them holds a dash. */
module CookKeys {
  import opened Common
  import opened CookLayers

  // ---- Fields joined by dashes ----

  function DashJoin(fields: seq<string>): string {
    if fields == [] then ""
    else if |fields| == 1 then fields[0]
    else fields[0] + "-" + DashJoin(fields[1..])
  }

  ghost predicate AreDashFree(fields: seq<string>) { forall f :: f in fields ==> '-' !in f }

  /** The fields of a text between its dashes. */
  function DashSplit(s: string): (fields: seq<string>)
    ensures fields != []
  {
    if s == "" then [""]
    else
      var rest := DashSplit(s[1..]);
      if s[0] == '-' then [""] + rest else [[s[0]] + rest[0]] + rest[1..]
  }

  lemma {:induction false} SplitField(x: string, s: string)
    requires '-' !in x
    ensures DashSplit(x + s) == [x + DashSplit(s)[0]] + DashSplit(s)[1..]
  {
    if x == "" {
      assert x + s == s && x + DashSplit(s)[0] == DashSplit(s)[0];
    } else {
      assert x[0] in x && (x + s)[0] == x[0] && (x + s)[1..] == x[1..] + s;
      SplitField(x[1..], s);
      assert [x[0]] + (x[1..] + DashSplit(s)[0]) == x + DashSplit(s)[0];
    }
  }

  lemma SplitAtDash(x: string, more: string)
    requires '-' !in x
    ensures DashSplit(x + ("-" + more)) == [x] + DashSplit(more)
  {
    SplitField(x, "-" + more);
    assert ("-" + more)[1..] == more;
    assert DashSplit("-" + more) == [""] + DashSplit(more);
    assert x + "" == x;
  }

  lemma {:induction false} SplitAfterJoin(a: seq<string>, more: string)
    requires a != [] && AreDashFree(a)
    ensures DashSplit(DashJoin(a) + ("-" + more)) == a + DashSplit(more)
    decreases |a|
  {
    assert a[0] in a;
    if |a| == 1 {
      SplitAtDash(a[0], more);
      assert a == [a[0]];
    } else {
      DashFreeRest(a);
      SplitAfterJoin(a[1..], more);
      SplitAtDash(a[0], DashJoin(a[1..]) + ("-" + more));
      hide DashSplit;
      assert DashJoin(a) + ("-" + more) == a[0] + ("-" + (DashJoin(a[1..]) + ("-" + more)));
      assert a == [a[0]] + a[1..];
    }
  }

  lemma {:induction false} SplitUndoesJoin(a: seq<string>)
    requires a != [] && AreDashFree(a)
    ensures DashSplit(DashJoin(a)) == a
    decreases |a|
  {
    assert a[0] in a;
    if |a| == 1 {
      SplitField(a[0], "");
      assert a[0] + "" == a[0] && a == [a[0]];
    } else {
      DashFreeRest(a);
      SplitUndoesJoin(a[1..]);
      SplitAtDash(a[0], DashJoin(a[1..]));
      hide DashSplit;
      assert DashJoin(a) == a[0] + ("-" + DashJoin(a[1..]));
      assert a == [a[0]] + a[1..];
    }
  }

  lemma DashFreeRest(a: seq<string>)
    requires a != [] && AreDashFree(a)
    ensures AreDashFree(a[1..])
  {
  }

  lemma {:induction false} JoinAppend(a: seq<string>, b: seq<string>)
    requires a != [] && b != []
    ensures DashJoin(a + b) == DashJoin(a) + ("-" + DashJoin(b))
    decreases |a|
  {
    assert (a + b)[1..] == a[1..] + b;
    if |a| == 1 {
      assert a[1..] + b == b;
      assert a[0] + "-" + DashJoin(b) == a[0] + ("-" + DashJoin(b));
    } else {
      JoinAppend(a[1..], b);
      assert a[0] + "-" + (DashJoin(a[1..]) + ("-" + DashJoin(b))) == a[0] + "-" + DashJoin(a[1..]) + ("-" + DashJoin(b));
    }
  }

  lemma TextAfter(x: string, whole: string) returns (more: string)
    requires x + "-" <= whole
    ensures whole == x + ("-" + more)
  {
    more := whole[|x + "-"|..];
    assert whole == x + "-" + more;
    assert x + "-" + more == x + ("-" + more);
  }

  lemma LongerThanFront<T>(a: seq<T>, x: seq<T>)
    requires x != []
    ensures |a| < |a + x| && a <= a + x
  {
  }

  lemma JoinPrefixSplits(a: seq<string>, b: seq<string>)
    requires a != [] && b != [] && AreDashFree(a) && AreDashFree(b) && DashJoin(a) + "-" <= DashJoin(b)
    ensures |a| < |b| && a <= b
  {
    hide DashJoin, DashSplit, AreDashFree;
    var more := TextAfter(DashJoin(a), DashJoin(b));
    SplitAfterJoin(a, more);
    SplitUndoesJoin(b);
    LongerThanFront(a, DashSplit(more));
  }

  lemma PrefixJoins(a: seq<string>, b: seq<string>)
    requires a != [] && |a| < |b| && a <= b
    ensures DashJoin(a) + "-" <= DashJoin(b)
  {
    var rest := b[|a|..];
    assert b == a + rest;
    hide DashJoin;
    JoinAppend(a, rest);
    DashFollows(DashJoin(a), DashJoin(rest));
  }

  lemma DashFollows(x: string, y: string)
    ensures x + "-" <= x + ("-" + y)
  {
    assert x + ("-" + y) == x + "-" + y;
  }

  /** One joined text, with a dash after it, begins another exactly when the fields do, with more to come. */
  lemma JoinPrefixIff(a: seq<string>, b: seq<string>)
    requires a != [] && b != [] && AreDashFree(a) && AreDashFree(b)
    ensures DashJoin(a) + "-" <= DashJoin(b) <==> |a| < |b| && a <= b
  {
    hide DashJoin;
    if DashJoin(a) + "-" <= DashJoin(b) {
      JoinPrefixSplits(a, b);
    }
    if |a| < |b| && a <= b {
      PrefixJoins(a, b);
    }
  }

  // ---- Keys ----

  function Fields(p: KeyParts): seq<string> {
    [p.os, p.arch, p.libc, "rustc" + p.rustc, "f" + p.flags, "l" + p.lock, "soldr" + p.soldr]
    + if p.suffix.Some? then ["x" + p.suffix.value] else []
  }

  function DeltaFields(p: KeyParts, shape: string, sha: string): seq<string> { Fields(p) + ["s" + shape, "g" + sha] }

  ghost predicate AreDashFreeParts(p: KeyParts) {
    '-' !in p.os && '-' !in p.arch && '-' !in p.libc && '-' !in p.rustc && '-' !in p.flags && '-' !in p.lock &&
    '-' !in p.soldr && (p.suffix.Some? ==> '-' !in p.suffix.value)
  }

  lemma SevenJoined(a: string, b: string, c: string, d: string, e: string, f: string, g: string)
    ensures DashJoin([a, b, c, d, e, f, g]) == a + "-" + b + "-" + c + "-" + d + "-" + e + "-" + f + "-" + g
  {
    var all := [a, b, c, d, e, f, g];
    assert DashJoin(all[6..]) == g;
    assert all[5..][1..] == all[6..] && all[4..][1..] == all[5..] && all[3..][1..] == all[4..];
    assert all[2..][1..] == all[3..] && all[1..][1..] == all[2..];
    assert DashJoin(all[5..]) == f + "-" + g;
    assert DashJoin(all[4..]) == e + "-" + (f + "-" + g);
    assert DashJoin(all[3..]) == d + "-" + (e + "-" + (f + "-" + g));
    assert DashJoin(all[2..]) == c + "-" + (d + "-" + (e + "-" + (f + "-" + g)));
    assert DashJoin(all[1..]) == b + "-" + (c + "-" + (d + "-" + (e + "-" + (f + "-" + g))));
  }

  /** The text of the parts is their fields, each under its letter, joined by dashes. */
  lemma PartsAreJoined(p: KeyParts)
    ensures PartsText(p) == DashJoin(Fields(p))
  {
    var seven := [p.os, p.arch, p.libc, "rustc" + p.rustc, "f" + p.flags, "l" + p.lock, "soldr" + p.soldr];
    SevenJoined(p.os, p.arch, p.libc, "rustc" + p.rustc, "f" + p.flags, "l" + p.lock, "soldr" + p.soldr);
    Labelled(p);
    if p.suffix.Some? {
      JoinAppend(seven, ["x" + p.suffix.value]);
      assert "-" + ("x" + p.suffix.value) == "-x" + p.suffix.value;
    } else {
      assert Fields(p) == seven;
    }
  }

  lemma Labelled(p: KeyParts)
    ensures p.os + "-" + p.arch + "-" + p.libc + "-" + ("rustc" + p.rustc) + "-" + ("f" + p.flags) + "-" + ("l" + p.lock)
            + "-" + ("soldr" + p.soldr) ==
            p.os + "-" + p.arch + "-" + p.libc + "-rustc" + p.rustc + "-f" + p.flags + "-l" + p.lock + "-soldr" + p.soldr
  {
    var head := p.os + "-" + p.arch + "-" + p.libc;
    assert head + "-" + ("rustc" + p.rustc) == head + "-rustc" + p.rustc;
    var next := head + "-rustc" + p.rustc;
    assert next + "-" + ("f" + p.flags) == next + "-f" + p.flags;
    var more := next + "-f" + p.flags;
    assert more + "-" + ("l" + p.lock) == more + "-l" + p.lock;
    var last := more + "-l" + p.lock;
    assert last + "-" + ("soldr" + p.soldr) == last + "-soldr" + p.soldr;
  }

  lemma FieldsAreDashFree(p: KeyParts)
    requires AreDashFreeParts(p)
    ensures AreDashFree(Fields(p))
  {
    forall f | f in Fields(p)
      ensures '-' !in f
    {
    }
  }

  lemma LabelsAreOneToOne(mark: string, x: string, y: string)
    ensures mark + x == mark + y ==> x == y
  {
    assert (mark + x)[|mark|..] == x && (mark + y)[|mark|..] == y;
  }

  /** The fields tell the parts. */
  lemma FieldsAreOneToOne(p: KeyParts, q: KeyParts)
    ensures Fields(p) == Fields(q) ==> p == q
  {
    if Fields(p) == Fields(q) {
      var a, b := Fields(p), Fields(q);
      assert a[0] == b[0] && a[1] == b[1] && a[2] == b[2] && a[3] == b[3] && a[4] == b[4] && a[5] == b[5] && a[6] == b[6];
      LabelsAreOneToOne("rustc", p.rustc, q.rustc);
      LabelsAreOneToOne("f", p.flags, q.flags);
      LabelsAreOneToOne("l", p.lock, q.lock);
      LabelsAreOneToOne("soldr", p.soldr, q.soldr);
      if p.suffix.Some? {
        assert |b| == 8 && a[7] == b[7];
        LabelsAreOneToOne("x", p.suffix.value, q.suffix.value);
      }
    }
  }

  /** Base keys of dash-free parts have one text only if their parts are the same. */
  lemma BaseTextIdentifies(p: KeyParts, q: KeyParts)
    requires AreDashFreeParts(p) && AreDashFreeParts(q)
    ensures KeyText(BaseKey(p)) == KeyText(BaseKey(q)) <==> p == q
  {
    PartsAreJoined(p);
    PartsAreJoined(q);
    FieldsAreDashFree(p);
    FieldsAreDashFree(q);
    SplitUndoesJoin(Fields(p));
    SplitUndoesJoin(Fields(q));
    FieldsAreOneToOne(p, q);
    hide PartsText, Fields, DashJoin;
    LabelsAreOneToOne(BASE_KEY_PREFIX, "-" + PartsText(p), "-" + PartsText(q));
    LabelsAreOneToOne("-", PartsText(p), PartsText(q));
  }

  /** The restore prefix of a delta: everything of its key but the commit. */
  function ShapePrefix(p: KeyParts, shape: string): string { "cook-delta-v2" + ("-" + PartsText(p) + "-s" + shape) + "-" }

  lemma DeltaIsJoined(p: KeyParts, shape: string, sha: string)
    ensures KeyText(DeltaKey(p, shape, sha)) == "cook-delta-v2-" + DashJoin(DeltaFields(p, shape, sha))
    ensures ShapePrefix(p, shape) == "cook-delta-v2-" + (DashJoin(Fields(p) + ["s" + shape]) + "-")
  {
    PartsAreJoined(p);
    JoinAppend(Fields(p), ["s" + shape, "g" + sha]);
    JoinAppend(Fields(p), ["s" + shape]);
    assert DashJoin(["s" + shape, "g" + sha]) == "s" + shape + "-" + ("g" + sha) by {
      assert ["s" + shape, "g" + sha][1..] == ["g" + sha];
    }
    var parts := PartsText(p);
    hide PartsText, Fields, DashJoin;
    assert "-" + parts + "-s" + shape + "-g" + sha == "-" + (parts + ("-" + ("s" + shape + "-" + ("g" + sha))));
    assert "-" + parts + "-s" + shape == "-" + (parts + ("-" + ("s" + shape)));
    assert DELTA_KEY_PREFIX + "-" == "cook-delta-v2-";
  }

  lemma UnderPrefix(x: string, s: string, t: string)
    ensures x + s <= x + t <==> s <= t
  {
    if x + s <= x + t {
      assert (x + t)[|x|..][..|s|] == (x + s)[|x|..];
      assert (x + t)[|x|..] == t && (x + s)[|x|..] == s;
    }
    if s <= t {
      assert x + t == (x + s) + t[|s|..];
    }
  }

  /** A delta of dash-free parts and shape is found under a shape prefix exactly when it has those parts and that shape. */
  lemma ShapePrefixIsExact(p: KeyParts, shape: string, q: KeyParts, other: string, sha: string)
    requires AreDashFreeParts(p) && AreDashFreeParts(q) && '-' !in shape && '-' !in other && '-' !in sha
    ensures ShapePrefix(p, shape) <= KeyText(DeltaKey(q, other, sha)) <==> p == q && shape == other
  {
    var a, b := Fields(p) + ["s" + shape], DeltaFields(q, other, sha);
    DeltaIsJoined(p, shape, sha);
    DeltaIsJoined(q, other, sha);
    FieldsAreDashFree(p);
    FieldsAreDashFree(q);
    FieldsAreOneToOne(p, q);
    UnderPrefix("cook-delta-v2-", DashJoin(a) + "-", DashJoin(b));
    JoinPrefixIff(a, b);
    FieldsPrefixIff(p, shape, q, other, sha);
    hide KeyText, ShapePrefix, DashJoin, Fields;
  }

  lemma SuffixIsNoShape(p: KeyParts, shape: string, q: KeyParts, other: string, sha: string)
    ensures p.suffix.None? && q.suffix.Some? ==> (Fields(p) + ["s" + shape])[7] != DeltaFields(q, other, sha)[7]
  {
    if p.suffix.None? && q.suffix.Some? {
      var mine, theirs := (Fields(p) + ["s" + shape])[7], DeltaFields(q, other, sha)[7];
      assert mine == "s" + shape && theirs == "x" + q.suffix.value;
      assert mine[0] == 's' && theirs[0] == 'x';
    }
  }

  lemma FieldsPrefixIff(p: KeyParts, shape: string, q: KeyParts, other: string, sha: string)
    ensures var a, b := Fields(p) + ["s" + shape], DeltaFields(q, other, sha);
            |a| < |b| && a <= b <==> p == q && shape == other
  {
    var a, b := Fields(p) + ["s" + shape], DeltaFields(q, other, sha);
    FieldsAreOneToOne(p, q);
    LabelsAreOneToOne("s", shape, other);
    if |a| < |b| && a <= b {
      SuffixIsNoShape(p, shape, q, other, sha);
      assert |Fields(p)| == |Fields(q)|;
      assert Fields(p) == a[..|Fields(p)|] == b[..|Fields(p)|] == Fields(q);
      assert a[|a| - 1] == b[|a| - 1];
    }
    if p == q && shape == other {
      assert b == a + ["g" + sha];
    }
  }

  /** With dashes in them different parts can have one key. */
  lemma DashesCollide(p: KeyParts)
    ensures var q := p.(soldr := "1", suffix := Some("a"));
            var r := p.(soldr := "1-xa", suffix := None);
            q != r && KeyText(BaseKey(q)) == KeyText(BaseKey(r))
  {
    var head := p.os + "-" + p.arch + "-" + p.libc + "-rustc" + p.rustc + "-f" + p.flags + "-l" + p.lock + "-soldr";
    assert head + "1" + "-xa" == head + "1-xa" + "";
    assert "-x" + "a" == "-xa";
  }
}
