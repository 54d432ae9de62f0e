/** The ancestor cache key: printing, parsing, and the prefixes that select a family of keys. */
module AncestorKey {
  import opened Common

  const KEY_PREFIX: string := "setup-soldr-ancestor-build-v1-"
  const SOURCE: string := "-source-"
  const RUN: string := "-run-"
  const ATTEMPT: string := "-attempt-"
  const PR: string := "-pr-"
  const MAX_SAFE_INTEGER: int := 9_007_199_254_740_991

  datatype Key = Key(identity: string, sha: string, runId: int, attempt: int, pr: Option<int>)

  // ---- Character classes and decimal text ----

  predicate IsHex(c: char) { '0' <= c <= '9' || 'a' <= c <= 'f' }

  predicate IsDigit(c: char) { '0' <= c <= '9' }

  predicate All(s: string, charClass: char -> bool) {
    forall i :: 0 <= i < |s| ==> charClass(s[i])
  }

  predicate IsHexOfLength(s: string, lo: nat, hi: nat) {
    lo <= |s| <= hi && All(s, IsHex)
  }

  lemma HexIff(s: string)
    ensures All(s, IsHex) <==> forall c :: c in s ==> c in "0123456789abcdef"
  {
    var digits := "0123456789abcdef";
    forall c: char
      ensures IsHex(c) <==> c in digits
    {
      if '0' <= c <= '9' {
        assert digits[c as int - '0' as int] == c;
      } else if 'a' <= c <= 'f' {
        assert digits[10 + c as int - 'a' as int] == c;
      }
    }
  }

  predicate IsSha(s: string) {
    (|s| == 40 || |s| == 64) && All(s, IsHex)
  }

  /** `[1-9][0-9]*` */
  predicate IsPositiveNumeral(s: string) {
    s != "" && s[0] != '0' && All(s, IsDigit)
  }

  function Numeral(n: nat): (s: string)
    ensures All(s, IsDigit) && s != ""
    ensures n > 0 ==> IsPositiveNumeral(s)
  {
    var digit := ['0' + (n % 10) as char];
    if n < 10 then digit else Numeral(n / 10) + digit
  }

  function NumeralValue(s: string): nat
    requires All(s, IsDigit)
  {
    if s == "" then 0
    else
      var last := s[|s| - 1];
      10 * NumeralValue(s[..|s| - 1]) + (last - '0') as nat
  }

  lemma {:induction false} ValueOfNumeral(n: nat)
    ensures NumeralValue(Numeral(n)) == n
  {
    var s := Numeral(n);
    if n >= 10 {
      ValueOfNumeral(n / 10);
      assert s[..|s| - 1] == Numeral(n / 10);
    } else {
      assert s[..|s| - 1] == "";
    }
  }

  lemma {:induction false} NumeralOfValue(s: string)
    requires IsPositiveNumeral(s)
    ensures NumeralValue(s) > 0 && Numeral(NumeralValue(s)) == s
  {
    var front, last := s[..|s| - 1], s[|s| - 1];
    if front != "" {
      NumeralOfValue(front);
      assert NumeralValue(s) / 10 == NumeralValue(front);
    }
    assert s == front + [last];
    assert '0' + ((last - '0') as nat) as char == last;
  }

  // ---- Printing ----

  predicate IsSafePositive(n: int) { 0 < n <= MAX_SAFE_INTEGER }

  predicate ValidKey(k: Key) {
    && IsHexOfLength(k.identity, 16, 64) && IsSha(k.sha)
    && IsSafePositive(k.runId) && IsSafePositive(k.attempt)
    && (k.pr.Some? ==> IsSafePositive(k.pr.value))
  }

  function AncestorKeyPrefix(identity: string): (r: Result<string>)
    ensures r.Success? <==> 16 <= |identity| <= 64 && forall c :: c in identity ==> c in "0123456789abcdef"
  {
    HexIff(identity);
    if IsHexOfLength(identity, 16, 64) then Success(KEY_PREFIX + identity + "-") else Failure
  }

  function AncestorFamilyPrefix(family: string): (r: Result<string>)
    ensures r.Success? <==> |family| == 16 && forall c :: c in family ==> c in "0123456789abcdef"
  {
    HexIff(family);
    if IsHexOfLength(family, 16, 16) then Success(KEY_PREFIX + family) else Failure
  }

  function PrSuffix(pr: Option<string>): string {
    if pr.None? then "" else PR + pr.value
  }

  function MakeAncestorKey(k: Key): Result<string> {
    if !ValidKey(k) then Failure
    else
      Success(AncestorKeyPrefix(k.identity).value + (SOURCE[1..] + (k.sha
              + (RUN + (Numeral(k.runId) + (ATTEMPT + (Numeral(k.attempt)
              + PrSuffix(if k.pr.None? then None else Some(Numeral(k.pr.value))))))))))
  }

  // ---- Parsing ----

  /** The capture groups of the key pattern. */
  datatype Groups = Groups(identity: string, sha: string, run: string, attempt: string, pr: Option<string>)

  function Assemble(g: Groups): string {
    KEY_PREFIX + (g.identity + (SOURCE + (g.sha + (RUN + (g.run + (ATTEMPT + (g.attempt + PrSuffix(g.pr))))))))
  }

  /** What the anchored pattern means: the text splits into these groups and its literals. */
  ghost predicate Matches(value: string, g: Groups) {
    value == Assemble(g) && WellFormedGroups(g)
  }

  predicate WellFormedGroups(g: Groups) {
    && IsHexOfLength(g.identity, 16, 64) && IsSha(g.sha)
    && IsPositiveNumeral(g.run) && IsPositiveNumeral(g.attempt)
    && (g.pr.Some? ==> IsPositiveNumeral(g.pr.value))
  }

  function After(s: string, literal: string): Option<string> {
    if literal <= s then Some(s[|literal|..]) else None
  }

  /** Length of the longest prefix in the class. */
  function Run(s: string, charClass: char -> bool): (n: nat)
    ensures n <= |s| && All(s[..n], charClass)
    ensures n < |s| ==> !charClass(s[n])
  {
    if s == "" || !charClass(s[0]) then 0 else 1 + Run(s[1..], charClass)
  }

  /** A maximal run in the class, then a literal. */
  function Field(s: string, charClass: char -> bool, literal: string): Option<(string, string)> {
    var n := Run(s, charClass);
    var rest :- After(s[n..], literal);
    Some((s[..n], rest))
  }

  lemma {:induction false} RunOfPrefix(x: string, rest: string, charClass: char -> bool)
    requires All(x, charClass) && (rest != "" ==> !charClass(rest[0]))
    ensures Run(x + rest, charClass) == |x|
  {
    if x == "" {
      assert x + rest == rest;
    } else {
      RunOfPrefix(x[1..], rest, charClass);
      assert (x + rest)[1..] == x[1..] + rest;
    }
  }

  /** Reading a field undoes writing it, when the literal starts outside the class. */
  lemma FieldReads(x: string, literal: string, rest: string, charClass: char -> bool)
    requires All(x, charClass) && literal != "" && !charClass(literal[0])
    ensures Field(x + (literal + rest), charClass, literal) == Some((x, rest))
  {
    var s := x + (literal + rest);
    RunOfPrefix(x, literal + rest, charClass);
    assert s[..|x|] == x && s[|x|..] == literal + rest;
    assert (literal + rest)[|literal|..] == rest;
  }

  lemma FieldSplits(s: string, charClass: char -> bool, literal: string)
    requires Field(s, charClass, literal).Some?
    ensures var (x, rest) := Field(s, charClass, literal).value;
            s == x + (literal + rest) && All(x, charClass)
  {
    var n := Run(s, charClass);
    assert s[n..] == literal + s[n..][|literal|..];
    assert s == s[..n] + s[n..];
  }

  /** The last number with its optional pull-request suffix. */
  function Tail(s: string): Option<(string, Option<string>)> {
    var n := Run(s, IsDigit);
    if s[n..] == "" then Some((s, None))
    else
      var pr :- After(s[n..], PR);
      if IsPositiveNumeral(pr) then Some((s[..n], Some(pr))) else None
  }

  lemma TailReads(attempt: string, pr: Option<string>)
    requires All(attempt, IsDigit) && (pr.Some? ==> IsPositiveNumeral(pr.value))
    ensures Tail(attempt + PrSuffix(pr)) == Some((attempt, pr))
  {
    var s := attempt + PrSuffix(pr);
    RunOfPrefix(attempt, PrSuffix(pr), IsDigit);
    assert s[..|attempt|] == attempt && s[|attempt|..] == PrSuffix(pr);
    if pr.Some? {
      assert PR + pr.value != "";
      assert (PR + pr.value)[|PR|..] == pr.value;
    } else {
      assert s == attempt;
    }
  }

  lemma TailSplits(s: string)
    requires Tail(s).Some?
    ensures var (attempt, pr) := Tail(s).value;
            && s == attempt + PrSuffix(pr) && All(attempt, IsDigit)
            && (pr.Some? ==> IsPositiveNumeral(pr.value))
  {
    var n := Run(s, IsDigit);
    assert s == s[..n] + s[n..];
    if s[n..] != "" {
      assert s[n..] == PR + s[n..][|PR|..];
    }
  }

  /** A scan for the pattern: every run is maximal, since no literal starts inside a run's class. */
  function Exec(value: string): Option<Groups> {
    var s0 :- After(value, KEY_PREFIX);
    var f1 :- Field(s0, IsHex, SOURCE);
    var f2 :- Field(f1.1, IsHex, RUN);
    var f3 :- Field(f2.1, IsDigit, ATTEMPT);
    var f4 :- Tail(f3.1);
    var g := Groups(f1.0, f2.0, f3.0, f4.0, f4.1);
    if WellFormedGroups(g) then Some(g) else None
  }

  lemma LiteralsStartWithDash()
    ensures SOURCE != "" && SOURCE[0] == '-' && RUN != "" && RUN[0] == '-'
    ensures ATTEMPT != "" && ATTEMPT[0] == '-' && PR != "" && PR[0] == '-'
  {
  }

  lemma ExecFindsGroups(g: Groups)
    requires WellFormedGroups(g)
    ensures Exec(Assemble(g)) == Some(g)
  {
    LiteralsStartWithDash();
    hide KEY_PREFIX, SOURCE, RUN, ATTEMPT, PR;
    hide Field, Tail;
    var t3 := g.attempt + PrSuffix(g.pr);
    var t2 := g.run + (ATTEMPT + t3);
    var t1 := g.sha + (RUN + t2);
    assert Assemble(g)[|KEY_PREFIX|..] == g.identity + (SOURCE + t1);
    FieldReads(g.identity, SOURCE, t1, IsHex);
    FieldReads(g.sha, RUN, t2, IsHex);
    FieldReads(g.run, ATTEMPT, t3, IsDigit);
    TailReads(g.attempt, g.pr);
  }

  lemma ExecSplits(value: string)
    requires Exec(value).Some?
    ensures Matches(value, Exec(value).value)
  {
    hide KEY_PREFIX, SOURCE, RUN, ATTEMPT, PR;
    hide Field, Tail, PrSuffix;
    var s0 := After(value, KEY_PREFIX).value;
    assert value == KEY_PREFIX + s0;
    FieldSplits(s0, IsHex, SOURCE);
    var f1 := Field(s0, IsHex, SOURCE).value;
    FieldSplits(f1.1, IsHex, RUN);
    var f2 := Field(f1.1, IsHex, RUN).value;
    FieldSplits(f2.1, IsDigit, ATTEMPT);
    TailSplits(Field(f2.1, IsDigit, ATTEMPT).value.1);
  }

  /** The scan decides the pattern, and its groups are the pattern's only ones. */
  lemma ExecDecidesPattern(value: string, g: Groups)
    ensures Exec(value) == Some(g) <==> Matches(value, g)
  {
    if WellFormedGroups(g) {
      ExecFindsGroups(g);
    }
    if Exec(value).Some? {
      ExecSplits(value);
    }
    hide Exec, Assemble;
  }

  /** `Number(...)` of every captured group. */
  function KeyOf(g: Groups): Key
    requires WellFormedGroups(g)
  {
    Key(g.identity, g.sha, NumeralValue(g.run), NumeralValue(g.attempt),
        if g.pr.Some? then Some(NumeralValue(g.pr.value)) else None)
  }

  function ParseAncestorKey(value: string): Option<Key> {
    var g :- Exec(value);
    var k := KeyOf(g);
    if MakeAncestorKey(k) == Success(value) then Some(k) else None
  }

  function GroupsOf(k: Key): Groups
    requires ValidKey(k)
  {
    Groups(k.identity, k.sha, Numeral(k.runId), Numeral(k.attempt),
           if k.pr.None? then None else Some(Numeral(k.pr.value)))
  }

  lemma MadeKeyMatches(k: Key)
    requires ValidKey(k)
    ensures Matches(MakeAncestorKey(k).value, GroupsOf(k))
    ensures KeyOf(GroupsOf(k)) == k
  {
    ValueOfNumeral(k.runId);
    ValueOfNumeral(k.attempt);
    if k.pr.Some? {
      ValueOfNumeral(k.pr.value);
    }
    assert SOURCE == "-" + SOURCE[1..];
    hide KEY_PREFIX, SOURCE, RUN, ATTEMPT, PR;
    var g := GroupsOf(k);
    var tail := g.sha + (RUN + (g.run + (ATTEMPT + (g.attempt + PrSuffix(g.pr)))));
    DashMoves(KEY_PREFIX, g.identity, SOURCE[1..], tail);
    assert MakeAncestorKey(k).value == KEY_PREFIX + g.identity + "-" + (SOURCE[1..] + tail);
  }

  lemma DashMoves(prefix: string, x: string, y: string, tail: string)
    ensures prefix + x + "-" + (y + tail) == prefix + (x + (("-" + y) + tail))
  {
  }

  /** Parsing inverts printing exactly: a string parses to `k` just when `k` prints as it. */
  lemma ParseInvertsMake(value: string, k: Key)
    ensures ParseAncestorKey(value) == Some(k) <==> MakeAncestorKey(k) == Success(value)
  {
    if MakeAncestorKey(k) == Success(value) {
      MadeKeyMatches(k);
      ExecDecidesPattern(value, GroupsOf(k));
    }
  }

  /** The exact set of strings that parse: pattern matches whose numbers are all safe integers. */
  lemma ParsesExactlySafeMatches(value: string)
    ensures ParseAncestorKey(value).Some? <==> exists g :: Matches(value, g) && ValidKey(KeyOf(g))
  {
    if g :| Matches(value, g) && ValidKey(KeyOf(g)) {
      ExecDecidesPattern(value, g);
      NumeralOfValue(g.run);
      NumeralOfValue(g.attempt);
      if g.pr.Some? {
        NumeralOfValue(g.pr.value);
      }
      assert GroupsOf(KeyOf(g)) == g;
      MadeKeyMatches(KeyOf(g));
    }
    if ParseAncestorKey(value).Some? {
      MadeKeyMatches(ParseAncestorKey(value).value);
    }
  }

  // ---- Prefixes ----

  /** Two hex runs, each followed by a dash, begin alike only when they are equal. */
  lemma RunsBeforeDash(x: string, y: string, tail: string)
    requires All(x, IsHex) && All(y, IsHex) && tail != "" && tail[0] == '-'
    ensures x + "-" <= y + tail <==> x == y
  {
    if x + "-" <= y + tail {
      var rest := (y + tail)[|x| + 1..];
      assert y + tail == x + ("-" + rest);
      RunOfPrefix(y, tail, IsHex);
      RunOfPrefix(x, "-" + rest, IsHex);
    }
  }

  lemma SharedPrefix(common: string, x: string, y: string)
    ensures common + x <= common + y <==> x <= y
  {
    assert (common + x)[|common|..] == x && (common + y)[|common|..] == y;
    if common + x <= common + y {
      forall i | 0 <= i < |x| ensures x[i] == y[i] {
        assert (common + x)[|common| + i] == x[i] && (common + y)[|common| + i] == y[i];
      }
    }
  }

  /** A made key carries the prefix of its own identity and of no other. */
  lemma IdentityPrefixIsExact(k: Key, identity: string)
    requires ValidKey(k) && IsHexOfLength(identity, 16, 64)
    ensures StartsWith(MakeAncestorKey(k).value, AncestorKeyPrefix(identity).value) <==> k.identity == identity
  {
    MadeKeyMatches(k);
    LiteralsStartWithDash();
    hide KEY_PREFIX, SOURCE, RUN, ATTEMPT, PR;
    var g := GroupsOf(k);
    var tail := SOURCE + (g.sha + (RUN + (g.run + (ATTEMPT + (g.attempt + PrSuffix(g.pr))))));
    assert KEY_PREFIX + identity + "-" == KEY_PREFIX + (identity + "-");
    SharedPrefix(KEY_PREFIX, identity + "-", k.identity + tail);
    RunsBeforeDash(identity, k.identity, tail);
  }

  /** A made key carries a family's prefix exactly when the family begins its identity. */
  lemma FamilyPrefixIsExact(k: Key, family: string)
    requires ValidKey(k) && IsHexOfLength(family, 16, 16)
    ensures StartsWith(MakeAncestorKey(k).value, AncestorFamilyPrefix(family).value) <==>
            StartsWith(k.identity, family)
  {
    MadeKeyMatches(k);
    hide KEY_PREFIX, SOURCE, RUN, ATTEMPT, PR;
    var g := GroupsOf(k);
    var tail := SOURCE + (g.sha + (RUN + (g.run + (ATTEMPT + (g.attempt + PrSuffix(g.pr))))));
    SharedPrefix(KEY_PREFIX, family, k.identity + tail);
    assert (k.identity + tail)[..|family|] == k.identity[..|family|];
  }
}
