/** Which tracked paths get their mtime rewritten: the exclude and include tests over POSIX paths. */
module SourceSelection {
  import opened Common
  import opened GlobRegex

  // ---- Components ----

  function Components(path: string): (parts: seq<string>)
    ensures parts != []
  {
    var i := IndexOf(path, '/');
    if i == |path| then [path] else [path[..i]] + Components(path[i + 1..])
  }

  function Last(parts: seq<string>): string
    requires parts != []
  {
    parts[|parts| - 1]
  }

  function Basename(path: string): string { Last(Components(path)) }

  ghost predicate OccursAt(hay: string, needle: string, j: nat) {
    j + |needle| <= |hay| && forall k :: 0 <= k < |needle| ==> hay[j + k] == needle[k]
  }

  ghost predicate Occurs(hay: string, needle: string) { exists j: nat :: OccursAt(hay, needle, j) }

  /** `hay.includes(needle)`. */
  predicate Includes(hay: string, needle: string) {
    needle <= hay || (hay != "" && Includes(hay[1..], needle))
  }

  lemma {:induction false} IncludesIffOccurs(hay: string, needle: string)
    ensures Includes(hay, needle) <==> Occurs(hay, needle)
  {
    if needle <= hay {
      assert OccursAt(hay, needle, 0);
    } else if hay == "" {
      assert forall j: nat :: OccursAt(hay, needle, j) ==> needle == "";
    } else {
      IncludesIffOccurs(hay[1..], needle);
      OccursShift(hay, needle);
    }
  }

  lemma OccursAtFront(hay: string, needle: string)
    ensures OccursAt(hay, needle, 0) ==> needle <= hay
  {
    if |needle| <= |hay| {
      assert forall k :: 0 <= k < |needle| ==> hay[0 + k] == hay[k];
    }
  }

  lemma OccursShift(hay: string, needle: string)
    requires hay != "" && !(needle <= hay)
    ensures Occurs(hay[1..], needle) <==> Occurs(hay, needle)
  {
    if j: nat :| OccursAt(hay[1..], needle, j) {
      assert OccursAt(hay, needle, j + 1);
    }
    if j: nat :| OccursAt(hay, needle, j) {
      OccursAtFront(hay, needle);
      assert OccursAt(hay[1..], needle, j - 1);
    }
  }

  // ---- isExcluded ----

  const EXCLUDE_NAMES: seq<string> := ["target", ".git", "node_modules"]

  lemma ComponentsStep(path: string, i: nat)
    requires i == IndexOf(path, '/') < |path|
    ensures Components(path) == [path[..i]] + Components(path[i + 1..])
  {
    hide IndexOf;
  }

  predicate InAllButLast(parts: seq<string>, name: string)
    requires parts != []
  {
    name in parts[..|parts| - 1]
  }

  ghost predicate HasInnerComponent(path: string, name: string) { InAllButLast(Components(path), name) }

  lemma AllButLastOfCons(first: string, rest: seq<string>, name: string)
    requires rest != []
    ensures InAllButLast([first] + rest, name) <==> first == name || InAllButLast(rest, name)
  {
    var parts := [first] + rest;
    assert parts[..|parts| - 1] == [first] + rest[..|rest| - 1];
  }

  /** A needle `/name/` in `/path` is a component of the path other than the last. */
  lemma {:induction false} InnerComponentIsSubstring(path: string, name: string)
    requires '/' !in name
    ensures Includes("/" + path, "/" + name + "/") <==> HasInnerComponent(path, name)
  {
    IncludesIffOccurs("/" + path, "/" + name + "/");
    OccursIffInner(path, name);
  }

  lemma {:induction false} OccursIffInner(path: string, name: string)
    requires '/' !in name
    ensures Occurs("/" + path, "/" + name + "/") <==> HasInnerComponent(path, name)
  {
    var i := IndexOf(path, '/');
    if i == |path| {
      LoneComponentHasNoNeedle(path, name);
    } else {
      OccursIffInner(path[i + 1..], name);
      NeedleInFrontOrRest(path, name, i);
      InnerStep(path, name, i);
    }
  }

  lemma InnerStep(path: string, name: string, i: nat)
    requires i == IndexOf(path, '/') < |path|
    ensures HasInnerComponent(path, name) <==> path[..i] == name || HasInnerComponent(path[i + 1..], name)
  {
    hide InAllButLast, IndexOf, Components;
    ComponentsStep(path, i);
    AllButLastOfCons(path[..i], Components(path[i + 1..]), name);
  }

  lemma NoSlashAt(s: string)
    requires '/' !in s
    ensures forall k :: 0 <= k < |s| ==> s[k] != '/'
  {
  }

  lemma LoneComponentHasNoNeedle(path: string, name: string)
    requires '/' !in path
    ensures !Occurs("/" + path, "/" + name + "/")
  {
    var hay, needle := "/" + path, "/" + name + "/";
    var k := |needle| - 1;
    assert needle[k] == '/';
    NoSlashAt(path);
    assert forall m :: 0 < m < |hay| ==> hay[m] == path[m - 1];
  }

  lemma NeedleInFrontOrRest(path: string, name: string, i: nat)
    requires '/' !in name
    requires i < |path| && path[i] == '/' && '/' !in path[..i]
    ensures Occurs("/" + path, "/" + name + "/") <==>
            path[..i] == name || Occurs("/" + path[i + 1..], "/" + name + "/")
  {
    var hay, needle := "/" + path, "/" + name + "/";
    var rest := "/" + path[i + 1..];
    if path[..i] == name {
      assert OccursAt(hay, needle, 0);
    }
    if j: nat :| OccursAt(rest, needle, j) {
      assert OccursAt(hay, needle, i + 1 + j);
    }
    if j: nat :| OccursAt(hay, needle, j) {
      NeedlePosition(path, name, i, j);
      if j == 0 {
        assert path[..i] == name;
      } else {
        assert OccursAt(rest, needle, j - i - 1);
      }
    }
  }

  lemma NeedlePosition(path: string, name: string, i: nat, j: nat)
    requires '/' !in name
    requires i < |path| && path[i] == '/' && '/' !in path[..i]
    requires OccursAt("/" + path, "/" + name + "/", j)
    ensures j == 0 || j > i
    ensures j == 0 ==> path[..i] == name
  {
    var hay, needle := "/" + path, "/" + name + "/";
    var n := |name|;
    NoSlashAt(path[..i]);
    NoSlashAt(name);
    assert forall k :: 0 <= k < i ==> path[k] == path[..i][k] != '/';
    assert hay[j + 0] == needle[0] == '/';
    assert j > 0 ==> hay[j] == path[j - 1];
    if j == 0 {
      assert hay[0 + (n + 1)] == needle[n + 1] == '/';
      assert path[n] == '/';
      forall k | 0 <= k < n
        ensures path[k] == name[k]
      {
        assert hay[0 + (k + 1)] == needle[k + 1];
      }
    }
  }

  /** The whole path, or some component before the last, is an excluded name. */
  ghost predicate IsExcludedPath(path: string) {
    path in EXCLUDE_NAMES || exists name :: name in EXCLUDE_NAMES && HasInnerComponent(path, name)
  }

  /** The three string tests per prefix decide that. */
  method IsExcluded(path: string) returns (excluded: bool)
    ensures excluded <==> IsExcludedPath(path)
  {
    for n := 0 to |EXCLUDE_NAMES|
      invariant forall m :: 0 <= m < n ==> !(path == EXCLUDE_NAMES[m] || HasInnerComponent(path, EXCLUDE_NAMES[m]))
    {
      var name := EXCLUDE_NAMES[n];
      var prefix := name + "/";
      assert '/' !in name;
      InnerComponentIsSubstring(path, name);
      assert "/" + prefix == "/" + name + "/";
      if path == name || StartsWith(path, prefix) {
        PrefixIsIncluded(path, prefix);
        return true;
      }
      if Includes("/" + path, "/" + prefix) {
        return true;
      }
    }
    return false;
  }

  lemma PrefixIsIncluded(path: string, prefix: string)
    ensures StartsWith(path, prefix) ==> Includes("/" + path, "/" + prefix)
  {
    assert StartsWith(path, prefix) ==> "/" + prefix <= "/" + path;
  }

  // ---- matchesInclude ----

  const RUST: string := ".rs"
  const BUILD_RS: string := "build.rs"
  const CARGO_TOML: string := "Cargo.toml"
  const CARGO_LOCK: string := "Cargo.lock"
  const TOOLCHAIN: string := "rust-toolchain"
  const TOOLCHAIN_TOML: string := "rust-toolchain.toml"

  const INCLUDE_GLOBS: seq<string> := [
    "*" + RUST, "**/*" + RUST, CARGO_TOML, "**/" + CARGO_TOML, CARGO_LOCK, "**/" + CARGO_LOCK,
    BUILD_RS, "**/" + BUILD_RS, TOOLCHAIN, TOOLCHAIN_TOML]

  ghost predicate DenotesEither(glob: string, path: string) {
    Denotes(glob, path, true) || Denotes(glob, Basename(path), true)
  }

  /** Some include glob denotes the whole path or its basename. */
  ghost predicate DenotedByInclude(path: string) {
    exists glob :: glob in INCLUDE_GLOBS && DenotesEither(glob, path)
  }

  method MatchesInclude(path: string) returns (included: bool)
    ensures included <==> DenotedByInclude(path)
  {
    hide Denotes, Translate, Accepts;
    var basename := Basename(path);
    for n := 0 to |INCLUDE_GLOBS|
      invariant forall m :: 0 <= m < n ==> !DenotesEither(INCLUDE_GLOBS[m], path)
    {
      var re := FnmatchToRegex(INCLUDE_GLOBS[n]);
      IncludeGlobIsClassFree(n);
      TranslationAcceptsDenoted(INCLUDE_GLOBS[n], path);
      TranslationAcceptsDenoted(INCLUDE_GLOBS[n], basename);
      if Accepts(re, path) || Accepts(re, basename) {
        assert DenotesEither(INCLUDE_GLOBS[n], path);
        return true;
      }
    }
    return false;
  }

  lemma IncludeGlobIsClassFree(n: nat)
    requires n < |INCLUDE_GLOBS|
    ensures ClassFree(INCLUDE_GLOBS[n])
  {
    assert '[' !in INCLUDE_GLOBS[n];
  }

  predicate IsLiteral(s: string) { '*' !in s && '?' !in s }

  lemma {:induction false} LiteralDenotesItself(lit: string, s: string)
    requires IsLiteral(lit)
    ensures Denotes(lit, s, true) <==> s == lit
  {
    if lit != "" {
      assert lit[0] != '*' && lit[0] != '?';
      if s != "" {
        LiteralDenotesItself(lit[1..], s[1..]);
        assert lit == [lit[0]] + lit[1..] && s == [s[0]] + s[1..];
      }
    }
  }

  /** The part of `s` before a suffix. */
  function Front(s: string, suffix: string): string
    requires EndsWith(s, suffix)
  {
    s[..|s| - |suffix|]
  }

  lemma DoubleStarDenotesSuffix(lit: string, s: string)
    requires IsLiteral(lit)
    ensures Denotes("**/" + lit, s, true) <==> EndsWith(s, lit) && OneLine(Front(s, lit))
  {
    DoubleStarUnfolds(lit, s);
    forall k | 0 <= k <= |s|
      ensures Denotes(lit, s[k..], true) <==> EndsWith(s, lit) && k == |s| - |lit|
    {
      LiteralDenotesItself(lit, s[k..]);
    }
  }

  lemma StarDenotesSuffix(lit: string, s: string)
    requires IsLiteral(lit) && lit != ""
    ensures Denotes("*" + lit, s, true) <==> EndsWith(s, lit) && !HasSlash(Front(s, lit))
  {
    var glob := "*" + lit;
    assert glob[1] == lit[0] && glob[1..] == lit;
    forall k | 0 <= k <= |s|
      ensures Denotes(lit, s[k..], true) <==> EndsWith(s, lit) && k == |s| - |lit|
    {
      LiteralDenotesItself(lit, s[k..]);
    }
  }

  lemma DeepStarDenotesSuffix(lit: string, s: string)
    requires IsLiteral(lit) && lit != ""
    ensures Denotes("**/*" + lit, s, true) ==> EndsWith(s, lit)
  {
    assert "**/*" + lit == "**/" + ("*" + lit);
    DoubleStarUnfolds("*" + lit, s);
    hide Denotes;
    if Denotes("**/*" + lit, s, true) {
      var k :| 0 <= k <= |s| && Denotes("*" + lit, s[k..], true);
      StarDenotesSuffix(lit, s[k..]);
    }
  }

  lemma DoubleStarUnfolds(rest: string, s: string)
    ensures Denotes("**/" + rest, s, true) <==>
            exists k :: 0 <= k <= |s| && OneLine(s[..k]) && Denotes(rest, s[k..], true)
  {
    var glob := "**/" + rest;
    assert IsDoubleStar(glob) && AfterDoubleStar(glob) == rest;
  }

  lemma EndsTransitive(a: string, b: string, c: string)
    ensures EndsWith(a, b) && EndsWith(b, c) ==> EndsWith(a, c)
  {
    if EndsWith(a, b) && EndsWith(b, c) {
      assert a[|a| - |c|..] == a[|a| - |b|..][|b| - |c|..];
    }
  }

  lemma SlashInSlice(path: string, start: nat, i: nat)
    requires start <= i < |path| && path[i] == '/'
    ensures '/' in path[start..]
  {
    assert path[start..][i - start] == '/';
  }

  lemma SuffixStartsAfterSlash(path: string, i: nat, suffix: string)
    requires i < |path| && path[i] == '/' && '/' !in suffix && EndsWith(path, suffix)
    ensures EndsWith(path[i + 1..], suffix)
  {
    var start: nat := |path| - |suffix|;
    if start <= i {
      SlashInSlice(path, start, i);
    }
  }

  lemma {:induction false} BasenameEndsPath(path: string)
    ensures '/' !in Basename(path) && EndsWith(path, Basename(path))
    ensures '/' !in path ==> Basename(path) == path
  {
    var i := IndexOf(path, '/');
    if i < |path| {
      var rest := path[i + 1..];
      BasenameEndsPath(rest);
      BasenameStep(path, i);
      EndsTransitive(path, rest, Basename(rest));
    }
  }

  lemma LastOfCons(first: string, rest: seq<string>)
    requires rest != []
    ensures Last([first] + rest) == Last(rest)
  {
  }

  lemma BasenameStep(path: string, i: nat)
    requires i == IndexOf(path, '/') < |path|
    ensures Basename(path) == Basename(path[i + 1..])
  {
    hide Last, IndexOf, Components;
    ComponentsStep(path, i);
    LastOfCons(path[..i], Components(path[i + 1..]));
  }

  lemma {:induction false} SuffixIsOfBasename(path: string, suffix: string)
    requires '/' !in suffix
    ensures EndsWith(path, suffix) <==> EndsWith(Basename(path), suffix)
  {
    BasenameEndsPath(path);
    EndsTransitive(path, Basename(path), suffix);
    var i := IndexOf(path, '/');
    if i < |path| && EndsWith(path, suffix) {
      SuffixStartsAfterSlash(path, i, suffix);
      BasenameStep(path, i);
      SuffixIsOfBasename(path[i + 1..], suffix);
    }
  }

  /** The basename ends in `name`, with no line terminator before that. */
  ghost predicate EndsInName(path: string, name: string) {
    var basename := Basename(path);
    EndsWith(basename, name) && OneLine(Front(basename, name))
  }

  lemma NameGlobsDenote(path: string, name: string)
    requires IsLiteral(name) && '/' !in name
    ensures EndsInName(path, name) <==>
            DenotesEither(name, path) || DenotesEither("**/" + name, path)
  {
    hide Denotes, Basename;
    var basename := Basename(path);
    LiteralDenotesItself(name, path);
    LiteralDenotesItself(name, basename);
    DoubleStarDenotesSuffix(name, path);
    DoubleStarDenotesSuffix(name, basename);
    BasenameEndsPath(path);
    SuffixIsOfBasename(path, name);
    if EndsWith(path, name) && OneLine(Front(path, name)) {
      var drop := |path| - |basename|;
      assert Front(basename, name) == Front(path, name)[drop..];
    }
  }

  lemma SuffixGlobsDenote(path: string, suffix: string, name: string)
    requires IsLiteral(suffix) && '/' !in suffix && suffix != ""
    requires IsLiteral(name) && '/' !in name && EndsWith(name, suffix)
    ensures EndsWith(path, suffix) <==>
            DenotesEither("*" + suffix, path) || DenotesEither("**/*" + suffix, path) ||
            DenotesEither(name, path) || DenotesEither("**/" + name, path)
  {
    hide Denotes, Basename;
    var basename := Basename(path);
    StarDenotesSuffix(suffix, path);
    StarDenotesSuffix(suffix, basename);
    DeepStarDenotesSuffix(suffix, path);
    DeepStarDenotesSuffix(suffix, basename);
    NameGlobsDenote(path, name);
    BasenameEndsPath(path);
    SuffixIsOfBasename(path, suffix);
    EndsTransitive(basename, name, suffix);
  }

  lemma RustGlobs(path: string)
    ensures EndsWith(path, RUST) <==>
            DenotesEither("*" + RUST, path) || DenotesEither("**/*" + RUST, path) ||
            DenotesEither(BUILD_RS, path) || DenotesEither("**/" + BUILD_RS, path)
  {
    hide DenotesEither;
    SuffixGlobsDenote(path, RUST, BUILD_RS);
  }

  lemma CargoGlobs(path: string)
    ensures EndsInName(path, CARGO_TOML) <==> DenotesEither(CARGO_TOML, path) || DenotesEither("**/" + CARGO_TOML, path)
    ensures EndsInName(path, CARGO_LOCK) <==> DenotesEither(CARGO_LOCK, path) || DenotesEither("**/" + CARGO_LOCK, path)
  {
    hide DenotesEither, EndsInName;
    NameGlobsDenote(path, CARGO_TOML);
    NameGlobsDenote(path, CARGO_LOCK);
  }

  lemma ToolchainGlobs(path: string)
    ensures DenotesEither(TOOLCHAIN, path) <==> Basename(path) == TOOLCHAIN
    ensures DenotesEither(TOOLCHAIN_TOML, path) <==> Basename(path) == TOOLCHAIN_TOML
  {
    hide DenotesEither, Basename;
    ToolchainGlob(path, TOOLCHAIN);
    ToolchainGlob(path, TOOLCHAIN_TOML);
  }

  lemma ToolchainGlob(path: string, name: string)
    requires IsLiteral(name) && '/' !in name
    ensures DenotesEither(name, path) <==> Basename(path) == name
  {
    LiteralDenotesItself(name, path);
    LiteralDenotesItself(name, Basename(path));
    BasenameEndsPath(path);
  }

  /**
   What the ten globs select: any path ending in `.rs`, any basename ending in (not only equal to)
   `Cargo.toml` or `Cargo.lock` with no line terminator before it, and the two toolchain names.
   */
  lemma IncludedExactly(path: string)
    ensures DenotedByInclude(path) <==>
            EndsWith(path, RUST) || EndsInName(path, CARGO_TOML) || EndsInName(path, CARGO_LOCK) ||
            Basename(path) == TOOLCHAIN || Basename(path) == TOOLCHAIN_TOML
  {
    hide *;
    RustGlobs(path);
    CargoGlobs(path);
    ToolchainGlobs(path);
    IncludeGlobsAre(path);
  }

  lemma IncludeGlobsAre(path: string)
    ensures DenotedByInclude(path) <==>
            DenotesEither("*" + RUST, path) || DenotesEither("**/*" + RUST, path) ||
            DenotesEither(CARGO_TOML, path) || DenotesEither("**/" + CARGO_TOML, path) ||
            DenotesEither(CARGO_LOCK, path) || DenotesEither("**/" + CARGO_LOCK, path) ||
            DenotesEither(BUILD_RS, path) || DenotesEither("**/" + BUILD_RS, path) ||
            DenotesEither(TOOLCHAIN, path) || DenotesEither(TOOLCHAIN_TOML, path)
  {
    hide DenotesEither, RUST, BUILD_RS, CARGO_TOML, CARGO_LOCK, TOOLCHAIN, TOOLCHAIN_TOML;
  }

  // ---- selectCandidateFiles ----

  function ToPosix(entry: string): (r: string)
    ensures |r| == |entry| && '\\' !in r
    ensures forall i :: 0 <= i < |r| ==> r[i] == entry[i] || (r[i] == '/' && entry[i] == '\\')
  {
    seq(|entry|, i requires 0 <= i < |entry| => if entry[i] == '\\' then '/' else entry[i])
  }

  ghost predicate IsCandidate(path: string) { DenotedByInclude(path) && !IsExcludedPath(path) }

  ghost function Candidates(tracked: seq<string>): seq<string> {
    if tracked == [] then [] else
    var path := ToPosix(tracked[|tracked| - 1]);
    Candidates(tracked[..|tracked| - 1]) + if IsCandidate(path) then [path] else []
  }

  method SelectCandidateFiles(tracked: seq<string>) returns (out: seq<string>)
    ensures out == Candidates(tracked)
  {
    hide IsExcludedPath, DenotedByInclude, ToPosix;
    out := [];
    for n := 0 to |tracked|
      invariant out == Candidates(tracked[..n])
    {
      assert tracked[..n + 1][..n] == tracked[..n];
      var path := ToPosix(tracked[n]);
      var excluded := IsExcluded(path);
      if excluded { continue; }
      var included := MatchesInclude(path);
      if !included { continue; }
      out := out + [path];
    }
    assert tracked[..|tracked|] == tracked;
  }

  /** The selection is exactly the wanted paths among the tracked ones, none lost and none added. */
  lemma {:induction false} CandidatesExactly(tracked: seq<string>, path: string)
    ensures path in Candidates(tracked) <==> IsCandidate(path) && exists entry :: entry in tracked && ToPosix(entry) == path
  {
    hide IsCandidate, ToPosix;
    if tracked != [] {
      var front, last := tracked[..|tracked| - 1], tracked[|tracked| - 1];
      assert tracked == front + [last];
      CandidatesExactly(front, path);
    }
  }
}
