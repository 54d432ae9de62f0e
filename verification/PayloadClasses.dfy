/** The payload filters in terms of names: which paths pass, and where inputs may lead. */
module PayloadClasses {
  import opened Common
  import opened CachePayload
  import opened PayloadCensus

  // ---- File classes ----

  /** Below `zccache/artifacts`, or below the `artifacts` of one private session, in any letter case. */
  ghost predicate IsBelowArtifacts(path: Path) {
    var parts := LowerParts(path);
    ["zccache", "artifacts"] <= parts || exists session :: ["zccache", "private", session, "artifacts"] <= parts
  }

  lemma ArtifactIff(path: Path)
    ensures IsZccacheArtifactPayloadPath(path) <==> IsBelowArtifacts(path)
  {
    var parts := LowerParts(path);
    hide ToLower, LowerParts;
    if |parts| >= 2 && parts[0] == ZCCACHE && parts[1] == ARTIFACTS {
      assert parts[..2] == ["zccache", "artifacts"];
    }
    if |parts| >= 4 && parts[0] == ZCCACHE && parts[1] == PRIVATE && parts[3] == ARTIFACTS {
      assert parts[..4] == ["zccache", "private", parts[2], "artifacts"];
    }
    if session :| ["zccache", "private", session, "artifacts"] <= parts {
      assert parts[0] == ["zccache", "private", session, "artifacts"][0];
      assert parts[1] == ["zccache", "private", session, "artifacts"][1];
      assert parts[3] == ["zccache", "private", session, "artifacts"][3];
    }
    if ["zccache", "artifacts"] <= parts {
      assert parts[0] == ["zccache", "artifacts"][0] && parts[1] == ["zccache", "artifacts"][1];
    }
  }

  /** A lock of cargo or a daemon, an archive, or a file that only a running process has. */
  ghost predicate IsTransientName(name: string) {
    || ToLower(name) in TRANSIENT_EXACT_BASENAMES
    || (exists suffix :: suffix in ARCHIVE_SUFFIXES && EndsWith(ToLower(name), suffix))
    || (exists pair :: pair in TRANSIENT_SUFFIXES && EndsWith(ToLower(name), pair.0))
  }

  ghost predicate IsDiagnosticName(name: string) {
    exists suffix :: suffix in DENIED_DIAGNOSTIC_SUFFIXES && EndsWith(ToLower(name), suffix)
  }

  lemma TransientIff(name: string)
    ensures ReasonForTransientBasename(name).Some? <==> IsTransientName(name)
  {
    hide ToLower, EndsWith, TRANSIENT_EXACT_BASENAMES, ARCHIVE_SUFFIXES, TRANSIENT_SUFFIXES;
  }

  /**
   A path passes exactly when no component breaks a line, its name is not transient, its second component
   is not `logs`, and for the build cache below `zccache` no component is and a diagnostic name is below
   an artifacts directory.
   */
  lemma PassesIff(path: Path, profile: Profile)
    requires path != []
    ensures Passes(path, profile) <==>
            && (forall part :: part in path ==> '\n' !in part && '\r' !in part)
            && !IsTransientName(path[|path| - 1])
            && (|path| >= 2 ==> ToLower(path[1]) != "logs")
            && (profile.ZccacheBuildCache? && ToLower(path[0]) == "zccache" ==>
                  && (forall part :: part in path ==> ToLower(part) != "logs")
                  && (IsDiagnosticName(path[|path| - 1]) ==> IsBelowArtifacts(path)))
  {
    PassesByParts(path, profile);
    TransientIff(path[|path| - 1]);
    StoreRuleIff(path);
    UnsafeIff(path);
    assert LowerParts(path)[0] == ToLower(path[0]) && (|path| >= 2 ==> LowerParts(path)[1] == ToLower(path[1]));
    hide ToLower, LowerParts, IsTransientName, ReasonForTransientBasename, Passes, HasManifestUnsafeName, StoreRule, EndsWithAny,
      IsZccacheArtifactPayloadPath, DENIED_DIAGNOSTIC_SUFFIXES, IsDiagnosticName, IsBelowArtifacts;
  }

  /** What the build-cache profile asks of a path below `zccache`. */
  predicate StoreRule(path: Path)
    requires path != []
  {
    var parts := LowerParts(path);
    LOGS !in parts && (EndsWithAny(parts[|parts| - 1], DENIED_DIAGNOSTIC_SUFFIXES) ==> IsZccacheArtifactPayloadPath(path))
  }

  lemma StoreRuleIff(path: Path)
    requires path != []
    ensures StoreRule(path) <==>
            && (forall part :: part in path ==> ToLower(part) != "logs")
            && (IsDiagnosticName(path[|path| - 1]) ==> IsBelowArtifacts(path))
  {
    ArtifactIff(path);
    LogsIff(path);
    assert LowerParts(path)[|path| - 1] == ToLower(path[|path| - 1]);
    hide ToLower, LowerParts, EndsWith, IsBelowArtifacts, IsZccacheArtifactPayloadPath, DENIED_DIAGNOSTIC_SUFFIXES;
  }

  lemma PassesByParts(path: Path, profile: Profile)
    requires path != []
    ensures var parts := LowerParts(path);
            Passes(path, profile) <==>
            && !HasManifestUnsafeName(path) && ReasonForTransientBasename(path[|path| - 1]).None?
            && (|parts| >= 2 ==> parts[1] != LOGS)
            && (profile.ZccacheBuildCache? && parts[0] == ZCCACHE ==> StoreRule(path))
  {
    hide ToLower, LowerParts, HasManifestUnsafeName, ReasonForTransientBasename, IsZccacheArtifactPayloadPath, EndsWithAny,
      LOGS, ZCCACHE;
  }

  lemma UnsafeIff(path: Path)
    ensures HasManifestUnsafeName(path) <==> exists part :: part in path && ('\n' in part || '\r' in part)
  {
  }

  lemma LogsIff(path: Path)
    ensures LOGS in LowerParts(path) <==> exists part :: part in path && ToLower(part) == "logs"
  {
    hide ToLower;
    var parts := LowerParts(path);
    if LOGS in parts {
      var i :| 0 <= i < |parts| && parts[i] == LOGS;
      assert path[i] in path;
    }
    if part :| part in path && ToLower(part) == "logs" {
      var i :| 0 <= i < |path| && path[i] == part;
      assert parts[i] == LOGS;
    }
  }

  /** So a diagnostic file of the store itself is refused, and the same name below artifacts is not. */
  lemma DiagnosticsStayBehind(name: string)
    requires IsDiagnosticName(name) && !IsTransientName(name) && '\n' !in name && '\r' !in name && ToLower(name) != "logs"
    ensures !Passes(["zccache", name], ZccacheBuildCache)
    ensures Passes(["zccache", "artifacts", name], ZccacheBuildCache)
  {
    LowerNames();
    NotBelow(name);
    BelowArtifacts(name);
    hide IsDiagnosticName, IsTransientName, IsBelowArtifacts, ToLower;
    PassesIff(["zccache", name], ZccacheBuildCache);
    PassesIff(["zccache", "artifacts", name], ZccacheBuildCache);
  }

  lemma LowerNames()
    ensures ToLower("zccache") == "zccache" && ToLower("artifacts") == "artifacts"
    ensures '\n' !in "zccache" && '\r' !in "zccache" && '\n' !in "artifacts" && '\r' !in "artifacts"
    ensures "zccache" != "logs" && "artifacts" != "logs"
  {
    assert |"zccache"| != |"logs"| && |"artifacts"| != |"logs"|;
  }

  lemma BelowArtifacts(name: string)
    ensures IsBelowArtifacts(["zccache", "artifacts", name])
  {
    LowerNames();
    hide ToLower;
    var parts := LowerParts(["zccache", "artifacts", name]);
    assert parts[0] == "zccache" && parts[1] == "artifacts";
    assert parts[..2] == ["zccache", "artifacts"];
  }

  /** No diagnostic suffix ends in an `s`. */
  lemma DiagnosticIsNotArtifacts(name: string)
    requires IsDiagnosticName(name)
    ensures ToLower(name) != "artifacts"
  {
    var lower := ToLower(name);
    hide ToLower;
    var suffix :| suffix in DENIED_DIAGNOSTIC_SUFFIXES && EndsWith(lower, suffix);
    assert suffix != "" && suffix[|suffix| - 1] != 's';
    assert lower[|lower| - 1] == suffix[|suffix| - 1];
    assert "artifacts"[|"artifacts"| - 1] == 's';
  }

  lemma StartsWithTwo(a: string, b: string, parts: Path)
    ensures [a, b] <= parts ==> |parts| >= 2 && parts[0] == a && parts[1] == b
  {
  }

  lemma NotBelow(name: string)
    requires IsDiagnosticName(name)
    ensures !IsBelowArtifacts(["zccache", name])
  {
    DiagnosticIsNotArtifacts(name);
    var parts := LowerParts(["zccache", name]);
    assert parts[1] == ToLower(name);
    hide ToLower, IsDiagnosticName, LowerParts;
    StartsWithTwo("zccache", "artifacts", parts);
  }

  // ---- Reasons ----

  /** The suffixes of a class. */
  ghost predicate EndsAsClass(s: string, reason: Reason) {
    match reason
    case ArchiveFile => EndsWithAny(s, [".tar", ".tar.zst", ".tar.gz", ".tgz", ".zip", ".zst.tmp"])
    case SocketPath => EndsWith(s, ".sock") || EndsWith(s, ".socket")
    case PidFile => EndsWith(s, ".pid")
    case LockFile => EndsWith(s, ".lock") || EndsWith(s, ".lck")
    case TempFile => EndsWith(s, ".tmp") || EndsWith(s, ".temp") || EndsWith(s, ".part") || EndsWith(s, ".partial")
    case _ => false
  }

  predicate IsMutex(s: string) { s in {".package-cache", ".package-cache-mutate"} || IsPidMutex(s) }

  predicate IsPidMutex(s: string) { s in {"zccache.pid", "sccache.pid"} }

  /** The class of a transient name; a mutex is no pid file, and a half-written archive no temporary file. */
  ghost predicate IsOfClass(name: string, reason: Reason) {
    var s := ToLower(name);
    match reason
    case CargoMutex => IsMutex(s)
    case PidFile => EndsAsClass(s, PidFile) && !IsPidMutex(s)
    case TempFile => EndsAsClass(s, TempFile) && !EndsWith(s, ".zst.tmp")
    case _ => EndsAsClass(s, reason)
  }

  /** The `k`-th character from the end, counted from one. */
  function FromEnd(s: string, k: nat): char
    requires k > 0
  {
    if k <= |s| then s[|s| - k] else ' '
  }

  lemma EndsAlike(s: string, suffix: string, k: nat)
    requires 0 < k <= |suffix| && EndsWith(s, suffix)
    ensures FromEnd(s, k) == FromEnd(suffix, k)
  {
  }

  /** The class its last characters would give a name. */
  function ClassOfEnd(s: string): Reason {
    if FromEnd(s, 1) == 'k' then (if FromEnd(s, 4) == 's' then SocketPath else LockFile)
    else if FromEnd(s, 1) == 't' && FromEnd(s, 2) == 'e' then SocketPath
    else if FromEnd(s, 1) == 'd' then PidFile
    else TempFile
  }

  lemma SuffixTellsClass(s: string, pair: (string, Reason))
    requires pair in TRANSIENT_SUFFIXES && EndsWith(s, pair.0)
    ensures pair.1 == ClassOfEnd(s) && FromEnd(s, 1) in {'k', 't', 'd', 'p', 'l'}
    ensures FromEnd(s, 1) == 't' ==> FromEnd(s, 2) in {'e', 'r'}
    ensures FromEnd(s, 1) == 'd' ==> pair.1 == PidFile
    ensures FromEnd(s, 1) == 'p' ==> FromEnd(s, 2) == 'm'
  {
    EndsAlike(s, pair.0, 1);
    EndsAlike(s, pair.0, 2);
    EndsAlike(s, pair.0, 3);
    EndsAlike(s, pair.0, 4);
    hide EndsWith;
  }

  ghost predicate HasSuffixOf(s: string, list: seq<(string, Reason)>, reason: Reason) {
    exists k :: 0 <= k < |list| && list[k].1 == reason && EndsWith(s, list[k].0)
  }

  lemma {:induction false} FirstSuffixIff(s: string, list: seq<(string, Reason)>, reason: Reason)
    requires forall pair :: pair in list && EndsWith(s, pair.0) ==> pair.1 == ClassOfEnd(s)
    ensures FirstSuffixReason(s, list) == Some(reason) <==> HasSuffixOf(s, list, reason)
  {
    hide EndsWith, ClassOfEnd;
    if list != [] {
      var rest := list[1..];
      forall pair | pair in rest ensures pair in list {
      }
      FirstSuffixIff(s, rest, reason);
      assert list[0] in list;
      if HasSuffixOf(s, rest, reason) {
        var k :| 0 <= k < |rest| && rest[k].1 == reason && EndsWith(s, rest[k].0);
        assert list[k + 1] == rest[k];
      }
      if k :| 0 < k < |list| && list[k].1 == reason && EndsWith(s, list[k].0) {
        assert rest[k - 1] == list[k];
      }
    }
  }

  lemma ArchiveEnds(s: string, suffix: string)
    requires suffix in ARCHIVE_SUFFIXES && EndsWith(s, suffix)
    ensures FromEnd(s, 1) in {'r', 't', 'z', 'p'} && (FromEnd(s, 1) == 't' ==> FromEnd(s, 2) == 's')
    ensures FromEnd(s, 1) == 'p' && FromEnd(s, 2) == 'm' ==> suffix == ".zst.tmp"
  {
    EndsAlike(s, suffix, 1);
    EndsAlike(s, suffix, 2);
    hide EndsWith;
  }

  lemma ExactEnds(s: string)
    requires s in TRANSIENT_EXACT_BASENAMES
    ensures FromEnd(s, 1) in {'e', 'd'} && (FromEnd(s, 1) == 'd' <==> IsPidMutex(s))
  {
  }

  lemma TestsExclude(s: string, pair: (string, Reason))
    requires pair in TRANSIENT_SUFFIXES && EndsWith(s, pair.0)
    ensures s in TRANSIENT_EXACT_BASENAMES ==> pair.1 == PidFile && IsPidMutex(s)
    ensures EndsWithAny(s, ARCHIVE_SUFFIXES) ==> pair.1 == TempFile && EndsWith(s, ".zst.tmp")
  {
    SuffixTellsClass(s, pair);
    if s in TRANSIENT_EXACT_BASENAMES {
      ExactEnds(s);
    }
    if EndsWithAny(s, ARCHIVE_SUFFIXES) {
      hide EndsWith, FromEnd;
      var suffix :| suffix in ARCHIVE_SUFFIXES && EndsWith(s, suffix);
      ArchiveEnds(s, suffix);
    }
  }

  lemma ExactIsNoArchive(s: string)
    requires s in TRANSIENT_EXACT_BASENAMES
    ensures !EndsWithAny(s, ARCHIVE_SUFFIXES)
  {
    hide EndsWith, FromEnd;
    ExactEnds(s);
    forall suffix | suffix in ARCHIVE_SUFFIXES
      ensures !EndsWith(s, suffix)
    {
      if EndsWith(s, suffix) {
        ArchiveEnds(s, suffix);
      }
    }
  }

  lemma SuffixesOfClass(s: string, reason: Reason)
    requires !reason.ArchiveFile?
    ensures HasSuffixOf(s, TRANSIENT_SUFFIXES, reason) <==> EndsAsClass(s, reason)
  {
    hide EndsWith;
    var t := TRANSIENT_SUFFIXES;
    assert t[0].1 == t[1].1 == SocketPath && t[2].1 == PidFile && t[3].1 == t[4].1 == LockFile;
    assert t[5].1 == t[6].1 == t[7].1 == t[8].1 == TempFile;
  }

  /** The three tests of a name exclude one another but for the two pid mutexes and the half-written archives. */
  lemma TestsOverlap(s: string, reason: Reason)
    requires HasSuffixOf(s, TRANSIENT_SUFFIXES, reason)
    ensures s in TRANSIENT_EXACT_BASENAMES ==> reason == PidFile && IsPidMutex(s)
    ensures EndsWithAny(s, ARCHIVE_SUFFIXES) ==> reason == TempFile && EndsWith(s, ".zst.tmp")
  {
    hide EndsWith, EndsWithAny, TRANSIENT_SUFFIXES, TRANSIENT_EXACT_BASENAMES;
    var k :| 0 <= k < |TRANSIENT_SUFFIXES| && TRANSIENT_SUFFIXES[k].1 == reason && EndsWith(s, TRANSIENT_SUFFIXES[k].0);
    TestsExclude(s, TRANSIENT_SUFFIXES[k]);
  }

  lemma SuffixReasonIff(s: string, reason: Reason)
    ensures FirstSuffixReason(s, TRANSIENT_SUFFIXES) == Some(reason) <==> HasSuffixOf(s, TRANSIENT_SUFFIXES, reason)
  {
    forall pair | pair in TRANSIENT_SUFFIXES && EndsWith(s, pair.0)
      ensures pair.1 == ClassOfEnd(s)
    {
      SuffixTellsClass(s, pair);
    }
    hide EndsWith, ClassOfEnd, HasSuffixOf, FirstSuffixReason, TRANSIENT_SUFFIXES;
    FirstSuffixIff(s, TRANSIENT_SUFFIXES, reason);
  }

  lemma ZstTmpIsArchive(s: string)
    requires EndsWith(s, ".zst.tmp")
    ensures EndsWithAny(s, ARCHIVE_SUFFIXES)
  {
    hide EndsWith;
    assert ARCHIVE_SUFFIXES[5] == ".zst.tmp" && ARCHIVE_SUFFIXES[5] in ARCHIVE_SUFFIXES;
  }

  lemma SuffixesAreOther(s: string)
    ensures !HasSuffixOf(s, TRANSIENT_SUFFIXES, ArchiveFile) && !HasSuffixOf(s, TRANSIENT_SUFFIXES, CargoMutex)
  {
    hide EndsWith;
  }

  lemma MutexIff(s: string)
    ensures s in TRANSIENT_EXACT_BASENAMES <==> IsMutex(s)
    ensures IsPidMutex(s) ==> IsMutex(s)
  {
    var t := TRANSIENT_EXACT_BASENAMES;
    assert t[0] in t && t[1] in t && t[2] in t && t[3] in t;
  }

  lemma ArchiveClass(s: string)
    ensures EndsAsClass(s, ArchiveFile) <==> EndsWithAny(s, ARCHIVE_SUFFIXES)
  {
    hide EndsWith;
  }

  lemma ClassIff(name: string, reason: Reason)
    ensures ReasonForTransientBasename(name) == Some(reason) <==> IsOfClass(name, reason)
  {
    var s := ToLower(name);
    ArchiveClass(s);
    hide ToLower, EndsWith, FirstSuffixReason, EndsWithAny, EndsAsClass, HasSuffixOf, IsMutex, IsPidMutex,
      TRANSIENT_SUFFIXES, ARCHIVE_SUFFIXES, TRANSIENT_EXACT_BASENAMES;
    MutexIff(s);
    SuffixesAreOther(s);
    SuffixReasonIff(s, reason);
    if s in TRANSIENT_EXACT_BASENAMES {
      ExactIsNoArchive(s);
    }
    if EndsWith(s, ".zst.tmp") {
      ZstTmpIsArchive(s);
    }
    if HasSuffixOf(s, TRANSIENT_SUFFIXES, reason) {
      TestsOverlap(s, reason);
    }
    if !reason.ArchiveFile? {
      SuffixesOfClass(s, reason);
    }
  }

  ghost predicate IsInLogs(path: Path, profile: Profile)
    requires path != []
  {
    || (|path| >= 2 && ToLower(path[1]) == "logs")
    || (profile.ZccacheBuildCache? && ToLower(path[0]) == "zccache" && exists part :: part in path && ToLower(part) == "logs")
  }

  /** The one reason for which a path is turned away, read off its components. */
  ghost predicate IsRefusedFor(path: Path, profile: Profile, reason: Reason)
    requires path != []
  {
    var name := path[|path| - 1];
    if exists part :: part in path && ('\n' in part || '\r' in part) then reason == UnsupportedName
    else if IsTransientName(name) then IsOfClass(name, reason)
    else if IsInLogs(path, profile) then reason == LogDirectory
    else
      && reason == LogFile && profile.ZccacheBuildCache? && ToLower(path[0]) == "zccache"
      && IsDiagnosticName(name) && !IsBelowArtifacts(path)
  }

  lemma LogReasonIff(path: Path, profile: Profile, reason: Reason)
    requires path != []
    ensures ReasonForTransientPath(path, profile) == Some(reason) <==>
            if IsInLogs(path, profile) then reason == LogDirectory
            else
              && reason == LogFile && profile.ZccacheBuildCache? && ToLower(path[0]) == "zccache"
              && IsDiagnosticName(path[|path| - 1]) && !IsBelowArtifacts(path)
  {
    ArtifactIff(path);
    LogsIff(path);
    var parts := LowerParts(path);
    assert parts[0] == ToLower(path[0]) && (|path| >= 2 ==> parts[1] == ToLower(path[1]));
    assert parts[|parts| - 1] == ToLower(path[|path| - 1]);
    hide ToLower, LowerParts, IsZccacheArtifactPayloadPath, IsBelowArtifacts, EndsWith, DENIED_DIAGNOSTIC_SUFFIXES;
  }

  lemma RefusalIff(path: Path, profile: Profile, reason: Reason)
    requires path != []
    ensures Refusal(path, profile) == Some(reason) <==> IsRefusedFor(path, profile, reason)
  {
    UnsafeIff(path);
    LogReasonIff(path, profile, reason);
    TransientIff(path[|path| - 1]);
    ClassIff(path[|path| - 1], reason);
    hide ToLower, IsTransientName, ReasonForTransientBasename, HasManifestUnsafeName, ReasonForTransientPath,
      IsBelowArtifacts, IsOfClass, IsDiagnosticName, IsInLogs;
  }

  /** What the walk leaves out once a path has passed: what it cannot look at, and special files. */
  predicate IsLeftOutFor(tree: Tree, reason: Reason) {
    match reason
    case Vanished => tree == Unreachable(true) || tree == Unlistable(true) || tree == Special(Vanished)
    case Inaccessible => tree == Unreachable(false) || tree == Unlistable(false) || tree == Special(Inaccessible)
    case _ => tree == Special(reason)
  }

  /** With `PayloadCensus.PlanExactly`: which reached nodes a plan skips, and under which reason. */
  lemma SkipIff(tree: Tree, path: Path, profile: Profile, reason: Reason)
    requires path != []
    ensures OwnEvent(tree, path, profile) == SkipEvent(path, reason) <==>
            IsRefusedFor(path, profile, reason) || (Passes(path, profile) && IsLeftOutFor(tree, reason))
  {
    RefusalIff(path, profile, reason);
    hide Refusal, IsRefusedFor, VisitsAll, TotalsOf;
  }

  // ---- Where inputs lead ----

  /** What is archived lies below one of the inputs, and no input leads out of the parent directory. */
  lemma ArchivedStaysInside(names: seq<string>, disk: Disk, path: Path, profile: Profile)
    requires IsArchived(names, disk, path, profile)
    ensures path != [] && path[0] in names
    ensures path[0] != "." && path[0] != ".." && '/' !in path[0] && '\\' !in path[0]
  {
    hide NodeAt, Passes;
  }

  ghost predicate AllWhite(s: string) { forall i :: 0 <= i < |s| ==> IsWhitespace(s[i]) }

  lemma {:induction false} TrimStartCuts(s: string) returns (a: nat)
    ensures a <= |s| && TrimStart(s) == s[a..] && AllWhite(s[..a])
    ensures TrimStart(s) != "" ==> !IsWhitespace(TrimStart(s)[0])
  {
    hide IsWhitespace;
    a := 0;
    if s != "" && IsWhitespace(s[0]) {
      var b := TrimStartCuts(s[1..]);
      a := b + 1;
      OneMoreWhite(s, b);
    }
  }

  lemma OneMoreWhite(s: string, b: nat)
    requires b < |s| && IsWhitespace(s[0]) && AllWhite(s[1..][..b])
    ensures AllWhite(s[..b + 1]) && s[1..][b..] == s[b + 1..]
  {
    hide IsWhitespace;
    var front, back := s[..b + 1], s[1..][..b];
    forall i | 0 <= i < |front|
      ensures IsWhitespace(front[i])
    {
      assert i > 0 ==> front[i] == back[i - 1];
    }
  }

  lemma OneMoreWhiteAtEnd(s: string, b: nat)
    requires b < |s| && IsWhitespace(s[|s| - 1]) && AllWhite(s[..|s| - 1][b..])
    ensures AllWhite(s[b..]) && s[..|s| - 1][..b] == s[..b]
  {
    hide IsWhitespace;
    var back, shorter := s[b..], s[..|s| - 1][b..];
    forall i | 0 <= i < |back|
      ensures IsWhitespace(back[i])
    {
      assert i < |shorter| ==> back[i] == shorter[i];
    }
  }

  lemma {:induction false} TrimEndCuts(s: string) returns (b: nat)
    ensures b <= |s| && TrimEnd(s) == s[..b] && AllWhite(s[b..])
    ensures TrimEnd(s) != "" ==> !IsWhitespace(TrimEnd(s)[b - 1])
  {
    hide IsWhitespace;
    if s != "" && IsWhitespace(s[|s| - 1]) {
      b := TrimEndCuts(s[..|s| - 1]);
      OneMoreWhiteAtEnd(s, b);
    } else {
      b := |s|;
    }
  }

  /** Trimming cuts all white space at both ends and nothing else. */
  lemma TrimCuts(s: string) returns (a: nat, b: nat)
    ensures a <= b <= |s| && Trim(s) == s[a..b] && AllWhite(s[..a]) && AllWhite(s[b..])
    ensures a < b ==> !IsWhitespace(s[a]) && !IsWhitespace(s[b - 1])
  {
    hide IsWhitespace;
    a := TrimStartCuts(s);
    var k := TrimEndCuts(s[a..]);
    b := a + k;
    assert s[a..][..k] == s[a..b] && s[a..][k..] == s[b..];
  }

  /** The inputs are the trimmed names that are not blank, none twice. */
  lemma {:induction false} DistinctIff(raw: seq<string>, name: string)
    ensures name in Distinct(raw) <==> name != "" && exists k :: 0 <= k < |raw| && Trim(raw[k]) == name
  {
    hide Trim;
    if raw != [] {
      var front := raw[..|raw| - 1];
      DistinctIff(front, name);
      if k :| 0 <= k < |raw| && Trim(raw[k]) == name {
        assert k < |front| ==> front[k] == raw[k];
      }
      if k :| 0 <= k < |front| && Trim(front[k]) == name {
        assert raw[k] == front[k];
      }
      assert raw[|raw| - 1] == raw[|raw| - 1];
    }
  }
}
