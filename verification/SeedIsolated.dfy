/** Seeding an isolated store: which files of a restored build cache are copied into it. */
module SeedIsolated {
  import opened Common
  import opened CachePayload
  import opened PayloadCensus

  const TRANSIENT_SEED_SUFFIXES: seq<string> := [".lock", ".lck", ".sock", ".pid", ".tmp", ".temp", ".part", ".partial"]

  predicate ShouldSeedBuildCacheEntry(path: Path)
    requires path != []
  {
    var parts := LowerParts(path);
    var basename := parts[|parts| - 1];
    LOGS !in parts &&
    !EndsWithAny(basename, TRANSIENT_SEED_SUFFIXES) &&
    (IsZccacheArtifactPayloadPath(path) || !EndsWithAny(basename, DENIED_DIAGNOSTIC_SUFFIXES))
  }

  // ---- Saved files are seeded ----

  lemma SeedSuffixesAreTransient(name: string)
    ensures EndsWithAny(ToLower(name), TRANSIENT_SEED_SUFFIXES) ==> ReasonForTransientBasename(name).Some?
  {
    var lower := ToLower(name);
    hide ToLower, EndsWith;
    if EndsWithAny(lower, TRANSIENT_SEED_SUFFIXES) {
      var suffix :| suffix in TRANSIENT_SEED_SUFFIXES && EndsWith(lower, suffix);
      SeedSuffixIsListed(suffix);
    }
  }

  lemma SeedSuffixIsListed(suffix: string)
    requires suffix in TRANSIENT_SEED_SUFFIXES
    ensures exists pair :: pair in TRANSIENT_SUFFIXES && pair.0 == suffix
  {
    var all, seed := TRANSIENT_SUFFIXES, TRANSIENT_SEED_SUFFIXES;
    assert all[3].0 == seed[0] && all[4].0 == seed[1] && all[0].0 == seed[2] && all[2].0 == seed[3];
    assert all[5].0 == seed[4] && all[6].0 == seed[5] && all[7].0 == seed[6] && all[8].0 == seed[7];
  }

  /** Under a root named `zccache`, whatever the save filters keep, the seed filter keeps. */
  lemma SaveKeptIsSeedKept(path: Path)
    requires path != [] && ToLower(path[0]) == ZCCACHE
    requires Passes(path, ZccacheBuildCache)
    ensures ShouldSeedBuildCacheEntry(path)
  {
    hide EndsWithAny, ToLower, ReasonForTransientBasename, IsZccacheArtifactPayloadPath;
    SeedSuffixesAreTransient(path[|path| - 1]);
  }

  /** What the save filters turn away by basename and the seed filter does not. */
  predicate IsSavedNowhere(name: string) {
    var lower := ToLower(name);
    lower in TRANSIENT_EXACT_BASENAMES || EndsWithAny(lower, ARCHIVE_SUFFIXES) || EndsWith(lower, SOCKET)
  }

  const SOCKET: string := ".socket"

  lemma TransientIsSeedSuffixOrSocket(suffix: string)
    requires exists pair :: pair in TRANSIENT_SUFFIXES && pair.0 == suffix
    ensures suffix in TRANSIENT_SEED_SUFFIXES || suffix == SOCKET
  {
    var all, seed := TRANSIENT_SUFFIXES, TRANSIENT_SEED_SUFFIXES;
    assert all[3].0 == seed[0] && all[4].0 == seed[1] && all[0].0 == seed[2] && all[2].0 == seed[3];
    assert all[5].0 == seed[4] && all[6].0 == seed[5] && all[7].0 == seed[6] && all[8].0 == seed[7];
    assert all[1].0 == SOCKET;
  }

  lemma SocketIsTransient()
    ensures exists pair :: pair in TRANSIENT_SUFFIXES && pair.0 == SOCKET
  {
    assert TRANSIENT_SUFFIXES[1].0 == SOCKET && TRANSIENT_SUFFIXES[1] in TRANSIENT_SUFFIXES;
  }

  /** A basename without a seed suffix is transient exactly when it is one of these. */
  lemma TransientUnlessSeedSuffix(name: string)
    requires !EndsWithAny(ToLower(name), TRANSIENT_SEED_SUFFIXES)
    ensures ReasonForTransientBasename(name).Some? <==> IsSavedNowhere(name)
  {
    var lower := ToLower(name);
    hide ToLower, EndsWith, TRANSIENT_SEED_SUFFIXES, TRANSIENT_SUFFIXES, ARCHIVE_SUFFIXES, TRANSIENT_EXACT_BASENAMES, SOCKET;
    SocketIsTransient();
    if pair :| pair in TRANSIENT_SUFFIXES && EndsWith(lower, pair.0) {
      TransientIsSeedSuffixOrSocket(pair.0);
    }
  }

  /** A path the seed filter keeps is refused by the save filters exactly for such a basename. */
  lemma SeedKeptIsSaveRefusedIff(path: Path)
    requires path != [] && ToLower(path[0]) == ZCCACHE && !HasManifestUnsafeName(path)
    requires ShouldSeedBuildCacheEntry(path)
    ensures !Passes(path, ZccacheBuildCache) <==> IsSavedNowhere(path[|path| - 1])
  {
    hide EndsWithAny, ToLower, ReasonForTransientBasename, IsZccacheArtifactPayloadPath, IsSavedNowhere;
    TransientUnlessSeedSuffix(path[|path| - 1]);
    assert LowerParts(path)[|path| - 1] == ToLower(path[|path| - 1]);
  }

  /** Somewhere along a path the save walk stops: at a transient name, or a diagnostic one outside artifacts. */
  predicate StopsSaveWalk(path: Path, n: nat)
    requires 0 < n <= |path|
  {
    ReasonForTransientBasename(path[n - 1]).Some? ||
    (!IsZccacheArtifactPayloadPath(path[..n]) && EndsWithAny(ToLower(path[n - 1]), DENIED_DIAGNOSTIC_SUFFIXES))
  }

  /** And a seed-kept file is left out of the archive exactly when the walk stops at it or at a directory above. */
  lemma SeedKeptIsNotArchivedIff(path: Path)
    requires path != [] && ToLower(path[0]) == ZCCACHE && !HasManifestUnsafeName(path)
    requires ShouldSeedBuildCacheEntry(path)
    ensures !PrefixesPass(path, |path|, ZccacheBuildCache) <==> exists n: nat :: 0 < n <= |path| && StopsSaveWalk(path, n)
  {
    hide EndsWithAny, ToLower, ReasonForTransientBasename, IsZccacheArtifactPayloadPath;
    forall n | 1 <= n <= |path|
      ensures Passes(path[..n], ZccacheBuildCache) <==> !StopsSaveWalk(path, n)
    {
      PrefixOfSeedKept(path, n);
    }
  }

  lemma PrefixOfSeedKept(path: Path, n: nat)
    requires 0 < n <= |path| && ToLower(path[0]) == ZCCACHE && !HasManifestUnsafeName(path) && LOGS !in LowerParts(path)
    ensures Passes(path[..n], ZccacheBuildCache) <==> !StopsSaveWalk(path, n)
  {
    hide EndsWithAny, ToLower, ReasonForTransientBasename, IsZccacheArtifactPayloadPath, LOGS, ZCCACHE;
    var front := path[..n];
    forall i | 0 <= i < n
      ensures LowerParts(front)[i] == LowerParts(path)[i] != LOGS
    {
      assert LowerParts(path)[i] in LowerParts(path);
    }
    assert !HasManifestUnsafeName(front);
  }

  ghost predicate SeedsWhateverIsSaved(root: string) {
    forall path :: path != [] && path[0] == root && PrefixesPass(path, |path|, ZccacheBuildCache) ==>
      ShouldSeedBuildCacheEntry(path)
  }

  /** The agreement holds exactly for a root spelled `zccache`, and trivially for a root that saves nothing. */
  lemma AgreementNeedsZccacheRoot(root: string)
    ensures SeedsWhateverIsSaved(root) <==> ToLower(root) == ZCCACHE || !Passes([root], ZccacheBuildCache)
  {
    hide Refusal, ShouldSeedBuildCacheEntry, ZCCACHE;
    if ToLower(root) == ZCCACHE {
      forall path | path != [] && path[0] == root && PrefixesPass(path, |path|, ZccacheBuildCache)
        ensures ShouldSeedBuildCacheEntry(path)
      {
        assert path[..|path|] == path;
        SaveKeptIsSeedKept(path);
      }
    } else if Passes([root], ZccacheBuildCache) {
      var path := [root, LOG_FILE];
      LogIsSavedNotSeeded(root);
      assert path[..1] == [root] && path[..2] == path;
      assert PrefixesPass(path, |path|, ZccacheBuildCache);
    } else {
      forall path | path != [] && path[0] == root
        ensures !PrefixesPass(path, |path|, ZccacheBuildCache)
      {
        assert path[..1] == [root];
      }
    }
  }

  const LOG_FILE: string := "x.log"

  lemma LogIsSavedNotSeeded(root: string)
    requires ToLower(root) != ZCCACHE && Passes([root], ZccacheBuildCache)
    ensures Passes([root, LOG_FILE], ZccacheBuildCache) && !ShouldSeedBuildCacheEntry([root, LOG_FILE])
  {
    var path := [root, LOG_FILE];
    LogName();
    LogIsDenied();
    hide LOG_FILE, LOGS, ZCCACHE, ToLower, EndsWithAny, ReasonForTransientBasename;
    assert root in [root];
    assert LowerParts(path)[1] == ToLower(LOG_FILE) && LowerParts(path)[0] == ToLower(root);
    assert !HasManifestUnsafeName(path);
  }

  lemma LogIsDenied()
    ensures EndsWithAny(LOG_FILE, DENIED_DIAGNOSTIC_SUFFIXES)
  {
    var suffix := DENIED_DIAGNOSTIC_SUFFIXES[1];
    assert EndsWith(LOG_FILE, suffix);
  }

  lemma LastCharacter(s: string, suffix: string)
    requires s != "" && suffix != ""
    ensures EndsWith(s, suffix) ==> s[|s| - 1] == suffix[|suffix| - 1]
  {
    if EndsWith(s, suffix) {
      assert s[|s| - |suffix|..][|suffix| - 1] == s[|s| - 1];
    }
  }

  predicate EndsInG(s: string) { s != "" && s[|s| - 1] == 'g' }

  lemma NoSuffixOf(s: string, suffix: string)
    requires EndsInG(s) && suffix != "" && !EndsInG(suffix)
    ensures !EndsWith(s, suffix)
  {
    LastCharacter(s, suffix);
  }

  lemma NoArchiveEndsInG(s: string)
    requires EndsInG(s)
    ensures !EndsWithAny(s, ARCHIVE_SUFFIXES)
  {
    assert forall suffix :: suffix in ARCHIVE_SUFFIXES ==> suffix != "" && !EndsInG(suffix);
    hide ARCHIVE_SUFFIXES, EndsWith, EndsInG;
    forall suffix | suffix in ARCHIVE_SUFFIXES
      ensures !EndsWith(s, suffix)
    {
      NoSuffixOf(s, suffix);
    }
  }

  lemma NoTransientEndsInG(s: string)
    requires EndsInG(s)
    ensures FirstSuffixReason(s, TRANSIENT_SUFFIXES).None?
  {
    assert forall pair :: pair in TRANSIENT_SUFFIXES ==> pair.0 != "" && !EndsInG(pair.0);
    hide TRANSIENT_SUFFIXES, EndsWith, EndsInG;
    forall pair | pair in TRANSIENT_SUFFIXES
      ensures !EndsWith(s, pair.0)
    {
      NoSuffixOf(s, pair.0);
    }
  }

  lemma NotAnExactName()
    ensures LOG_FILE !in TRANSIENT_EXACT_BASENAMES
  {
    assert forall name :: name in TRANSIENT_EXACT_BASENAMES ==> |name| != 5;
  }

  lemma LogNameIsLower()
    ensures ToLower(LOG_FILE) == LOG_FILE && EndsInG(LOG_FILE)
    ensures '\n' !in LOG_FILE && '\r' !in LOG_FILE && LOG_FILE != LOGS
  {
  }

  lemma LogName()
    ensures ToLower(LOG_FILE) == LOG_FILE && ReasonForTransientBasename(LOG_FILE).None?
    ensures '\n' !in LOG_FILE && '\r' !in LOG_FILE && LOG_FILE != LOGS
  {
    hide LOG_FILE, ToLower, FirstSuffixReason, EndsWithAny, TRANSIENT_EXACT_BASENAMES, TRANSIENT_SUFFIXES, ARCHIVE_SUFFIXES;
    LogNameIsLower();
    NotAnExactName();
    NoArchiveEndsInG(LOG_FILE);
    NoTransientEndsInG(LOG_FILE);
  }

  // ---- The copy ----

  datatype Copy = Copy(path: Path, size: nat)

  /** The files copied from a tree; `failing` are the paths whose copy throws. */
  function Seeds(tree: Tree, path: Path, failing: set<Path>): seq<Copy>
    requires path != []
    decreases tree, 1
  {
    match tree
    case Directory(children) => SeedsAll(children, path, failing)
    case File(size) => if ShouldSeedBuildCacheEntry(path) && path !in failing then [Copy(path, size)] else []
    case _ => []
  }

  function SeedsAll(children: seq<Child>, path: Path, failing: set<Path>): seq<Copy>
    requires path != []
    decreases children, 0
  {
    if children == [] then [] else
    var last := children[|children| - 1];
    SeedsAll(children[..|children| - 1], path, failing) + Seeds(last.tree, path + [last.name], failing)
  }

  function SumSizes(copies: seq<Copy>): nat {
    if copies == [] then 0 else SumSizes(copies[..|copies| - 1]) + copies[|copies| - 1].size
  }

  lemma SumSizesAppend(copies: seq<Copy>, c: Copy)
    ensures SumSizes(copies + [c]) == SumSizes(copies) + c.size
  {
    assert (copies + [c])[..|copies|] == copies;
  }

  lemma SeedsAllStep(children: seq<Child>, n: nat, path: Path, failing: set<Path>)
    requires n < |children| && path != []
    ensures SeedsAll(children[..n + 1], path, failing) ==
            SeedsAll(children[..n], path, failing) + Seeds(children[n].tree, path + [children[n].name], failing)
  {
    hide Seeds;
    assert children[..n + 1][..n] == children[..n];
  }

  /** The counters of one filtered copy, and the copies they count. */
  class TreeCopier {
    const failing: set<Path>
    var files: nat
    var bytes: nat
    var copied: seq<Copy>

    ghost predicate Valid()
      reads this
    {
      files == |copied| && bytes == SumSizes(copied)
    }

    constructor (failing: set<Path>)
      ensures Valid() && copied == [] && this.failing == failing
    {
      this.failing := failing;
      files, bytes, copied := 0, 0, [];
    }

    method CopyFile(path: Path, size: nat)
      requires Valid() && path != []
      modifies this
      ensures Valid() && copied == old(copied) + if path !in failing then [Copy(path, size)] else []
    {
      if path !in failing {
        SumSizesAppend(copied, Copy(path, size));
        copied := copied + [Copy(path, size)];
        files := files + 1;
        bytes := bytes + size;
      }
    }

    method CopyTreeFiltered(children: seq<Child>, path: Path)
      requires Valid() && path != []
      modifies this
      ensures Valid() && copied == old(copied) + SeedsAll(children, path, failing)
      decreases children
    {
      hide Valid, SeedsAll, ShouldSeedBuildCacheEntry;
      NoChildrenNoSeeds(path, failing);
      for n := 0 to |children|
        invariant Valid() && copied == old(copied) + SeedsAll(children[..n], path, failing)
      {
        SeedsAllStep(children, n, path, failing);
        var tree, below := children[n].tree, path + [children[n].name];
        if tree.Directory? {
          CopyTreeFiltered(tree.children, below);
          continue;
        }
        if !tree.File? { continue; }
        if !ShouldSeedBuildCacheEntry(below) { continue; }
        CopyFile(below, tree.size);
      }
      assert children[..|children|] == children;
    }
  }

  lemma NoChildrenNoSeeds(path: Path, failing: set<Path>)
    requires path != []
    ensures SeedsAll([], path, failing) == []
  {
  }

  /** A copy stands for a regular file at its path that the filter keeps and the copy did not fail on. */
  ghost predicate IsSeedOf(tree: Tree, base: Path, c: Copy, failing: set<Path>)
    requires base != []
  {
    base <= c.path && NodeAt(tree, c.path[|base|..]) == Some(File(c.size)) &&
    ShouldSeedBuildCacheEntry(c.path) && c.path !in failing
  }

  lemma {:induction false} SeedsExactly(tree: Tree, base: Path, c: Copy, failing: set<Path>)
    requires base != [] && IsFileTree(tree)
    ensures c in Seeds(tree, base, failing) <==> IsSeedOf(tree, base, c, failing)
    decreases tree, 1
  {
    hide ShouldSeedBuildCacheEntry, SeedsAll, ChildNamed;
    if c.path == base {
      assert c.path[|base|..] == [];
    }
    if base <= c.path && |c.path| == |base| {
      assert c.path == base;
    }
    if tree.Directory? {
      SeedsAllExactly(tree.children, base, c, failing);
      if base <= c.path && base != c.path {
        var rest := c.path[|base|..];
        assert rest[1..] == c.path[|base| + 1..];
      }
    }
  }

  lemma {:induction false} SeedsAllExactly(children: seq<Child>, base: Path, c: Copy, failing: set<Path>)
    requires base != [] && AreSiblings(children)
    ensures c in SeedsAll(children, base, failing) <==>
            |base| < |c.path| && base <= c.path &&
            ChildNamed(children, c.path[|base|]).Some? &&
            NodeAt(ChildNamed(children, c.path[|base|]).value, c.path[|base| + 1..]) == Some(File(c.size)) &&
            ShouldSeedBuildCacheEntry(c.path) && c.path !in failing
    decreases children, 0
  {
    hide Seeds, ShouldSeedBuildCacheEntry;
    if children != [] {
      var front, last := children[..|children| - 1], children[|children| - 1];
      SeedsAllExactly(front, base, c, failing);
      SeedsExactly(last.tree, base + [last.name], c, failing);
      OneComponentMore(base, last.name, c.path);
    }
  }

  /** Every regular file the save profile archives from a `zccache` tree is copied, unless its copy fails. */
  lemma EverySavedFileIsSeeded(tree: Tree, root: string, path: Path, size: nat, failing: set<Path>)
    requires IsFileTree(tree) && ToLower(root) == ZCCACHE && path !in failing
    requires FileEvent(path, size) in Visits(tree, [root], ZccacheBuildCache)
    ensures Copy(path, size) in Seeds(tree, [root], failing)
  {
    hide Refusal, ToLower, ZCCACHE, ShouldSeedBuildCacheEntry, Explains, Visits;
    var e := FileEvent(path, size);
    VisitsExactly(tree, [root], e, ZccacheBuildCache);
    ExplainsIff(tree, [root], e, ZccacheBuildCache);
    OwnFileEvent(NodeAt(tree, path[1..]).value, path, size);
    SaveKeptIsSeedKept(path);
    SeedsExactly(tree, [root], Copy(path, size), failing);
  }

  lemma OwnFileEvent(tree: Tree, path: Path, size: nat)
    requires path != [] && OwnEvent(tree, path, ZccacheBuildCache) == FileEvent(path, size)
    ensures tree == File(size) && Passes(path, ZccacheBuildCache)
  {
    hide Refusal;
  }

  /** No seeded path has a `logs` component, and none ends in a daemon or temp-file suffix. */
  lemma SeededPathsAreClean(tree: Tree, base: Path, c: Copy, failing: set<Path>)
    requires base != [] && IsFileTree(tree) && c in Seeds(tree, base, failing)
    ensures c.path != [] && LOGS !in LowerParts(c.path)
    ensures !EndsWithAny(ToLower(c.path[|c.path| - 1]), TRANSIENT_SEED_SUFFIXES)
  {
    hide Seeds, EndsWithAny, LOGS, ToLower, IsZccacheArtifactPayloadPath;
    SeedsExactly(tree, base, c, failing);
  }
}
