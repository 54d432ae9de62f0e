/**
 The tar payload plan: a filtered walk over the cache directories that decides which files and
 symlinks are archived, and the census of what it saw.
 */
module CachePayload {
  import opened Common

  type Path = seq<string>

  datatype Profile = Generic | ZccacheBuildCache

  datatype Reason =
    | UnsupportedName | UnsupportedInput
    | CargoMutex | ArchiveFile | SocketPath | PidFile | LockFile | TempFile
    | LogDirectory | LogFile
    | Vanished | Inaccessible
    | SpecialSocket | SpecialFifo | SpecialBlockDevice | SpecialCharacterDevice | UnsupportedFileType

  /** What `lstat` and `readdir` find; a directory's children are in the order the walk visits them. */
  datatype Tree =
    | File(size: nat)
    | Symlink
    | Special(kind: Reason)
    | Unreachable(gone: bool)
    | Unlistable(gone: bool)
    | Directory(children: seq<Child>)

  datatype Child = Child(name: string, tree: Tree)

  /** Path text, components joined by `/`. */
  function Text(path: Path): string {
    if path == [] then ""
    else if |path| == 1 then path[0]
    else path[0] + "/" + Text(path[1..])
  }

  // ---- Filters ----

  function LowerChar(c: char): char { if 'A' <= c <= 'Z' then c - 'A' + 'a' else c }

  function ToLower(s: string): (r: string)
    ensures |r| == |s|
  {
    seq(|s|, i requires 0 <= i < |s| => LowerChar(s[i]))
  }

  const TRANSIENT_EXACT_BASENAMES: seq<string> := [".package-cache", ".package-cache-mutate", "zccache.pid", "sccache.pid"]
  const ARCHIVE_SUFFIXES: seq<string> := [".tar", ".tar.zst", ".tar.gz", ".tgz", ".zip", ".zst.tmp"]
  const TRANSIENT_SUFFIXES: seq<(string, Reason)> := [
    (".sock", SocketPath), (".socket", SocketPath), (".pid", PidFile), (".lock", LockFile), (".lck", LockFile),
    (".tmp", TempFile), (".temp", TempFile), (".part", TempFile), (".partial", TempFile)]
  const DENIED_DIAGNOSTIC_SUFFIXES: seq<string> :=
    [".jsonl", ".log", ".trace", ".txt", ".out", ".err", ".stdout", ".stderr"]
  const ZCCACHE: string := "zccache"
  const ARTIFACTS: string := "artifacts"
  const PRIVATE: string := "private"
  const LOGS: string := "logs"

  predicate EndsWithAny(s: string, suffixes: seq<string>) {
    exists suffix :: suffix in suffixes && EndsWith(s, suffix)
  }

  /** The reason of the first suffix in the list that `s` ends with. */
  function FirstSuffixReason(s: string, suffixes: seq<(string, Reason)>): (r: Option<Reason>)
    ensures r.None? <==> forall pair :: pair in suffixes ==> !EndsWith(s, pair.0)
  {
    if suffixes == [] then None
    else if EndsWith(s, suffixes[0].0) then Some(suffixes[0].1)
    else FirstSuffixReason(s, suffixes[1..])
  }

  function ReasonForTransientBasename(name: string): Option<Reason> {
    var lower := ToLower(name);
    if lower in TRANSIENT_EXACT_BASENAMES then Some(CargoMutex)
    else if EndsWithAny(lower, ARCHIVE_SUFFIXES) then Some(ArchiveFile)
    else FirstSuffixReason(lower, TRANSIENT_SUFFIXES)
  }

  function LowerParts(path: Path): (r: Path)
    ensures |r| == |path|
  {
    seq(|path|, i requires 0 <= i < |path| => ToLower(path[i]))
  }

  // Inside `zccache/artifacts` or `zccache/private/<session>/artifacts`.
  predicate IsZccacheArtifactPayloadPath(path: Path) {
    var parts := LowerParts(path);
    |parts| > 0 && parts[0] == ZCCACHE && |parts| > 1 &&
    (parts[1] == ARTIFACTS || (parts[1] == PRIVATE && |parts| >= 4 && parts[3] == ARTIFACTS))
  }

  function ReasonForTransientPath(path: Path, profile: Profile): Option<Reason>
    requires path != []
  {
    var parts := LowerParts(path);
    if |parts| >= 2 && parts[1] == LOGS then Some(LogDirectory)
    else if profile.ZccacheBuildCache? && parts[0] == ZCCACHE then
      if LOGS in parts then Some(LogDirectory)
      else if !IsZccacheArtifactPayloadPath(path) && EndsWithAny(parts[|parts| - 1], DENIED_DIAGNOSTIC_SUFFIXES)
      then Some(LogFile)
      else None
    else None
  }

  predicate HasManifestUnsafeName(path: Path) {
    exists part :: part in path && ('\n' in part || '\r' in part)
  }

  /** Why the walk turns a path away before looking at what is there. */
  function Refusal(path: Path, profile: Profile): Option<Reason>
    requires path != []
  {
    if HasManifestUnsafeName(path) then Some(UnsupportedName)
    else
      var transient := ReasonForTransientBasename(path[|path| - 1]);
      if transient.Some? then transient else ReasonForTransientPath(path, profile)
  }

  predicate Passes(path: Path, profile: Profile)
    requires path != []
  {
    Refusal(path, profile).None?
  }

  function PayloadSubtreePath(path: Path, profile: Profile): Path
    requires path != []
  {
    if profile.ZccacheBuildCache? && path[0] == ZCCACHE then
      if |path| >= 3 && path[1] == PRIVATE then path[..3]
      else if |path| >= 3 then path[..2]
      else [ZCCACHE]
    else if |path| <= 2 then path[..1]
    else path[..2]
  }

  // ---- What the walk records ----

  /** One record per visited node, in the order the walk makes them. */
  datatype Event =
    | FileEvent(path: Path, size: nat)
    | LinkEvent(path: Path)
    | DirectoryEvent(path: Path, bytes: nat)
    | SkipEvent(path: Path, reason: Reason)

  datatype Totals = Totals(bytes: nat, files: nat, symlinks: nat, directories: nat)
  datatype Entry = Entry(path: string, bytes: nat)
  datatype Subtree = Subtree(path: Path, bytes: nat, files: nat)
  datatype SkipSummary = SkipSummary(reason: Reason, count: nat, samples: seq<string>)

  const NOTHING: Totals := Totals(0, 0, 0, 0)
  const MAX_SKIP_SAMPLES: nat := 8

  function Plus(a: Totals, b: Totals): Totals {
    Totals(a.bytes + b.bytes, a.files + b.files, a.symlinks + b.symlinks, a.directories + b.directories)
  }

  function TotalOf(e: Event): Totals {
    match e
    case FileEvent(_, size) => Totals(size, 1, 0, 0)
    case LinkEvent(_) => Totals(0, 0, 1, 0)
    case DirectoryEvent(_, _) => Totals(0, 0, 0, 1)
    case SkipEvent(_, _) => NOTHING
  }

  function TotalsOf(events: seq<Event>): Totals {
    if events == [] then NOTHING else Plus(TotalsOf(events[..|events| - 1]), TotalOf(events[|events| - 1]))
  }

  function ManifestOf(events: seq<Event>): seq<string> {
    if events == [] then [] else
    var last := events[|events| - 1];
    ManifestOf(events[..|events| - 1]) + if last.FileEvent? || last.LinkEvent? then [Text(last.path)] else []
  }

  function FilesOf(events: seq<Event>): seq<Entry> {
    if events == [] then [] else
    var last := events[|events| - 1];
    FilesOf(events[..|events| - 1]) + if last.FileEvent? then [Entry(Text(last.path), last.size)] else []
  }

  function DirectoriesOf(events: seq<Event>): seq<Entry> {
    if events == [] then [] else
    var last := events[|events| - 1];
    DirectoriesOf(events[..|events| - 1]) + if last.DirectoryEvent? then [Entry(Text(last.path), last.bytes)] else []
  }

  /** Adds one file to its group, a new group going last. */
  function AddToSubtree(groups: seq<Subtree>, path: Path, bytes: nat): seq<Subtree> {
    if groups == [] then [Subtree(path, bytes, 1)]
    else if groups[0].path == path then [Subtree(path, groups[0].bytes + bytes, groups[0].files + 1)] + groups[1..]
    else [groups[0]] + AddToSubtree(groups[1..], path, bytes)
  }

  function SubtreesOf(events: seq<Event>, profile: Profile): seq<Subtree>
    requires forall e :: e in events ==> e.path != []
  {
    if events == [] then [] else
    var last := events[|events| - 1];
    var groups := SubtreesOf(events[..|events| - 1], profile);
    if last.FileEvent? then AddToSubtree(groups, PayloadSubtreePath(last.path, profile), last.size) else groups
  }

  function AddSkipTo(skipped: seq<SkipSummary>, reason: Reason, sample: string): seq<SkipSummary> {
    if skipped == [] then [SkipSummary(reason, 1, [sample])]
    else if skipped[0].reason == reason then
      var samples := skipped[0].samples;
      [SkipSummary(reason, skipped[0].count + 1, if |samples| < MAX_SKIP_SAMPLES then samples + [sample] else samples)] +
      skipped[1..]
    else [skipped[0]] + AddSkipTo(skipped[1..], reason, sample)
  }

  function SkippedOf(events: seq<Event>): seq<SkipSummary> {
    if events == [] then [] else
    var last := events[|events| - 1];
    var skipped := SkippedOf(events[..|events| - 1]);
    if last.SkipEvent? then AddSkipTo(skipped, last.reason, Text(last.path)) else skipped
  }

  // ---- The walk ----

  function AccessReason(gone: bool): Reason { if gone then Vanished else Inaccessible }

  /** What an accepted path that is not a listable directory leaves behind. */
  function LeafEvent(tree: Tree, path: Path): Event
    requires !tree.Directory?
  {
    match tree
    case File(size) => FileEvent(path, size)
    case Symlink => LinkEvent(path)
    case Special(kind) => SkipEvent(path, kind)
    case Unreachable(gone) => SkipEvent(path, AccessReason(gone))
    case Unlistable(gone) => SkipEvent(path, AccessReason(gone))
  }

  function DirectoryEnd(path: Path, below: seq<Event>): Event { DirectoryEvent(path, TotalsOf(below).bytes) }

  function Visits(tree: Tree, path: Path, profile: Profile): seq<Event>
    requires path != []
    decreases tree, 1
  {
    var refusal := Refusal(path, profile);
    if refusal.Some? then [SkipEvent(path, refusal.value)]
    else if !tree.Directory? then [LeafEvent(tree, path)]
    else
      var below := VisitsAll(tree.children, path, profile);
      below + [DirectoryEnd(path, below)]
  }

  function VisitsAll(children: seq<Child>, path: Path, profile: Profile): seq<Event>
    requires path != []
    decreases children, 0
  {
    if children == [] then [] else
    var last := children[|children| - 1];
    VisitsAll(children[..|children| - 1], path, profile) + Visits(last.tree, path + [last.name], profile)
  }

  lemma PlusAssociates(a: Totals, b: Totals, c: Totals)
    ensures Plus(Plus(a, b), c) == Plus(a, Plus(b, c)) && Plus(a, NOTHING) == a == Plus(NOTHING, a)
  {
  }

  lemma TotalsAppend(events: seq<Event>, e: Event)
    ensures TotalsOf(events + [e]) == Plus(TotalsOf(events), TotalOf(e))
  {
    hide Plus, TotalOf;
    assert (events + [e])[..|events|] == events;
  }

  lemma TotalsOfNone()
    ensures TotalsOf([]) == NOTHING
  {
  }

  lemma TotalsOfOne(e: Event)
    ensures TotalsOf([e]) == TotalOf(e)
  {
    hide TotalOf, TotalsOf;
    assert [] + [e] == [e];
    TotalsAppend([], e);
    TotalsOfNone();
    PlusAssociates(TotalOf(e), NOTHING, NOTHING);
  }

  lemma VisitsAllStep(children: seq<Child>, n: nat, path: Path, profile: Profile)
    requires n < |children| && path != []
    ensures VisitsAll(children[..n + 1], path, profile) ==
            VisitsAll(children[..n], path, profile) + Visits(children[n].tree, path + [children[n].name], profile)
  {
    hide Visits;
    assert children[..n + 1][..n] == children[..n];
  }

  lemma {:induction false} TotalsAdd(a: seq<Event>, b: seq<Event>)
    ensures TotalsOf(a + b) == Plus(TotalsOf(a), TotalsOf(b))
  {
    hide Plus, TotalOf;
    if b == [] {
      assert a + b == a;
      PlusAssociates(TotalsOf(a), NOTHING, NOTHING);
    } else {
      hide TotalsOf;
      var front, last := b[..|b| - 1], b[|b| - 1];
      TotalsAdd(a, front);
      TotalsAppend(a + front, last);
      TotalsAppend(front, last);
      assert a + b == a + front + [last] && b == front + [last];
      PlusAssociates(TotalsOf(a), TotalsOf(front), TotalOf(last));
    }
  }

  lemma {:induction false} VisitsHavePaths(tree: Tree, path: Path, profile: Profile)
    requires path != []
    ensures forall e :: e in Visits(tree, path, profile) ==> path <= e.path
    decreases tree, 1
  {
    if tree.Directory? && Passes(path, profile) {
      VisitsAllHavePaths(tree.children, path, profile);
    }
  }

  lemma {:induction false} VisitsAllHavePaths(children: seq<Child>, path: Path, profile: Profile)
    requires path != []
    ensures forall e :: e in VisitsAll(children, path, profile) ==> path <= e.path
    decreases children, 0
  {
    if children != [] {
      var last := children[|children| - 1];
      VisitsAllHavePaths(children[..|children| - 1], path, profile);
      VisitsHavePaths(last.tree, path + [last.name], profile);
    }
  }

  // ---- The inputs ----

  type Disk = map<string, Tree>

  function Lookup(disk: Disk, name: string): Tree {
    if name in disk then disk[name] else Unreachable(true)
  }

  predicate IsWhitespace(c: char) {
    '\t' <= c <= '\r' || c == ' ' || c in "\U{A0}\U{1680}\U{2028}\U{2029}\U{202F}\U{205F}\U{3000}\U{FEFF}" ||
    '\U{2000}' <= c <= '\U{200A}'
  }

  function TrimStart(s: string): string {
    if s != "" && IsWhitespace(s[0]) then TrimStart(s[1..]) else s
  }

  function TrimEnd(s: string): string {
    if s != "" && IsWhitespace(s[|s| - 1]) then TrimEnd(s[..|s| - 1]) else s
  }

  function Trim(s: string): string { TrimEnd(TrimStart(s)) }

  predicate IsSupportedInput(name: string) {
    name != "." && name != ".." && '/' !in name && '\\' !in name
  }

  /** The inputs that are not blank after trimming, each once, in order of first mention. */
  function Distinct(raw: seq<string>): seq<string> {
    if raw == [] then [] else
    var names := Distinct(raw[..|raw| - 1]);
    var name := Trim(raw[|raw| - 1]);
    if name == "" || name in names then names else names + [name]
  }

  function InputEvents(name: string, disk: Disk, profile: Profile): seq<Event> {
    if IsSupportedInput(name) then Visits(Lookup(disk, name), [name], profile)
    else [SkipEvent([name], UnsupportedInput)]
  }

  function PlanEvents(names: seq<string>, disk: Disk, profile: Profile): seq<Event> {
    if names == [] then [] else
    PlanEvents(names[..|names| - 1], disk, profile) + InputEvents(names[|names| - 1], disk, profile)
  }

  function Inputs(names: seq<string>): seq<string> {
    if names == [] then [] else
    var last := names[|names| - 1];
    Inputs(names[..|names| - 1]) + if IsSupportedInput(last) then [last] else []
  }

  lemma PlanStep(names: seq<string>, name: string, disk: Disk, profile: Profile)
    ensures PlanEvents(names + [name], disk, profile) == PlanEvents(names, disk, profile) + InputEvents(name, disk, profile)
    ensures Inputs(names + [name]) == Inputs(names) + if IsSupportedInput(name) then [name] else []
  {
    hide InputEvents, IsSupportedInput;
    assert (names + [name])[..|names|] == names;
  }

  lemma DistinctStep(raw: seq<string>, n: nat)
    requires n < |raw|
    ensures var names := Distinct(raw[..n]);
            var name := Trim(raw[n]);
            Distinct(raw[..n + 1]) == if name == "" || name in names then names else names + [name]
  {
    hide Trim;
    assert raw[..n + 1][..n] == raw[..n];
  }

  class TarPlanner {
    const profile: Profile
    var manifestEntries: seq<string>
    var fileEntries: seq<Entry>
    var dirEntries: seq<Entry>
    var subtreeEntries: seq<Subtree>
    var skipped: seq<SkipSummary>
    ghost var events: seq<Event>

    /** Every collection is what the recorded events make it. */
    ghost predicate Valid()
      reads this
    {
      (forall e :: e in events ==> e.path != []) &&
      manifestEntries == ManifestOf(events) &&
      fileEntries == FilesOf(events) &&
      dirEntries == DirectoriesOf(events) &&
      subtreeEntries == SubtreesOf(events, profile) &&
      skipped == SkippedOf(events)
    }

    constructor (profile: Profile)
      ensures Valid() && events == [] && this.profile == profile
    {
      this.profile := profile;
      manifestEntries, fileEntries, dirEntries, subtreeEntries, skipped := [], [], [], [], [];
      events := [];
    }

    method AddSkip(path: Path, reason: Reason)
      requires Valid() && path != []
      modifies this
      ensures Valid() && events == old(events) + [SkipEvent(path, reason)]
    {
      skipped := AddSkipTo(skipped, reason, Text(path));
      events := events + [SkipEvent(path, reason)];
      assert events[..|events| - 1] == old(events);
    }

    method AddLink(path: Path)
      requires Valid() && path != []
      modifies this
      ensures Valid() && events == old(events) + [LinkEvent(path)]
    {
      manifestEntries := manifestEntries + [Text(path)];
      events := events + [LinkEvent(path)];
      assert events[..|events| - 1] == old(events);
    }

    method AddFile(path: Path, size: nat)
      requires Valid() && path != []
      modifies this
      ensures Valid() && events == old(events) + [FileEvent(path, size)]
    {
      manifestEntries := manifestEntries + [Text(path)];
      fileEntries := fileEntries + [Entry(Text(path), size)];
      subtreeEntries := AddToSubtree(subtreeEntries, PayloadSubtreePath(path, profile), size);
      events := events + [FileEvent(path, size)];
      assert events[..|events| - 1] == old(events);
    }

    method AddDirectory(path: Path, bytes: nat)
      requires Valid() && path != []
      modifies this
      ensures Valid() && events == old(events) + [DirectoryEvent(path, bytes)]
    {
      dirEntries := dirEntries + [Entry(Text(path), bytes)];
      events := events + [DirectoryEvent(path, bytes)];
      assert events[..|events| - 1] == old(events);
    }

    method RecordLeaf(tree: Tree, path: Path) returns (r: Totals)
      requires Valid() && path != [] && !tree.Directory?
      modifies this
      ensures Valid() && events == old(events) + [LeafEvent(tree, path)]
      ensures r == TotalOf(LeafEvent(tree, path))
    {
      hide Valid, Text;
      r := NOTHING;
      match tree {
        case Symlink =>
          AddLink(path);
          r := Totals(0, 0, 1, 0);
        case File(size) =>
          AddFile(path, size);
          r := Totals(size, 1, 0, 0);
        case Special(kind) =>
          AddSkip(path, kind);
        case Unreachable(gone) =>
          AddSkip(path, AccessReason(gone));
        case Unlistable(gone) =>
          AddSkip(path, AccessReason(gone));
      }
    }

    /** Records the events of one tree and returns what they add up to. */
    method Walk(tree: Tree, path: Path) returns (r: Totals)
      requires Valid() && path != []
      modifies this
      ensures Valid() && events == old(events) + Visits(tree, path, profile)
      ensures r == TotalsOf(Visits(tree, path, profile))
      decreases tree, 1
    {
      hide Refusal, Valid, TotalsOf, VisitsAll, LeafEvent;
      var refusal := Refusal(path, profile);
      if refusal.Some? {
        TotalsOfOne(SkipEvent(path, refusal.value));
        AddSkip(path, refusal.value);
        r := NOTHING;
      } else if !tree.Directory? {
        TotalsOfOne(LeafEvent(tree, path));
        r := RecordLeaf(tree, path);
      } else {
        r := WalkDirectory(tree.children, path);
      }
    }

    method WalkDirectory(children: seq<Child>, path: Path) returns (r: Totals)
      requires Valid() && path != []
      modifies this
      ensures Valid()
      ensures var below := VisitsAll(children, path, profile);
              events == old(events) + (below + [DirectoryEnd(path, below)]) &&
              r == TotalsOf(below + [DirectoryEnd(path, below)])
      decreases children, 2
    {
      hide VisitsAll, Valid, Plus, TotalsOf;
      r := WalkChildren(children, path);
      ghost var below := VisitsAll(children, path, profile);
      TotalsAppend(below, DirectoryEnd(path, below));
      AddDirectory(path, r.bytes);
      r := Plus(r, Totals(0, 0, 0, 1));
    }

    method WalkChildren(children: seq<Child>, path: Path) returns (r: Totals)
      requires Valid() && path != []
      modifies this
      ensures Valid() && events == old(events) + VisitsAll(children, path, profile)
      ensures r == TotalsOf(VisitsAll(children, path, profile))
      decreases children, 1
    {
      hide Visits, Valid, Plus, TotalsOf;
      r := NOTHING;
      TotalsOfNone();
      for n := 0 to |children|
        invariant Valid()
        invariant events == old(events) + VisitsAll(children[..n], path, profile)
        invariant r == TotalsOf(VisitsAll(children[..n], path, profile))
      {
        VisitsAllStep(children, n, path, profile);
        var child := Walk(children[n].tree, path + [children[n].name]);
        hide VisitsAll;
        TotalsAdd(VisitsAll(children[..n], path, profile), Visits(children[n].tree, path + [children[n].name], profile));
        r := Plus(r, child);
      }
      assert children[..|children|] == children;
    }

    method PlanInput(name: string, disk: Disk) returns (r: Totals)
      requires Valid()
      modifies this
      ensures Valid() && events == old(events) + InputEvents(name, disk, profile)
      ensures r == TotalsOf(InputEvents(name, disk, profile))
    {
      hide Visits, Valid, TotalsOf, Lookup;
      if !IsSupportedInput(name) {
        AddSkip([name], UnsupportedInput);
        TotalsOfOne(SkipEvent([name], UnsupportedInput));
        r := NOTHING;
      } else {
        r := Walk(Lookup(disk, name), [name]);
      }
    }

    method Plan(inputBasenames: seq<string>, disk: Disk) returns (totals: Totals, inputs: seq<string>)
      requires Valid() && events == []
      modifies this
      ensures Valid() && events == PlanEvents(Distinct(inputBasenames), disk, profile)
      ensures totals == TotalsOf(events) && inputs == Inputs(Distinct(inputBasenames))
    {
      hide Valid, TotalsOf, Plus, InputEvents, Trim, Distinct, PlanEvents, Inputs, IsSupportedInput;
      totals, inputs := NOTHING, [];
      var seen: set<string> := {};
      PlanOfNothing(disk);
      assert inputBasenames[..0] == [];
      for n := 0 to |inputBasenames|
        invariant Valid()
        invariant events == PlanEvents(Distinct(inputBasenames[..n]), disk, profile)
        invariant totals == TotalsOf(events)
        invariant inputs == Inputs(Distinct(inputBasenames[..n]))
        invariant forall name :: name in seen <==> name in Distinct(inputBasenames[..n])
      {
        DistinctStep(inputBasenames, n);
        var basename := Trim(inputBasenames[n]);
        if basename == "" || basename in seen { continue; }
        PlanStep(Distinct(inputBasenames[..n]), basename, disk, profile);
        seen := seen + {basename};
        TotalsAdd(events, InputEvents(basename, disk, profile));
        if IsSupportedInput(basename) {
          inputs := inputs + [basename];
        }
        var r := PlanInput(basename, disk);
        totals := Plus(totals, r);
      }
      assert inputBasenames[..|inputBasenames|] == inputBasenames;
    }
  }

  lemma PlanOfNothing(disk: Disk)
    ensures Distinct([]) == [] && Inputs([]) == [] && TotalsOf([]) == NOTHING
    ensures forall profile :: PlanEvents([], disk, profile) == []
  {
  }
}
