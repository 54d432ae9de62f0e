/** What a tar payload plan contains, and that its census accounts for every visited node once. */
module PayloadCensus {
  import opened Common
  import opened CachePayload
  import GlobRegex
  import SourceSelection
  import StableSort

  // ---- The nodes of a disk ----

  predicate IsName(name: string) { name != "" && '/' !in name }

  predicate AreNames(path: Path) { forall part :: part in path ==> IsName(part) }

  /** What a file system guarantees: sibling names differ, and none is empty or holds a `/`. */
  ghost predicate IsFileTree(tree: Tree)
    decreases tree, 1
  {
    tree.Directory? ==> AreSiblings(tree.children)
  }

  ghost predicate AreSiblings(children: seq<Child>)
    decreases children, 0
  {
    children != [] ==>
      var front, last := children[..|children| - 1], children[|children| - 1];
      AreSiblings(front) && IsName(last.name) && ChildNamed(front, last.name).None? && IsFileTree(last.tree)
  }

  ghost predicate IsFileDisk(disk: Disk) { forall name :: name in disk ==> IsFileTree(disk[name]) }

  function ChildNamed(children: seq<Child>, name: string): Option<Tree> {
    if children == [] then None
    else if children[|children| - 1].name == name then Some(children[|children| - 1].tree)
    else ChildNamed(children[..|children| - 1], name)
  }

  function NodeAt(tree: Tree, rest: Path): Option<Tree>
    decreases |rest|
  {
    if rest == [] then Some(tree)
    else if tree.Directory? then
      var child :- ChildNamed(tree.children, rest[0]);
      NodeAt(child, rest[1..])
    else None
  }

  /** The node a plan of `names` sees at a path. */
  function PlannedNode(names: seq<string>, disk: Disk, path: Path): Option<Tree> {
    if path != [] && path[0] in names && IsSupportedInput(path[0]) then NodeAt(Lookup(disk, path[0]), path[1..]) else None
  }

  ghost predicate PrefixesPass(path: Path, length: nat, profile: Profile)
    requires length <= |path|
  {
    forall n :: 1 <= n <= length ==> Passes(path[..n], profile)
  }

  /** A regular file or symlink is there, and the path and every prefix of it pass the filters. */
  ghost predicate IsArchived(names: seq<string>, disk: Disk, path: Path, profile: Profile) {
    var node := PlannedNode(names, disk, path);
    node.Some? && (node.value.File? || node.value.Symlink?) && PrefixesPass(path, |path|, profile)
  }

  /** The walk gets to a path: a node is there, and every proper prefix passes the filters. */
  ghost predicate IsReached(names: seq<string>, disk: Disk, path: Path, profile: Profile) {
    PlannedNode(names, disk, path).Some? && PrefixesPass(path, |path| - 1, profile)
  }

  // ---- The events of one tree ----

  /** What the walk records for one node: its own event, after those of its children. */
  function OwnEvent(tree: Tree, path: Path, profile: Profile): Event
    requires path != []
  {
    var refusal := Refusal(path, profile);
    if refusal.Some? then SkipEvent(path, refusal.value)
    else if !tree.Directory? then LeafEvent(tree, path)
    else DirectoryEnd(path, VisitsAll(tree.children, path, profile))
  }

  function Below(tree: Tree, path: Path, profile: Profile): seq<Event>
    requires path != []
  {
    if Passes(path, profile) && tree.Directory? then VisitsAll(tree.children, path, profile) else []
  }

  lemma VisitsAreBelowThenOwn(tree: Tree, path: Path, profile: Profile)
    requires path != []
    ensures Visits(tree, path, profile) == Below(tree, path, profile) + [OwnEvent(tree, path, profile)]
  {
    hide Refusal, VisitsAll;
  }

  lemma OwnEventPath(tree: Tree, path: Path, profile: Profile)
    requires path != []
    ensures OwnEvent(tree, path, profile).path == path
  {
    hide Refusal, VisitsAll, TotalsOf;
  }

  /** `e` is the own event of the node at its path below `tree`, and the walk gets there. */
  ghost predicate Explains(tree: Tree, base: Path, e: Event, profile: Profile)
    requires base != []
    decreases |e.path| - |base|
  {
    if |e.path| <= |base| then e == OwnEvent(tree, base, profile)
    else
      Passes(base, profile) && tree.Directory? &&
      var name := e.path[|base|];
      ChildNamed(tree.children, name).Some? &&
      base + [name] <= e.path && Explains(ChildNamed(tree.children, name).value, base + [name], e, profile)
  }

  lemma {:induction false} VisitsExactly(tree: Tree, base: Path, e: Event, profile: Profile)
    requires base != [] && IsFileTree(tree)
    ensures e in Visits(tree, base, profile) <==> base <= e.path && Explains(tree, base, e, profile)
    decreases tree, 1
  {
    hide Refusal, Visits, OwnEvent, VisitsAll;
    VisitsAreBelowThenOwn(tree, base, profile);
    OwnEventPath(tree, base, profile);
    if tree.Directory? {
      VisitsAllExactly(tree.children, base, e, profile);
    }
  }

  /** `e` is explained by the child its path goes through. */
  ghost predicate ChildExplains(children: seq<Child>, base: Path, e: Event, profile: Profile)
    requires base != []
  {
    |base| < |e.path| && base <= e.path &&
    var child := ChildNamed(children, e.path[|base|]);
    child.Some? && Explains(child.value, base + [e.path[|base|]], e, profile)
  }

  lemma {:induction false} VisitsAllExactly(children: seq<Child>, base: Path, e: Event, profile: Profile)
    requires base != [] && AreSiblings(children)
    ensures e in VisitsAll(children, base, profile) <==> ChildExplains(children, base, e, profile)
    decreases children, 0
  {
    hide Visits, Explains;
    if children != [] {
      var front, last := children[..|children| - 1], children[|children| - 1];
      var path := base + [last.name];
      VisitsAllExactly(front, base, e, profile);
      VisitsExactly(last.tree, path, e, profile);
      OneComponentMore(base, last.name, e.path);
    }
  }

  lemma OneComponentMore(base: Path, name: string, path: Path)
    ensures base + [name] <= path <==> |base| < |path| && base <= path && path[|base|] == name
  {
    if |base| < |path| && base <= path && path[|base|] == name {
      assert path[..|base| + 1] == base + [name];
    }
  }

  lemma {:induction false} ExplainsIff(tree: Tree, base: Path, e: Event, profile: Profile)
    requires base != [] && base <= e.path
    ensures Explains(tree, base, e, profile) <==>
            var node := NodeAt(tree, e.path[|base|..]);
            node.Some? && e == OwnEvent(node.value, e.path, profile) &&
            forall n :: |base| <= n < |e.path| ==> Passes(e.path[..n], profile)
    decreases |e.path| - |base|
  {
    hide OwnEvent, Refusal;
    if |e.path| == |base| {
      assert e.path == base;
    } else {
      var rest := e.path[|base|..];
      var longer := base + [rest[0]];
      assert e.path[..|base|] == base && e.path[..|longer|] == longer;
      assert e.path[|longer|..] == rest[1..];
      if tree.Directory? {
        var child := ChildNamed(tree.children, rest[0]);
        if child.Some? {
          ExplainsIff(child.value, longer, e, profile);
        }
      }
    }
  }

  // ---- The events of a plan ----

  /** The event of an input that is not a plain name. */
  ghost predicate IsRefusedInput(names: seq<string>, e: Event) {
    |e.path| == 1 && e.path[0] in names && !IsSupportedInput(e.path[0]) && e == SkipEvent(e.path, UnsupportedInput)
  }

  lemma InputExactly(name: string, disk: Disk, e: Event, profile: Profile)
    requires IsFileDisk(disk)
    ensures e in InputEvents(name, disk, profile) <==>
            e.path != [] && e.path[0] == name &&
            if IsSupportedInput(name) then Explains(Lookup(disk, name), [name], e, profile)
            else e == SkipEvent([name], UnsupportedInput)
  {
    hide Explains, Visits, IsSupportedInput;
    assert IsFileTree(Lookup(disk, name));
    VisitsExactly(Lookup(disk, name), [name], e, profile);
    assert [name] <= e.path <==> e.path != [] && e.path[0] == name by {
      if e.path != [] && e.path[0] == name {
        assert e.path[..1] == [name];
      }
    }
  }

  lemma {:induction false} PlanByInput(names: seq<string>, disk: Disk, e: Event, profile: Profile)
    requires IsFileDisk(disk)
    ensures e in PlanEvents(names, disk, profile) <==>
            e.path != [] && e.path[0] in names && e in InputEvents(e.path[0], disk, profile)
  {
    hide InputEvents;
    if names != [] {
      var front, last := names[..|names| - 1], names[|names| - 1];
      PlanByInput(front, disk, e, profile);
      InputExactly(last, disk, e, profile);
      assert names == front + [last];
    }
  }

  /** A plan records one thing for each node reached and each input refused, and nothing else. */
  lemma PlanExactly(names: seq<string>, disk: Disk, e: Event, profile: Profile)
    requires IsFileDisk(disk)
    ensures e in PlanEvents(names, disk, profile) <==>
            IsRefusedInput(names, e) ||
            (IsReached(names, disk, e.path, profile) &&
             e == OwnEvent(PlannedNode(names, disk, e.path).value, e.path, profile))
  {
    hide OwnEvent, InputEvents, IsSupportedInput, Lookup, Refusal;
    PlanByInput(names, disk, e, profile);
    if e.path != [] {
      InputExactly(e.path[0], disk, e, profile);
      assert e.path[..1] == [e.path[0]];
      ExplainsIff(Lookup(disk, e.path[0]), [e.path[0]], e, profile);
    }
  }

  // ---- No path twice ----

  ghost predicate HaveDistinctPaths(events: seq<Event>) {
    forall i, j :: 0 <= i < j < |events| ==> events[i].path != events[j].path
  }

  lemma DistinctConcat(a: seq<Event>, b: seq<Event>)
    requires HaveDistinctPaths(a) && HaveDistinctPaths(b)
    requires forall d, e :: d in a && e in b ==> d.path != e.path
    ensures HaveDistinctPaths(a + b)
  {
    var all := a + b;
    forall i, j | 0 <= i < j < |all|
      ensures all[i].path != all[j].path
    {
      if i < |a| <= j {
        assert all[i] in a && all[j] in b;
      }
    }
  }

  lemma {:induction false} VisitsAreDistinct(tree: Tree, base: Path, profile: Profile)
    requires base != [] && IsFileTree(tree)
    ensures HaveDistinctPaths(Visits(tree, base, profile))
    decreases tree, 1
  {
    hide Refusal, Visits, VisitsAll, OwnEvent;
    VisitsAreBelowThenOwn(tree, base, profile);
    OwnEventPath(tree, base, profile);
    if tree.Directory? {
      VisitsAllAreDistinct(tree.children, base, profile);
      forall e | e in VisitsAll(tree.children, base, profile)
        ensures e.path != base
      {
        VisitsAllExactly(tree.children, base, e, profile);
      }
    }
    DistinctConcat(Below(tree, base, profile), [OwnEvent(tree, base, profile)]);
  }

  lemma {:induction false} VisitsAllAreDistinct(children: seq<Child>, base: Path, profile: Profile)
    requires base != [] && AreSiblings(children)
    ensures HaveDistinctPaths(VisitsAll(children, base, profile))
    decreases children, 0
  {
    if children != [] {
      hide Visits, HaveDistinctPaths;
      var front, last := children[..|children| - 1], children[|children| - 1];
      var path := base + [last.name];
      VisitsAllAreDistinct(front, base, profile);
      VisitsAreDistinct(last.tree, path, profile);
      forall d, e | d in VisitsAll(front, base, profile) && e in Visits(last.tree, path, profile)
        ensures d.path != e.path
      {
        VisitsAllExactly(front, base, d, profile);
        VisitsHavePaths(last.tree, path, profile);
        OneComponentMore(base, last.name, e.path);
      }
      DistinctConcat(VisitsAll(front, base, profile), Visits(last.tree, path, profile));
    }
  }

  lemma InputIsDistinct(name: string, disk: Disk, profile: Profile)
    requires IsFileDisk(disk)
    ensures HaveDistinctPaths(InputEvents(name, disk, profile))
  {
    hide Visits;
    VisitsAreDistinct(Lookup(disk, name), [name], profile);
  }

  /** Each node reached, and each input refused, is recorded once. */
  lemma {:induction false} PlanIsDistinct(names: seq<string>, disk: Disk, profile: Profile)
    requires IsFileDisk(disk) && StableSort.AllDistinct(names)
    ensures HaveDistinctPaths(PlanEvents(names, disk, profile))
  {
    hide InputEvents;
    if names != [] {
      var front, last := names[..|names| - 1], names[|names| - 1];
      PlanIsDistinct(front, disk, profile);
      InputIsDistinct(last, disk, profile);
      forall d, e | d in PlanEvents(front, disk, profile) && e in InputEvents(last, disk, profile)
        ensures d.path != e.path
      {
        PlanByInput(front, disk, d, profile);
        InputExactly(last, disk, e, profile);
      }
      DistinctConcat(PlanEvents(front, disk, profile), InputEvents(last, disk, profile));
    }
  }

  lemma {:induction false} DistinctHasNoDuplicates(raw: seq<string>)
    ensures StableSort.AllDistinct(Distinct(raw))
  {
    hide Trim;
    if raw != [] {
      DistinctHasNoDuplicates(raw[..|raw| - 1]);
    }
  }

  // ---- The manifest ----

  lemma {:induction false} FirstSlash(name: string, tail: string)
    requires '/' !in name
    ensures GlobRegex.IndexOf(name, '/') == |name| && GlobRegex.IndexOf(name + ("/" + tail), '/') == |name|
  {
    if name == "" {
      assert (name + ("/" + tail))[0] == '/';
    } else {
      FirstSlash(name[1..], tail);
      assert (name + ("/" + tail))[1..] == name[1..] + ("/" + tail);
    }
  }

  lemma {:induction false} TextReadsBack(path: Path)
    requires path != [] && AreNames(path)
    ensures SourceSelection.Components(Text(path)) == path
  {
    var name, tail := path[0], path[1..];
    assert IsName(name);
    FirstSlash(name, Text(tail));
    if |path| == 1 {
      assert path == [name];
    } else {
      TextReadsBack(tail);
      ReadsFirst(name, Text(tail));
      assert path == [name] + tail;
      assert Text(path) == name + ("/" + Text(tail));
    }
  }

  lemma ReadsFirst(name: string, tail: string)
    requires '/' !in name
    ensures SourceSelection.Components(name + ("/" + tail)) == [name] + SourceSelection.Components(tail)
  {
    var text := name + ("/" + tail);
    FirstSlash(name, tail);
    hide GlobRegex.IndexOf, SourceSelection.Components;
    SourceSelection.ComponentsStep(text, |name|);
    assert text[..|name|] == name && text[|name| + 1..] == tail;
  }

  /** Different paths have different texts. */
  lemma TextIsInjective(p: Path, q: Path)
    requires p != [] && AreNames(p) && q != [] && AreNames(q)
    ensures Text(p) == Text(q) ==> p == q
  {
    TextReadsBack(p);
    TextReadsBack(q);
  }

  lemma {:induction false} ManifestTexts(events: seq<Event>, text: string)
    ensures text in ManifestOf(events) <==>
            exists e :: e in events && (e.FileEvent? || e.LinkEvent?) && text == Text(e.path)
  {
    hide Text;
    if events != [] {
      ManifestTexts(events[..|events| - 1], text);
      assert events == events[..|events| - 1] + [events[|events| - 1]];
    }
  }

  lemma NamedChild(children: seq<Child>, name: string)
    requires AreSiblings(children)
    ensures ChildNamed(children, name).Some? ==> IsName(name) && IsFileTree(ChildNamed(children, name).value)
  {
  }

  lemma {:induction false} NodePathsAreNames(tree: Tree, rest: Path)
    requires IsFileTree(tree) && NodeAt(tree, rest).Some?
    ensures AreNames(rest)
    decreases |rest|
  {
    if rest != [] {
      NamedChild(tree.children, rest[0]);
      NodePathsAreNames(ChildNamed(tree.children, rest[0]).value, rest[1..]);
      assert rest == [rest[0]] + rest[1..];
    }
  }

  /** An input that the walk takes is a name of its own. */
  lemma PlannedPathsAreNames(names: seq<string>, disk: Disk, path: Path)
    requires IsFileDisk(disk) && "" !in names && PlannedNode(names, disk, path).Some?
    ensures AreNames(path)
  {
    NodePathsAreNames(Lookup(disk, path[0]), path[1..]);
    assert path == [path[0]] + path[1..];
  }

  lemma OwnEventIsArchivedIff(tree: Tree, path: Path, profile: Profile)
    requires path != []
    ensures var e := OwnEvent(tree, path, profile);
            e.FileEvent? || e.LinkEvent? <==> (tree.File? || tree.Symlink?) && Passes(path, profile)
  {
    hide Refusal, VisitsAll, TotalsOf;
  }

  /**
   The manifest holds the text of a path exactly when the path names a regular file or symlink and
   every prefix of it passes the name, basename and path filters.
   */
  lemma ManifestExactly(names: seq<string>, disk: Disk, profile: Profile, text: string)
    requires IsFileDisk(disk)
    ensures text in ManifestOf(PlanEvents(names, disk, profile)) <==>
            exists path :: IsArchived(names, disk, path, profile) && text == Text(path)
  {
    var events := PlanEvents(names, disk, profile);
    ManifestTexts(events, text);
    if e :| e in events && (e.FileEvent? || e.LinkEvent?) && text == Text(e.path) {
      PlanExactly(names, disk, e, profile);
      ReachedIsArchived(names, disk, e.path, profile);
    }
    if path :| IsArchived(names, disk, path, profile) && text == Text(path) {
      ReachedIsArchived(names, disk, path, profile);
      PlanExactly(names, disk, OwnEvent(PlannedNode(names, disk, path).value, path, profile), profile);
    }
  }

  lemma ReachedIsArchived(names: seq<string>, disk: Disk, path: Path, profile: Profile)
    requires PlannedNode(names, disk, path).Some?
    ensures var e := OwnEvent(PlannedNode(names, disk, path).value, path, profile);
            IsArchived(names, disk, path, profile) <==>
            IsReached(names, disk, path, profile) && (e.FileEvent? || e.LinkEvent?) && e.path == path
  {
    hide Refusal, OwnEvent, NodeAt;
    var tree := PlannedNode(names, disk, path).value;
    OwnEventIsArchivedIff(tree, path, profile);
    OwnEventPath(tree, path, profile);
    assert path[..|path|] == path;
  }

  ghost predicate RecordedAreNames(events: seq<Event>) {
    forall e :: e in events && !e.SkipEvent? ==> e.path != [] && AreNames(e.path)
  }

  lemma PlanRecordsNames(names: seq<string>, disk: Disk, profile: Profile)
    requires IsFileDisk(disk) && "" !in names
    ensures RecordedAreNames(PlanEvents(names, disk, profile))
  {
    var events := PlanEvents(names, disk, profile);
    forall e | e in events && !e.SkipEvent?
      ensures e.path != [] && AreNames(e.path)
    {
      PlanExactly(names, disk, e, profile);
      PlannedPathsAreNames(names, disk, e.path);
    }
  }

  lemma {:induction false} ManifestIsDistinct(events: seq<Event>)
    requires HaveDistinctPaths(events) && RecordedAreNames(events)
    ensures StableSort.AllDistinct(ManifestOf(events))
  {
    hide Text;
    if events != [] {
      var front, last := events[..|events| - 1], events[|events| - 1];
      assert events == front + [last];
      ManifestIsDistinct(front);
      if (last.FileEvent? || last.LinkEvent?) && Text(last.path) in ManifestOf(front) {
        ManifestTexts(front, Text(last.path));
        var e :| e in front && (e.FileEvent? || e.LinkEvent?) && Text(last.path) == Text(e.path);
        TextIsInjective(last.path, e.path);
      }
    }
  }

  lemma {:induction false} DistinctHasNoBlank(raw: seq<string>)
    ensures "" !in Distinct(raw)
  {
    hide Trim;
    if raw != [] {
      DistinctHasNoBlank(raw[..|raw| - 1]);
    }
  }

  /** No path is listed twice, whatever the input basenames repeat. */
  lemma ManifestHasNoDuplicates(raw: seq<string>, disk: Disk, profile: Profile)
    requires IsFileDisk(disk)
    ensures StableSort.AllDistinct(ManifestOf(PlanEvents(Distinct(raw), disk, profile)))
  {
    DistinctHasNoDuplicates(raw);
    DistinctHasNoBlank(raw);
    PlanIsDistinct(Distinct(raw), disk, profile);
    PlanRecordsNames(Distinct(raw), disk, profile);
    ManifestIsDistinct(PlanEvents(Distinct(raw), disk, profile));
  }

  // ---- The census ----

  function SumBytes(entries: seq<Entry>): nat {
    if entries == [] then 0 else SumBytes(entries[..|entries| - 1]) + entries[|entries| - 1].bytes
  }

  function SumGroupBytes(groups: seq<Subtree>): nat {
    if groups == [] then 0 else groups[0].bytes + SumGroupBytes(groups[1..])
  }

  function SumGroupFiles(groups: seq<Subtree>): nat {
    if groups == [] then 0 else groups[0].files + SumGroupFiles(groups[1..])
  }

  function SumSkips(skipped: seq<SkipSummary>): nat {
    if skipped == [] then 0 else skipped[0].count + SumSkips(skipped[1..])
  }

  lemma {:induction false} SubtreeAddCounts(groups: seq<Subtree>, path: Path, bytes: nat)
    ensures SumGroupBytes(AddToSubtree(groups, path, bytes)) == SumGroupBytes(groups) + bytes
    ensures SumGroupFiles(AddToSubtree(groups, path, bytes)) == SumGroupFiles(groups) + 1
  {
    if groups != [] && groups[0].path != path {
      SubtreeAddCounts(groups[1..], path, bytes);
    }
  }

  lemma {:induction false} SkipAddCounts(skipped: seq<SkipSummary>, reason: Reason, sample: string)
    ensures SumSkips(AddSkipTo(skipped, reason, sample)) == SumSkips(skipped) + 1
  {
    if skipped != [] && skipped[0].reason != reason {
      SkipAddCounts(skipped[1..], reason, sample);
    }
  }

  ghost predicate HavePaths(events: seq<Event>) { forall e :: e in events ==> e.path != [] }

  ghost predicate CountsMatch(events: seq<Event>) {
    var totals := TotalsOf(events);
    totals.bytes == SumBytes(FilesOf(events)) && totals.files == |FilesOf(events)| &&
    totals.directories == |DirectoriesOf(events)| &&
    |ManifestOf(events)| == totals.files + totals.symlinks &&
    |events| == totals.files + totals.symlinks + totals.directories + SumSkips(SkippedOf(events))
  }

  ghost predicate GroupsMatch(events: seq<Event>, profile: Profile)
    requires HavePaths(events)
  {
    var groups := SubtreesOf(events, profile);
    TotalsOf(events).bytes == SumGroupBytes(groups) && TotalsOf(events).files == SumGroupFiles(groups)
  }

  lemma SumBytesAppend(entries: seq<Entry>, entry: Entry)
    ensures SumBytes(entries + [entry]) == SumBytes(entries) + entry.bytes
  {
    assert (entries + [entry])[..|entries|] == entries;
  }

  lemma CollectionsAppend(front: seq<Event>, last: Event)
    ensures var events := front + [last];
            var text := Text(last.path);
            TotalsOf(events) == Plus(TotalsOf(front), TotalOf(last)) &&
            FilesOf(events) == FilesOf(front) + (if last.FileEvent? then [Entry(text, last.size)] else []) &&
            DirectoriesOf(events) == DirectoriesOf(front) + (if last.DirectoryEvent? then [Entry(text, last.bytes)] else []) &&
            ManifestOf(events) == ManifestOf(front) + (if last.FileEvent? || last.LinkEvent? then [text] else []) &&
            SkippedOf(events) == if last.SkipEvent? then AddSkipTo(SkippedOf(front), last.reason, text) else SkippedOf(front)
  {
    hide Text, AddSkipTo, Plus, TotalOf;
    assert (front + [last])[..|front|] == front;
  }

  lemma CountsStep(front: seq<Event>, last: Event)
    requires CountsMatch(front)
    ensures CountsMatch(front + [last])
  {
    CollectionsAppend(front, last);
    hide TotalsOf, FilesOf, DirectoriesOf, ManifestOf, SkippedOf, Text, SumBytes, SumSkips, AddSkipTo;
    var text := Text(last.path);
    assert FilesOf(front) + [] == FilesOf(front);
    match last {
      case FileEvent(path, size) => SumBytesAppend(FilesOf(front), Entry(text, size));
      case SkipEvent(path, reason) => SkipAddCounts(SkippedOf(front), reason, text);
      case _ =>
    }
  }

  lemma SubtreesAppend(front: seq<Event>, last: Event, profile: Profile)
    requires HavePaths(front) && last.path != []
    ensures var groups := SubtreesOf(front, profile);
            SubtreesOf(front + [last], profile) ==
            if last.FileEvent? then AddToSubtree(groups, PayloadSubtreePath(last.path, profile), last.size) else groups
  {
    hide PayloadSubtreePath, AddToSubtree;
    assert (front + [last])[..|front|] == front;
  }

  lemma GroupsStep(front: seq<Event>, last: Event, profile: Profile)
    requires HavePaths(front) && last.path != [] && GroupsMatch(front, profile)
    ensures GroupsMatch(front + [last], profile)
  {
    hide PayloadSubtreePath, AddToSubtree, SumGroupBytes, SumGroupFiles, SubtreesOf, TotalsOf;
    TotalsAppend(front, last);
    SubtreesAppend(front, last, profile);
    if last.FileEvent? {
      SubtreeAddCounts(SubtreesOf(front, profile), PayloadSubtreePath(last.path, profile), last.size);
    }
  }

  /**
   Bytes and files are the sums over the file entries and over the subtree groups; the manifest has
   the files and the symlinks; every event is one of file, symlink, directory and skip.
   */
  lemma {:induction false} CensusIsConserved(events: seq<Event>, profile: Profile)
    requires HavePaths(events)
    ensures CountsMatch(events) && GroupsMatch(events, profile)
  {
    if events != [] {
      hide CountsMatch, GroupsMatch;
      var front, last := events[..|events| - 1], events[|events| - 1];
      assert events == front + [last];
      CensusIsConserved(front, profile);
      CountsStep(front, last);
      GroupsStep(front, last, profile);
    }
  }

  // ---- Directories hold their files ----

  /** The sizes of the files recorded at or below a path. */
  function BytesUnder(events: seq<Event>, path: Path): nat {
    if events == [] then 0 else
    var last := events[|events| - 1];
    BytesUnder(events[..|events| - 1], path) + if last.FileEvent? && path <= last.path then last.size else 0
  }

  ghost predicate DirectoriesMatch(events: seq<Event>) {
    forall e :: e in events && e.DirectoryEvent? ==> e.bytes == BytesUnder(events, e.path)
  }

  lemma {:induction false} BytesUnderAdd(a: seq<Event>, b: seq<Event>, path: Path)
    ensures BytesUnder(a + b, path) == BytesUnder(a, path) + BytesUnder(b, path)
  {
    if b == [] {
      assert a + b == a;
    } else {
      BytesUnderAdd(a, b[..|b| - 1], path);
      assert (a + b)[..|a + b| - 1] == a + b[..|b| - 1];
    }
  }

  lemma {:induction false} BytesUnderElsewhere(events: seq<Event>, path: Path)
    requires forall e :: e in events ==> !(path <= e.path)
    ensures BytesUnder(events, path) == 0
  {
    if events != [] {
      BytesUnderElsewhere(events[..|events| - 1], path);
    }
  }

  lemma {:induction false} BytesUnderAll(events: seq<Event>, path: Path)
    requires forall e :: e in events ==> path <= e.path
    ensures BytesUnder(events, path) == TotalsOf(events).bytes
  {
    if events != [] {
      BytesUnderAll(events[..|events| - 1], path);
    }
  }

  /** Neither list has a file at or below a path of the other. */
  ghost predicate Apart(a: seq<Event>, b: seq<Event>) {
    forall d, e :: d in a && e in b ==> !(d.path <= e.path) && !(e.path <= d.path)
  }

  lemma MatchConcat(a: seq<Event>, b: seq<Event>)
    requires DirectoriesMatch(a) && DirectoriesMatch(b) && Apart(a, b)
    ensures DirectoriesMatch(a + b)
  {
    forall e | e in a + b && e.DirectoryEvent?
      ensures e.bytes == BytesUnder(a + b, e.path)
    {
      BytesUnderAdd(a, b, e.path);
      if e in a {
        BytesUnderElsewhere(b, e.path);
      } else {
        BytesUnderElsewhere(a, e.path);
      }
    }
  }

  lemma MatchDirectory(below: seq<Event>, path: Path)
    requires DirectoriesMatch(below) && forall e :: e in below ==> path <= e.path && |path| < |e.path|
    ensures DirectoriesMatch(below + [DirectoryEnd(path, below)])
  {
    hide TotalsOf;
    var end := DirectoryEnd(path, below);
    forall e | e in below + [end] && e.DirectoryEvent?
      ensures e.bytes == BytesUnder(below + [end], e.path)
    {
      BytesUnderAdd(below, [end], e.path);
      BytesUnderAll(below, path);
    }
  }

  lemma {:induction false} VisitsMatch(tree: Tree, base: Path, profile: Profile)
    requires base != [] && IsFileTree(tree)
    ensures DirectoriesMatch(Visits(tree, base, profile))
    decreases tree, 1
  {
    hide Refusal, VisitsAll;
    if tree.Directory? && Passes(base, profile) {
      hide DirectoriesMatch, DirectoryEnd;
      var below := VisitsAll(tree.children, base, profile);
      VisitsAllMatch(tree.children, base, profile);
      forall e | e in below
        ensures base <= e.path && |base| < |e.path|
      {
        VisitsAllExactly(tree.children, base, e, profile);
      }
      MatchDirectory(below, base);
    }
  }

  lemma {:induction false} VisitsAllMatch(children: seq<Child>, base: Path, profile: Profile)
    requires base != [] && AreSiblings(children)
    ensures DirectoriesMatch(VisitsAll(children, base, profile))
    decreases children, 0
  {
    if children != [] {
      hide Visits, DirectoriesMatch;
      var front, last := children[..|children| - 1], children[|children| - 1];
      VisitsAllMatch(front, base, profile);
      VisitsMatch(last.tree, base + [last.name], profile);
      SiblingsAreApart(front, last, base, profile);
      MatchConcat(VisitsAll(front, base, profile), Visits(last.tree, base + [last.name], profile));
    }
  }

  lemma SiblingsAreApart(front: seq<Child>, last: Child, base: Path, profile: Profile)
    requires base != [] && AreSiblings(front) && ChildNamed(front, last.name).None?
    ensures Apart(VisitsAll(front, base, profile), Visits(last.tree, base + [last.name], profile))
  {
    hide Visits;
    var path := base + [last.name];
    forall d, e | d in VisitsAll(front, base, profile) && e in Visits(last.tree, path, profile)
      ensures !(d.path <= e.path) && !(e.path <= d.path)
    {
      VisitsAllExactly(front, base, d, profile);
      VisitsHavePaths(last.tree, path, profile);
      OneComponentMore(base, last.name, e.path);
      assert d.path[|base|] != e.path[|base|];
    }
  }

  lemma InputMatches(name: string, disk: Disk, profile: Profile)
    requires IsFileDisk(disk)
    ensures DirectoriesMatch(InputEvents(name, disk, profile))
    ensures forall e :: e in InputEvents(name, disk, profile) ==> e.path != [] && e.path[0] == name
  {
    hide Visits;
    VisitsMatch(Lookup(disk, name), [name], profile);
    VisitsHavePaths(Lookup(disk, name), [name], profile);
  }

  /** Each directory's bytes are those of the archived files below it. */
  lemma {:induction false} DirectoriesHoldTheirFiles(names: seq<string>, disk: Disk, profile: Profile)
    requires IsFileDisk(disk) && StableSort.AllDistinct(names)
    ensures DirectoriesMatch(PlanEvents(names, disk, profile))
  {
    hide InputEvents, BytesUnder;
    if names != [] {
      var front, last := names[..|names| - 1], names[|names| - 1];
      DirectoriesHoldTheirFiles(front, disk, profile);
      InputMatches(last, disk, profile);
      forall d, e | d in PlanEvents(front, disk, profile) && e in InputEvents(last, disk, profile)
        ensures !(d.path <= e.path) && !(e.path <= d.path)
      {
        PlanByInput(front, disk, d, profile);
        assert d.path[0] != e.path[0];
      }
      MatchConcat(PlanEvents(front, disk, profile), InputEvents(last, disk, profile));
    }
  }

  // ---- Subtree groups ----

  /** The files recorded whose group is `group`, as a total. */
  function GroupTotals(events: seq<Event>, group: Path, profile: Profile): Totals
    requires HavePaths(events)
  {
    if events == [] then NOTHING else
    var last := events[|events| - 1];
    var before := GroupTotals(events[..|events| - 1], group, profile);
    if last.FileEvent? && PayloadSubtreePath(last.path, profile) == group then Plus(before, TotalOf(last)) else before
  }

  /** The group's entry, or nothing counted. */
  function GroupOf(groups: seq<Subtree>, group: Path): Totals {
    if groups == [] then NOTHING
    else if groups[0].path == group then Totals(groups[0].bytes, groups[0].files, 0, 0)
    else GroupOf(groups[1..], group)
  }

  lemma {:induction false} GroupAfterAdd(groups: seq<Subtree>, path: Path, bytes: nat, group: Path)
    ensures GroupOf(AddToSubtree(groups, path, bytes), group) ==
            if group == path then Plus(GroupOf(groups, group), Totals(bytes, 1, 0, 0)) else GroupOf(groups, group)
  {
    if groups != [] && groups[0].path != path {
      GroupAfterAdd(groups[1..], path, bytes, group);
    }
  }

  /** Each subtree entry counts exactly the archived files that belong to it. */
  lemma {:induction false} SubtreesCountTheirFiles(events: seq<Event>, group: Path, profile: Profile)
    requires HavePaths(events)
    ensures GroupOf(SubtreesOf(events, profile), group) == GroupTotals(events, group, profile)
  {
    hide PayloadSubtreePath;
    if events != [] {
      var front, last := events[..|events| - 1], events[|events| - 1];
      assert events == front + [last];
      SubtreesCountTheirFiles(front, group, profile);
      if last.FileEvent? {
        GroupAfterAdd(SubtreesOf(front, profile), PayloadSubtreePath(last.path, profile), last.size, group);
      }
    }
  }

  /** A group is the path's own front: of three components in a private zccache session, else of one or two. */
  lemma SubtreeIsFront(path: Path, profile: Profile)
    requires path != []
    ensures PayloadSubtreePath(path, profile) ==
            path[..if profile.ZccacheBuildCache? && path[0] == "zccache" && |path| >= 3 && path[1] == "private" then 3
                   else if |path| >= 3 then 2 else 1]
  {
    if path[0] == ZCCACHE {
      assert path[..1] == [ZCCACHE];
    }
  }

  // ---- Skips by reason ----

  /** The texts of the nodes skipped for a reason, in order. */
  function SkippedTexts(events: seq<Event>, reason: Reason): seq<string> {
    if events == [] then [] else
    var last := events[|events| - 1];
    var before := SkippedTexts(events[..|events| - 1], reason);
    if last.SkipEvent? && last.reason == reason then before + [Text(last.path)] else before
  }

  /** The summary of a reason; nothing counted if there is none. */
  function SummaryOf(skipped: seq<SkipSummary>, reason: Reason): SkipSummary {
    if skipped == [] then SkipSummary(reason, 0, [])
    else if skipped[0].reason == reason then skipped[0]
    else SummaryOf(skipped[1..], reason)
  }

  lemma {:induction false} SummaryAfterAdd(skipped: seq<SkipSummary>, added: Reason, sample: string, reason: Reason)
    ensures var before := SummaryOf(skipped, reason);
            SummaryOf(AddSkipTo(skipped, added, sample), reason) ==
            if added != reason then before
            else SkipSummary(reason, before.count + 1,
                             if |before.samples| < MAX_SKIP_SAMPLES then before.samples + [sample] else before.samples)
  {
    if skipped != [] && skipped[0].reason != added {
      SummaryAfterAdd(skipped[1..], added, sample, reason);
    }
  }

  /** Each reason's count is the number of nodes skipped for it, and its samples are the first eight of them. */
  lemma {:induction false} SkipsCountByReason(events: seq<Event>, reason: Reason)
    ensures var texts := SkippedTexts(events, reason);
            SummaryOf(SkippedOf(events), reason) ==
            SkipSummary(reason, |texts|, texts[..Min(MAX_SKIP_SAMPLES, |texts|)])
  {
    hide Text;
    if events != [] {
      var front, last := events[..|events| - 1], events[|events| - 1];
      SkipsCountByReason(front, reason);
      if last.SkipEvent? {
        SummaryAfterAdd(SkippedOf(front), last.reason, Text(last.path), reason);
        var texts := SkippedTexts(front, reason);
        hide SkippedTexts, SkippedOf, SummaryOf, AddSkipTo;
        SampleStep(texts, Text(last.path));
      }
    }
  }

  lemma SampleStep(texts: seq<string>, text: string)
    ensures var samples := texts[..Min(MAX_SKIP_SAMPLES, |texts|)];
            (texts + [text])[..Min(MAX_SKIP_SAMPLES, |texts| + 1)] ==
            if |samples| < MAX_SKIP_SAMPLES then samples + [text] else samples
  {
  }

  // ---- The build-cache file classes ----

  /** In an artifacts directory nothing is turned away as a diagnostic file, only as transient or as a log directory. */
  lemma ArtifactsKeepDiagnostics(path: Path)
    requires var parts := LowerParts(path);
             |parts| >= 2 && parts[0] == ZCCACHE &&
             (parts[1] == ARTIFACTS || (parts[1] == PRIVATE && |parts| >= 4 && parts[3] == ARTIFACTS))
    ensures Passes(path, ZccacheBuildCache) <==>
            !HasManifestUnsafeName(path) && ReasonForTransientBasename(path[|path| - 1]).None? && LOGS !in LowerParts(path)
  {
    hide ToLower, ZCCACHE, ARTIFACTS, PRIVATE, LOGS, ReasonForTransientBasename, HasManifestUnsafeName, EndsWithAny;
    assert LowerParts(path)[1] == LOGS ==> LOGS in LowerParts(path);
  }

  /** Under a `zccache` root the save profile archives nothing below a `logs` component, at any depth. */
  lemma LogsAreNeverArchived(names: seq<string>, disk: Disk, path: Path)
    requires IsArchived(names, disk, path, ZccacheBuildCache) && ToLower(path[0]) == ZCCACHE
    ensures LOGS !in LowerParts(path)
  {
    hide ToLower, ZCCACHE, LOGS, ReasonForTransientBasename, HasManifestUnsafeName, EndsWithAny, NodeAt;
    assert path[..|path|] == path;
    assert Passes(path, ZccacheBuildCache);
    assert LowerParts(path)[0] == ToLower(path[0]);
  }
}
