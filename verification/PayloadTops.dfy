/** The largest files, directories and subtrees that a payload plan reports. */
module PayloadTops {
  import opened Common
  import opened CachePayload
  import opened PayloadCensus
  import StableSort

  const DEFAULT_PAYLOAD_TOP_N: nat := 10

  /** `None` stands for a length that is missing or not finite. */
  function NormalizeTopN(value: Option<real>): (n: nat)
    ensures n <= 50
    ensures value.None? ==> n == 10
    ensures value.Some? && value.value >= 50.0 ==> n == 50
    ensures value.Some? && 0.0 <= value.value < 51.0 ==> n as real <= value.value < n as real + 1.0
    ensures value.Some? && value.value < 0.0 ==> n == 0
  {
    if value.None? then DEFAULT_PAYLOAD_TOP_N
    else if value.value.Floor < 0 then 0 else Min(50, value.value.Floor)
  }

  /** Larger first; `collate` stands for `localeCompare`, which may put different texts level. */
  predicate EntryBefore(collate: string -> int, a: Entry, b: Entry) {
    a.bytes > b.bytes || (a.bytes == b.bytes && collate(a.path) < collate(b.path))
  }

  /** Larger first, then more files. */
  predicate SubtreeBefore(collate: string -> int, a: Subtree, b: Subtree) {
    || a.bytes > b.bytes
    || (a.bytes == b.bytes
        && (a.files > b.files || (a.files == b.files && collate(Text(a.path)) < collate(Text(b.path)))))
  }

  function Top<T>(before: (T, T) -> bool, xs: seq<T>, n: nat): seq<T> {
    var sorted := StableSort.Sort(before, xs);
    sorted[..Min(n, |sorted|)]
  }

  /** What is first by `before` among the `n` kept, said without the sort. */
  ghost predicate IsTop<T(!new)>(before: (T, T) -> bool, xs: seq<T>, n: nat, top: seq<T>) {
    && |top| == Min(n, |xs|)
    && StableSort.Ordered(before, top)
    && (forall e :: e in top ==> e in xs && |set x | x in xs && before(x, e)| < n)
    && (forall e :: e in xs && |set x | x in xs && !before(e, x)| <= n ==> e in top)
  }

  lemma TopIsTop<T(!new)>(before: (T, T) -> bool, xs: seq<T>, n: nat)
    requires StableSort.StrictWeakOrder(before) && StableSort.AllDistinct(xs)
    ensures IsTop(before, xs, n, Top(before, xs, n))
  {
    var sorted, top := StableSort.Sort(before, xs), Top(before, xs, n);
    assert |multiset(sorted)| == |multiset(xs)|;
    StableSort.SortOrders(before, xs);
    StableSort.SameMembers(xs, sorted);
    forall e | e in top ensures e in xs && |set x | x in xs && before(x, e)| < n {
      var k :| 0 <= k < |top| && top[k] == e;
      StableSort.PlaceIsBounded(before, xs, k);
    }
    forall e | e in xs && |set x | x in xs && !before(e, x)| <= n ensures e in top {
      var k :| 0 <= k < |sorted| && sorted[k] == e;
      StableSort.PlaceIsBounded(before, xs, k);
      assert top[k] == e;
    }
  }

  /** Where no two of the entries are level, membership is decided by how many are ahead. */
  lemma TopIff<T(!new)>(before: (T, T) -> bool, xs: seq<T>, n: nat, top: seq<T>, e: T)
    requires StableSort.StrictWeakOrder(before) && IsTop(before, xs, n, top) && e in xs
    requires forall x :: x in xs && x != e ==> before(x, e) || before(e, x)
    ensures e in top <==> |set x | x in xs && before(x, e)| < n
  {
    var ahead := set x | x in xs && before(x, e);
    assert (set x | x in xs && !before(e, x)) == ahead + {e};
  }

  // ---- The lists of a plan ----

  lemma {:induction false} ListsComeFromEvents(events: seq<Event>, entry: Entry)
    ensures entry in FilesOf(events) ==> exists e :: e in events && e.FileEvent? && entry.path == Text(e.path)
    ensures entry in DirectoriesOf(events) ==>
              exists e :: e in events && e.DirectoryEvent? && entry.path == Text(e.path)
  {
    hide Text;
    if events != [] {
      ListsComeFromEvents(events[..|events| - 1], entry);
      assert events == events[..|events| - 1] + [events[|events| - 1]];
    }
  }

  /** A newly recorded node is in neither list yet. */
  lemma RecordedIsNew(front: seq<Event>, last: Event, bytes: nat)
    requires HaveDistinctPaths(front + [last]) && RecordedAreNames(front + [last]) && !last.SkipEvent?
    ensures Entry(Text(last.path), bytes) !in FilesOf(front)
    ensures Entry(Text(last.path), bytes) !in DirectoriesOf(front)
  {
    hide Text, AreNames;
    var events := front + [last];
    assert events[|front|] == last;
    forall e | e in front && !e.SkipEvent? ensures Text(e.path) != Text(last.path) {
      var i :| 0 <= i < |front| && front[i] == e;
      assert events[i] == e && e in events;
      TextIsInjective(last.path, e.path);
    }
    ListsComeFromEvents(front, Entry(Text(last.path), bytes));
  }

  lemma {:induction false} ListsAreDistinct(events: seq<Event>)
    requires HaveDistinctPaths(events) && RecordedAreNames(events)
    ensures StableSort.AllDistinct(FilesOf(events)) && StableSort.AllDistinct(DirectoriesOf(events))
  {
    hide Text, AreNames;
    if events != [] {
      var front, last := events[..|events| - 1], events[|events| - 1];
      assert events == front + [last];
      ListsAreDistinct(front);
      if last.FileEvent? {
        RecordedIsNew(front, last, last.size);
      } else if last.DirectoryEvent? {
        RecordedIsNew(front, last, last.bytes);
      }
    }
  }

  ghost predicate GroupsAreDistinct(groups: seq<Subtree>) {
    forall i, j :: 0 <= i < j < |groups| ==> groups[i].path != groups[j].path
  }

  lemma {:induction false} AddKeepsGroupsDistinct(groups: seq<Subtree>, path: Path, bytes: nat)
    requires GroupsAreDistinct(groups)
    ensures GroupsAreDistinct(AddToSubtree(groups, path, bytes))
    ensures forall g :: g in AddToSubtree(groups, path, bytes) ==>
              g.path == path || exists h :: h in groups && h.path == g.path
  {
    if groups != [] && groups[0].path != path {
      AddKeepsGroupsDistinct(groups[1..], path, bytes);
      assert groups == [groups[0]] + groups[1..];
    }
  }

  lemma {:induction false} SubtreesAreDistinct(events: seq<Event>, profile: Profile)
    requires HavePaths(events)
    ensures GroupsAreDistinct(SubtreesOf(events, profile))
  {
    hide PayloadSubtreePath;
    if events != [] {
      var front, last := events[..|events| - 1], events[|events| - 1];
      assert events == front + [last];
      SubtreesAreDistinct(front, profile);
      if last.FileEvent? {
        AddKeepsGroupsDistinct(SubtreesOf(front, profile), PayloadSubtreePath(last.path, profile), last.size);
      }
    }
  }

  datatype Census = Census(totals: Totals, inputs: seq<string>, topFiles: seq<Entry>, topDirectories: seq<Entry>,
                           topSubtrees: seq<Subtree>, skipped: seq<SkipSummary>, manifestEntries: seq<string>)

  /**
   The lists hold the first of the recorded files, directories and groups; skip summaries are
   left in the order their reasons first came up.
   */
  method PlanTarPayload(inputBasenames: seq<string>, disk: Disk, profile: Profile, topN: Option<real>,
                        collate: string -> int) returns (census: Census)
    ensures var events := PlanEvents(Distinct(inputBasenames), disk, profile);
            var n := NormalizeTopN(topN);
            && HavePaths(events)
            && census.totals == TotalsOf(events) && census.inputs == Inputs(Distinct(inputBasenames))
            && census.manifestEntries == ManifestOf(events) && census.skipped == SkippedOf(events)
            && census.topFiles == Top((a, b) => EntryBefore(collate, a, b), FilesOf(events), n)
            && census.topDirectories == Top((a, b) => EntryBefore(collate, a, b), DirectoriesOf(events), n)
            && census.topSubtrees == Top((a, b) => SubtreeBefore(collate, a, b), SubtreesOf(events, profile), n)
  {
    var planner := new TarPlanner(profile);
    var totals, inputs := planner.Plan(inputBasenames, disk);
    var n := NormalizeTopN(topN);
    census := Census(totals, inputs,
                     Top((a, b) => EntryBefore(collate, a, b), planner.fileEntries, n),
                     Top((a, b) => EntryBefore(collate, a, b), planner.dirEntries, n),
                     Top((a, b) => SubtreeBefore(collate, a, b), planner.subtreeEntries, n),
                     planner.skipped, planner.manifestEntries);
  }

  /** On any disk, each list is the exact top of what the plan recorded. */
  lemma TopsAreExact(raw: seq<string>, disk: Disk, profile: Profile, collate: string -> int, n: nat)
    requires IsFileDisk(disk)
    ensures var events := PlanEvents(Distinct(raw), disk, profile);
            var entryBefore := (a, b) => EntryBefore(collate, a, b);
            var subtreeBefore := (a, b) => SubtreeBefore(collate, a, b);
            && HavePaths(events)
            && IsTop(entryBefore, FilesOf(events), n, Top(entryBefore, FilesOf(events), n))
            && IsTop(entryBefore, DirectoriesOf(events), n, Top(entryBefore, DirectoriesOf(events), n))
            && IsTop(subtreeBefore, SubtreesOf(events, profile), n, Top(subtreeBefore, SubtreesOf(events, profile), n))
  {
    var events := PlanEvents(Distinct(raw), disk, profile);
    DistinctHasNoDuplicates(raw);
    DistinctHasNoBlank(raw);
    PlanIsDistinct(Distinct(raw), disk, profile);
    PlanRecordsNames(Distinct(raw), disk, profile);
    ListsAreDistinct(events);
    forall e | e in events ensures e.path != [] {
      PlanExactly(Distinct(raw), disk, e, profile);
    }
    SubtreesAreDistinct(events, profile);
    EntryOrder(collate);
    SubtreeOrder(collate);
    var entryBefore := (a, b) => EntryBefore(collate, a, b);
    var subtreeBefore := (a, b) => SubtreeBefore(collate, a, b);
    TopIsTop(entryBefore, FilesOf(events), n);
    TopIsTop(entryBefore, DirectoriesOf(events), n);
    TopIsTop(subtreeBefore, SubtreesOf(events, profile), n);
  }

  /** In bytes: the list is in descending order, and nothing left out is larger than anything in it. */
  lemma TopEntriesAreLargest(entries: seq<Entry>, collate: string -> int, n: nat)
    ensures var top := Top((a, b) => EntryBefore(collate, a, b), entries, n);
            && (forall i, j :: 0 <= i < j < |top| ==>
                  top[i].bytes >= top[j].bytes &&
                  (top[i].bytes == top[j].bytes ==> collate(top[i].path) <= collate(top[j].path)))
            && (forall x, y :: x in top && y in entries && y !in top ==> x.bytes >= y.bytes)
  {
    EntryOrder(collate);
    var before := (a, b) => EntryBefore(collate, a, b);
    TopLeavesLater(before, entries, n);
    hide Top;
    var top := Top(before, entries, n);
    forall i, j | 0 <= i < j < |top|
      ensures !EntryBefore(collate, top[j], top[i])
    {
      assert !before(top[j], top[i]);
    }
    forall x, y | x in top && y in entries && y !in top
      ensures !EntryBefore(collate, y, x)
    {
      assert !before(y, x);
    }
  }

  /** And so for the subtrees, then by files. */
  lemma TopSubtreesAreLargest(groups: seq<Subtree>, collate: string -> int, n: nat)
    ensures var top := Top((a, b) => SubtreeBefore(collate, a, b), groups, n);
            && (forall i, j :: 0 <= i < j < |top| ==>
                  top[i].bytes >= top[j].bytes &&
                  (top[i].bytes == top[j].bytes ==>
                     top[i].files >= top[j].files &&
                     (top[i].files == top[j].files ==> collate(Text(top[i].path)) <= collate(Text(top[j].path)))))
            && (forall x, y :: x in top && y in groups && y !in top ==>
                  x.bytes >= y.bytes && (x.bytes == y.bytes ==> x.files >= y.files))
  {
    SubtreeOrder(collate);
    var before := (a, b) => SubtreeBefore(collate, a, b);
    TopLeavesLater(before, groups, n);
    hide Top, Text;
    var top := Top(before, groups, n);
    forall i, j | 0 <= i < j < |top|
      ensures !SubtreeBefore(collate, top[j], top[i])
    {
      assert !before(top[j], top[i]);
    }
    forall x, y | x in top && y in groups && y !in top
      ensures !SubtreeBefore(collate, y, x)
    {
      assert !before(y, x);
    }
  }

  lemma TopLeavesLater<T(!new)>(before: (T, T) -> bool, xs: seq<T>, n: nat)
    requires StableSort.StrictWeakOrder(before)
    ensures StableSort.Ordered(before, Top(before, xs, n))
    ensures forall x, y :: x in Top(before, xs, n) && y in xs && y !in Top(before, xs, n) ==> !before(y, x)
  {
    var sorted := StableSort.Sort(before, xs);
    StableSort.SortOrders(before, xs);
    StableSort.SameMembers(xs, sorted);
    var top := Top(before, xs, n);
    forall k | 0 <= k < |top|
      ensures sorted[k] in top
    {
      assert top[k] == sorted[k];
    }
    forall x, y | x in top && y in xs && y !in top
      ensures !before(y, x)
    {
      var i :| 0 <= i < |top| && top[i] == x;
      var j :| 0 <= j < |sorted| && sorted[j] == y;
      assert i < j;
    }
  }

  lemma EntryOrder(collate: string -> int)
    ensures StableSort.StrictWeakOrder((a, b) => EntryBefore(collate, a, b))
  {
  }

  lemma SubtreeOrder(collate: string -> int)
    ensures StableSort.StrictWeakOrder((a, b) => SubtreeBefore(collate, a, b))
  {
  }
}
