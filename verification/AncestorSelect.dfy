/** Choosing the nearest cleanly saved ancestor cache among the listed entries. */
module AncestorSelect {
  import opened Common
  import opened AncestorKey
  import StableSort

  datatype Entry = Entry(id: int, key: string, ref: string, createdAt: string)
  datatype Ranked = Ranked(entry: Entry, key: Key, distance: nat)

  /** `entry` and `distance` are null together; `failed` is the legacy fallback. */
  datatype Selection = Selection(choice: Option<Ranked>, failed: bool, inspected: nat)

  /**
   A backend that answers as a fixed function. `newer` stands for `localeCompare` on
   timestamps: a larger stamp sorts later.
   */
  datatype Backend = Backend(distance: string -> Result<Option<int>>,
                             cleanSave: (Entry, Key) -> Result<bool>,
                             stamp: string -> int)

  const MAX_LISTED: nat := 600
  const MAX_INSPECTED: nat := 200
  const MAX_DISTANCE: nat := 200
  const MAX_TRIED: nat := 20
  const PULL: string := "refs/pull/"
  const MERGE: string := "/merge"

  // ---- Which entries are candidates ----

  /** The pull request number of a `refs/pull/N/merge` ref. */
  function PullRequestOf(ref: string): Option<int> {
    var rest :- After(ref, PULL);
    var n := Run(rest, IsDigit);
    if IsPositiveNumeral(rest[..n]) && rest[n..] == MERGE then Some(NumeralValue(rest[..n])) else None
  }

  function Candidate(identity: string, refs: seq<string>, entry: Entry): Option<Key> {
    var key :- ParseAncestorKey(entry.key);
    if key.identity == identity && entry.ref in refs && entry.id > 0 && key.pr == PullRequestOf(entry.ref)
    then Some(key) else None
  }

  predicate IsCandidate(identity: string, refs: seq<string>, entry: Entry) {
    Candidate(identity, refs, entry).Some?
  }

  /** The ranked form of a candidate whose distance is known and in range. */
  function Rank(identity: string, refs: seq<string>, backend: Backend, entry: Entry): Option<Ranked> {
    var key :- Candidate(identity, refs, entry);
    match backend.distance(key.sha)
    case Success(Some(d)) => if 0 <= d <= MAX_DISTANCE then Some(Ranked(entry, key, d)) else None
    case _ => None
  }

  // ---- The order of preference ----

  /** Nearer first, then newer, then the higher id. */
  predicate Precedes(backend: Backend, a: Ranked, b: Ranked) {
    || a.distance < b.distance
    || (a.distance == b.distance
        && (|| backend.stamp(a.entry.createdAt) > backend.stamp(b.entry.createdAt)
            || (backend.stamp(a.entry.createdAt) == backend.stamp(b.entry.createdAt) && a.entry.id > b.entry.id)))
  }

  lemma PrecedesIsStrictOrder(backend: Backend, a: Ranked, b: Ranked, c: Ranked)
    ensures Precedes(backend, a, b) ==> !Precedes(backend, b, a)
    ensures !Precedes(backend, a, b) && !Precedes(backend, b, c) ==> !Precedes(backend, a, c)
    ensures a.entry.id != b.entry.id ==> Precedes(backend, a, b) || Precedes(backend, b, a)
  {
  }

  function Sort(backend: Backend, xs: seq<Ranked>): (ys: seq<Ranked>)
    ensures multiset(ys) == multiset(xs)
  {
    StableSort.Sort((a, b) => Precedes(backend, a, b), xs)
  }

  lemma SortSorts(backend: Backend, xs: seq<Ranked>)
    ensures var ys := Sort(backend, xs);
            forall i, j :: 0 <= i < j < |ys| ==> !Precedes(backend, ys[j], ys[i])
  {
    hide Precedes;
    var before := (a, b) => Precedes(backend, a, b);
    forall a, b, c
      ensures before(a, b) ==> !before(b, a)
      ensures !before(a, b) && !before(b, c) ==> !before(a, c)
    {
      PrecedesIsStrictOrder(backend, a, b, c);
    }
    StableSort.SortOrders(before, xs);
    assert |multiset(Sort(backend, xs))| == |multiset(xs)|;
  }

  // ---- Selection ----

  function CandidatesOf(identity: string, refs: seq<string>, entries: seq<Entry>): seq<Entry> {
    if entries == [] then []
    else
      var rest := CandidatesOf(identity, refs, entries[..|entries| - 1]);
      var last := entries[|entries| - 1];
      if IsCandidate(identity, refs, last) then rest + [last] else rest
  }

  function RankedOf(identity: string, refs: seq<string>, backend: Backend, entries: seq<Entry>): seq<Ranked> {
    if entries == [] then []
    else
      var rest := RankedOf(identity, refs, backend, entries[..|entries| - 1]);
      match Rank(identity, refs, backend, entries[|entries| - 1])
      case None => rest
      case Some(r) => rest + [r]
  }

  lemma {:induction false} RankedMembers(identity: string, refs: seq<string>, backend: Backend,
                                         entries: seq<Entry>, r: Ranked)
    ensures r in RankedOf(identity, refs, backend, entries) <==>
            r.entry in entries && Rank(identity, refs, backend, r.entry) == Some(r)
  {
    if entries != [] {
      var front, last := entries[..|entries| - 1], entries[|entries| - 1];
      assert entries == front + [last];
      RankedMembers(identity, refs, backend, front, r);
      RankKeepsEntry(identity, refs, backend, last);
    }
  }

  lemma RankKeepsEntry(identity: string, refs: seq<string>, backend: Backend, entry: Entry)
    ensures Rank(identity, refs, backend, entry).Some? ==>
            Rank(identity, refs, backend, entry).value.entry == entry
  {
  }

  /** The scan fails on too many entries or candidates, or on any candidate's distance error. */
  predicate ScanFails(identity: string, refs: seq<string>, backend: Backend, entries: seq<Entry>) {
    || |entries| > MAX_LISTED
    || |CandidatesOf(identity, refs, entries)| > MAX_INSPECTED
    || exists e :: e in entries && DistanceFails(identity, refs, backend, e)
  }

  predicate DistanceFails(identity: string, refs: seq<string>, backend: Backend, entry: Entry) {
    IsCandidate(identity, refs, entry) && backend.distance(Candidate(identity, refs, entry).value.sha).Failure?
  }

  /** The first clean one, unless an earlier one's proof lookup fails. */
  function FirstClean(backend: Backend, tried: seq<Ranked>): Result<Option<Ranked>> {
    if tried == [] then Success(None)
    else
      match backend.cleanSave(tried[0].entry, tried[0].key)
      case Failure => Failure
      case Success(clean) => if clean then Success(Some(tried[0])) else FirstClean(backend, tried[1..])
  }

  /** How many proof lookups `FirstClean` makes. */
  function Tries(backend: Backend, tried: seq<Ranked>): nat {
    if tried == [] then 0
    else if backend.cleanSave(tried[0].entry, tried[0].key) == Success(false) then 1 + Tries(backend, tried[1..])
    else 1
  }

  function Best(backend: Backend, ranked: seq<Ranked>): seq<Ranked> {
    var sorted := Sort(backend, ranked);
    sorted[..Min(MAX_TRIED, |sorted|)]
  }

  function Choose(identity: string, refs: seq<string>, backend: Backend, entries: seq<Entry>): Result<Option<Ranked>> {
    if ScanFails(identity, refs, backend, entries) then Failure
    else FirstClean(backend, Best(backend, RankedOf(identity, refs, backend, entries)))
  }

  lemma {:induction false} CandidatesGrow(identity: string, refs: seq<string>, entries: seq<Entry>, n: nat)
    requires n <= |entries|
    ensures |CandidatesOf(identity, refs, entries[..n])| <= |CandidatesOf(identity, refs, entries)|
    decreases |entries|
  {
    if n < |entries| {
      assert entries[..|entries| - 1][..n] == entries[..n];
      CandidatesGrow(identity, refs, entries[..|entries| - 1], n);
    } else {
      assert entries[..n] == entries;
    }
  }

  lemma ScanStart(identity: string, refs: seq<string>, backend: Backend, entries: seq<Entry>)
    ensures CandidatesOf(identity, refs, entries[..0]) == []
    ensures RankedOf(identity, refs, backend, entries[..0]) == []
  {
  }

  /** What one listed entry adds to the scan. */
  lemma ScanStep(identity: string, refs: seq<string>, backend: Backend, entries: seq<Entry>, i: nat)
    requires i < |entries|
    ensures CandidatesOf(identity, refs, entries[..i + 1]) ==
            CandidatesOf(identity, refs, entries[..i])
            + if Candidate(identity, refs, entries[i]).Some? then [entries[i]] else []
    ensures RankedOf(identity, refs, backend, entries[..i + 1]) ==
            RankedOf(identity, refs, backend, entries[..i])
            + match Rank(identity, refs, backend, entries[i]) { case None => [] case Some(r) => [r] }
  {
    assert entries[..i + 1][..i] == entries[..i];
  }

  lemma TryStep(backend: Backend, best: seq<Ranked>, k: nat)
    requires k < |best|
    ensures FirstClean(backend, best[k..]) ==
            match backend.cleanSave(best[k].entry, best[k].key)
            case Failure => Failure
            case Success(clean) => if clean then Success(Some(best[k])) else FirstClean(backend, best[k + 1..])
    ensures Tries(backend, best[k..]) ==
            if backend.cleanSave(best[k].entry, best[k].key) == Success(false) then 1 + Tries(backend, best[k + 1..])
            else 1
  {
    assert best[k..][1..] == best[k + 1..];
  }

  lemma TryEnd(backend: Backend, best: seq<Ranked>)
    ensures best[0..] == best && FirstClean(backend, best[|best|..]) == Success(None)
    ensures Tries(backend, best[|best|..]) == 0
  {
  }

  // ---- A backend with a budget ----

  /** How many lookups a scan that succeeds makes, and the tries after it. */
  function Lookups(identity: string, refs: seq<string>, backend: Backend, entries: seq<Entry>): nat {
    |CandidatesOf(identity, refs, entries)| + Tries(backend, Best(backend, RankedOf(identity, refs, backend, entries)))
  }

  /** Some lookup numbered from `lo` and below `hi` is refused. */
  ghost predicate RefusesIn(refuses: nat -> bool, lo: nat, hi: nat) {
    exists n: nat :: lo <= n < hi && refuses(n)
  }

  /** The scan fails by itself or on a refused lookup. */
  ghost predicate ScanBreaks(identity: string, refs: seq<string>, backend: Backend, refuses: nat -> bool,
                             entries: seq<Entry>)
  {
    || ScanFails(identity, refs, backend, entries)
    || RefusesIn(refuses, 0, |CandidatesOf(identity, refs, entries)|)
  }

  /** The selection fails by itself or on a refused lookup. */
  ghost predicate SelectionBreaks(identity: string, refs: seq<string>, backend: Backend, refuses: nat -> bool,
                                  entries: seq<Entry>)
  {
    || Choose(identity, refs, backend, entries).Failure?
    || RefusesIn(refuses, 0, Lookups(identity, refs, backend, entries))
  }

  /** The scan ends in an error at entry `i`, if it gets there. */
  predicate StopsAt(identity: string, refs: seq<string>, backend: Backend, refuses: nat -> bool,
                    entries: seq<Entry>, i: nat)
    requires i < |entries|
  {
    var before := |CandidatesOf(identity, refs, entries[..i])|;
    && IsCandidate(identity, refs, entries[i])
    && (before == MAX_INSPECTED || refuses(before) || DistanceFails(identity, refs, backend, entries[i]))
  }

  /** What a failed scan has inspected: the candidates up to the first entry it stops at. */
  ghost predicate InspectedUpToStop(identity: string, refs: seq<string>, backend: Backend, refuses: nat -> bool,
                                    entries: seq<Entry>, inspected: nat)
  {
    if |entries| > MAX_LISTED then inspected == 0
    else
      exists i: nat ::
        && i < |entries| && StopsAt(identity, refs, backend, refuses, entries, i)
        && inspected == |CandidatesOf(identity, refs, entries[..i + 1])|
        && forall j: nat :: j < i ==> !StopsAt(identity, refs, backend, refuses, entries, j)
  }

  /**
   The listing loop: collect the ranked candidates, counting those inspected. Lookup `n`
   of a selection is turned down where `refuses(n)`.
   */
  method Scan(identity: string, refs: seq<string>, entries: seq<Entry>, backend: Backend, refuses: nat -> bool)
    returns (failed: bool, ranked: seq<Ranked>, inspected: nat)
    ensures failed <==> ScanBreaks(identity, refs, backend, refuses, entries)
    ensures !failed ==> ranked == RankedOf(identity, refs, backend, entries)
    ensures !failed ==> inspected == |CandidatesOf(identity, refs, entries)| <= MAX_INSPECTED
    ensures failed ==> InspectedUpToStop(identity, refs, backend, refuses, entries, inspected)
  {
    hide Candidate, CandidatesOf, RankedOf;
    ScanStart(identity, refs, backend, entries);
    failed, inspected, ranked := true, 0, [];
    if |entries| > MAX_LISTED {
      return;
    }
    var i := 0;
    while i < |entries|
      invariant 0 <= i <= |entries|
      invariant inspected == |CandidatesOf(identity, refs, entries[..i])| <= MAX_INSPECTED
      invariant ranked == RankedOf(identity, refs, backend, entries[..i])
      invariant forall j :: 0 <= j < i ==> !DistanceFails(identity, refs, backend, entries[j])
      invariant !RefusesIn(refuses, 0, inspected)
      invariant forall j: nat :: j < i ==> !StopsAt(identity, refs, backend, refuses, entries, j)
    {
      ScanStep(identity, refs, backend, entries, i);
      CandidatesGrow(identity, refs, entries, i + 1);
      var entry := entries[i];
      var key := Candidate(identity, refs, entry);
      if key.Some? {
        inspected := inspected + 1;
        if inspected > MAX_INSPECTED {
          assert StopsAt(identity, refs, backend, refuses, entries, i);
          return;
        }
        if refuses(inspected - 1) {
          assert StopsAt(identity, refs, backend, refuses, entries, i);
          return;
        }
        var distance := backend.distance(key.value.sha);
        if distance.Failure? {
          assert DistanceFails(identity, refs, backend, entry);
          assert StopsAt(identity, refs, backend, refuses, entries, i);
          return;
        }
        if distance.value.Some? && 0 <= distance.value.value <= MAX_DISTANCE {
          ranked := ranked + [Ranked(entry, key.value, distance.value.value)];
        }
      }
      i := i + 1;
    }
    assert entries[..i] == entries;
    failed := false;
  }

  lemma RefusedSplit(refuses: nat -> bool, m: nat, n: nat)
    ensures RefusesIn(refuses, 0, m + n) <==> RefusesIn(refuses, 0, m) || RefusesIn(refuses, m, m + n)
  {
  }

  /** A selection fails in its scan or among its proof lookups, and otherwise finds `FirstClean`. */
  lemma SelectionDecides(identity: string, refs: seq<string>, backend: Backend, refuses: nat -> bool,
                         entries: seq<Entry>)
    ensures var best := Best(backend, RankedOf(identity, refs, backend, entries));
            var start := |CandidatesOf(identity, refs, entries)|;
            && (SelectionBreaks(identity, refs, backend, refuses, entries) <==>
                || ScanBreaks(identity, refs, backend, refuses, entries)
                || FirstClean(backend, best).Failure?
                || RefusesIn(refuses, start, start + Tries(backend, best)))
            && (!ScanBreaks(identity, refs, backend, refuses, entries) ==>
                Choose(identity, refs, backend, entries) == FirstClean(backend, best))
  {
    hide CandidatesOf, RankedOf, ScanFails, Best, FirstClean, Tries, RefusesIn;
    RefusedSplit(refuses, |CandidatesOf(identity, refs, entries)|,
                 Tries(backend, Best(backend, RankedOf(identity, refs, backend, entries))));
  }

  /** The proof loop over the best candidates, its lookups numbered from `start`. */
  method FindClean(backend: Backend, best: seq<Ranked>, start: nat, refuses: nat -> bool)
    returns (failed: bool, choice: Option<Ranked>)
    ensures failed <==> FirstClean(backend, best).Failure? || RefusesIn(refuses, start, start + Tries(backend, best))
    ensures if failed then choice == None else FirstClean(backend, best) == Success(choice)
  {
    hide FirstClean, Tries;
    TryEnd(backend, best);
    failed, choice := true, None;
    var k := 0;
    while k < |best|
      invariant 0 <= k <= |best|
      invariant FirstClean(backend, best) == FirstClean(backend, best[k..])
      invariant Tries(backend, best) == k + Tries(backend, best[k..])
      invariant !RefusesIn(refuses, start, start + k)
    {
      TryStep(backend, best, k);
      if refuses(start + k) {
        return;
      }
      var clean := backend.cleanSave(best[k].entry, best[k].key);
      if clean.Failure? {
        return;
      }
      if clean.value {
        return false, Some(best[k]);
      }
      k := k + 1;
    }
    failed := false;
  }

  /**
   What a selection over `entries` answers. A refused lookup can only cost the answer, never
   change it: an entry chosen is the choice of the backend without its budget.
   */
  ghost predicate IsSelection(identity: string, refs: seq<string>, backend: Backend, refuses: nat -> bool,
                              entries: seq<Entry>, sel: Selection)
  {
    && (sel.failed <==> SelectionBreaks(identity, refs, backend, refuses, entries))
    && (if sel.failed then sel.choice == None else Success(sel.choice) == Choose(identity, refs, backend, entries))
    && (if ScanBreaks(identity, refs, backend, refuses, entries)
        then InspectedUpToStop(identity, refs, backend, refuses, entries, sel.inspected)
        else sel.inspected == |CandidatesOf(identity, refs, entries)| <= MAX_INSPECTED)
  }

  method SelectListed(identity: string, refs: seq<string>, entries: seq<Entry>, backend: Backend,
                      refuses: nat -> bool) returns (sel: Selection)
    ensures IsSelection(identity, refs, backend, refuses, entries, sel)
  {
    hide Choose, CandidatesOf, RankedOf, ScanBreaks, SelectionBreaks, Best, FirstClean, Tries, InspectedUpToStop,
      RefusesIn;
    SelectionDecides(identity, refs, backend, refuses, entries);
    var failed, ranked, inspected := Scan(identity, refs, entries, backend, refuses);
    if failed {
      return Selection(None, true, inspected);
    }
    var lookupFailed, clean := FindClean(backend, Best(backend, ranked), inspected, refuses);
    return Selection(clean, lookupFailed, inspected);
  }

  method SelectAncestorCache(identity: string, refs: seq<string>, listing: Result<seq<Entry>>,
                             backend: Backend, refuses: nat -> bool) returns (sel: Selection)
    ensures if listing.Failure? then sel == Selection(None, true, 0)
            else IsSelection(identity, refs, backend, refuses, listing.value, sel)
  {
    if listing.Failure? {
      return Selection(None, true, 0);
    }
    sel := SelectListed(identity, refs, listing.value, backend, refuses);
  }

  // ---- What the choice means ----

  ghost predicate DistinctIds(entries: seq<Entry>) {
    forall i, j :: 0 <= i < j < |entries| ==> entries[i].id != entries[j].id
  }

  ghost predicate StrictlySorted(backend: Backend, xs: seq<Ranked>) {
    forall i, j :: 0 <= i < j < |xs| ==> Precedes(backend, xs[i], xs[j])
  }

  /** The ranked entries that must be tried, and found unclean, before `r`. */
  ghost function Ahead(backend: Backend, ranked: seq<Ranked>, r: Ranked): set<Ranked> {
    set x | x in ranked && Precedes(backend, x, r)
  }

  /** `r` is reached: it is ranked, fewer than 20 are ahead of it, and those are all unclean. */
  ghost predicate Tried(backend: Backend, ranked: seq<Ranked>, r: Ranked) {
    && r in ranked && |Ahead(backend, ranked, r)| < MAX_TRIED
    && forall x :: x in Ahead(backend, ranked, r) ==> backend.cleanSave(x.entry, x.key) == Success(false)
  }

  /** No two ranked entries share an id. */
  ghost predicate IdsOnce(rs: seq<Ranked>) {
    forall i, j :: 0 <= i < j < |rs| ==> rs[i].entry.id != rs[j].entry.id
  }

  lemma AppendIdOnce(rs: seq<Ranked>, r: Ranked)
    requires IdsOnce(rs) && forall x :: x in rs ==> x.entry.id != r.entry.id
    ensures IdsOnce(rs + [r])
  {
  }

  lemma {:induction false} RankedIdsDistinct(identity: string, refs: seq<string>, backend: Backend, entries: seq<Entry>)
    requires DistinctIds(entries)
    ensures IdsOnce(RankedOf(identity, refs, backend, entries))
  {
    if entries != [] {
      var front, last := entries[..|entries| - 1], entries[|entries| - 1];
      RankedIdsDistinct(identity, refs, backend, front);
      var rest := RankedOf(identity, refs, backend, front);
      RankKeepsEntry(identity, refs, backend, last);
      forall r | r in rest ensures r.entry.id != last.id {
        RankedMembers(identity, refs, backend, front, r);
      }
      var rank := Rank(identity, refs, backend, last);
      if rank.Some? {
        AppendIdOnce(rest, rank.value);
      }
    }
  }

  lemma RemoveIdOnce(xs: seq<Ranked>, k: nat)
    requires k < |xs| && IdsOnce(xs)
    ensures IdsOnce(xs[..k] + xs[k + 1..])
    ensures forall x :: x in xs[..k] + xs[k + 1..] ==> x.entry.id != xs[k].entry.id
    ensures multiset(xs) == multiset(xs[..k] + xs[k + 1..]) + multiset{xs[k]}
  {
    assert xs == xs[..k] + [xs[k]] + xs[k + 1..];
  }

  lemma TakeMember(xs: seq<Ranked>, x: Ranked) returns (rest: seq<Ranked>)
    requires x in xs && IdsOnce(xs)
    ensures IdsOnce(rest) && multiset(rest) == multiset(xs) - multiset{x}
    ensures forall y :: y in rest ==> y.entry.id != x.entry.id
  {
    var k :| 0 <= k < |xs| && xs[k] == x;
    hide IdsOnce;
    RemoveIdOnce(xs, k);
    rest := xs[..k] + xs[k + 1..];
  }

  lemma FrontMembers(ys: seq<Ranked>)
    requires ys != []
    ensures multiset(ys[..|ys| - 1]) == multiset(ys) - multiset{ys[|ys| - 1]}
  {
    assert ys == ys[..|ys| - 1] + [ys[|ys| - 1]];
  }

  lemma {:induction false} SameMembersSameIds(xs: seq<Ranked>, ys: seq<Ranked>)
    requires multiset(xs) == multiset(ys) && IdsOnce(xs)
    ensures IdsOnce(ys)
    decreases |ys|
  {
    if ys != [] {
      hide IdsOnce;
      var front, last := ys[..|ys| - 1], ys[|ys| - 1];
      StableSort.SameMembers(xs, ys);
      var rest := TakeMember(xs, last);
      FrontMembers(ys);
      SameMembersSameIds(rest, front);
      StableSort.SameMembers(rest, front);
      AppendIdOnce(front, last);
      assert ys == front + [last];
    } else {
      assert IdsOnce(ys);
    }
  }

  lemma SortIsStrict(backend: Backend, ranked: seq<Ranked>)
    requires IdsOnce(ranked)
    ensures StrictlySorted(backend, Sort(backend, ranked))
    ensures forall r :: r in ranked <==> r in Sort(backend, ranked)
  {
    var sorted := Sort(backend, ranked);
    SortSorts(backend, ranked);
    SameMembersSameIds(ranked, sorted);
    StableSort.SameMembers(ranked, sorted);
    forall i, j | 0 <= i < j < |sorted| ensures Precedes(backend, sorted[i], sorted[j]) {
      PrecedesIsStrictOrder(backend, sorted[i], sorted[j], sorted[i]);
    }
  }

  /** In a strict order the entries ahead of position `k` are exactly the first `k`. */
  lemma AheadInOrder(backend: Backend, ranked: seq<Ranked>, sorted: seq<Ranked>, k: nat)
    requires StrictlySorted(backend, sorted) && k < |sorted|
    requires forall r :: r in ranked <==> r in sorted
    ensures Ahead(backend, ranked, sorted[k]) == set i | 0 <= i < k :: sorted[i]
    ensures |Ahead(backend, ranked, sorted[k])| == k
  {
    var first := set i | 0 <= i < k :: sorted[i];
    forall x | x in Ahead(backend, ranked, sorted[k]) ensures x in first {
      var j :| 0 <= j < |sorted| && sorted[j] == x;
      PrecedesIsStrictOrder(backend, sorted[j], sorted[k], x);
      PrecedesIsStrictOrder(backend, sorted[k], sorted[j], x);
    }
    var front := sorted[..k];
    assert first == set x | x in front;
    StableSort.DistinctSize(front);
  }

  /** The scan stops at the first entry whose answer is not a plain no. */
  lemma {:induction false} FirstCleanStops(backend: Backend, tried: seq<Ranked>) returns (k: nat)
    ensures k <= |tried|
    ensures forall i :: 0 <= i < k ==> backend.cleanSave(tried[i].entry, tried[i].key) == Success(false)
    ensures k == |tried| ==> FirstClean(backend, tried) == Success(None)
    ensures k < |tried| ==>
        var answer := backend.cleanSave(tried[k].entry, tried[k].key);
        && (answer.Failure? || answer == Success(true))
        && FirstClean(backend, tried) == if answer.Failure? then Failure else Success(Some(tried[k]))
  {
    if tried == [] {
      return 0;
    }
    var answer := backend.cleanSave(tried[0].entry, tried[0].key);
    if answer.Failure? || answer.value {
      k := 0;
    } else {
      var rest := FirstCleanStops(backend, tried[1..]);
      k := rest + 1;
    }
  }

  /**
   The choice, said without a sort: a clean ranked entry with fewer than 20 ahead of it, all
   of those unclean. It fails exactly when the scan does or when a tried proof lookup does.
   */
  lemma ChooseIsNearestClean(identity: string, refs: seq<string>, backend: Backend, entries: seq<Entry>, r: Ranked)
    requires DistinctIds(entries)
    ensures var ranked := RankedOf(identity, refs, backend, entries);
            var chosen := Choose(identity, refs, backend, entries);
            && (chosen == Success(Some(r)) <==>
                  && !ScanFails(identity, refs, backend, entries)
                  && Tried(backend, ranked, r) && backend.cleanSave(r.entry, r.key) == Success(true))
            && (chosen.Failure? <==>
                  || ScanFails(identity, refs, backend, entries)
                  || exists x :: Tried(backend, ranked, x) && backend.cleanSave(x.entry, x.key).Failure?)
  {
    if !ScanFails(identity, refs, backend, entries) {
      hide ScanFails, RankedOf, Precedes, FirstClean, Sort;
      var ranked := RankedOf(identity, refs, backend, entries);
      RankedIdsDistinct(identity, refs, backend, entries);
      SortIsStrict(backend, ranked);
      BestDecides(backend, ranked, r);
    }
  }

  /** An entry is tried exactly when it is at a position no earlier than where the scan stops. */
  lemma TriedByPosition(backend: Backend, ranked: seq<Ranked>, k: nat)
    requires StrictlySorted(backend, Sort(backend, ranked))
    requires forall r :: r in ranked <==> r in Sort(backend, ranked)
    requires k < |Sort(backend, ranked)|
    ensures var sorted := Sort(backend, ranked);
            Tried(backend, ranked, sorted[k]) <==>
            k < MAX_TRIED && forall i :: 0 <= i < k ==>
              backend.cleanSave(sorted[i].entry, sorted[i].key) == Success(false)
  {
    var sorted := Sort(backend, ranked);
    AheadInOrder(backend, ranked, sorted, k);
    hide Precedes, Sort;
    forall i | 0 <= i < k ensures sorted[i] in Ahead(backend, ranked, sorted[k]) {
    }
  }

  lemma BestDecides(backend: Backend, ranked: seq<Ranked>, r: Ranked)
    requires StrictlySorted(backend, Sort(backend, ranked))
    requires forall x :: x in ranked <==> x in Sort(backend, ranked)
    ensures var chosen := FirstClean(backend, Best(backend, ranked));
            && (chosen == Success(Some(r)) <==>
                  Tried(backend, ranked, r) && backend.cleanSave(r.entry, r.key) == Success(true))
            && (chosen.Failure? <==>
                  exists x :: Tried(backend, ranked, x) && backend.cleanSave(x.entry, x.key).Failure?)
  {
    hide Precedes, Sort, FirstClean;
    var sorted, best := Sort(backend, ranked), Best(backend, ranked);
    var k := FirstCleanStops(backend, best);
    var chosen := FirstClean(backend, best);
    forall x | Tried(backend, ranked, x)
      ensures k < |best| ==> x == best[k] || backend.cleanSave(x.entry, x.key) == Success(false)
      ensures k == |best| ==> backend.cleanSave(x.entry, x.key) == Success(false)
    {
      var j :| 0 <= j < |sorted| && sorted[j] == x;
      TriedByPosition(backend, ranked, j);
    }
    if k == |best| {
      assert chosen == Success(None);
      assert Tried(backend, ranked, r) ==> backend.cleanSave(r.entry, r.key) == Success(false);
    } else {
      TriedByPosition(backend, ranked, k);
      assert forall i :: 0 <= i < k ==> best[i] == sorted[i];
      assert best[k] == sorted[k] && Tried(backend, ranked, best[k]);
    }
  }

  /** Listing the same entries in another order changes neither the entry nor the distance. */
  lemma ChoiceIgnoresListingOrder(identity: string, refs: seq<string>, backend: Backend,
                                  entries: seq<Entry>, reordered: seq<Entry>)
    requires DistinctIds(entries) && DistinctIds(reordered)
    requires forall e :: e in entries <==> e in reordered
    ensures Choose(identity, refs, backend, entries) == Choose(identity, refs, backend, reordered)
  {
    var xs := RankedOf(identity, refs, backend, entries);
    var ys := RankedOf(identity, refs, backend, reordered);
    forall r ensures r in xs <==> r in ys {
      RankedMembers(identity, refs, backend, entries, r);
      RankedMembers(identity, refs, backend, reordered, r);
    }
    RankedIdsDistinct(identity, refs, backend, entries);
    RankedIdsDistinct(identity, refs, backend, reordered);
    SortIsStrict(backend, xs);
    SortIsStrict(backend, ys);
    var before := (a, b) => Precedes(backend, a, b);
    forall a, b ensures before(a, b) ==> !before(b, a) {
      PrecedesIsStrictOrder(backend, a, b, a);
    }
    StableSort.StrictlyIsUnique(before, Sort(backend, xs), Sort(backend, ys));
    SameCounts(identity, refs, entries, reordered);
  }

  lemma {:induction false} CandidatesDistinct(identity: string, refs: seq<string>, entries: seq<Entry>)
    requires DistinctIds(entries)
    ensures DistinctIds(CandidatesOf(identity, refs, entries))
    ensures forall e :: e in CandidatesOf(identity, refs, entries) <==>
                        e in entries && IsCandidate(identity, refs, e)
  {
    hide IsCandidate;
    if entries != [] {
      var front, last := entries[..|entries| - 1], entries[|entries| - 1];
      CandidatesDistinct(identity, refs, front);
      assert entries == front + [last];
      forall e | e in CandidatesOf(identity, refs, front) ensures e.id != last.id {
        assert e in front;
      }
    }
  }

  lemma SameCounts(identity: string, refs: seq<string>, entries: seq<Entry>, reordered: seq<Entry>)
    requires DistinctIds(entries) && DistinctIds(reordered)
    requires forall e :: e in entries <==> e in reordered
    ensures |entries| == |reordered|
    ensures |CandidatesOf(identity, refs, entries)| == |CandidatesOf(identity, refs, reordered)|
  {
    hide IsCandidate, CandidatesOf;
    var xs, ys := CandidatesOf(identity, refs, entries), CandidatesOf(identity, refs, reordered);
    CandidatesDistinct(identity, refs, entries);
    CandidatesDistinct(identity, refs, reordered);
    StableSort.DistinctSize(entries);
    StableSort.DistinctSize(reordered);
    StableSort.DistinctSize(xs);
    StableSort.DistinctSize(ys);
    assert (set e | e in entries) == (set e | e in reordered);
    assert (set e | e in xs) == (set e | e in ys);
  }
}
