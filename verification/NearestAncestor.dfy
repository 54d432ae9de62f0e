/** What the selection means in the fields of the entries: which are candidates, and which one is chosen. */
module NearestAncestor {
  import opened Common
  import opened AncestorKey
  import opened AncestorSelect
  import StableSort

  // ---- Candidates ----

  /** The merge ref of pull request `n`. */
  predicate IsMergeRefOf(ref: string, n: int) { n > 0 && ref == "refs/pull/" + Numeral(n) + "/merge" }

  /** The number in a merge ref of a pull request, and only there. */
  lemma PullRequestIff(ref: string, n: int)
    ensures PullRequestOf(ref) == Some(n) <==> IsMergeRefOf(ref, n)
  {
    if n > 0 {
      NumberedRef(Numeral(n));
      ValueOfNumeral(n);
    }
    if PullRequestOf(ref) == Some(n) {
      var rest := ref[|PULL|..];
      var k := Run(rest, IsDigit);
      NumeralOfValue(rest[..k]);
      assert rest == rest[..k] + rest[k..];
      assert ref == PULL + rest;
    }
  }

  lemma NumberedRef(s: string)
    requires IsPositiveNumeral(s)
    ensures PullRequestOf("refs/pull/" + s + "/merge") == Some(NumeralValue(s))
  {
    var ref := "refs/pull/" + s + "/merge";
    var rest := s + MERGE;
    assert ref == PULL + rest;
    assert ref[|PULL|..] == rest;
    RunOfPrefix(s, MERGE, IsDigit);
    assert rest[..|s|] == s && rest[|s|..] == MERGE;
  }

  /** The ref is of this pull request, or of none. */
  ghost predicate IsRefOf(ref: string, pr: Option<int>) {
    if pr.Some? then IsMergeRefOf(ref, pr.value) else forall n :: !IsMergeRefOf(ref, n)
  }

  lemma RefDecidesPullRequest(ref: string, pr: Option<int>)
    ensures PullRequestOf(ref) == pr <==> IsRefOf(ref, pr)
  {
    hide PullRequestOf, IsMergeRefOf;
    if pr.Some? {
      PullRequestIff(ref, pr.value);
    } else if PullRequestOf(ref).Some? {
      PullRequestIff(ref, PullRequestOf(ref).value);
    } else {
      forall n
        ensures !IsMergeRefOf(ref, n)
      {
        PullRequestIff(ref, n);
      }
    }
  }

  /** An entry is a candidate for the key it was made from: of this identity, on a usable ref, for that ref's pull request. */
  lemma CandidateIff(identity: string, refs: seq<string>, entry: Entry, key: Key)
    ensures Candidate(identity, refs, entry) == Some(key) <==>
            && MakeAncestorKey(key) == Success(entry.key) && key.identity == identity
            && entry.ref in refs && entry.id > 0 && IsRefOf(entry.ref, key.pr)
  {
    hide PullRequestOf, ParseAncestorKey, MakeAncestorKey, IsRefOf;
    ParseInvertsMake(entry.key, key);
    RefDecidesPullRequest(entry.ref, key.pr);
  }

  /** Ranked are exactly the candidates whose known distance is between 0 and 200. */
  lemma RankedIff(identity: string, refs: seq<string>, backend: Backend, entries: seq<Entry>, r: Ranked)
    ensures r in RankedOf(identity, refs, backend, entries) <==>
            && r.entry in entries && Candidate(identity, refs, r.entry) == Some(r.key)
            && backend.distance(r.key.sha) == Success(Some(r.distance)) && r.distance <= 200
  {
    hide Candidate;
    RankedMembers(identity, refs, backend, entries, r);
  }

  // ---- The choice ----

  /** Nothing nearer than the chosen entry is clean, nothing as near and newer, nothing as near and new with a higher id. */
  lemma ChosenIsNearest(identity: string, refs: seq<string>, backend: Backend, entries: seq<Entry>, r: Ranked)
    requires DistinctIds(entries) && Choose(identity, refs, backend, entries) == Success(Some(r))
    ensures r in RankedOf(identity, refs, backend, entries)
    ensures backend.cleanSave(r.entry, r.key) == Success(true)
    ensures forall x :: x in RankedOf(identity, refs, backend, entries) && x.distance < r.distance ==>
              backend.cleanSave(x.entry, x.key) == Success(false)
    ensures forall x :: x in RankedOf(identity, refs, backend, entries) && x.distance == r.distance &&
                        backend.stamp(x.entry.createdAt) > backend.stamp(r.entry.createdAt) ==>
              backend.cleanSave(x.entry, x.key) == Success(false)
    ensures forall x :: x in RankedOf(identity, refs, backend, entries) && x.distance == r.distance &&
                        backend.stamp(x.entry.createdAt) == backend.stamp(r.entry.createdAt) && x.entry.id > r.entry.id ==>
              backend.cleanSave(x.entry, x.key) == Success(false)
  {
    ChooseIsNearestClean(identity, refs, backend, entries, r);
    hide ScanFails, RankedOf, Choose;
    var ranked := RankedOf(identity, refs, backend, entries);
    assert forall x :: x in ranked && Precedes(backend, x, r) ==> x in Ahead(backend, ranked, r);
  }

  /** With at most 20 ranked and every proof lookup answered, the chosen entry has the least distance of all clean ones. */
  lemma ChosenHasLeastDistance(identity: string, refs: seq<string>, backend: Backend, entries: seq<Entry>)
    requires DistinctIds(entries) && !ScanFails(identity, refs, backend, entries)
    requires |RankedOf(identity, refs, backend, entries)| <= 20
    requires forall x :: x in RankedOf(identity, refs, backend, entries) ==> backend.cleanSave(x.entry, x.key).Success?
    ensures var ranked, chosen := RankedOf(identity, refs, backend, entries), Choose(identity, refs, backend, entries);
            && chosen.Success?
            && (chosen.value.None? <==> forall x :: x in ranked ==> backend.cleanSave(x.entry, x.key) == Success(false))
            && (chosen.value.Some? ==>
                  && chosen.value.value in ranked
                  && forall x :: x in ranked && backend.cleanSave(x.entry, x.key) == Success(true) ==>
                       chosen.value.value.distance <= x.distance)
  {
    var ranked := RankedOf(identity, refs, backend, entries);
    RankedIdsDistinct(identity, refs, backend, entries);
    hide ScanFails, RankedOf, FirstClean;
    var sorted := Sort(backend, ranked);
    SortIsStrict(backend, ranked);
    assert |multiset(sorted)| == |multiset(ranked)|;
    assert Best(backend, ranked) == sorted;
    var k := FirstCleanStops(backend, sorted);
    hide Sort;
    forall x | x in ranked && backend.cleanSave(x.entry, x.key) == Success(true)
      ensures k < |sorted| && sorted[k].distance <= x.distance
    {
      var j :| 0 <= j < |sorted| && sorted[j] == x;
      assert j >= k;
      assert k < j ==> Precedes(backend, sorted[k], sorted[j]);
    }
    assert k < |sorted| ==> sorted[k] in ranked;
    assert k == |sorted| ==> forall x :: x in ranked ==> x in sorted;
  }

  /** The scan gives up above 600 entries, above 200 candidates, or where a candidate's distance lookup fails. */
  lemma ScanFailsIff(identity: string, refs: seq<string>, backend: Backend, entries: seq<Entry>)
    requires DistinctIds(entries)
    ensures ScanFails(identity, refs, backend, entries) <==>
            || |entries| > 600
            || |set e | e in entries && IsCandidate(identity, refs, e)| > 200
            || exists e :: e in entries && IsCandidate(identity, refs, e) &&
                           backend.distance(Candidate(identity, refs, e).value.sha).Failure?
  {
    hide Candidate, CandidatesOf;
    var candidates := CandidatesOf(identity, refs, entries);
    CandidatesDistinct(identity, refs, entries);
    StableSort.DistinctSize(candidates);
    assert (set e | e in candidates) == (set e | e in entries && IsCandidate(identity, refs, e));
  }
}
