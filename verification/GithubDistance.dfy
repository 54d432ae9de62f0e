/**
 The remote distance lookup: the local history first, then the bounded compare range,
 under one request and time budget.
 */
module GithubDistance {
  import opened Common
  import opened AncestorDag
  import opened GitHistory

  const MAX_REQUESTS: nat := 24
  const MAX_ELAPSED_MS: nat := 45_000
  const PAGE: nat := 100

  /** Count a request only after admitting it. */
  function AdmitRequest(count: nat, elapsedMs: nat): (r: Result<nat>)
    ensures r.Success? ==> r.value == count + 1 <= MAX_REQUESTS && elapsedMs <= MAX_ELAPSED_MS
    ensures r.Failure? <==> count >= MAX_REQUESTS || elapsedMs > MAX_ELAPSED_MS
  {
    if elapsedMs > MAX_ELAPSED_MS || count >= MAX_REQUESTS then Failure else Success(count + 1)
  }

  datatype ComparePage = ComparePage(status: string, behindBy: nat, totalCommits: nat,
                                     commits: seq<GitParentNode>)

  /** The compare API as documented: `candidate...head` lists what only `head` reaches, in pages. */
  ghost predicate AnswersCompare(history: Graph, candidate: Sha, head: Sha,
                                 first: ComparePage, second: Result<seq<GitParentNode>>) {
    && (first.behindBy == 0 <==> Reaches(history, head, candidate))
    && (first.behindBy == 0 ==> first.status in {"ahead", "identical"})
    && (first.totalCommits <= PAGE ==>
          |first.commits| == first.totalCommits && ListsRange(history, candidate, head, first.commits))
    && (PAGE < first.totalCommits < MAX_NODES && second.Success? ==>
          && |first.commits + second.value| == first.totalCommits
          && ListsRange(history, candidate, head, first.commits + second.value))
  }

  ghost predicate ListsRange(history: Graph, candidate: Sha, head: Sha, range: seq<GitParentNode>) {
    && (forall node :: node in range ==>
          && node.sha in history && node.parents == history[node.sha]
          && Reaches(history, head, node.sha) && !Reaches(history, candidate, node.sha))
    && (forall s :: Reaches(history, head, s) && !Reaches(history, candidate, s) ==>
          s in history && GitParentNode(s, history[s]) in range)
  }

  lemma CompareListingCovers(history: Graph, candidate: Sha, head: Sha, range: seq<GitParentNode>)
    requires candidate in history
    requires ListsRange(history, candidate, head, range)
    ensures var listed := ParentMap([GitParentNode(candidate, [])] + range);
            TrueEdges(history, listed) && Covers(history, listed, head, candidate)
  {
    var nodes := [GitParentNode(candidate, [])] + range;
    var listed := ParentMap(nodes);
    ParentMapLists(nodes);
    assert Walk(history, candidate, candidate, 0);
    assert GitParentNode(candidate, []) in nodes;
    forall s | s in listed ensures s in history && (s == candidate || listed[s] == history[s]) {
      assert GitParentNode(s, listed[s]) in nodes;
    }
    forall s | s in listed && s == candidate ensures listed[s] == [] {
      assert GitParentNode(s, listed[s]) in nodes;
    }
    forall s | Reaches(history, head, s) && !Reaches(history, candidate, s)
      ensures s in listed && s in history && listed[s] == history[s]
    {
      assert GitParentNode(s, history[s]) in nodes;
    }
  }

  predicate Admits(count: nat, elapsedMs: nat) { count < MAX_REQUESTS && elapsedMs <= MAX_ELAPSED_MS }

  predicate IsAhead(page: ComparePage) { page.behindBy == 0 && page.status in {"ahead", "identical"} }

  /** The range does not fit one page, and the search can take it. */
  predicate NeedsSecondPage(first: Result<ComparePage>) {
    first.Success? && IsAhead(first.value) && PAGE < first.value.totalCommits < MAX_NODES
  }

  /** How many requests a comparison makes that starts with `count` made before. */
  function CompareRequests(count: nat, first: Result<ComparePage>, elapsed: (nat, nat)): nat {
    if !Admits(count, elapsed.0) then 0
    else if NeedsSecondPage(first) && Admits(count + 1, elapsed.1) then 2
    else 1
  }

  /** A request is refused or fails, or the range is too long to search. */
  predicate CompareFails(count: nat, first: Result<ComparePage>, second: Result<seq<GitParentNode>>, elapsed: (nat, nat)) {
    || !Admits(count, elapsed.0) || first.Failure?
    || (IsAhead(first.value) && first.value.totalCommits >= MAX_NODES)
    || (NeedsSecondPage(first) && (!Admits(count + 1, elapsed.1) || second.Failure?))
  }

  class AncestorLookup {
    const head: Sha
    const local: BoundedGitHistory
    var requests: nat

    ghost predicate Valid()
      reads this, local
    {
      local.Valid() && local.sha == head && requests <= MAX_REQUESTS
    }

    constructor (git: BoundedGitHistory)
      requires git.Valid()
      ensures Valid() && local == git && requests == 0
    {
      head, local, requests := git.sha, git, 0;
    }

    /** The first load fails, or the ancestor check of a candidate that is listed. */
    predicate LocalFails(candidate: Sha, before: Option<map<Sha, nat>>,
                         answers: (LoadAnswers, Result<()>, LoadAnswers, Result<()>))
      reads this, local
      ensures !LocalFails(candidate, before, answers) ==> local.distances.Some?
    {
      || (before.None? && answers.0.Fails())
      || local.distances.None?
      || (candidate in local.distances.value && answers.3.Failure?)
    }

    /**
     The compare fallback. `first` and `second` answer its two pages; `elapsed` are the
     clock readings its budget checks see.
     */
    method CompareDistance(candidate: Sha, first: Result<ComparePage>, second: Result<seq<GitParentNode>>,
                           elapsed: (nat, nat)) returns (r: Result<Option<nat>>)
      requires Valid() && Acyclic(local.history)
      requires Reaches(local.history, head, candidate) ==> candidate in local.history
      requires first.Success? ==> AnswersCompare(local.history, candidate, head, first.value, second)
      modifies this
      ensures Valid() && requests == old(requests) + CompareRequests(old(requests), first, elapsed)
      ensures r.Failure? <==> CompareFails(old(requests), first, second, elapsed)
      // the answer is the true shortest distance, or null exactly for a non-ancestor
      ensures r.Success? ==> (r.value.Some? <==> Reaches(local.history, head, candidate))
      ensures r.Success? && r.value.Some? ==> IsDistance(local.history, head, candidate, r.value.value)
    {
      var admitted := AdmitRequest(requests, elapsed.0);
      if admitted.Failure? {
        return Failure;
      }
      requests := admitted.value;
      if first.Failure? {
        return Failure;
      }
      var page := first.value;
      if page.behindBy != 0 || page.status !in {"ahead", "identical"} {
        return Success(None);
      }
      if page.totalCommits > MAX_NODES - 1 {
        return Failure;
      }
      var range := page.commits;
      if page.totalCommits > PAGE {
        admitted := AdmitRequest(requests, elapsed.1);
        if admitted.Failure? {
          return Failure;
        }
        requests := admitted.value;
        if second.Failure? {
          return Failure;
        }
        range := range + second.value;
      }
      var nodes := [GitParentNode(candidate, [])] + range;
      var distances := DagDistances(head, nodes);
      CompareListingCovers(local.history, candidate, head, range);
      CoveringDistanceIsExact(local.history, ParentMap(nodes), head, candidate);
      assert Reaches(local.history, head, candidate);
      ghost var n: nat :| Walk(local.history, head, candidate, n);
      ghost var d := DistanceExists(local.history, head, candidate, n);
      assert Reaches(ParentMap(nodes), head, candidate);
      return Success(if candidate in distances.value then Some(distances.value[candidate]) else None);
    }

    /**
     The `distance` callback: a local answer stands, an unknown candidate is compared. A local
     answer is never below the true distance, a compare answer is exactly it.
     */
    method Distance(candidate: Sha, answers: (LoadAnswers, Result<()>, LoadAnswers, Result<()>),
                    first: Result<ComparePage>, second: Result<seq<GitParentNode>>,
                    elapsed: (nat, nat, nat)) returns (r: Result<Option<nat>>)
      requires Valid() && Acyclic(local.history)
      requires answers.0.HonestFor(local.history) && answers.2.HonestFor(local.history)
      requires Reaches(local.history, head, candidate) ==> candidate in local.history
      requires first.Success? ==> AnswersCompare(local.history, candidate, head, first.value, second)
      modifies this, local
      ensures Valid()
      ensures old(local.fetched) ==> local.fetched
      // out of time, nothing is looked up; a local answer or failure stands; only then is a request made
      ensures elapsed.0 > MAX_ELAPSED_MS ==> r.Failure? && requests == old(requests) && unchanged(local)
      ensures elapsed.0 <= MAX_ELAPSED_MS ==>
          if LocalFails(candidate, old(local.distances), answers) then r.Failure? && requests == old(requests)
          else if candidate in local.distances.value
          then r == Success(Some(local.distances.value[candidate])) && requests == old(requests)
          else
            && requests == old(requests) + CompareRequests(old(requests), first, (elapsed.1, elapsed.2))
            && (r.Failure? <==> CompareFails(old(requests), first, second, (elapsed.1, elapsed.2)))
      ensures r.Success? ==> (r.value.Some? <==> Reaches(local.history, head, candidate))
      ensures r.Success? && r.value.Some? ==>
          forall t: nat :: IsDistance(local.history, head, candidate, t) ==> t <= r.value.value
      ensures r.Success? && r.value.Some? && requests > old(requests) ==>
          IsDistance(local.history, head, candidate, r.value.value)
    {
      if elapsed.0 > MAX_ELAPSED_MS {
        return Failure;
      }
      var near := local.Distance(candidate, answers.0, answers.1, answers.2, answers.3);
      if near.Failure? || near.value.Some? {
        return near;
      }
      r := CompareDistance(candidate, first, second, (elapsed.1, elapsed.2));
    }
  }
}
