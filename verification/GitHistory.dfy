/**
 Distances read off a partial listing of a history, and the local history reader that
 deepens a shallow clone at most once.
 */
module GitHistory {
  import opened Common
  import opened AncestorDag

  // ---- Partial listings ----

  /** Every listed parent edge is a parent edge of the whole history. */
  ghost predicate TrueEdges(history: Graph, listed: Graph) {
    forall child, parent :: Edge(listed, child, parent) ==> Edge(history, child, parent)
  }

  lemma {:induction false} ListedWalkIsTrue(history: Graph, listed: Graph, a: Sha, b: Sha, n: nat)
    requires TrueEdges(history, listed) && Walk(listed, a, b, n)
    ensures Walk(history, a, b, n)
    decreases n
  {
    if n > 0 {
      var c :| Walk(listed, a, c, n - 1) && Edge(listed, c, b);
      ListedWalkIsTrue(history, listed, a, c, n - 1);
    }
  }

  /** The listing holds `candidate` and, with all their parents, the commits only `head` reaches. */
  ghost predicate Covers(history: Graph, listed: Graph, head: Sha, candidate: Sha) {
    && candidate in listed
    && forall s :: Reaches(history, head, s) && !Reaches(history, candidate, s) ==>
         s in listed && s in history && listed[s] == history[s]
  }

  lemma {:induction false} CoveredWalk(history: Graph, listed: Graph, head: Sha, candidate: Sha,
                                       x: Sha, n: nat, rest: nat)
    requires Acyclic(history) && Covers(history, listed, head, candidate)
    requires Walk(history, head, x, n) && Walk(history, x, candidate, rest)
    requires rest > 0 || x == candidate
    ensures Walk(listed, head, x, n)
    decreases n
  {
    if n > 0 {
      var y :| Walk(history, head, y, n - 1) && Edge(history, y, x);
      WalkPrepend(history, y, x, candidate, rest);
      CoveredWalk(history, listed, head, candidate, y, n - 1, rest + 1);
      NotBelow(history, candidate, y, rest + 1);
      assert Reaches(history, head, y);
      if rest > 0 {
        NotBelow(history, candidate, x, rest);
        assert Reaches(history, head, x);
      }
      assert Edge(listed, y, x);
    }
  }

  /** In an acyclic history a proper ancestor does not reach back. */
  lemma NotBelow(history: Graph, candidate: Sha, y: Sha, m: nat)
    requires Acyclic(history) && m > 0 && Walk(history, y, candidate, m)
    ensures !Reaches(history, candidate, y)
  {
    if Reaches(history, candidate, y) {
      var k: nat :| Walk(history, candidate, y, k);
      WalkConcat(history, candidate, y, candidate, k, m);
    }
  }

  /** A covering listing has exactly the history's walks to the candidate, so the same distance. */
  lemma CoveringDistanceIsExact(history: Graph, listed: Graph, head: Sha, candidate: Sha)
    requires Acyclic(history) && TrueEdges(history, listed) && Covers(history, listed, head, candidate)
    ensures forall n: nat :: Walk(listed, head, candidate, n) <==> Walk(history, head, candidate, n)
    ensures forall d: nat :: IsDistance(listed, head, candidate, d) <==> IsDistance(history, head, candidate, d)
  {
    forall n: nat
      ensures Walk(listed, head, candidate, n) <==> Walk(history, head, candidate, n)
    {
      if Walk(listed, head, candidate, n) {
        ListedWalkIsTrue(history, listed, head, candidate, n);
      }
      if Walk(history, head, candidate, n) {
        assert Walk(history, candidate, candidate, 0);
        CoveredWalk(history, listed, head, candidate, candidate, n, 0);
      }
    }
  }

  // ---- BoundedGitHistory ----

  /** A listing made of real commits, whose parent lists may be cut short at a shallow boundary. */
  ghost predicate Honest(history: Graph, nodes: seq<GitParentNode>) {
    forall node :: node in nodes ==>
      node.sha in history && forall p :: p in node.parents ==> p in history[node.sha]
  }

  lemma HonestHasTrueEdges(history: Graph, nodes: seq<GitParentNode>)
    requires Honest(history, nodes)
    ensures TrueEdges(history, ParentMap(nodes))
  {
    ParentMapLists(nodes);
  }

  /** What one `load` reads: the shallow flag, then the bounded rev-list. */
  datatype LoadAnswers = LoadAnswers(shallow: Result<bool>, revList: Result<seq<GitParentNode>>) {
    predicate Fails() {
      shallow.Failure? || revList.Failure? || |revList.value| > MAX_NODES
    }

    ghost predicate HonestFor(history: Graph) {
      revList.Success? ==> Honest(history, revList.value)
    }
  }

  /** `history` is the whole commit graph, which the class never sees. */
  class BoundedGitHistory {
    const sha: Sha
    ghost const history: Graph
    var distances: Option<map<Sha, nat>>
    var shallow: bool
    var fetched: bool
    ghost var fetches: nat

    ghost predicate Valid()
      reads this
    {
      && (distances.Some? ==>
            forall s :: s in distances.value ==> Walk(history, sha, s, distances.value[s]))
      && fetches == if fetched then 1 else 0
    }

    constructor (head: Sha, ghost whole: Graph)
      ensures Valid() && sha == head && history == whole
      ensures distances == None && !shallow && !fetched
    {
      sha, history := head, whole;
      distances, shallow, fetched, fetches := None, false, false, 0;
    }

    /** The current map is exactly the distances over this listing. */
    ghost predicate ReadFrom(a: LoadAnswers)
      reads this
    {
      && !a.Fails() && distances.Some? && shallow == a.shallow.value
      && AreDistances(ParentMap(a.revList.value), sha, distances.value)
    }

    method Load(a: LoadAnswers) returns (ok: bool)
      requires Valid() && a.HonestFor(history)
      modifies this
      ensures Valid() && fetched == old(fetched) && fetches == old(fetches)
      ensures ok == !a.Fails()
      ensures if ok then ReadFrom(a) else distances == old(distances) && shallow == old(shallow)
    {
      if a.shallow.Failure? || a.revList.Failure? {
        return false;
      }
      var r := DagDistances(sha, a.revList.value);
      if r.Failure? {
        return false;
      }
      ghost var listed := ParentMap(a.revList.value);
      HonestHasTrueEdges(history, a.revList.value);
      forall s | s in r.value ensures Walk(history, sha, s, r.value[s]) {
        ListedWalkIsTrue(history, listed, sha, s, r.value[s]);
      }
      distances, shallow := Some(r.value), a.shallow.value;
      return true;
    }

    /** A shallow history, not yet deepened, that does not reach the candidate. */
    ghost predicate NeedsFetch(candidate: Sha, first: LoadAnswers)
      reads this
    {
      !fetched &&
      if distances.Some? then shallow && candidate !in distances.value
      else !first.Fails() && first.shallow.value && !Reaches(ParentMap(first.revList.value), sha, candidate)
    }

    /** What is known before any fetch: what is loaded already, or what the first load reads. */
    twostate predicate KeepsEarlier(first: LoadAnswers)
      reads this
    {
      if old(distances).Some? then distances == old(distances) && shallow == old(shallow)
      else if first.Fails() then distances.None? && shallow == old(shallow)
      else ReadFrom(first)
    }

    /**
     The distance of `candidate`, `None` when the local history does not list it.
     `first` answers the lazy load, `fetch` and `second` the one deepening fetch and the
     reload after it, `isAncestor` the final merge-base check.
     */
    method Distance(candidate: Sha, first: LoadAnswers, fetch: Result<()>, second: LoadAnswers,
                    isAncestor: Result<()>) returns (r: Result<Option<nat>>)
      requires Valid() && first.HonestFor(history) && second.HonestFor(history)
      modifies this
      ensures Valid()
      // at most one fetch ever: `Valid` ties the count to a flag that is never cleared
      ensures old(fetched) ==> fetched
      ensures fetches > old(fetches) ==> !old(fetched) && fetches == 1
      // a distance is the length of a real parent chain, and never below the shortest
      ensures r.Success? && r.value.Some? ==> Walk(history, sha, candidate, r.value.value)
      ensures r.Success? && r.value.Some? ==>
          forall t: nat :: IsDistance(history, sha, candidate, t) ==> t <= r.value.value
      ensures r.Success? && r.value.Some? ==> isAncestor.Success?
      ensures r.Success? ==> distances.Some?
      ensures r.Success? ==> (r.value.Some? <==> candidate in distances.value)
      ensures r.Success? && r.value.Some? ==> r.value.value == distances.value[candidate]
      // an unlisted candidate leaves nothing untried
      ensures r == Success(None) ==> !shallow || fetched
      ensures r.Failure? <==>
          || (old(distances).None? && first.Fails())
          || (distances.Some? && candidate in distances.value && isAncestor.Failure?)
      // the fetch is made exactly when it can help, and what it brings in is read
      ensures fetched == (old(fetched) || old(NeedsFetch(candidate, first)))
      ensures fetches == old(fetches) + if old(NeedsFetch(candidate, first)) then 1 else 0
      ensures if old(NeedsFetch(candidate, first)) && fetch.Success? && !second.Fails() then ReadFrom(second)
              else KeepsEarlier(first)
      ensures old(NeedsFetch(candidate, first)) && fetch.Success? && !second.Fails() && isAncestor.Success? ==>
          if Reaches(ParentMap(second.revList.value), sha, candidate)
          then r.Success? && r.value.Some? && IsDistance(ParentMap(second.revList.value), sha, candidate, r.value.value)
          else r == Success(None)
    {
      if distances.None? {
        var ok := Load(first);
        if !ok {
          return Failure;
        }
      }
      if candidate !in distances.value && shallow && !fetched {
        fetched := true;
        fetches := fetches + 1;
        if fetch.Success? {
          var _ := Load(second);
        }
      }
      if candidate !in distances.value {
        return Success(None);
      }
      if isAncestor.Failure? {
        return Failure;
      }
      return Success(Some(distances.value[candidate]));
    }
  }
}
