/**
 Exactly when a distance read off a listing can be trusted, told from the listing alone: no history
 that prints it has a shorter way through commits the count left out.
 */
module ExactDistance {
  import opened Common
  import opened AncestorDag
  import opened GitHistory
  import opened RevList

  // ---- What the listing shows of what it leaves out ----

  /** A listed commit with a parent that is not listed. */
  predicate Cuts(listed: Graph, child: Sha, parent: Sha) {
    child in listed && parent in listed[child] && parent !in listed
  }

  /** The unlisted commit is seen to lie below `a`, so in an acyclic history it does not lead back to `a`. */
  ghost predicate IsBelow(listed: Graph, a: Sha, parent: Sha) {
    exists x :: Reaches(listed, a, x) && Cuts(listed, x, parent)
  }

  /** Over some unlisted parent there is room for a way to the candidate that is shorter than the one listed. */
  ghost predicate LeavesRoom(listed: Graph, distances: map<Sha, nat>, candidate: Sha)
    requires candidate in distances
  {
    exists c, p ::
      c in distances && Cuts(listed, c, p) && !IsBelow(listed, candidate, p) &&
      distances[c] + 2 < distances[candidate]
  }

  /** A history that prints this listing, from a complete repository or one cut at a depth. */
  ghost predicate Prints(history: Graph, local: Graph, dates: Dates, head: Sha, nodes: seq<GitParentNode>) {
    head in history && Acyclic(history) && IsLocalGraph(history, local, head) &&
    IsRevList(local, dates, head, MAX_NODES, nodes)
  }

  // ---- No room, no shorter walk ----

  /** A walk in the history stays in the listing, or leaves it over a cut parent. */
  lemma {:induction false} WalkLeavesListing(g: Graph, dates: Dates, head: Sha, nodes: seq<GitParentNode>, s: Sha, n: nat)
    returns (c: Sha, p: Sha, i: nat)
    requires IsRevList(g, dates, head, MAX_NODES, nodes) && Walk(g, head, s, n)
    ensures Walk(ParentMap(nodes), head, s, n) ||
            (i < n && Walk(ParentMap(nodes), head, c, i) && Cuts(ParentMap(nodes), c, p) && p in g && Walk(g, p, s, n - i - 1))
    decreases n
  {
    hide Walk, IsRevList, ParentMap;
    var listed := ParentMap(nodes);
    c, p, i := s, s, 0;
    if n == 0 {
      EmptyWalk(g, head, s);
      EmptyWalk(listed, head, s);
    } else {
      var y := LastStep(g, head, s, n);
      c, p, i := WalkLeavesListing(g, dates, head, nodes, y, n - 1);
      if Walk(listed, head, y, n - 1) {
        ListingKeepsParents(g, dates, head, MAX_NODES, nodes);
        WalkIsListed(g, dates, head, nodes, y, n - 1);
        if s in listed {
          WalkAppend(listed, head, y, s, n - 1);
        } else {
          c, p, i := y, s, n - 1;
          EmptyWalk(g, s, s);
        }
      } else {
        WalkAppend(g, p, y, s, n - i - 2);
      }
    }
  }

  lemma WalkIsListed(g: Graph, dates: Dates, head: Sha, nodes: seq<GitParentNode>, s: Sha, n: nat)
    requires IsRevList(g, dates, head, MAX_NODES, nodes) && Walk(ParentMap(nodes), head, s, n)
    ensures s in ParentMap(nodes)
  {
    HeadIsListed(g, dates, head, MAX_NODES, nodes);
  }

  /** In an acyclic history a parent seen below the candidate does not lead to it. */
  lemma BelowDoesNotLeadBack(g: Graph, dates: Dates, head: Sha, nodes: seq<GitParentNode>, candidate: Sha, p: Sha, m: nat)
    requires Acyclic(g) && IsRevList(g, dates, head, MAX_NODES, nodes)
    requires p in g && Walk(g, p, candidate, m)
    ensures !IsBelow(ParentMap(nodes), candidate, p)
  {
    var listed := ParentMap(nodes);
    hide Walk, IsRevList, ParentMap;
    if IsBelow(listed, candidate, p) {
      var x :| Reaches(listed, candidate, x) && Cuts(listed, x, p);
      var k: nat :| Walk(listed, candidate, x, k);
      ListingKeepsParents(g, dates, head, MAX_NODES, nodes);
      ListingHasTrueEdges(g, dates, head, MAX_NODES, nodes);
      ListedWalkIsTrue(g, listed, candidate, x, k);
      WalkAppend(g, candidate, x, p, k);
      WalkConcat(g, candidate, p, candidate, k + 1, m);
      assert false;
    }
  }

  lemma NoRoomNoShorterWalk(g: Graph, dates: Dates, head: Sha, nodes: seq<GitParentNode>,
                            distances: map<Sha, nat>, candidate: Sha, t: nat)
    requires Acyclic(g) && IsRevList(g, dates, head, MAX_NODES, nodes)
    requires AreDistances(ParentMap(nodes), head, distances) && candidate in distances
    requires !LeavesRoom(ParentMap(nodes), distances, candidate) && Walk(g, head, candidate, t)
    ensures distances[candidate] <= t
  {
    var listed := ParentMap(nodes);
    hide Walk, IsRevList, ParentMap, Acyclic;
    var c, p, i := WalkLeavesListing(g, dates, head, nodes, candidate, t);
    if !Walk(listed, head, candidate, t) {
      assert Reaches(listed, head, c);
      BelowDoesNotLeadBack(g, dates, head, nodes, candidate, p, t - i - 1);
      WalkIsListed(g, dates, head, nodes, candidate, distances[candidate]);
      EmptyWalk(g, p, candidate);
      assert t - i - 1 > 0;
    }
  }

  // ---- Room is used by some history ----

  function PositionOf(nodes: seq<GitParentNode>, s: Sha): (k: nat)
    ensures k <= |nodes|
    ensures forall i :: 0 <= i < k ==> nodes[i].sha != s
    ensures k < |nodes| ==> nodes[k].sha == s
  {
    if nodes == [] || nodes[0].sha == s then 0 else 1 + PositionOf(nodes[1..], s)
  }

  /** Dates in the order of the listing, the unlisted commits last. */
  function ListingDates(nodes: seq<GitParentNode>): Dates { s => 0 - PositionOf(nodes, s) }

  /** The listed history with one unlisted parent given the candidate as its parent. */
  function Bridged(listed: Graph, p: Sha, candidate: Sha): Graph { listed[p := [candidate]] }

  lemma BridgedHasEdges(listed: Graph, p: Sha, candidate: Sha)
    requires p !in listed
    ensures TrueEdges(Bridged(listed, p, candidate), listed)
  {
  }

  /** A walk over the bridged history is one of the listing, or passes the bridge. */
  lemma {:induction false} WalkPassesBridge(listed: Graph, p: Sha, candidate: Sha, a: Sha, b: Sha, n: nat) returns (i: nat)
    requires p !in listed && Walk(Bridged(listed, p, candidate), a, b, n)
    ensures Walk(listed, a, b, n) ||
            (i <= n && Walk(Bridged(listed, p, candidate), a, p, i) && Walk(Bridged(listed, p, candidate), p, b, n - i))
    decreases n
  {
    hide Walk;
    var g := Bridged(listed, p, candidate);
    i := 0;
    if n == 0 {
      EmptyWalk(g, a, b);
      EmptyWalk(listed, a, b);
    } else {
      var c := LastStep(g, a, b, n);
      i := WalkPassesBridge(listed, p, candidate, a, c, n - 1);
      if !Walk(listed, a, c, n - 1) {
        WalkAppend(g, p, c, b, n - 1 - i);
      } else if b == p {
        i := n;
        EmptyWalk(g, p, p);
      } else if c == p {
        i := n - 1;
        EmptyWalk(g, p, p);
        WalkAppend(g, p, p, b, 0);
      } else {
        WalkAppend(listed, a, c, b, n - 1);
      }
    }
  }

  /** A way back from the candidate to the bridge is one the listing shows. */
  lemma {:induction false} BridgeFromCandidateIsBelow(listed: Graph, p: Sha, candidate: Sha, m: nat)
    requires p !in listed && candidate in listed && Walk(Bridged(listed, p, candidate), candidate, p, m)
    ensures IsBelow(listed, candidate, p)
    decreases m
  {
    var g := Bridged(listed, p, candidate);
    EmptyWalk(g, candidate, p);
    var x := LastStep(g, candidate, p, m);
    hide Walk;
    assert x in listed && Cuts(listed, x, p);
    var i := WalkPassesBridge(listed, p, candidate, candidate, x, m - 1);
    if !Walk(listed, candidate, x, m - 1) {
      BridgeFromCandidateIsBelow(listed, p, candidate, i);
    } else {
      assert Reaches(listed, candidate, x);
    }
  }

  lemma {:induction false} FirstStep(g: Graph, a: Sha, b: Sha, n: nat) returns (c: Sha)
    requires n > 0 && Walk(g, a, b, n)
    ensures Edge(g, a, c) && Walk(g, c, b, n - 1)
    decreases n
  {
    var y := LastStep(g, a, b, n);
    if n == 1 {
      EmptyWalk(g, a, y);
      EmptyWalk(g, b, b);
      c := b;
    } else {
      c := FirstStep(g, a, y, n - 1);
      WalkAppend(g, c, y, b, n - 2);
    }
  }

  lemma BridgedIsAcyclic(listed: Graph, p: Sha, candidate: Sha)
    requires Acyclic(listed) && p !in listed && candidate in listed && !IsBelow(listed, candidate, p)
    ensures Acyclic(Bridged(listed, p, candidate))
  {
    hide Walk, IsBelow;
    var g := Bridged(listed, p, candidate);
    forall a, n: nat | n > 0 && Walk(g, a, a, n)
      ensures false
    {
      var i := WalkPassesBridge(listed, p, candidate, a, a, n);
      assert !Walk(listed, a, a, n);
      WalkConcat(g, p, a, p, n - i, i);
      var c := FirstStep(g, p, p, n);
      BridgeFromCandidateIsBelow(listed, p, candidate, n - 1);
    }
  }

  lemma BridgedKeepsParents(g: Graph, dates: Dates, head: Sha, nodes: seq<GitParentNode>, p: Sha, candidate: Sha, i: nat)
    requires IsRevList(g, dates, head, MAX_NODES, nodes) && p !in ParentMap(nodes) && i < |nodes|
    ensures var h := Bridged(ParentMap(nodes), p, candidate); nodes[i].sha in h && nodes[i].parents == h[nodes[i].sha]
  {
    ListingKeepsParents(g, dates, head, MAX_NODES, nodes);
    ParentMapLists(nodes);
    hide ParentMap;
    assert nodes[i] in nodes;
  }

  lemma BridgedPrintsListing(g: Graph, dates: Dates, head: Sha, nodes: seq<GitParentNode>, p: Sha, candidate: Sha)
    requires IsRevList(g, dates, head, MAX_NODES, nodes) && p !in ParentMap(nodes)
    ensures IsRevList(Bridged(ParentMap(nodes), p, candidate), ListingDates(nodes), head, MAX_NODES, nodes)
  {
    hide PositionOf, ParentMap, Bridged, IsNewest;
    forall k | 0 < k < |nodes|
      ensures IsNewest(ListingDates(nodes), nodes[..k], nodes[k].sha)
    {
      OrderedByPosition(g, dates, head, nodes, k);
    }
    forall k | 0 <= k < |nodes|
      ensures nodes[k].sha in Bridged(ParentMap(nodes), p, candidate)
      ensures nodes[k].parents == Bridged(ParentMap(nodes), p, candidate)[nodes[k].sha]
    {
      BridgedKeepsParents(g, dates, head, nodes, p, candidate, k);
    }
  }

  lemma OrderedByPosition(g: Graph, dates: Dates, head: Sha, nodes: seq<GitParentNode>, k: nat)
    requires IsRevList(g, dates, head, MAX_NODES, nodes) && 0 < k < |nodes|
    ensures IsNewest(ListingDates(nodes), nodes[..k], nodes[k].sha)
  {
    var printed := nodes[..k];
    assert IsNewest(dates, printed, nodes[k].sha);
    forall i | 0 <= i < k
      ensures nodes[i].sha in ShasOf(printed)
    {
      assert printed[i] in printed;
    }
    assert PositionOf(nodes, nodes[k].sha) <= k;
  }

  lemma RoomIsUsed(g: Graph, dates: Dates, head: Sha, nodes: seq<GitParentNode>,
                   distances: map<Sha, nat>, candidate: Sha) returns (history: Graph)
    requires Acyclic(g) && IsRevList(g, dates, head, MAX_NODES, nodes)
    requires AreDistances(ParentMap(nodes), head, distances) && candidate in distances
    requires LeavesRoom(ParentMap(nodes), distances, candidate)
    ensures Prints(history, history, ListingDates(nodes), head, nodes)
    ensures !IsDistance(history, head, candidate, distances[candidate])
  {
    var listed := ParentMap(nodes);
    var c, p :| c in distances && Cuts(listed, c, p) && !IsBelow(listed, candidate, p) &&
                distances[c] + 2 < distances[candidate];
    history := Bridged(listed, p, candidate);
    hide Walk, IsRevList, ParentMap, IsBelow, Cuts;
    HeadIsListed(g, dates, head, MAX_NODES, nodes);
    WalkIsListed(g, dates, head, nodes, candidate, distances[candidate]);
    ListedIsAcyclic(g, dates, head, nodes);
    assert p !in listed by { assert Cuts(listed, c, p); }
    BridgedIsAcyclic(listed, p, candidate);
    BridgedPrintsListing(g, dates, head, nodes, p, candidate);
    BridgedHasEdges(listed, p, candidate);
    ListedWalkIsTrue(history, listed, head, c, distances[c]);
    BridgeLeadsOver(listed, head, c, p, candidate, distances[c]);
  }

  lemma ListedIsAcyclic(g: Graph, dates: Dates, head: Sha, nodes: seq<GitParentNode>)
    requires Acyclic(g) && IsRevList(g, dates, head, MAX_NODES, nodes)
    ensures Acyclic(ParentMap(nodes))
  {
    hide Walk, IsRevList, ParentMap;
    ListingHasTrueEdges(g, dates, head, MAX_NODES, nodes);
    forall a, n: nat | n > 0 && Walk(ParentMap(nodes), a, a, n)
      ensures false
    {
      ListedWalkIsTrue(g, ParentMap(nodes), a, a, n);
    }
  }

  lemma BridgeLeadsOver(listed: Graph, head: Sha, c: Sha, p: Sha, candidate: Sha, d: nat)
    requires Cuts(listed, c, p) && candidate in listed && Walk(Bridged(listed, p, candidate), head, c, d)
    ensures Walk(Bridged(listed, p, candidate), head, candidate, d + 2)
  {
    hide Walk;
    var g := Bridged(listed, p, candidate);
    WalkAppend(g, head, c, p, d);
    WalkAppend(g, head, p, candidate, d + 1);
  }

  // ---- The exact condition ----

  lemma CutIsAcyclic(history: Graph, local: Graph, head: Sha)
    requires Acyclic(history) && IsLocalGraph(history, local, head)
    ensures Acyclic(local)
  {
    hide Walk;
    forall a, n: nat | n > 0 && Walk(local, a, a, n)
      ensures false
    {
      LocalCycleIsTrue(history, local, head, a, n);
    }
  }

  lemma LocalCycleIsTrue(history: Graph, local: Graph, head: Sha, a: Sha, n: nat)
    requires IsLocalGraph(history, local, head) && Walk(local, a, a, n)
    ensures Walk(history, a, a, n)
  {
    hide Walk, IsDistance;
    if local != history {
      var depth: nat :| IsDepthCut(history, local, head, depth);
      CutHasTrueEdges(history, local, head, depth);
      ListedWalkIsTrue(history, local, a, a, n);
    }
  }

  lemma NoRoomIsExact(history: Graph, local: Graph, dates: Dates, head: Sha, nodes: seq<GitParentNode>,
                      distances: map<Sha, nat>, candidate: Sha)
    requires Prints(history, local, dates, head, nodes)
    requires AreDistances(ParentMap(nodes), head, distances) && candidate in distances
    requires !LeavesRoom(ParentMap(nodes), distances, candidate)
    ensures IsDistance(history, head, candidate, distances[candidate])
  {
    var listed, d := ParentMap(nodes), distances[candidate];
    hide Walk, IsRevList, ParentMap, LeavesRoom, IsLocalGraph;
    CutIsAcyclic(history, local, head);
    ListingHasTrueEdges(local, dates, head, MAX_NODES, nodes);
    ListedWalkIsTrue(local, listed, head, candidate, d);
    LocalWalkIsTrue(history, local, head, candidate, d);
    var t := DistanceExists(history, head, candidate, d);
    ListedOrHead(local, dates, head, nodes, candidate, d);
    TrueDistanceIsLocal(history, local, head, candidate, t);
    NoRoomNoShorterWalk(local, dates, head, nodes, distances, candidate, t);
  }

  /**
   The distance is the true one in every history that prints the listing, exactly when the listing leaves no
   room for a shorter way over an unlisted parent.
   */
  lemma ReadDistanceIsExactIff(history: Graph, local: Graph, dates: Dates, head: Sha, nodes: seq<GitParentNode>,
                               distances: map<Sha, nat>, candidate: Sha)
    requires Prints(history, local, dates, head, nodes)
    requires AreDistances(ParentMap(nodes), head, distances) && candidate in distances
    ensures !LeavesRoom(ParentMap(nodes), distances, candidate) <==>
            forall h, l, ds :: Prints(h, l, ds, head, nodes) ==> IsDistance(h, head, candidate, distances[candidate])
  {
    hide AreDistances, IsDistance, LeavesRoom, ParentMap, IsRevList;
    if LeavesRoom(ParentMap(nodes), distances, candidate) {
      CutIsAcyclic(history, local, head);
      var h := RoomIsUsed(local, dates, head, nodes, distances, candidate);
    } else {
      forall h, l, ds | Prints(h, l, ds, head, nodes)
        ensures IsDistance(h, head, candidate, distances[candidate])
      {
        NoRoomIsExact(h, l, ds, head, nodes, distances, candidate);
      }
    }
  }
}
