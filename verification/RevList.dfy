/**
 What `git rev-list --max-count=200 --parents` prints, and when distances read off it are the true
 ones: newest first by commit date, from a full or a depth-cut history.
 */
module RevList {
  import opened Common
  import opened AncestorDag
  import opened GitHistory

  // ---- The traversal ----

  type Dates = Sha -> int

  function ShasOf(nodes: seq<GitParentNode>): set<Sha> { set node | node in nodes :: node.sha }

  /** Parents of printed commits that are not printed yet. */
  ghost predicate IsFrontier(nodes: seq<GitParentNode>, s: Sha) {
    s !in ShasOf(nodes) && exists node :: node in nodes && s in node.parents
  }

  /** Start at `head`; then always print a newest commit of the frontier, until it is empty or the count is reached. */
  ghost predicate IsRevList(g: Graph, dates: Dates, head: Sha, count: nat, nodes: seq<GitParentNode>) {
    && 0 < |nodes| <= count && nodes[0].sha == head
    && (forall i :: 0 <= i < |nodes| ==> nodes[i].sha in g && nodes[i].parents == g[nodes[i].sha])
    && (forall i :: 0 < i < |nodes| ==> IsNewest(dates, nodes[..i], nodes[i].sha))
    && (|nodes| < count ==> forall s :: !IsFrontier(nodes, s))
  }

  ghost predicate IsNewest(dates: Dates, printed: seq<GitParentNode>, s: Sha) {
    IsFrontier(printed, s) && forall t :: IsFrontier(printed, t) ==> dates(t) <= dates(s)
  }

  lemma ListingKeepsParents(g: Graph, dates: Dates, head: Sha, count: nat, nodes: seq<GitParentNode>)
    requires IsRevList(g, dates, head, count, nodes)
    ensures forall s :: s in ShasOf(nodes) <==> s in ParentMap(nodes)
    ensures forall s :: s in ParentMap(nodes) ==> s in g && ParentMap(nodes)[s] == g[s]
  {
    ParentMapLists(nodes);
  }

  lemma ListingHasTrueEdges(g: Graph, dates: Dates, head: Sha, count: nat, nodes: seq<GitParentNode>)
    requires IsRevList(g, dates, head, count, nodes)
    ensures TrueEdges(g, ParentMap(nodes))
  {
    ListingKeepsParents(g, dates, head, count, nodes);
  }

  lemma LastStep(g: Graph, a: Sha, b: Sha, n: nat) returns (c: Sha)
    requires n > 0 && Walk(g, a, b, n)
    ensures Walk(g, a, c, n - 1) && Edge(g, c, b)
  {
    c :| Walk(g, a, c, n - 1) && Edge(g, c, b);
  }

  lemma EmptyWalk(g: Graph, a: Sha, b: Sha)
    ensures Walk(g, a, b, 0) <==> a == b
  {
  }

  // ---- A listing below the count ----

  lemma HeadIsListed(g: Graph, dates: Dates, head: Sha, count: nat, nodes: seq<GitParentNode>)
    requires IsRevList(g, dates, head, count, nodes)
    ensures head in ParentMap(nodes)
  {
    ListingKeepsParents(g, dates, head, count, nodes);
    assert nodes[0] in nodes;
  }

  lemma StoppedListingHasParents(g: Graph, dates: Dates, head: Sha, count: nat, nodes: seq<GitParentNode>, y: Sha, s: Sha)
    requires IsRevList(g, dates, head, count, nodes) && |nodes| < count
    requires y in ParentMap(nodes) && Edge(g, y, s)
    ensures s in ParentMap(nodes) && Edge(ParentMap(nodes), y, s)
  {
    ListingKeepsParents(g, dates, head, count, nodes);
    ParentMapLists(nodes);
    assert GitParentNode(y, ParentMap(nodes)[y]) in nodes;
    assert !IsFrontier(nodes, s);
  }

  /** A listing that stopped by itself has every walk from `head`. */
  lemma {:induction false} ShortListingIsComplete(g: Graph, dates: Dates, head: Sha, count: nat, nodes: seq<GitParentNode>,
                                                  s: Sha, n: nat)
    requires IsRevList(g, dates, head, count, nodes) && |nodes| < count && Walk(g, head, s, n)
    ensures s in ParentMap(nodes) && Walk(ParentMap(nodes), head, s, n)
    decreases n
  {
    hide Walk, IsRevList, ParentMap, Edge;
    if n == 0 {
      HeadIsListed(g, dates, head, count, nodes);
      EmptyWalk(g, head, s);
      EmptyWalk(ParentMap(nodes), head, s);
    } else {
      var y := LastStep(g, head, s, n);
      ShortListingIsComplete(g, dates, head, count, nodes, y, n - 1);
      StoppedListingHasParents(g, dates, head, count, nodes, y, s);
      WalkAppend(ParentMap(nodes), head, y, s, n - 1);
    }
  }

  // ---- A full listing of a history whose parents are strictly older ----

  ghost predicate ParentsAreOlder(g: Graph, dates: Dates) {
    forall child, parent :: Edge(g, child, parent) ==> dates(parent) < dates(child)
  }

  /** On the way to an unprinted commit, some frontier commit is at least as new. */
  lemma {:induction false} FrontierOnTheWay(g: Graph, dates: Dates, head: Sha, printed: seq<GitParentNode>, y: Sha, m: nat)
    returns (w: Sha)
    requires ParentsAreOlder(g, dates) && head in ShasOf(printed)
    requires forall node :: node in printed ==> node.sha in g && node.parents == g[node.sha]
    requires Walk(g, head, y, m) && y !in ShasOf(printed)
    ensures IsFrontier(printed, w) && dates(w) >= dates(y)
    decreases m
  {
    var x :| Walk(g, head, x, m - 1) && Edge(g, x, y);
    if x in ShasOf(printed) {
      w := y;
    } else {
      w := FrontierOnTheWay(g, dates, head, printed, x, m - 1);
    }
  }

  lemma UnprintedBlocks(g: Graph, dates: Dates, head: Sha, printed: seq<GitParentNode>, y: Sha, m: nat, s: Sha)
    requires ParentsAreOlder(g, dates) && head in ShasOf(printed)
    requires forall node :: node in printed ==> node.sha in g && node.parents == g[node.sha]
    requires Walk(g, head, y, m) && y !in ShasOf(printed) && dates(s) < dates(y)
    ensures !IsNewest(dates, printed, s)
  {
    var w := FrontierOnTheWay(g, dates, head, printed, y, m);
  }

  /** A printed commit's descendants on every walk from `head` were printed before it. */
  lemma {:induction false} NewestListingHasWalks(g: Graph, dates: Dates, head: Sha, count: nat, nodes: seq<GitParentNode>,
                                                 k: nat, n: nat)
    requires IsRevList(g, dates, head, count, nodes) && ParentsAreOlder(g, dates)
    requires k < |nodes| && Walk(g, head, nodes[k].sha, n)
    ensures Walk(ParentMap(nodes), head, nodes[k].sha, n)
    decreases n
  {
    hide Walk, IsRevList;
    var s := nodes[k].sha;
    if n == 0 {
      EmptyWalk(g, head, s);
      EmptyWalk(ParentMap(nodes), head, s);
    } else {
      var y := LastStep(g, head, s, n);
      var j := PrintedBefore(g, dates, head, count, nodes, k, y, n - 1);
      NewestListingHasWalks(g, dates, head, count, nodes, j, n - 1);
      ListingKeepsParents(g, dates, head, count, nodes);
      assert nodes[k] in nodes && nodes[j] in nodes;
      WalkAppend(ParentMap(nodes), head, y, s, n - 1);
    }
  }

  lemma PrintedBefore(g: Graph, dates: Dates, head: Sha, count: nat, nodes: seq<GitParentNode>, k: nat, y: Sha, m: nat)
    returns (j: nat)
    requires IsRevList(g, dates, head, count, nodes) && ParentsAreOlder(g, dates)
    requires k < |nodes| && Walk(g, head, y, m) && Edge(g, y, nodes[k].sha)
    ensures j < k && nodes[j].sha == y
  {
    hide Walk;
    var s, printed := nodes[k].sha, nodes[..k];
    OlderAlongWalk(g, dates, head, y, m);
    assert dates(s) < dates(y);
    assert k > 0;
    assert printed[0] == nodes[0] && printed[0] in printed;
    if y !in ShasOf(printed) {
      UnprintedBlocks(g, dates, head, printed, y, m, s);
    }
    var node :| node in printed && node.sha == y;
    j :| 0 <= j < k && printed[j] == node;
  }

  lemma {:induction false} OlderAlongWalk(g: Graph, dates: Dates, a: Sha, b: Sha, n: nat)
    requires ParentsAreOlder(g, dates) && Walk(g, a, b, n)
    ensures dates(b) <= dates(a)
    decreases n
  {
    if n > 0 {
      var c :| Walk(g, a, c, n - 1) && Edge(g, c, b);
      OlderAlongWalk(g, dates, a, c, n - 1);
    }
  }

  // ---- A history cut at a depth ----

  /** What a fetch of this depth leaves: the commits nearer than that, the farthest of them without parents. */
  ghost predicate IsDepthCut(history: Graph, cut: Graph, head: Sha, depth: nat) {
    forall s ::
      (s in cut <==> s in history && exists d: nat :: d < depth && IsDistance(history, head, s, d)) &&
      (s in cut ==> cut[s] == if IsDistance(history, head, s, depth - 1) then [] else history[s])
  }

  lemma {:induction false} CutKeepsShortestWalks(history: Graph, cut: Graph, head: Sha, depth: nat, s: Sha, d: nat)
    requires IsDepthCut(history, cut, head, depth) && d < depth && head in history
    requires IsDistance(history, head, s, d)
    ensures Walk(cut, head, s, d)
    decreases d
  {
    hide Walk, IsDistance, IsDepthCut;
    if d == 0 {
      EmptyWalk(history, head, s);
      DistanceIsWalk(history, head, s, d);
      EmptyWalk(cut, head, s);
    } else {
      DistanceIsWalk(history, head, s, d);
      var y := LastStep(history, head, s, d);
      StepBackIsDistance(history, head, y, s, d);
      CutKeepsShortestWalks(history, cut, head, depth, y, d - 1);
      CutKeepsStep(history, cut, head, depth, y, s, d);
      WalkAppend(cut, head, y, s, d - 1);
    }
  }

  lemma DistanceIsWalk(g: Graph, a: Sha, b: Sha, d: nat)
    requires IsDistance(g, a, b, d)
    ensures Walk(g, a, b, d)
    ensures forall e: nat :: IsDistance(g, a, b, e) ==> e == d
  {
    hide Walk;
  }

  /** The commit before the end of a shortest walk is one nearer. */
  lemma StepBackIsDistance(g: Graph, a: Sha, y: Sha, s: Sha, d: nat)
    requires d > 0 && IsDistance(g, a, s, d) && Walk(g, a, y, d - 1) && Edge(g, y, s)
    ensures IsDistance(g, a, y, d - 1)
  {
    hide Walk;
    forall n: nat | Walk(g, a, y, n)
      ensures d - 1 <= n
    {
      WalkAppend(g, a, y, s, n);
    }
  }

  lemma CutKeepsStep(history: Graph, cut: Graph, head: Sha, depth: nat, y: Sha, s: Sha, d: nat)
    requires IsDepthCut(history, cut, head, depth) && 0 < d < depth && Edge(history, y, s)
    requires IsDistance(history, head, y, d - 1) && IsDistance(history, head, s, d)
    ensures Edge(cut, y, s)
  {
    hide IsDistance;
    DistanceIsWalk(history, head, y, d - 1);
    assert y in cut && s in cut;
  }

  lemma CutHasTrueEdges(history: Graph, cut: Graph, head: Sha, depth: nat)
    requires IsDepthCut(history, cut, head, depth)
    ensures TrueEdges(history, cut)
  {
    hide IsDistance;
  }

  // ---- When the answer is exact ----

  /** The repository is complete, or cut at a depth. */
  ghost predicate IsLocalGraph(history: Graph, local: Graph, head: Sha) {
    local == history || exists depth: nat :: IsDepthCut(history, local, head, depth)
  }

  /**
   A distance read off the listing is the true one when the listing ended by itself, or every parent
   is strictly older than its child; in a full or a depth-cut repository.
   */
  lemma ReadDistanceIsExact(history: Graph, local: Graph, dates: Dates, head: Sha, nodes: seq<GitParentNode>,
                            distances: map<Sha, nat>, candidate: Sha)
    requires head in history && IsLocalGraph(history, local, head)
    requires IsRevList(local, dates, head, MAX_NODES, nodes)
    requires |nodes| < MAX_NODES || ParentsAreOlder(local, dates)
    requires AreDistances(ParentMap(nodes), head, distances) && candidate in distances
    ensures IsDistance(history, head, candidate, distances[candidate])
  {
    var listed, d := ParentMap(nodes), distances[candidate];
    ListingHasTrueEdges(local, dates, head, MAX_NODES, nodes);
    ListedWalkIsTrue(local, listed, head, candidate, d);
    LocalWalkIsTrue(history, local, head, candidate, d);
    var t := DistanceExists(history, head, candidate, d);
    ListedOrHead(local, dates, head, nodes, candidate, d);
    TrueDistanceIsLocal(history, local, head, candidate, t);
    if |nodes| < MAX_NODES {
      ShortListingIsComplete(local, dates, head, MAX_NODES, nodes, candidate, t);
    } else {
      var k :| 0 <= k < |nodes| && nodes[k].sha == candidate;
      NewestListingHasWalks(local, dates, head, MAX_NODES, nodes, k, t);
    }
  }

  lemma LocalWalkIsTrue(history: Graph, local: Graph, head: Sha, s: Sha, n: nat)
    requires IsLocalGraph(history, local, head) && Walk(local, head, s, n)
    ensures Walk(history, head, s, n)
  {
    if local != history {
      var depth: nat :| IsDepthCut(history, local, head, depth);
      CutHasTrueEdges(history, local, head, depth);
      ListedWalkIsTrue(history, local, head, s, n);
    }
  }

  /** A commit that a walk ends in is listed. */
  lemma ListedOrHead(g: Graph, dates: Dates, head: Sha, nodes: seq<GitParentNode>, s: Sha, n: nat)
    requires IsRevList(g, dates, head, MAX_NODES, nodes) && Walk(ParentMap(nodes), head, s, n)
    ensures s in g && exists k :: 0 <= k < |nodes| && nodes[k].sha == s
  {
    ListingKeepsParents(g, dates, head, MAX_NODES, nodes);
    assert nodes[0] in nodes;
    assert s in ShasOf(nodes);
  }

  lemma TrueDistanceIsLocal(history: Graph, local: Graph, head: Sha, s: Sha, t: nat)
    requires head in history && IsLocalGraph(history, local, head) && s in local && IsDistance(history, head, s, t)
    ensures Walk(local, head, s, t)
  {
    if local != history {
      var depth: nat :| IsDepthCut(history, local, head, depth);
      assert exists d: nat :: d < depth && IsDistance(history, head, s, d);
      CutKeepsShortestWalks(history, local, head, depth, s, t);
    }
  }
}
