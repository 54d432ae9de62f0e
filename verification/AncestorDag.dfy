/**
 Shortest parent-edge distances over a listed part of a Git history, and the two
 listings they are computed from: the local rev-list and the remote compare range.
 */
module AncestorDag {
  import opened Common

  type Sha = string
  datatype GitParentNode = GitParentNode(sha: Sha, parents: seq<Sha>)
  type Graph = map<Sha, seq<Sha>>

  const MAX_NODES: nat := 200

  // ---- Walks: the reference notion of distance ----

  /** A parent edge counts only when both ends are listed. */
  predicate Edge(g: Graph, child: Sha, parent: Sha) {
    child in g && parent in g[child] && parent in g
  }

  /** Some chain of exactly `n` parent edges leads from `a` to `b`. */
  ghost predicate Walk(g: Graph, a: Sha, b: Sha, n: nat)
    decreases n
  {
    if n == 0 then a == b else exists c :: Walk(g, a, c, n - 1) && Edge(g, c, b)
  }

  ghost predicate Reaches(g: Graph, a: Sha, b: Sha) {
    exists n: nat :: Walk(g, a, b, n)
  }

  ghost predicate IsDistance(g: Graph, a: Sha, b: Sha, d: nat) {
    Walk(g, a, b, d) && forall n: nat :: Walk(g, a, b, n) ==> d <= n
  }

  ghost predicate Acyclic(g: Graph) {
    forall a, n: nat :: n > 0 ==> !Walk(g, a, a, n)
  }

  lemma {:induction false} WalkConcat(g: Graph, a: Sha, b: Sha, c: Sha, m: nat, n: nat)
    requires Walk(g, a, b, m) && Walk(g, b, c, n)
    ensures Walk(g, a, c, m + n)
    decreases n
  {
    if n > 0 {
      var x :| Walk(g, b, x, n - 1) && Edge(g, x, c);
      WalkConcat(g, a, b, x, m, n - 1);
      assert Walk(g, a, x, m + n - 1);
    }
  }

  lemma WalkPrepend(g: Graph, y: Sha, x: Sha, c: Sha, n: nat)
    requires Edge(g, y, x) && Walk(g, x, c, n)
    ensures Walk(g, y, c, n + 1)
  {
    assert Walk(g, y, y, 0);
    assert Walk(g, y, x, 1);
    WalkConcat(g, y, x, c, 1, n);
  }

  /** A reachable node has a shortest distance. */
  lemma {:induction false} DistanceExists(g: Graph, a: Sha, b: Sha, n: nat) returns (d: nat)
    requires Walk(g, a, b, n)
    ensures d <= n && IsDistance(g, a, b, d)
  {
    d := n;
    while exists k: nat :: k < d && Walk(g, a, b, k)
      invariant d <= n && Walk(g, a, b, d)
      decreases d
    {
      var k: nat :| k < d && Walk(g, a, b, k);
      d := k;
    }
  }

  // ---- dagDistances ----

  /** `new Map(nodes.map(...))`: a repeated sha keeps its last parent list. */
  function ParentMap(nodes: seq<GitParentNode>): Graph {
    if nodes == [] then map[]
    else
      var last := nodes[|nodes| - 1];
      ParentMap(nodes[..|nodes| - 1])[last.sha := last.parents]
  }

  lemma {:induction false} ParentMapLists(nodes: seq<GitParentNode>)
    ensures forall s :: s in ParentMap(nodes) ==> GitParentNode(s, ParentMap(nodes)[s]) in nodes
    ensures forall node :: node in nodes ==> node.sha in ParentMap(nodes)
  {
    if nodes != [] {
      ParentMapLists(nodes[..|nodes| - 1]);
    }
  }

  /** The map holds exactly the reachable listed nodes, each with its shortest distance. */
  ghost predicate AreDistances(g: Graph, head: Sha, distances: map<Sha, nat>) {
    && (forall s :: s in distances <==> Reaches(g, head, s))
    && (forall s :: s in distances ==> IsDistance(g, head, s, distances[s]))
  }

  /** No edge leaves the map, and no edge lengthens a recorded distance by more than one. */
  ghost predicate Relaxed(g: Graph, distances: map<Sha, nat>, child: Sha) {
    child in distances &&
    forall p :: Edge(g, child, p) ==> p in distances && distances[p] <= distances[child] + 1
  }

  lemma {:induction false} RelaxedBoundsWalks(g: Graph, head: Sha, distances: map<Sha, nat>, s: Sha, n: nat)
    requires head in distances && distances[head] == 0
    requires forall c :: c in distances ==> Relaxed(g, distances, c)
    requires Walk(g, head, s, n)
    ensures s in distances && distances[s] <= n
    decreases n
  {
    if n > 0 {
      var c :| Walk(g, head, c, n - 1) && Edge(g, c, s);
      RelaxedBoundsWalks(g, head, distances, c, n - 1);
      assert Relaxed(g, distances, c);
    }
  }

  /** What the queue loop keeps: the queue lists the map's keys once each, in order of distance. */
  ghost predicate QueueInvariant(g: Graph, head: Sha, queue: seq<Sha>, distances: map<Sha, nat>) {
    && head in distances && distances[head] == 0
    && (forall s :: s in queue <==> s in distances)
    && |queue| == |distances|
    && distances.Keys <= g.Keys + {head}
    && (forall s :: s in distances ==> Walk(g, head, s, distances[s]))
    && (forall i, j :: 0 <= i < j < |queue| ==> distances[queue[i]] <= distances[queue[j]])
  }

  /**
   The state between two parents: queue entries before `position` are relaxed, the first
   `k` listed parents of the entry at `position` are recorded.
   */
  ghost predicate Visiting(g: Graph, head: Sha, queue: seq<Sha>, distances: map<Sha, nat>,
                           position: nat, k: nat) {
    && QueueInvariant(g, head, queue, distances)
    && (forall i :: 0 <= i < position && i < |queue| ==> Relaxed(g, distances, queue[i]))
    && position < |queue| && queue[position] in distances
    && k <= |ListedParents(g, queue[position])|
    && (forall s :: s in distances ==> distances[s] <= distances[queue[position]] + 1)
    && (forall m :: 0 <= m < k ==> Recorded(g, distances, ListedParents(g, queue[position])[m]))
  }

  /** `parents.get(sha) ?? []` */
  function ListedParents(g: Graph, sha: Sha): seq<Sha> {
    if sha in g then g[sha] else []
  }

  ghost predicate Recorded(g: Graph, distances: map<Sha, nat>, p: Sha) {
    p in g ==> p in distances
  }

  lemma VisitNext(g: Graph, head: Sha, queue: seq<Sha>, distances: map<Sha, nat>, position: nat)
    requires position < |queue| && Visiting(g, head, queue, distances, position, |ListedParents(g, queue[position])|)
    ensures position + 1 < |queue| ==> Visiting(g, head, queue, distances, position + 1, 0)
    ensures position + 1 == |queue| ==> AreDistances(g, head, distances)
  {
    var sha := queue[position];
    forall p | Edge(g, sha, p) ensures p in distances && distances[p] <= distances[sha] + 1 {
      var m :| 0 <= m < |g[sha]| && g[sha][m] == p;
      assert Recorded(g, distances, ListedParents(g, sha)[m]);
    }
    assert Relaxed(g, distances, sha);
    if position + 1 == |queue| {
      RelaxedIsShortest(g, head, queue, distances);
    }
  }

  lemma QueueBounded(g: Graph, head: Sha, queue: seq<Sha>, distances: map<Sha, nat>)
    requires QueueInvariant(g, head, queue, distances)
    ensures |queue| <= |g| + 1
  {
    SubsetSize(distances.Keys, g.Keys + {head});
    assert |g.Keys + {head}| <= |g.Keys| + 1;
  }

  lemma {:induction false} SubsetSize<T>(small: set<T>, big: set<T>)
    requires small <= big
    ensures |small| <= |big|
  {
    assert big == small + (big - small);
  }

  lemma VisitStart(g: Graph, head: Sha)
    ensures Visiting(g, head, [head], map[head := 0], 0, 0)
  {
    WalkEmpty(g, head);
  }

  lemma WalkEmpty(g: Graph, a: Sha)
    ensures Walk(g, a, a, 0)
  {
  }

  lemma WalkAppend(g: Graph, a: Sha, b: Sha, c: Sha, n: nat)
    requires Walk(g, a, b, n) && Edge(g, b, c)
    ensures Walk(g, a, c, n + 1)
  {
  }

  lemma EnqueueKeepsOrder(g: Graph, head: Sha, queue: seq<Sha>, distances: map<Sha, nat>, sha: Sha, parent: Sha)
    requires QueueInvariant(g, head, queue, distances)
    requires sha in distances && Edge(g, sha, parent) && parent !in distances
    requires forall s :: s in distances ==> distances[s] <= distances[sha] + 1
    ensures QueueInvariant(g, head, queue + [parent], distances[parent := distances[sha] + 1])
  {
    hide Walk;
    WalkAppend(g, head, sha, parent, distances[sha]);
    var more := distances[parent := distances[sha] + 1];
    assert more.Keys == distances.Keys + {parent};
  }

  /** Every parent already recorded, or not listed, is passed over. */
  lemma VisitSkip(g: Graph, head: Sha, queue: seq<Sha>, distances: map<Sha, nat>, position: nat, k: nat)
    requires Visiting(g, head, queue, distances, position, k)
    requires k < |ListedParents(g, queue[position])|
    requires Recorded(g, distances, ListedParents(g, queue[position])[k])
    ensures Visiting(g, head, queue, distances, position, k + 1)
  {
    hide QueueInvariant, Relaxed;
  }

  lemma VisitBounds(g: Graph, head: Sha, queue: seq<Sha>, distances: map<Sha, nat>, position: nat, k: nat)
    requires Visiting(g, head, queue, distances, position, k)
    ensures position < |queue| <= |g| + 1 && queue[position] in distances
    ensures k <= |ListedParents(g, queue[position])|
  {
    QueueBounded(g, head, queue, distances);
  }

  /** `distances.set(parent, distances.get(sha) + 1)` */
  function Record(distances: map<Sha, nat>, sha: Sha, parent: Sha): map<Sha, nat>
    requires sha in distances
  {
    distances[parent := distances[sha] + 1]
  }

  lemma RelaxedStays(g: Graph, distances: map<Sha, nat>, parent: Sha, d: nat, c: Sha)
    requires Relaxed(g, distances, c) && parent !in distances
    ensures Relaxed(g, distances[parent := d], c)
  {
  }

  /** Recording a new parent of the node being visited keeps everything established so far. */
  lemma VisitNew(g: Graph, head: Sha, queue: seq<Sha>, distances: map<Sha, nat>, position: nat, k: nat)
    requires Visiting(g, head, queue, distances, position, k)
    requires k < |ListedParents(g, queue[position])|
    requires ListedParents(g, queue[position])[k] in g
    requires ListedParents(g, queue[position])[k] !in distances
    ensures var parent := ListedParents(g, queue[position])[k];
            Visiting(g, head, queue + [parent], Record(distances, queue[position], parent), position, k + 1)
  {
    hide QueueInvariant, Relaxed;
    var sha := queue[position];
    var parent := ListedParents(g, sha)[k];
    var more := distances[parent := distances[sha] + 1];
    EnqueueKeepsOrder(g, head, queue, distances, sha, parent);
    forall i | 0 <= i < position ensures Relaxed(g, more, queue[i]) {
      RelaxedStays(g, distances, parent, more[parent], queue[i]);
    }
    forall m | 0 <= m < k + 1 ensures Recorded(g, more, ListedParents(g, sha)[m]) {
      assert m < k ==> Recorded(g, distances, ListedParents(g, sha)[m]);
    }
  }

  lemma RelaxedIsShortest(g: Graph, head: Sha, queue: seq<Sha>, distances: map<Sha, nat>)
    requires QueueInvariant(g, head, queue, distances)
    requires forall c :: c in distances ==> Relaxed(g, distances, c)
    ensures AreDistances(g, head, distances)
  {
    forall s | s in distances ensures IsDistance(g, head, s, distances[s]) {
      forall n: nat | Walk(g, head, s, n) ensures distances[s] <= n {
        RelaxedBoundsWalks(g, head, distances, s, n);
      }
    }
    forall s | Reaches(g, head, s) ensures s in distances {
      var n: nat :| Walk(g, head, s, n);
      RelaxedBoundsWalks(g, head, distances, s, n);
    }
  }

  /** The inner loop: record every listed parent not yet recorded, in order. */
  method VisitParents(parents: Graph, ghost head: Sha, queue: seq<Sha>, distances: map<Sha, nat>, position: nat)
    returns (longer: seq<Sha>, more: map<Sha, nat>)
    requires Visiting(parents, head, queue, distances, position, 0)
    ensures position < |longer|
    ensures Visiting(parents, head, longer, more, position, |ListedParents(parents, longer[position])|)
  {
    VisitBounds(parents, head, queue, distances, position, 0);
    hide Visiting, Record;
    longer, more := queue, distances;
    var sha := queue[position];
    var listed := ListedParents(parents, sha);
    var k := 0;
    while k < |listed|
      invariant k <= |listed| && position < |longer| && longer[position] == sha
      invariant Visiting(parents, head, longer, more, position, k)
    {
      VisitBounds(parents, head, longer, more, position, k);
      var parent := listed[k];
      if parent in parents && parent !in more {
        VisitNew(parents, head, longer, more, position, k);
        more := Record(more, sha, parent);
        longer := longer + [parent];
      } else {
        VisitSkip(parents, head, longer, more, position, k);
      }
      k := k + 1;
    }
  }

  /** Breadth-first search from `head`, parent lists in order, first visit wins. */
  method DagDistances(head: Sha, nodes: seq<GitParentNode>) returns (r: Result<map<Sha, nat>>)
    ensures r.Failure? <==> |nodes| > MAX_NODES
    ensures r.Success? ==> AreDistances(ParentMap(nodes), head, r.value)
  {
    if |nodes| > MAX_NODES {
      return Failure;
    }
    hide AreDistances, Visiting;
    var parents := ParentMap(nodes);
    var distances: map<Sha, nat> := map[head := 0];
    var queue := [head];
    var position := 0;
    VisitStart(parents, head);
    while position < |queue|
      invariant position <= |queue|
      invariant position < |queue| ==> Visiting(parents, head, queue, distances, position, 0)
      invariant position == |queue| ==> AreDistances(parents, head, distances)
      decreases |parents| + 1 - position
    {
      queue, distances := VisitParents(parents, head, queue, distances, position);
      VisitBounds(parents, head, queue, distances, position, |ListedParents(parents, queue[position])|);
      VisitNext(parents, head, queue, distances, position);
      position := position + 1;
    }
    return Success(distances);
  }
}
