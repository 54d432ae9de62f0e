/**
 A history of 201 commits with one skewed date, on which the 200 listed commits give a distance that
 is too large: head 0 has parents 1 and 2; 1 has parent 4; 2, 3, 4, ... are a chain; 1 is dated last.
 */
module SkewedHistory {
  import opened Common
  import opened AncestorDag
  import opened GitHistory
  import opened RevList

  const COMMITS: nat := 201

  function Digit(d: nat): (c: char)
    requires d < 10
    ensures DigitOf(c) == d
  {
    '0' + d as char
  }

  function DigitOf(c: char): int { c as int - '0' as int }

  /** The sha of commit `i`: its number in three digits, filled up. */
  function Commit(i: nat): (s: Sha)
    requires i < 1000
    ensures |s| == 40 && Number(s) == i
  {
    var (high, middle, low) := (i / 100, i / 10 % 10, i % 10);
    [Digit(high), Digit(middle), Digit(low)] + seq(37, _ => '0')
  }

  function Number(s: Sha): int {
    if |s| < 3 then 0 else 100 * DigitOf(s[0]) + 10 * DigitOf(s[1]) + DigitOf(s[2])
  }

  function ParentsOf(i: nat): seq<Sha>
    requires i < COMMITS
  {
    if i == 0 then [Commit(1), Commit(2)]
    else if i == 1 then [Commit(4)]
    else if i < COMMITS - 1 then [Commit(i + 1)]
    else []
  }

  /** Commit `j` is a parent of commit `i`. */
  predicate IsStep(i: nat, j: nat) {
    (i == 0 && 1 <= j <= 2) || (i == 1 && j == 4) || (2 <= i < COMMITS - 1 && j == i + 1)
  }

  lemma ParentNumber(i: nat, p: Sha) returns (j: nat)
    requires i < COMMITS && p in ParentsOf(i)
    ensures IsStep(i, j) && j < COMMITS && p == Commit(j)
  {
    hide Commit;
    j := if i == 0 then if p == Commit(1) then 1 else 2 else if i == 1 then 4 else i + 1;
  }

  lemma StepIsParent(i: nat, j: nat)
    requires IsStep(i, j)
    ensures j < COMMITS && Commit(j) in ParentsOf(i)
  {
    hide Commit;
  }

  function NodeOf(i: nat): GitParentNode
    requires i < COMMITS
  {
    GitParentNode(Commit(i), ParentsOf(i))
  }

  function AllNodes(): (nodes: seq<GitParentNode>)
    ensures |nodes| == COMMITS
  {
    seq(COMMITS, i requires 0 <= i < COMMITS => NodeOf(i))
  }

  ghost function History(): Graph { ParentMap(AllNodes()) }

  function DateOf(i: int): int { if i == 1 then 0 else 1000 - i }

  const SKEWED_DATES: Dates := s => DateOf(Number(s))

  /** Commit 1 is not among the first 200. */
  function PrintedAt(k: nat): nat { if k == 0 then 0 else k + 1 }

  function Listing(): (nodes: seq<GitParentNode>)
    ensures |nodes| == MAX_NODES
  {
    seq(MAX_NODES, k requires 0 <= k < MAX_NODES => NodeOf(PrintedAt(k)))
  }

  /** A list of these nodes gives each of its commits its parents. */
  lemma NodesMap(nodes: seq<GitParentNode>)
    requires forall node :: node in nodes ==> exists i :: 0 <= i < COMMITS && node == NodeOf(i)
    ensures forall i :: 0 <= i < COMMITS ==> (Commit(i) in ParentMap(nodes) <==> NodeOf(i) in nodes)
    ensures forall i :: 0 <= i < COMMITS && Commit(i) in ParentMap(nodes) ==> ParentMap(nodes)[Commit(i)] == ParentsOf(i)
    ensures forall s :: s in ParentMap(nodes) ==> exists i :: 0 <= i < COMMITS && s == Commit(i)
  {
    hide Commit, ParentsOf;
    ParentMapLists(nodes);
    forall i | 0 <= i < COMMITS && Commit(i) in ParentMap(nodes)
      ensures NodeOf(i) in nodes && ParentMap(nodes)[Commit(i)] == ParentsOf(i)
    {
      var node := GitParentNode(Commit(i), ParentMap(nodes)[Commit(i)]);
      var j :| 0 <= j < COMMITS && node == NodeOf(j);
      assert i == Number(Commit(i)) == Number(Commit(j)) == j;
    }
    forall s | s in ParentMap(nodes)
      ensures exists i :: 0 <= i < COMMITS && s == Commit(i)
    {
      var i :| 0 <= i < COMMITS && GitParentNode(s, ParentMap(nodes)[s]) == NodeOf(i);
    }
  }

  lemma HistoryHas(i: nat)
    requires i < COMMITS
    ensures Commit(i) in History() && History()[Commit(i)] == ParentsOf(i)
  {
    hide Commit, ParentsOf;
    assert AllNodes()[i] == NodeOf(i);
    NodesMap(AllNodes());
  }

  // ---- The listing is one the command prints ----

  lemma PrintedNodes(k: nat, node: GitParentNode)
    requires k <= MAX_NODES && node in Listing()[..k]
    ensures exists j :: 0 <= j < k && node == NodeOf(PrintedAt(j))
  {
    hide NodeOf;
    var j :| 0 <= j < k && Listing()[..k][j] == node;
    assert Listing()[j] == NodeOf(PrintedAt(j));
  }

  lemma IsPrinted(k: nat, j: nat)
    requires j < k <= MAX_NODES
    ensures NodeOf(PrintedAt(j)) in Listing()[..k] && Commit(PrintedAt(j)) in ShasOf(Listing()[..k])
  {
    assert Listing()[..k][j] == NodeOf(PrintedAt(j));
  }

  lemma NotPrinted(k: nat, i: nat)
    requires 0 < k <= MAX_NODES && i < COMMITS && (i == 1 || i > k)
    ensures Commit(i) !in ShasOf(Listing()[..k])
  {
    hide Commit, ParentsOf;
    forall node | node in Listing()[..k]
      ensures node.sha != Commit(i)
    {
      PrintedNodes(k, node);
      var j :| 0 <= j < k && node == NodeOf(PrintedAt(j));
      assert Number(node.sha) == PrintedAt(j);
    }
  }

  lemma ParentOfPrinted(k: nat, t: Sha) returns (n: nat)
    requires 0 < k < MAX_NODES
    requires exists node :: node in Listing()[..k] && t in node.parents
    ensures n < COMMITS && t == Commit(n) && (n == 1 || 2 <= n <= k + 1)
  {
    hide Commit, ParentsOf;
    var node :| node in Listing()[..k] && t in node.parents;
    PrintedNodes(k, node);
    hide Listing;
    var j :| 0 <= j < k && node == NodeOf(PrintedAt(j));
    n := ParentNumber(PrintedAt(j), t);
  }

  /** After `k` commits only commit 1 and the next of the chain wait. */
  lemma FrontierAfter(k: nat, t: Sha)
    requires 0 < k < MAX_NODES && IsFrontier(Listing()[..k], t)
    ensures t == Commit(1) || t == Commit(k + 1)
  {
    hide Commit, Listing, NodeOf;
    var n := ParentOfPrinted(k, t);
    if 2 <= n <= k {
      IsPrinted(k, n - 1);
    }
  }

  lemma NextIsNewest(k: nat)
    requires 0 < k < MAX_NODES
    ensures IsNewest(SKEWED_DATES, Listing()[..k], Commit(k + 1))
  {
    hide Commit;
    NotPrinted(k, k + 1);
    IsPrinted(k, k - 1);
    var before := PrintedAt(k - 1);
    assert Commit(k + 1) in NodeOf(before).parents;
    forall t | IsFrontier(Listing()[..k], t)
      ensures SKEWED_DATES(t) <= SKEWED_DATES(Commit(k + 1))
    {
      FrontierAfter(k, t);
      assert Number(Commit(1)) == 1 && Number(Commit(k + 1)) == k + 1;
    }
  }

  lemma ListingIsPrinted()
    ensures IsRevList(History(), SKEWED_DATES, Commit(0), MAX_NODES, Listing())
  {
    hide Commit, ParentsOf, History;
    var nodes := Listing();
    forall k | 0 <= k < MAX_NODES
      ensures nodes[k].sha in History() && nodes[k].parents == History()[nodes[k].sha]
      ensures k > 0 ==> IsNewest(SKEWED_DATES, nodes[..k], nodes[k].sha)
    {
      assert nodes[k] == NodeOf(PrintedAt(k));
      HistoryHas(PrintedAt(k));
      if k > 0 {
        NextIsNewest(k);
      }
    }
  }

  const LEVEL_DATES: Dates := _ => 0

  /** Where all dates are equal, newest first allows the same listing: that parents are not newer is not enough. */
  lemma LevelDatesAllowIt()
    ensures IsRevList(History(), LEVEL_DATES, Commit(0), MAX_NODES, Listing())
    ensures forall child, parent :: Edge(History(), child, parent) ==> LEVEL_DATES(parent) <= LEVEL_DATES(child)
  {
    hide Commit, ParentsOf, History;
    ListingIsPrinted();
    forall k | 0 < k < MAX_NODES
      ensures IsNewest(LEVEL_DATES, Listing()[..k], Listing()[k].sha)
    {
      assert IsNewest(SKEWED_DATES, Listing()[..k], Listing()[k].sha);
    }
  }

  lemma ListingIsHonest()
    ensures Honest(History(), Listing())
  {
    hide Commit, ParentsOf, History;
    forall node | node in Listing()
      ensures node.sha in History() && node.parents == History()[node.sha]
    {
      assert Listing()[..MAX_NODES] == Listing();
      PrintedNodes(MAX_NODES, node);
      var j :| 0 <= j < MAX_NODES && node == NodeOf(PrintedAt(j));
      HistoryHas(PrintedAt(j));
    }
  }

  // ---- The two distances ----

  /** A relaxed table and a chain of edges together certify a shortest distance. */
  lemma CertifiedDistance(g: Graph, distances: map<Sha, nat>, chain: seq<Sha>)
    requires |chain| > 0 && chain[0] in distances && distances[chain[0]] == 0
    requires forall c :: c in distances ==> Relaxed(g, distances, c)
    requires forall i :: 0 <= i < |chain| - 1 ==> Edge(g, chain[i], chain[i + 1])
    requires chain[|chain| - 1] in distances && distances[chain[|chain| - 1]] == |chain| - 1
    ensures IsDistance(g, chain[0], chain[|chain| - 1], |chain| - 1)
  {
    hide Walk, Relaxed;
    var s := chain[|chain| - 1];
    ChainIsWalk(g, chain);
    forall n: nat | Walk(g, chain[0], s, n) ensures distances[s] <= n {
      RelaxedBoundsWalks(g, chain[0], distances, s, n);
    }
  }

  lemma {:induction false} ChainIsWalk(g: Graph, chain: seq<Sha>)
    requires |chain| > 0
    requires forall i :: 0 <= i < |chain| - 1 ==> Edge(g, chain[i], chain[i + 1])
    ensures Walk(g, chain[0], chain[|chain| - 1], |chain| - 1)
  {
    if |chain| == 1 {
      WalkEmpty(g, chain[0]);
    } else {
      ChainIsWalk(g, chain[..|chain| - 1]);
      WalkAppend(g, chain[0], chain[|chain| - 2], chain[|chain| - 1], |chain| - 2);
    }
  }

  /** The distance of commit `i` from the head, with or without commit 1 on the way. */
  function TrueDistance(i: int): nat { if i <= 0 then 0 else if i <= 2 then 1 else if i <= 4 then 2 else i - 2 }

  function ListedDistance(i: int): nat { if i <= 1 then 0 else i - 1 }

  function Table(g: Graph, distance: int -> nat): map<Sha, nat> { map s | s in g :: distance(Number(s)) }

  ghost predicate AreOurNodes(nodes: seq<GitParentNode>) {
    forall node :: node in nodes ==> exists i :: 0 <= i < COMMITS && node == NodeOf(i)
  }

  lemma TableIsRelaxed(nodes: seq<GitParentNode>, distance: int -> nat)
    requires AreOurNodes(nodes)
    requires forall i: nat, j: nat :: IsStep(i, j) && NodeOf(i) in nodes && j < COMMITS ==> distance(j) <= distance(i) + 1
    ensures var table := Table(ParentMap(nodes), distance);
            forall c :: c in table ==> Relaxed(ParentMap(nodes), table, c)
  {
    var g := ParentMap(nodes);
    var table := Table(g, distance);
    hide AreOurNodes, ParentMap, NodeOf, IsStep, Commit;
    forall c, p | c in table && Edge(g, c, p)
      ensures p in table && table[p] <= table[c] + 1
    {
      var i, j := EdgeNumbers(nodes, c, p);
      assert Number(c) == i && Number(p) == j;
    }
  }

  lemma EdgeNumbers(nodes: seq<GitParentNode>, c: Sha, p: Sha) returns (i: nat, j: nat)
    requires AreOurNodes(nodes) && Edge(ParentMap(nodes), c, p)
    ensures i < COMMITS && j < COMMITS && c == Commit(i) && p == Commit(j) && IsStep(i, j) && NodeOf(i) in nodes
  {
    NodesMap(nodes);
    hide Commit, ParentMap, ParentsOf, IsStep, NodeOf;
    i :| 0 <= i < COMMITS && c == Commit(i);
    j := ParentNumber(i, p);
  }

  lemma ListedEdge(nodes: seq<GitParentNode>, i: nat, j: nat)
    requires AreOurNodes(nodes) && IsStep(i, j) && NodeOf(i) in nodes && j < COMMITS && NodeOf(j) in nodes
    ensures Edge(ParentMap(nodes), Commit(i), Commit(j))
  {
    NodesMap(nodes);
    StepIsParent(i, j);
    hide Commit, ParentMap, ParentsOf, NodeOf;
  }

  lemma AllNodesAreOurs(i: nat)
    ensures AreOurNodes(AllNodes()) && (i < COMMITS ==> NodeOf(i) in AllNodes())
  {
    hide NodeOf;
    if i < COMMITS {
      assert AllNodes()[i] == NodeOf(i);
    }
  }

  lemma ListedNodes(i: nat)
    ensures AreOurNodes(Listing()) && NodeOf(1) !in Listing()
    ensures i < COMMITS && i != 1 ==> NodeOf(i) in Listing()
  {
    hide Commit, ParentsOf;
    assert Listing()[..MAX_NODES] == Listing();
    forall node | node in Listing()
      ensures exists j :: 0 <= j < COMMITS && node == NodeOf(j)
      ensures node != NodeOf(1)
    {
      PrintedNodes(MAX_NODES, node);
      var j :| 0 <= j < MAX_NODES && node == NodeOf(PrintedAt(j));
      assert Number(node.sha) == PrintedAt(j) != 1;
    }
    if i < COMMITS && i != 1 {
      IsPrinted(MAX_NODES, if i == 0 then 0 else i - 1);
    }
  }

  lemma TableStarts(nodes: seq<GitParentNode>, distance: int -> nat, i: nat)
    requires AreOurNodes(nodes) && i < COMMITS && NodeOf(i) in nodes
    ensures Commit(i) in Table(ParentMap(nodes), distance) && Table(ParentMap(nodes), distance)[Commit(i)] == distance(i)
  {
    NodesMap(nodes);
    hide Commit, ParentMap, ParentsOf, NodeOf;
  }

  lemma TrueDistanceSteps()
    ensures forall i: nat, j: nat :: IsStep(i, j) ==> TrueDistance(j) <= TrueDistance(i) + 1
  {
  }

  lemma ShortArm()
    ensures IsStep(0, 1) && IsStep(1, 4) && TrueDistance(0) == 0 && TrueDistance(4) == 2
  {
  }

  lemma TrueDistanceIsTwo()
    ensures IsDistance(ParentMap(AllNodes()), Commit(0), Commit(4), 2)
  {
    var nodes := AllNodes();
    ShortArm();
    TrueDistanceSteps();
    hide AllNodes, NodeOf, Commit, IsStep, TrueDistance, AreOurNodes, ParentMap, Relaxed, IsDistance;
    AllNodesAreOurs(0);
    AllNodesAreOurs(1);
    AllNodesAreOurs(4);
    TableIsRelaxed(nodes, TrueDistance);
    ListedEdge(nodes, 0, 1);
    ListedEdge(nodes, 1, 4);
    TableStarts(nodes, TrueDistance, 0);
    TableStarts(nodes, TrueDistance, 4);
    hide Edge, Table;
    CertifiedDistance(ParentMap(nodes), Table(ParentMap(nodes), TrueDistance), [Commit(0), Commit(1), Commit(4)]);
  }

  lemma ListedDistanceIsThree()
    ensures IsDistance(ParentMap(Listing()), Commit(0), Commit(4), 3)
  {
    var nodes := Listing();
    hide Listing, NodeOf, Commit;
    ListedNodes(0);
    ListedNodes(2);
    ListedNodes(3);
    ListedNodes(4);
    TableIsRelaxed(nodes, ListedDistance);
    ListedEdge(nodes, 0, 2);
    ListedEdge(nodes, 2, 3);
    ListedEdge(nodes, 3, 4);
    TableStarts(nodes, ListedDistance, 0);
    TableStarts(nodes, ListedDistance, 4);
    hide ParentMap, IsDistance, Relaxed, Edge, Table;
    CertifiedDistance(ParentMap(nodes), Table(ParentMap(nodes), ListedDistance),
                      [Commit(0), Commit(2), Commit(3), Commit(4)]);
  }

  /** A listing the command prints, of true commits, from which the search reads 3 where the history has 2. */
  lemma SkewedListingOverestimates(distances: map<Sha, nat>)
    requires AreDistances(ParentMap(Listing()), Commit(0), distances)
    ensures IsRevList(History(), SKEWED_DATES, Commit(0), MAX_NODES, Listing()) && Honest(History(), Listing())
    ensures IsDistance(History(), Commit(0), Commit(4), 2)
    ensures Commit(4) in distances && distances[Commit(4)] == 3
  {
    hide Commit, Listing, AllNodes, Walk;
    ListingIsPrinted();
    ListingIsHonest();
    TrueDistanceIsTwo();
    ListedDistanceIsThree();
    assert Reaches(ParentMap(Listing()), Commit(0), Commit(4));
  }
}
