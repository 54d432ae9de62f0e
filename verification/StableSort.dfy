/** The stable library sort, as an insertion sort over a "comes strictly before" test. */
module StableSort {
  ghost predicate StrictWeakOrder<T(!new)>(before: (T, T) -> bool) {
    && (forall a, b :: before(a, b) ==> !before(b, a))
    && (forall a, b, c :: !before(a, b) && !before(b, c) ==> !before(a, c))
  }

  ghost predicate Ordered<T>(before: (T, T) -> bool, xs: seq<T>) {
    forall i, j :: 0 <= i < j < |xs| ==> !before(xs[j], xs[i])
  }

  function Insert<T>(before: (T, T) -> bool, xs: seq<T>, x: T): (ys: seq<T>)
    ensures multiset(ys) == multiset(xs) + multiset{x}
  {
    if xs == [] then [x]
    else
      var front, last := xs[..|xs| - 1], xs[|xs| - 1];
      assert xs == front + [last];
      if before(x, last) then Insert(before, front, x) + [last] else xs + [x]
  }

  function Sort<T>(before: (T, T) -> bool, xs: seq<T>): (ys: seq<T>)
    ensures multiset(ys) == multiset(xs)
  {
    if xs == [] then []
    else
      assert xs == xs[..|xs| - 1] + [xs[|xs| - 1]];
      Insert(before, Sort(before, xs[..|xs| - 1]), xs[|xs| - 1])
  }

  lemma {:induction false} InsertOrders<T(!new)>(before: (T, T) -> bool, xs: seq<T>, x: T)
    requires StrictWeakOrder(before) && Ordered(before, xs)
    ensures Ordered(before, Insert(before, xs, x))
  {
    if xs != [] {
      var front, last := xs[..|xs| - 1], xs[|xs| - 1];
      if before(x, last) {
        InsertOrders(before, front, x);
        var placed := Insert(before, front, x);
        forall i | 0 <= i < |placed| ensures !before(last, placed[i]) {
          assert placed[i] in multiset(placed);
        }
      }
    }
  }

  lemma {:induction false} SortOrders<T(!new)>(before: (T, T) -> bool, xs: seq<T>)
    requires StrictWeakOrder(before)
    ensures Ordered(before, Sort(before, xs))
  {
    if xs != [] {
      SortOrders(before, xs[..|xs| - 1]);
      InsertOrders(before, Sort(before, xs[..|xs| - 1]), xs[|xs| - 1]);
    }
  }

  /** The test follows a rank, whatever it does between equal ranks. */
  ghost predicate Follows<T(!new)>(before: (T, T) -> bool, rank: T -> int) {
    forall a, b :: (rank(a) < rank(b) ==> before(a, b)) && (before(a, b) ==> rank(a) <= rank(b))
  }

  ghost predicate RankOrdered<T>(rank: T -> int, xs: seq<T>) {
    forall i, j :: 0 <= i < j < |xs| ==> rank(xs[i]) <= rank(xs[j])
  }

  lemma {:induction false} InsertFollowsRank<T(!new)>(before: (T, T) -> bool, rank: T -> int, xs: seq<T>, x: T)
    requires Follows(before, rank) && RankOrdered(rank, xs)
    ensures RankOrdered(rank, Insert(before, xs, x))
  {
    if xs != [] {
      var front, last := xs[..|xs| - 1], xs[|xs| - 1];
      if before(x, last) {
        InsertFollowsRank(before, rank, front, x);
        var placed := Insert(before, front, x);
        forall i | 0 <= i < |placed| ensures rank(placed[i]) <= rank(last) {
          assert placed[i] in multiset(placed);
        }
      }
    }
  }

  lemma {:induction false} SortFollowsRank<T(!new)>(before: (T, T) -> bool, rank: T -> int, xs: seq<T>)
    requires Follows(before, rank)
    ensures RankOrdered(rank, Sort(before, xs))
  {
    if xs != [] {
      SortFollowsRank(before, rank, xs[..|xs| - 1]);
      InsertFollowsRank(before, rank, Sort(before, xs[..|xs| - 1]), xs[|xs| - 1]);
    }
  }

  lemma SameMembers<T>(xs: seq<T>, ys: seq<T>)
    requires multiset(xs) == multiset(ys)
    ensures forall x :: x in xs <==> x in ys
  {
    assert forall x :: x in xs <==> x in multiset(xs);
    assert forall x :: x in ys <==> x in multiset(ys);
  }

  /** Sorting two related sequences by tests that agree keeps them related position by position. */
  lemma {:induction false} SortRelates<A(!new), B(!new)>(beforeA: (A, A) -> bool, beforeB: (B, B) -> bool,
                                                         rel: (A, B) -> bool, xs: seq<A>, ys: seq<B>)
    requires |xs| == |ys| && forall i :: 0 <= i < |xs| ==> rel(xs[i], ys[i])
    requires forall a, c, b, d :: rel(a, b) && rel(c, d) ==> beforeA(a, c) == beforeB(b, d)
    ensures var ss, ts := Sort(beforeA, xs), Sort(beforeB, ys);
            |ss| == |ts| && forall i :: 0 <= i < |ss| ==> rel(ss[i], ts[i])
  {
    if xs != [] {
      SortRelates(beforeA, beforeB, rel, xs[..|xs| - 1], ys[..|ys| - 1]);
      InsertRelates(beforeA, beforeB, rel, Sort(beforeA, xs[..|xs| - 1]), Sort(beforeB, ys[..|ys| - 1]),
                    xs[|xs| - 1], ys[|ys| - 1]);
    }
  }

  lemma {:induction false} InsertRelates<A(!new), B(!new)>(beforeA: (A, A) -> bool, beforeB: (B, B) -> bool,
                                                           rel: (A, B) -> bool, xs: seq<A>, ys: seq<B>, x: A, y: B)
    requires |xs| == |ys| && forall i :: 0 <= i < |xs| ==> rel(xs[i], ys[i])
    requires rel(x, y)
    requires forall a, c, b, d :: rel(a, b) && rel(c, d) ==> beforeA(a, c) == beforeB(b, d)
    ensures var ss, ts := Insert(beforeA, xs, x), Insert(beforeB, ys, y);
            |ss| == |ts| && forall i :: 0 <= i < |ss| ==> rel(ss[i], ts[i])
  {
    if xs != [] {
      InsertRelates(beforeA, beforeB, rel, xs[..|xs| - 1], ys[..|ys| - 1], x, y);
    }
  }

  // ---- Sorting more elements keeps the order of the earlier ones ----

  lemma SortAppends<T>(before: (T, T) -> bool, xs: seq<T>, x: T)
    requires xs != [] ==> var sorted := Sort(before, xs); sorted != [] && !before(x, sorted[|sorted| - 1])
    ensures Sort(before, xs + [x]) == Sort(before, xs) + [x]
  {
    assert (xs + [x])[..|xs|] == xs;
  }

  /** `a` stands somewhere before `b`. */
  ghost predicate StandsBefore<T>(xs: seq<T>, a: T, b: T) {
    exists i, j :: 0 <= i < j < |xs| && xs[i] == a && xs[j] == b
  }

  lemma StandsAt<T>(xs: seq<T>, i: nat, j: nat)
    requires i < j < |xs|
    ensures StandsBefore(xs, xs[i], xs[j])
  {
  }

  lemma StandsInLonger<T>(xs: seq<T>, x: T, a: T, b: T)
    requires StandsBefore(xs, a, b)
    ensures StandsBefore(xs + [x], a, b)
  {
    var i, j :| 0 <= i < j < |xs| && xs[i] == a && xs[j] == b;
    StandsAt(xs + [x], i, j);
  }

  lemma {:induction false} InsertKeepsOrder<T>(before: (T, T) -> bool, xs: seq<T>, x: T, a: T, b: T)
    requires StandsBefore(xs, a, b)
    ensures StandsBefore(Insert(before, xs, x), a, b)
  {
    var i, j :| 0 <= i < j < |xs| && xs[i] == a && xs[j] == b;
    var front, last := xs[..|xs| - 1], xs[|xs| - 1];
    if !before(x, last) {
      StandsInLonger(xs, x, a, b);
    } else if j < |xs| - 1 {
      StandsAt(front, i, j);
      InsertKeepsOrder(before, front, x, a, b);
      StandsInLonger(Insert(before, front, x), last, a, b);
    } else {
      var placed := Insert(before, front, x);
      assert front[i] in multiset(placed);
      var k :| 0 <= k < |placed| && placed[k] == a;
      StandsAt(placed + [last], k, |placed|);
    }
  }

  lemma {:induction false} SortKeepsOrder<T>(before: (T, T) -> bool, xs: seq<T>, more: seq<T>, a: T, b: T)
    requires StandsBefore(Sort(before, xs), a, b)
    ensures StandsBefore(Sort(before, xs + more), a, b)
  {
    if more == [] {
      assert xs + more == xs;
    } else {
      var all, front := xs + more, more[..|more| - 1];
      SortKeepsOrder(before, xs, front, a, b);
      assert all[..|all| - 1] == xs + front;
      InsertKeepsOrder(before, Sort(before, xs + front), all[|all| - 1], a, b);
    }
  }

  // ---- Strict orders have one sorted arrangement ----

  ghost predicate Strictly<T>(before: (T, T) -> bool, xs: seq<T>) {
    forall i, j :: 0 <= i < j < |xs| ==> before(xs[i], xs[j])
  }

  lemma HeadIsMember<T>(xs: seq<T>)
    requires xs != []
    ensures xs[0] in xs
  {
  }

  lemma NotAfterItself<T(!new)>(before: (T, T) -> bool, xs: seq<T>)
    requires forall a :: !before(a, a)
    requires Strictly(before, xs) && xs != []
    ensures xs[0] !in xs[1..]
    ensures forall x :: x in xs <==> x == xs[0] || x in xs[1..]
  {
    assert xs == [xs[0]] + xs[1..];
    forall j | 1 <= j < |xs| ensures xs[j] != xs[0] {
      assert before(xs[0], xs[j]);
    }
  }

  lemma {:induction false} StrictlyIsUnique<T(!new)>(before: (T, T) -> bool, xs: seq<T>, ys: seq<T>)
    requires forall a, b :: before(a, b) ==> !before(b, a)
    requires Strictly(before, xs) && Strictly(before, ys)
    requires forall x :: x in xs <==> x in ys
    ensures xs == ys
  {
    if xs == [] {
      if ys != [] {
        HeadIsMember(ys);
      }
    } else {
      assert xs[0] in ys && ys[0] in xs;
      assert xs[0] == ys[0];
      forall x ensures x in xs[1..] <==> x in ys[1..] {
        NotAfterItself(before, xs);
        NotAfterItself(before, ys);
      }
      StrictlyIsUnique(before, xs[1..], ys[1..]);
    }
  }

  // ---- The front of a sorted sequence, said without the sort ----

  ghost predicate AllDistinct<T>(xs: seq<T>) {
    forall i, j :: 0 <= i < j < |xs| ==> xs[i] != xs[j]
  }

  lemma {:induction false} DistinctSize<T>(xs: seq<T>)
    requires AllDistinct(xs)
    ensures |set x | x in xs| == |xs|
  {
    if xs != [] {
      var front, last := xs[..|xs| - 1], xs[|xs| - 1];
      DistinctSize(front);
      assert xs == front + [last];
      assert (set x | x in xs) == (set x | x in front) + {last};
    }
  }

  lemma {:induction false} DistinctCounts<T>(xs: seq<T>)
    ensures AllDistinct(xs) <==> forall x :: x in multiset(xs) ==> multiset(xs)[x] == 1
  {
    if xs != [] {
      var front, last := xs[..|xs| - 1], xs[|xs| - 1];
      DistinctCounts(front);
      assert xs == front + [last];
      assert multiset(xs) == multiset(front) + multiset{last};
      if AllDistinct(xs) {
        assert last !in front;
      } else if forall x :: x in multiset(xs) ==> multiset(xs)[x] == 1 {
        assert multiset(xs)[last] == 1;
        assert last !in multiset(front);
        forall x | x in multiset(front) ensures multiset(front)[x] == 1 {
          assert multiset(xs)[x] == 1;
        }
      }
    }
  }

  lemma BeforeIsAhead<T(!new)>(before: (T, T) -> bool, sorted: seq<T>, j: nat, k: nat)
    requires StrictWeakOrder(before) && Ordered(before, sorted)
    requires j < |sorted| && k < |sorted| && before(sorted[j], sorted[k])
    ensures j < k
  {
  }

  lemma AheadIsBounded<T(!new)>(before: (T, T) -> bool, sorted: seq<T>, k: nat)
    requires StrictWeakOrder(before) && Ordered(before, sorted) && AllDistinct(sorted) && k < |sorted|
    ensures |set x | x in sorted && before(x, sorted[k])| <= k
  {
    var low := sorted[..k];
    var ahead := set x | x in low;
    DistinctSize(low);
    hide StrictWeakOrder, Ordered;
    forall x | x in sorted && before(x, sorted[k]) ensures x in ahead {
      var j :| 0 <= j < |sorted| && sorted[j] == x;
      BeforeIsAhead(before, sorted, j, k);
      assert low[j] == x;
    }
    SubsetSize((set x | x in sorted && before(x, sorted[k])), ahead);
  }

  lemma NotAfterIsBounded<T(!new)>(before: (T, T) -> bool, sorted: seq<T>, k: nat)
    requires StrictWeakOrder(before) && Ordered(before, sorted) && AllDistinct(sorted) && k < |sorted|
    ensures k < |set x | x in sorted && !before(sorted[k], x)|
  {
    var low := sorted[..k + 1];
    var upTo := set x | x in low;
    DistinctSize(low);
    forall x | x in upTo ensures x in sorted && !before(sorted[k], x) {
      var j :| 0 <= j < k + 1 && low[j] == x;
      assert sorted[j] == x;
    }
    SubsetSize(upTo, (set x | x in sorted && !before(sorted[k], x)));
  }

  /**
   Where an element of a sorted sequence stands: no earlier than all that come before it,
   and no later than all that do not come after it.
   */
  lemma PlaceIsBounded<T(!new)>(before: (T, T) -> bool, xs: seq<T>, k: nat)
    requires StrictWeakOrder(before) && AllDistinct(xs) && k < |xs|
    ensures |Sort(before, xs)| == |xs|
    ensures var e := Sort(before, xs)[k];
            |set x | x in xs && before(x, e)| <= k < |set x | x in xs && !before(e, x)|
  {
    var sorted := Sort(before, xs);
    assert |multiset(sorted)| == |multiset(xs)|;
    SortOrders(before, xs);
    SameMembers(xs, sorted);
    DistinctCounts(xs);
    DistinctCounts(sorted);
    AheadIsBounded(before, sorted, k);
    NotAfterIsBounded(before, sorted, k);
    hide StrictWeakOrder, Ordered, AllDistinct, Sort;
    var e := sorted[k];
    assert (set x | x in sorted && before(x, e)) == (set x | x in xs && before(x, e));
    assert (set x | x in sorted && !before(e, x)) == (set x | x in xs && !before(e, x));
  }

  lemma {:induction false} SubsetSize<T>(a: set<T>, b: set<T>)
    requires a <= b
    ensures |a| <= |b|
  {
    if a != {} {
      var x :| x in a;
      SubsetSize(a - {x}, b - {x});
    }
  }
}
