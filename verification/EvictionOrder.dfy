/**
 When equal sizes are evicted oldest first: a date that does not parse compares level with every other
 date, so it can hide the order of the entries around it.
 */
module EvictionOrder {
  import opened Common
  import opened Eviction
  import StableSort

  /** Equal sizes with dates that parse come oldest first. */
  ghost predicate OldestFirst(ranked: seq<CacheEntry>) {
    forall i, j :: 0 <= i < j < |ranked| && ranked[i].size == ranked[j].size &&
                   ranked[i].created.Some? && ranked[j].created.Some? ==>
      ranked[i].created.value <= ranked[j].created.value
  }

  /** A younger and an older entry of one size, and an undated one of that size. */
  predicate AreHidden(a: CacheEntry, u: CacheEntry, b: CacheEntry) {
    a.size == u.size == b.size && u.created.None? &&
    a.created.Some? && b.created.Some? && a.created.value > b.created.value
  }

  ghost predicate HidesOrder(xs: seq<CacheEntry>) {
    exists a, u, b :: a in xs && u in xs && b in xs && AreHidden(a, u, b)
  }

  // ---- Nothing hidden: oldest first ----

  /** The entry's date, or the date of the dated entries of its size. */
  ghost function EffectiveDate(xs: seq<CacheEntry>, e: CacheEntry): int {
    if e.created.Some? then e.created.value
    else if exists d :: d in xs && d.size == e.size && d.created.Some?
    then (var d :| d in xs && d.size == e.size && d.created.Some?; d.created.value)
    else 0
  }

  lemma DatesAgree(xs: seq<CacheEntry>, a: CacheEntry, b: CacheEntry)
    requires !HidesOrder(xs) && a in xs && b in xs
    ensures EvictsBefore(a, b) <==>
            a.size > b.size || (a.size == b.size && EffectiveDate(xs, a) < EffectiveDate(xs, b))
  {
    if a.size == b.size {
      if a.created.None? && b.created.Some? {
        SameDates(xs, a, b);
      } else if b.created.None? && a.created.Some? {
        SameDates(xs, b, a);
      }
    }
  }

  /** An undated entry has the date of every dated one of its size. */
  lemma SameDates(xs: seq<CacheEntry>, u: CacheEntry, b: CacheEntry)
    requires !HidesOrder(xs) && u in xs && b in xs && u.size == b.size && u.created.None? && b.created.Some?
    ensures EffectiveDate(xs, u) == b.created.value
  {
    forall d | d in xs && d.size == u.size && d.created.Some?
      ensures d.created.value == b.created.value
    {
      assert !AreHidden(d, u, b) && !AreHidden(b, u, d);
    }
  }

  /** The comparator with a date for every entry of `xs`. */
  ghost function ByEffectiveDate(xs: seq<CacheEntry>): (CacheEntry, CacheEntry) -> bool {
    (a: CacheEntry, b: CacheEntry) =>
      a.size > b.size || (a.size == b.size && EffectiveDate(xs, a) < EffectiveDate(xs, b))
  }

  lemma RankingIsByEffectiveDate(xs: seq<CacheEntry>)
    requires !HidesOrder(xs)
    ensures Ranking(xs) == StableSort.Sort(ByEffectiveDate(xs), xs)
  {
    ghost var dated := ByEffectiveDate(xs);
    ghost var same := (a: CacheEntry, b) => a == b && a in xs;
    forall a, c, b, d | same(a, b) && same(c, d)
      ensures EvictsBefore(a, c) == dated(b, d)
    {
      DatesAgree(xs, a, c);
    }
    hide HidesOrder, ByEffectiveDate, EvictsBefore, StableSort.Sort;
    StableSort.SortRelates(EvictsBefore, dated, same, xs, xs);
  }

  lemma RankingIsOldestFirst(xs: seq<CacheEntry>)
    requires !HidesOrder(xs)
    ensures OldestFirst(Ranking(xs))
  {
    RankingIsByEffectiveDate(xs);
    hide HidesOrder, StableSort.Sort;
    StableSort.SortOrders(ByEffectiveDate(xs), xs);
  }

  // ---- Something hidden: in some order of the listing a younger entry goes first ----

  lemma TakeOut(xs: seq<CacheEntry>, e: CacheEntry) returns (rest: seq<CacheEntry>)
    requires e in xs
    ensures multiset(rest) == multiset(xs) - multiset{e}
    ensures forall x :: x in xs && x != e ==> x in rest
  {
    rest := Without(xs, IndexOf(xs, e));
    forall x | x in xs && x != e
      ensures x in rest
    {
      assert x in multiset(rest);
    }
  }

  lemma TakeThree(xs: seq<CacheEntry>, a: CacheEntry, u: CacheEntry, b: CacheEntry) returns (rest: seq<CacheEntry>)
    requires a in xs && u in xs && b in xs && a != u && u != b && a != b
    ensures multiset([a, u, b] + rest) == multiset(xs)
  {
    var withoutA := TakeOut(xs, a);
    var withoutU := TakeOut(withoutA, u);
    rest := TakeOut(withoutU, b);
    Three(a, u, b, rest);
  }

  lemma Three(a: CacheEntry, u: CacheEntry, b: CacheEntry, rest: seq<CacheEntry>)
    ensures multiset([a, u, b] + rest) == multiset{a} + multiset{u} + multiset{b} + multiset(rest)
  {
  }

  lemma UndatedEntryHidesOrder(xs: seq<CacheEntry>, a: CacheEntry, u: CacheEntry, b: CacheEntry) returns (ys: seq<CacheEntry>)
    requires a in xs && u in xs && b in xs && AreHidden(a, u, b)
    ensures multiset(ys) == multiset(xs) && StableSort.StandsBefore(Ranking(ys), a, b) && !OldestFirst(Ranking(ys))
  {
    var rest := TakeThree(xs, a, u, b);
    ys := [a, u, b] + rest;
    hide StableSort.Sort;
    ThreeStay(a, u, b);
    StableSort.SortKeepsOrder(EvictsBefore, [a, u, b], rest, a, b);
  }

  lemma TwoStay(a: CacheEntry, u: CacheEntry)
    requires !EvictsBefore(u, a)
    ensures StableSort.Sort(EvictsBefore, [a, u]) == [a, u]
  {
    hide EvictsBefore;
    assert [a] == [] + [a] && [a, u] == [a] + [u];
    StableSort.SortAppends(EvictsBefore, [], a);
    StableSort.SortAppends(EvictsBefore, [a], u);
  }

  lemma ThreeStay(a: CacheEntry, u: CacheEntry, b: CacheEntry)
    requires AreHidden(a, u, b)
    ensures StableSort.StandsBefore(StableSort.Sort(EvictsBefore, [a, u, b]), a, b)
  {
    TwoStay(a, u);
    hide StableSort.Sort;
    assert [a, u, b] == [a, u] + [b];
    StableSort.SortAppends(EvictsBefore, [a, u], b);
    StableSort.StandsAt([a, u, b], 0, 2);
  }

  /** Equal sizes come oldest first in whatever order the entries are listed, exactly when no undated one hides it. */
  lemma OldestFirstIff(xs: seq<CacheEntry>)
    ensures (forall ys :: multiset(ys) == multiset(xs) ==> OldestFirst(Ranking(ys))) <==> !HidesOrder(xs)
  {
    if HidesOrder(xs) {
      var a, u, b :| a in xs && u in xs && b in xs && AreHidden(a, u, b);
      var ys := UndatedEntryHidesOrder(xs, a, u, b);
    } else {
      forall ys: seq<CacheEntry> | multiset(ys) == multiset(xs)
        ensures OldestFirst(Ranking(ys))
      {
        StableSort.SameMembers(xs, ys);
        RankingIsOldestFirst(ys);
      }
    }
  }
}
