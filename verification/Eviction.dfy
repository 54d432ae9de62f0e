/** Which cache entries an over-budget repository gives up, and why no smaller choice would do. */
module Eviction {
  import opened Common
  import StableSort

  const FOUNDATION_PREFIXES: seq<string> := [
    "solo-toolchain-v", "soldr-mini-", "setup-soldr-v", "setup-soldr-cargoregistry-v", "cook-base-v2-",
    "setup-soldr-prepare-v1-", "setup-soldr-prepare-v2-", "setup-soldr-prepare-v3-"
  ]

  const BYTES_PER_GB: real := 1073741824.0
  const MS_PER_HOUR: real := 3600000.0

  datatype Policy = Disabled | ProtectFoundations | Aggressive
  datatype Thresholds = Thresholds(triggerGb: real, targetGb: real, minAgeHours: real)

  /** `created` is the parsed timestamp in ms, `None` when it does not parse (NaN). */
  datatype CacheEntry = CacheEntry(id: int, key: Option<string>, size: int, created: Option<int>)

  // ---- Thresholds and the graduated age floor ----

  function ThresholdsForPolicy(policy: Policy): Option<Thresholds> {
    match policy
    case Disabled => None
    case ProtectFoundations => Some(Thresholds(9.5, 9.0, 6.0))
    case Aggressive => Some(Thresholds(7.0, 6.0, 2.0))
  }

  function AgeFloorForOvershoot(usageGb: real, t: Thresholds): real {
    var overshoot := usageGb - t.triggerGb;
    if overshoot <= 1.0 then t.minAgeHours
    else if overshoot <= 3.0 then if 2.0 <= t.minAgeHours then 2.0 else t.minAgeHours
    else 0.5
  }

  ghost predicate FloorIsAntitone(t: Thresholds) {
    forall u, v :: u <= v ==> AgeFloorForOvershoot(v, t) <= AgeFloorForOvershoot(u, t)
  }

  /** More usage never protects younger entries exactly when the baseline is at least half an hour. */
  lemma FloorAntitoneIff(t: Thresholds)
    ensures FloorIsAntitone(t) <==> t.minAgeHours >= 0.5
  {
    if FloorIsAntitone(t) {
      var calm, danger := t.triggerGb, t.triggerGb + 4.0;
      assert AgeFloorForOvershoot(danger, t) <= AgeFloorForOvershoot(calm, t);
    }
  }

  /** Both built-in policies have such a baseline. */
  lemma BuiltInFloorsAreAntitone(policy: Policy)
    ensures policy.Disabled? <==> ThresholdsForPolicy(policy).None?
    ensures !policy.Disabled? ==> FloorIsAntitone(ThresholdsForPolicy(policy).value)
  {
    if !policy.Disabled? {
      FloorAntitoneIff(ThresholdsForPolicy(policy).value);
    }
  }

  // ---- The filter ----

  predicate IsFoundation(key: string) {
    exists i :: 0 <= i < |FOUNDATION_PREFIXES| && StartsWith(key, FOUNDATION_PREFIXES[i])
  }

  /** `ageCutoff` is a point in time in ms; an unparsable date is never too young. */
  predicate TooYoung(e: CacheEntry, ageCutoff: real) {
    e.created.Some? && e.created.value as real > ageCutoff
  }

  predicate IsEvictable(e: CacheEntry, ageCutoff: real) {
    e.key.Some? && e.key.value != "" && !IsFoundation(e.key.value) && !TooYoung(e, ageCutoff)
  }

  function Filter(entries: seq<CacheEntry>, ageCutoff: real): seq<CacheEntry> {
    if entries == [] then []
    else
      var rest := Filter(entries[..|entries| - 1], ageCutoff);
      var last := entries[|entries| - 1];
      if IsEvictable(last, ageCutoff) then rest + [last] else rest
  }

  lemma {:induction false} FilterMembers(entries: seq<CacheEntry>, ageCutoff: real)
    ensures forall e :: e in Filter(entries, ageCutoff) <==> e in entries && IsEvictable(e, ageCutoff)
    ensures multiset(Filter(entries, ageCutoff)) <= multiset(entries)
  {
    hide IsEvictable;
    if entries != [] {
      var front := entries[..|entries| - 1];
      FilterMembers(front, ageCutoff);
      assert entries == front + [entries[|entries| - 1]];
    }
  }

  // ---- The order: largest first, then oldest ----

  predicate EvictsBefore(a: CacheEntry, b: CacheEntry) {
    || a.size > b.size
    || (a.size == b.size && a.created.Some? && b.created.Some? && a.created.value < b.created.value)
  }

  function Ranking(evictable: seq<CacheEntry>): (ranked: seq<CacheEntry>)
    ensures multiset(ranked) == multiset(evictable)
  {
    StableSort.Sort(EvictsBefore, evictable)
  }

  ghost predicate LargestFirst(xs: seq<CacheEntry>) {
    forall i, j :: 0 <= i < j < |xs| ==> xs[i].size >= xs[j].size
  }

  lemma RankingIsLargestFirst(evictable: seq<CacheEntry>)
    ensures LargestFirst(Ranking(evictable))
  {
    StableSort.SortFollowsRank(EvictsBefore, (e: CacheEntry) => -e.size, evictable);
  }

  function TotalSize(xs: seq<CacheEntry>): int {
    if xs == [] then 0 else TotalSize(xs[..|xs| - 1]) + xs[|xs| - 1].size
  }

  lemma {:induction false} TotalSizeAppend(xs: seq<CacheEntry>, ys: seq<CacheEntry>)
    ensures TotalSize(xs + ys) == TotalSize(xs) + TotalSize(ys)
  {
    if ys == [] {
      assert xs + ys == xs;
    } else {
      var front := ys[..|ys| - 1];
      TotalSizeAppend(xs, front);
      assert (xs + ys)[..|xs + ys| - 1] == xs + front;
    }
  }

  // ---- The slice ----

  /** Delete from the front of `ranked` until the prediction is at or below the target. */
  ghost predicate IsSlice(usage: int, target: real, ranked: seq<CacheEntry>, slice: seq<CacheEntry>) {
    && slice <= ranked
    && (forall k :: 0 <= k < |slice| ==> (usage - TotalSize(ranked[..k])) as real > target)
    && (|slice| == |ranked| || (usage - TotalSize(slice)) as real <= target)
  }

  method SliceToTarget(usage: int, target: real, ranked: seq<CacheEntry>) returns (toDelete: seq<CacheEntry>)
    ensures IsSlice(usage, target, ranked, toDelete)
  {
    toDelete := [];
    var predicted := usage;
    var i := 0;
    while i < |ranked| && predicted as real > target
      invariant 0 <= i <= |ranked|
      invariant toDelete == ranked[..i] && predicted == usage - TotalSize(ranked[..i])
      invariant forall k :: 0 <= k < i ==> (usage - TotalSize(ranked[..k])) as real > target
    {
      assert ranked[..i + 1][..i] == ranked[..i];
      toDelete := toDelete + [ranked[i]];
      predicted := predicted - ranked[i].size;
      i := i + 1;
    }
  }

  // ---- Optimality ----

  function Without(xs: seq<CacheEntry>, k: nat): (ys: seq<CacheEntry>)
    requires k < |xs|
    ensures |ys| == |xs| - 1 && multiset(ys) == multiset(xs) - multiset{xs[k]}
  {
    assert xs == xs[..k] + [xs[k]] + xs[k + 1..];
    xs[..k] + xs[k + 1..]
  }

  lemma WithoutSize(xs: seq<CacheEntry>, k: nat)
    requires k < |xs|
    ensures TotalSize(Without(xs, k)) == TotalSize(xs) - xs[k].size
  {
    hide TotalSize;
    var front, back := xs[..k], xs[k + 1..];
    assert xs == (front + [xs[k]]) + back;
    TotalSizeAppend(front, back);
    TotalSizeAppend(front + [xs[k]], back);
    TotalSizeAppend(front, [xs[k]]);
    SingleSize(xs[k]);
  }

  lemma SingleSize(e: CacheEntry)
    ensures TotalSize([e]) == e.size
  {
    assert [e][..0] == [];
  }

  /** Setting the first ranked entry aside, what remains of a choice still fits. */
  lemma WithoutFits(ranked: seq<CacheEntry>, chosen: seq<CacheEntry>, k: nat)
    requires ranked != [] && k < |chosen| && multiset(chosen) <= multiset(ranked)
    requires ranked[0] in chosen ==> chosen[k] == ranked[0]
    ensures multiset(Without(chosen, k)) <= multiset(ranked[1..])
  {
    assert ranked == [ranked[0]] + ranked[1..];
    assert multiset(ranked) == multiset{ranked[0]} + multiset(ranked[1..]);
    if ranked[0] !in chosen {
      assert ranked[0] !in multiset(chosen);
    }
  }

  /** No choice of k entries is larger than the k ranked first. */
  lemma {:induction false} FirstAreLargest(ranked: seq<CacheEntry>, chosen: seq<CacheEntry>)
    requires LargestFirst(ranked) && multiset(chosen) <= multiset(ranked)
    ensures |chosen| <= |ranked| && TotalSize(chosen) <= TotalSize(ranked[..|chosen|])
    decreases |chosen|
  {
    if chosen != [] {
      assert chosen[0] in multiset(ranked);
      var k := if ranked[0] in chosen then IndexOf(chosen, ranked[0]) else 0;
      var fewer := Without(chosen, k);
      WithoutSize(chosen, k);
      WithoutFits(ranked, chosen, k);
      FirstAreLargest(ranked[1..], fewer);
      assert ranked[..|chosen|] == [ranked[0]] + ranked[1..][..|fewer|];
      TotalSizeAppend([ranked[0]], ranked[1..][..|fewer|]);
      SingleSize(ranked[0]);
      assert chosen[k] in multiset(ranked);
    }
  }

  function IndexOf(xs: seq<CacheEntry>, e: CacheEntry): (k: nat)
    requires e in xs
    ensures k < |xs| && xs[k] == e
  {
    if xs[0] == e then 0 else 1 + IndexOf(xs[1..], e)
  }

  /** No smaller set of evictable entries reaches the target. */
  lemma SliceIsOptimal(usage: int, target: real, evictable: seq<CacheEntry>, slice: seq<CacheEntry>,
                       chosen: seq<CacheEntry>)
    requires IsSlice(usage, target, Ranking(evictable), slice)
    requires multiset(chosen) <= multiset(evictable) && (usage - TotalSize(chosen)) as real <= target
    ensures |slice| <= |chosen|
  {
    RankingIsLargestFirst(evictable);
    FirstAreLargest(Ranking(evictable), chosen);
  }

  /**
   If every chosen delete succeeds, usage ends at or below the target and within the last
   entry's size of it; only when even deleting every evictable entry is not enough does it not.
   */
  lemma SliceLands(usage: int, target: real, ranked: seq<CacheEntry>, slice: seq<CacheEntry>)
    requires IsSlice(usage, target, ranked, slice)
    ensures var after := usage - TotalSize(slice);
            if after as real <= target
            then slice != [] ==> target - slice[|slice| - 1].size as real < after as real
            else slice == ranked
  {
    if slice != [] {
      assert (usage - TotalSize(ranked[..|slice| - 1])) as real > target;
      assert slice[..|slice| - 1] == ranked[..|slice| - 1];
    }
  }

  // ---- The pass up to the deletes ----

  datatype Plan =
    | PolicyDisabled
    | UsageApiFailed
    | UnderTrigger
    | ListApiFailed
    | Fire(toDelete: seq<CacheEntry>)

  function UsageGb(usage: int): real { usage as real / BYTES_PER_GB }

  function AgeCutoff(usage: int, t: Thresholds, now: int): real {
    now as real - AgeFloorForOvershoot(UsageGb(usage), t) * MS_PER_HOUR
  }

  method PlanEviction(thresholds: Option<Thresholds>, usage: Result<int>, listing: Result<seq<CacheEntry>>,
                      now: int) returns (plan: Plan)
    ensures plan.PolicyDisabled? <==> thresholds.None?
    ensures plan.UsageApiFailed? <==> thresholds.Some? && usage.Failure?
    ensures plan.UnderTrigger? <==>
            thresholds.Some? && usage.Success? && UsageGb(usage.value) <= thresholds.value.triggerGb
    ensures plan.ListApiFailed? <==>
            thresholds.Some? && usage.Success? && UsageGb(usage.value) > thresholds.value.triggerGb && listing.Failure?
    ensures plan.Fire? <==>
            thresholds.Some? && usage.Success? && UsageGb(usage.value) > thresholds.value.triggerGb && listing.Success?
    ensures plan.Fire? ==>
        var t, u := thresholds.value, usage.value;
        IsSlice(u, t.targetGb * BYTES_PER_GB, Ranking(Filter(listing.value, AgeCutoff(u, t, now))), plan.toDelete)
  {
    if thresholds.None? {
      return PolicyDisabled;
    }
    if usage.Failure? {
      return UsageApiFailed;
    }
    var t, u := thresholds.value, usage.value;
    if UsageGb(u) <= t.triggerGb {
      return UnderTrigger;
    }
    if listing.Failure? {
      return ListApiFailed;
    }
    var evictable := Filter(listing.value, AgeCutoff(u, t, now));
    var toDelete := SliceToTarget(u, t.targetGb * BYTES_PER_GB, Ranking(evictable));
    return Fire(toDelete);
  }

  /** The age of a dated entry in hours. */
  function AgeHours(e: CacheEntry, now: int): real
    requires e.created.Some?
  {
    (now - e.created.value) as real / 3_600_000.0
  }

  /**
   What a pass at this usage may delete: an entry with a key of no protected prefix, whose date does not
   parse or that is as old as the floor: the baseline up to 1 GB over the trigger, at most two hours of it
   up to 3 GB over, and half an hour beyond.
   */
  lemma EvictableIff(e: CacheEntry, usage: int, t: Thresholds, now: int)
    ensures IsEvictable(e, AgeCutoff(usage, t, now)) <==>
            && e.key.Some? && |e.key.value| > 0 && (forall p :: p in FOUNDATION_PREFIXES ==> !(p <= e.key.value))
            && (e.created.Some? ==>
                  var overGb := usage as real / 1_073_741_824.0 - t.triggerGb;
                  && (overGb <= 1.0 ==> AgeHours(e, now) >= t.minAgeHours)
                  && (1.0 < overGb <= 3.0 ==> AgeHours(e, now) >= t.minAgeHours || AgeHours(e, now) >= 2.0)
                  && (overGb > 3.0 ==> AgeHours(e, now) >= 0.5))
  {
    if e.key.Some? {
      FoundationIff(e.key.value);
    }
    hide IsFoundation, FOUNDATION_PREFIXES;
    if e.created.Some? {
      var floor := AgeFloorForOvershoot(UsageGb(usage), t);
      HoursAndMilliseconds(now - e.created.value, floor);
    }
  }

  /**
   Of the two built-in policies the aggressive one acts at less usage, aims lower and may delete more; the
   other leaves half a GB below the cap of 10 GB before it acts, and frees at least half a GB when it does.
   */
  lemma AggressiveTakesMore(e: CacheEntry, usage: int, now: int)
    ensures var protect, tight := ThresholdsForPolicy(ProtectFoundations).value, ThresholdsForPolicy(Aggressive).value;
            && 10.0 - protect.triggerGb == protect.triggerGb - protect.targetGb == 0.5
            && tight.targetGb < tight.triggerGb < protect.targetGb
            && (UsageGb(usage) > protect.triggerGb ==> UsageGb(usage) > tight.triggerGb)
            && (IsEvictable(e, AgeCutoff(usage, protect, now)) ==> IsEvictable(e, AgeCutoff(usage, tight, now)))
  {
    var protect, tight := ThresholdsForPolicy(ProtectFoundations).value, ThresholdsForPolicy(Aggressive).value;
    assert AgeFloorForOvershoot(UsageGb(usage), tight) <= AgeFloorForOvershoot(UsageGb(usage), protect);
    hide UsageGb, IsFoundation;
  }

  lemma FoundationIff(key: string)
    ensures IsFoundation(key) <==> exists p :: p in FOUNDATION_PREFIXES && p <= key
  {
    hide FOUNDATION_PREFIXES;
    if IsFoundation(key) {
      var i :| 0 <= i < |FOUNDATION_PREFIXES| && StartsWith(key, FOUNDATION_PREFIXES[i]);
      assert FOUNDATION_PREFIXES[i] in FOUNDATION_PREFIXES;
    }
    if p :| p in FOUNDATION_PREFIXES && p <= key {
      var i :| 0 <= i < |FOUNDATION_PREFIXES| && FOUNDATION_PREFIXES[i] == p;
      assert StartsWith(key, FOUNDATION_PREFIXES[i]);
    }
  }

  lemma HoursAndMilliseconds(ms: int, hours: real)
    ensures ms as real >= hours * MS_PER_HOUR <==> ms as real / 3_600_000.0 >= hours
  {
  }

  /** Only listed entries are chosen, none protected by prefix or by age. */
  lemma ChosenAreEvictable(usage: int, target: real, entries: seq<CacheEntry>, ageCutoff: real,
                           slice: seq<CacheEntry>)
    requires IsSlice(usage, target, Ranking(Filter(entries, ageCutoff)), slice)
    ensures multiset(slice) <= multiset(entries)
    ensures forall e :: e in slice ==> e in entries && IsEvictable(e, ageCutoff)
  {
    var evictable := Filter(entries, ageCutoff);
    var ranked := Ranking(evictable);
    FilterMembers(entries, ageCutoff);
    StableSort.SameMembers(ranked, evictable);
    assert ranked == slice + ranked[|slice|..];
    assert multiset(ranked) == multiset(slice) + multiset(ranked[|slice|..]);
    forall e | e in slice ensures e in evictable {
      assert e in ranked;
    }
  }
}
