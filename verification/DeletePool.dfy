/**
 The concurrent delete workers. Code between two awaits is atomic, so a run is a sequence of
 "the delete of one worker comes back" events, in any order.
 */
module DeletePool {
  import opened Common
  import opened Eviction

  const CONCURRENCY: nat := 10

  datatype Outcome = Deleted | NotFound | PermissionDenied | OtherError

  datatype Worker = InFlight(index: nat) | Finished

  /** The shared variables, the workers, and what was called: claims, answered deletes, failures. */
  datatype Pool = Pool(queueIndex: nat, aborted: bool, deleted: nat, deletedBytes: int,
                       workers: seq<Worker>, attempts: seq<nat>, succeeded: seq<nat>, failed: seq<nat>)

  // ---- Steps ----

  /** The top of a worker's loop, up to its next await. */
  function Claim(toDelete: seq<CacheEntry>, s: Pool, w: nat): Pool
    requires w < |s.workers|
  {
    if s.aborted then s.(workers := s.workers[w := Finished])
    else
      var i := s.queueIndex;
      if i >= |toDelete| then s.(queueIndex := i + 1, workers := s.workers[w := Finished])
      else s.(queueIndex := i + 1, workers := s.workers[w := InFlight(i)], attempts := s.attempts + [i])
  }

  /** The awaited delete of worker `w` settles. */
  function Resume(toDelete: seq<CacheEntry>, s: Pool, w: nat, outcome: Outcome): Pool
    requires w < |s.workers| && s.workers[w].InFlight? && s.workers[w].index < |toDelete|
  {
    var i := s.workers[w].index;
    match outcome
    case Deleted =>
      Claim(toDelete, s.(deleted := s.deleted + 1, deletedBytes := s.deletedBytes + toDelete[i].size,
                         succeeded := s.succeeded + [i]), w)
    case PermissionDenied =>
      s.(aborted := true, workers := s.workers[w := Finished], failed := s.failed + [i])
    case _ =>
      Claim(toDelete, s.(failed := s.failed + [i]), w)
  }

  /** All workers start before any delete settles. */
  function StartFirst(toDelete: seq<CacheEntry>, k: nat): (s: Pool)
    requires k <= Min(CONCURRENCY, |toDelete|)
    ensures |s.workers| == Min(CONCURRENCY, |toDelete|)
  {
    if k == 0 then Pool(0, false, 0, 0, seq(Min(CONCURRENCY, |toDelete|), _ => Finished), [], [], [])
    else Claim(toDelete, StartFirst(toDelete, k - 1), k - 1)
  }

  function Start(toDelete: seq<CacheEntry>): Pool {
    StartFirst(toDelete, Min(CONCURRENCY, |toDelete|))
  }

  predicate Enabled(toDelete: seq<CacheEntry>, s: Pool, w: nat) {
    w < |s.workers| && s.workers[w].InFlight? && s.workers[w].index < |toDelete|
  }

  /** Only a worker with a delete in flight can be resumed; other events do not occur. */
  function Run(toDelete: seq<CacheEntry>, s: Pool, events: seq<(nat, Outcome)>): Pool {
    if events == [] then s
    else
      var before := Run(toDelete, s, events[..|events| - 1]);
      var (w, outcome) := events[|events| - 1];
      if Enabled(toDelete, before, w) then Resume(toDelete, before, w, outcome) else before
  }

  // ---- Accounting for what is in flight ----

  function Busy(workers: seq<Worker>): nat {
    if workers == [] then 0 else Busy(workers[1..]) + if workers[0].InFlight? then 1 else 0
  }

  function SizeAt(toDelete: seq<CacheEntry>, i: nat): int {
    if i < |toDelete| then toDelete[i].size else 0
  }

  function BusyBytes(toDelete: seq<CacheEntry>, workers: seq<Worker>): int {
    if workers == [] then 0
    else BusyBytes(toDelete, workers[1..]) + if workers[0].InFlight? then SizeAt(toDelete, workers[0].index) else 0
  }

  function BytesOf(toDelete: seq<CacheEntry>, indices: seq<nat>): int {
    if indices == [] then 0
    else BytesOf(toDelete, indices[..|indices| - 1]) + SizeAt(toDelete, indices[|indices| - 1])
  }

  lemma {:induction false} WorkerChanges(toDelete: seq<CacheEntry>, workers: seq<Worker>, w: nat, x: Worker)
    requires w < |workers|
    ensures var changed := workers[w := x];
            && Busy(changed) == Busy(workers) - (if workers[w].InFlight? then 1 else 0)
                                + (if x.InFlight? then 1 else 0)
            && BusyBytes(toDelete, changed) == BusyBytes(toDelete, workers)
                 - (if workers[w].InFlight? then SizeAt(toDelete, workers[w].index) else 0)
                 + (if x.InFlight? then SizeAt(toDelete, x.index) else 0)
  {
    var changed := workers[w := x];
    if w == 0 {
      assert changed[1..] == workers[1..];
    } else {
      WorkerChanges(toDelete, workers[1..], w - 1, x);
      assert changed[1..] == workers[1..][w - 1 := x];
    }
  }

  lemma {:induction false} BusyBounds(workers: seq<Worker>)
    ensures Busy(workers) <= |workers|
    ensures Busy(workers) == 0 <==> forall w :: 0 <= w < |workers| ==> workers[w].Finished?
    ensures (exists w :: 0 <= w < |workers| && workers[w].Finished?) ==> Busy(workers) < |workers|
  {
    if workers != [] {
      BusyBounds(workers[1..]);
    }
  }

  // ---- The invariant ----

  ghost predicate OnceEach(indices: seq<nat>) {
    forall i, j :: 0 <= i < j < |indices| ==> indices[i] != indices[j]
  }

  /** Claims are handed out in order, so each index at most once. */
  ghost predicate ClaimsInOrder(toDelete: seq<CacheEntry>, s: Pool) {
    && |s.attempts| == Min(s.queueIndex, |toDelete|)
    && forall i :: 0 <= i < |s.attempts| ==> s.attempts[i] == i
  }

  /** An index is in flight at one worker, or answered once, and never both. */
  ghost predicate AnsweredOnce(s: Pool) {
    && OnceEach(s.succeeded + s.failed)
    && (forall i :: i in s.succeeded + s.failed ==> i < |s.attempts|)
    && (forall w :: 0 <= w < |s.workers| && s.workers[w].InFlight? ==>
          s.workers[w].index < |s.attempts| && s.workers[w].index !in s.succeeded + s.failed)
    && (forall v, w :: 0 <= v < w < |s.workers| && s.workers[v].InFlight? && s.workers[w].InFlight? ==>
          s.workers[v].index != s.workers[w].index)
  }

  /** Every claimed entry is accounted for, in number and in bytes. */
  ghost predicate Conserved(toDelete: seq<CacheEntry>, s: Pool) {
    && s.deleted == |s.succeeded| && s.deletedBytes == BytesOf(toDelete, s.succeeded)
    && |s.attempts| == s.deleted + |s.failed| + Busy(s.workers)
    && TotalSize(toDelete[..Min(s.queueIndex, |toDelete|)]) ==
         s.deletedBytes + BytesOf(toDelete, s.failed) + BusyBytes(toDelete, s.workers)
  }

  ghost predicate Inv(toDelete: seq<CacheEntry>, s: Pool) {
    && |s.workers| == Min(CONCURRENCY, |toDelete|)
    && ClaimsInOrder(toDelete, s) && AnsweredOnce(s) && Conserved(toDelete, s)
  }

  lemma ClaimKeepsConserved(toDelete: seq<CacheEntry>, s: Pool, w: nat)
    requires ClaimsInOrder(toDelete, s) && Conserved(toDelete, s)
    requires w < |s.workers| && s.workers[w].Finished?
    ensures ClaimsInOrder(toDelete, Claim(toDelete, s, w)) && Conserved(toDelete, Claim(toDelete, s, w))
  {
    var t := Claim(toDelete, s, w);
    WorkerChanges(toDelete, s.workers, w, t.workers[w]);
    var i := s.queueIndex;
    if !s.aborted && i < |toDelete| {
      assert toDelete[..i + 1][..i] == toDelete[..i];
    }
  }

  lemma ClaimKeepsAnsweredOnce(toDelete: seq<CacheEntry>, s: Pool, w: nat)
    requires ClaimsInOrder(toDelete, s) && AnsweredOnce(s)
    requires w < |s.workers| && s.workers[w].Finished?
    ensures AnsweredOnce(Claim(toDelete, s, w))
  {
  }

  /** `w` is between deletes: nothing of it is in flight, and its last index is answered. */
  lemma ClaimKeepsInv(toDelete: seq<CacheEntry>, s: Pool, w: nat)
    requires Inv(toDelete, s) && w < |s.workers| && s.workers[w].Finished?
    ensures Inv(toDelete, Claim(toDelete, s, w))
  {
    hide ClaimsInOrder, AnsweredOnce, Conserved;
    ClaimKeepsConserved(toDelete, s, w);
    ClaimKeepsAnsweredOnce(toDelete, s, w);
  }

  /** Recording the answer of worker `w` leaves it between deletes. */
  function Settle(toDelete: seq<CacheEntry>, s: Pool, w: nat, outcome: Outcome): Pool
    requires Enabled(toDelete, s, w)
  {
    var i := s.workers[w].index;
    var t := s.(workers := s.workers[w := Finished]);
    match outcome
    case Deleted => t.(deleted := s.deleted + 1, deletedBytes := s.deletedBytes + toDelete[i].size,
                       succeeded := s.succeeded + [i])
    case PermissionDenied => t.(aborted := true, failed := s.failed + [i])
    case _ => t.(failed := s.failed + [i])
  }

  lemma ResumeIsSettleThenClaim(toDelete: seq<CacheEntry>, s: Pool, w: nat, outcome: Outcome)
    requires Enabled(toDelete, s, w)
    ensures Resume(toDelete, s, w, outcome) == Claim(toDelete, Settle(toDelete, s, w, outcome), w)
  {
    var x := Resume(toDelete, s, w, outcome).workers[w];
    assert s.workers[w := Finished][w := x] == s.workers[w := x];
  }

  lemma AnswerOnce(s: Pool, w: nat, answered: seq<nat>)
    requires AnsweredOnce(s) && w < |s.workers| && s.workers[w].InFlight?
    requires multiset(answered) == multiset(s.succeeded + s.failed) + multiset{s.workers[w].index}
    ensures OnceEach(answered)
    ensures forall i :: i in answered ==> i in s.succeeded + s.failed || i == s.workers[w].index
  {
    var longer := s.succeeded + s.failed + [s.workers[w].index];
    assert OnceEach(longer);
    assert multiset(longer) == multiset(answered);
    OnceEachCounts(longer);
    CountsOnceEach(answered);
    forall i | i in answered ensures i in longer {
      assert i in multiset(answered);
    }
  }

  lemma {:induction false} OnceEachCounts(xs: seq<nat>)
    requires OnceEach(xs)
    ensures forall x :: multiset(xs)[x] <= 1
  {
    if xs != [] {
      var front := xs[..|xs| - 1];
      OnceEachCounts(front);
      assert xs == front + [xs[|xs| - 1]];
      assert xs[|xs| - 1] !in front;
    }
  }

  lemma CountsOnceEach(xs: seq<nat>)
    requires forall x :: multiset(xs)[x] <= 1
    ensures OnceEach(xs)
  {
    forall i, j | 0 <= i < j < |xs| ensures xs[i] != xs[j] {
      assert xs == xs[..i] + [xs[i]] + xs[i + 1..j] + [xs[j]] + xs[j + 1..];
      assert xs[i] == xs[j] ==> multiset(xs)[xs[i]] >= 2;
    }
  }

  lemma SettleKeepsAnsweredOnce(toDelete: seq<CacheEntry>, s: Pool, w: nat, outcome: Outcome)
    requires AnsweredOnce(s) && Enabled(toDelete, s, w)
    ensures AnsweredOnce(Settle(toDelete, s, w, outcome))
  {
    var t := Settle(toDelete, s, w, outcome);
    var i := s.workers[w].index;
    var answered := t.succeeded + t.failed;
    assert multiset(answered) == multiset(s.succeeded + s.failed) + multiset{i};
    AnswerOnce(s, w, answered);
  }

  lemma SettleKeepsConserved(toDelete: seq<CacheEntry>, s: Pool, w: nat, outcome: Outcome)
    requires Conserved(toDelete, s) && Enabled(toDelete, s, w)
    ensures Conserved(toDelete, Settle(toDelete, s, w, outcome))
  {
    var t := Settle(toDelete, s, w, outcome);
    WorkerChanges(toDelete, s.workers, w, Finished);
    var i := s.workers[w].index;
    assert (s.succeeded + [i])[..|s.succeeded|] == s.succeeded;
    assert (s.failed + [i])[..|s.failed|] == s.failed;
  }

  lemma ResumeKeepsInv(toDelete: seq<CacheEntry>, s: Pool, w: nat, outcome: Outcome)
    requires Inv(toDelete, s) && Enabled(toDelete, s, w)
    ensures Inv(toDelete, Resume(toDelete, s, w, outcome))
  {
    hide AnsweredOnce, Conserved;
    ResumeIsSettleThenClaim(toDelete, s, w, outcome);
    SettleKeepsAnsweredOnce(toDelete, s, w, outcome);
    SettleKeepsConserved(toDelete, s, w, outcome);
    ClaimKeepsInv(toDelete, Settle(toDelete, s, w, outcome), w);
  }

  lemma {:induction false} StartKeepsInv(toDelete: seq<CacheEntry>, k: nat)
    requires k <= Min(CONCURRENCY, |toDelete|)
    ensures var s := StartFirst(toDelete, k);
            && Inv(toDelete, s) && !s.aborted && s.queueIndex == k && s.deleted == 0
            && (forall w :: 0 <= w < k ==> s.workers[w] == InFlight(w))
            && (forall w :: k <= w < |s.workers| ==> s.workers[w] == Finished)
  {
    hide Inv;
    if k == 0 {
      NothingStarted(toDelete);
    } else {
      StartKeepsInv(toDelete, k - 1);
      ClaimKeepsInv(toDelete, StartFirst(toDelete, k - 1), k - 1);
    }
  }

  lemma NothingStarted(toDelete: seq<CacheEntry>)
    ensures Inv(toDelete, StartFirst(toDelete, 0))
  {
    var s := StartFirst(toDelete, 0);
    BusyBounds(s.workers);
    NobodyBusy(toDelete, s.workers);
    assert toDelete[..0] == [];
  }

  lemma {:induction false} NobodyBusy(toDelete: seq<CacheEntry>, workers: seq<Worker>)
    requires forall w :: 0 <= w < |workers| ==> workers[w].Finished?
    ensures BusyBytes(toDelete, workers) == 0
  {
    if workers != [] {
      NobodyBusy(toDelete, workers[1..]);
    }
  }

  // ---- Every interleaving ----

  /** A finished worker means the queue ran out or the pool was aborted, and an abort finished one. */
  ghost predicate StopsForAReason(toDelete: seq<CacheEntry>, s: Pool) {
    && (!s.aborted && (exists w :: 0 <= w < |s.workers| && s.workers[w].Finished?) ==> s.queueIndex >= |toDelete|)
    && (s.aborted ==> exists w :: 0 <= w < |s.workers| && s.workers[w].Finished?)
  }

  lemma ResumeStopsForAReason(toDelete: seq<CacheEntry>, s: Pool, w: nat, outcome: Outcome)
    requires StopsForAReason(toDelete, s) && Enabled(toDelete, s, w)
    ensures StopsForAReason(toDelete, Resume(toDelete, s, w, outcome))
  {
    var t := Resume(toDelete, s, w, outcome);
    if s.aborted || outcome == PermissionDenied {
      assert t.workers[w].Finished?;
    } else if v :| 0 <= v < |t.workers| && t.workers[v].Finished? {
      assert v != w ==> s.workers[v].Finished?;
    }
  }

  lemma {:induction false} RunKeepsInv(toDelete: seq<CacheEntry>, events: seq<(nat, Outcome)>)
    ensures var s := Run(toDelete, Start(toDelete), events);
            Inv(toDelete, s) && StopsForAReason(toDelete, s)
  {
    if events == [] {
      StartKeepsInv(toDelete, Min(CONCURRENCY, |toDelete|));
    } else {
      hide Inv, StopsForAReason;
      RunKeepsInv(toDelete, events[..|events| - 1]);
      var before := Run(toDelete, Start(toDelete), events[..|events| - 1]);
      var (w, outcome) := events[|events| - 1];
      if Enabled(toDelete, before, w) {
        ResumeKeepsInv(toDelete, before, w, outcome);
        ResumeStopsForAReason(toDelete, before, w, outcome);
      }
    }
  }

  ghost predicate AllFinished(s: Pool) {
    forall w :: 0 <= w < |s.workers| ==> s.workers[w].Finished?
  }

  /**
   A pool that finishes without an abort has attempted every chosen entry, once, and its byte
   counter is the total chosen minus the total whose delete failed.
   */
  lemma FinishedPoolAttemptedAll(toDelete: seq<CacheEntry>, events: seq<(nat, Outcome)>)
    requires var s := Run(toDelete, Start(toDelete), events); AllFinished(s) && !s.aborted
    ensures var s := Run(toDelete, Start(toDelete), events);
            && s.attempts == seq(|toDelete|, i => i)
            && s.deleted + |s.failed| == |toDelete|
            && s.deletedBytes == TotalSize(toDelete) - BytesOf(toDelete, s.failed)
  {
    var s := Run(toDelete, Start(toDelete), events);
    RunKeepsInv(toDelete, events);
    BusyBounds(s.workers);
    NobodyBusy(toDelete, s.workers);
    if toDelete != [] {
      assert s.workers[0].Finished?;
    }
    assert toDelete[..|toDelete|] == toDelete;
  }

  /** The events that found a delete in flight. */
  function EnabledCount(toDelete: seq<CacheEntry>, events: seq<(nat, Outcome)>): nat {
    if events == [] then 0
    else
      var front := events[..|events| - 1];
      EnabledCount(toDelete, front) +
      if Enabled(toDelete, Run(toDelete, Start(toDelete), front), events[|events| - 1].0) then 1 else 0
  }

  lemma {:induction false} EnabledEventsAnswer(toDelete: seq<CacheEntry>, events: seq<(nat, Outcome)>)
    ensures var s := Run(toDelete, Start(toDelete), events);
            EnabledCount(toDelete, events) == |s.succeeded| + |s.failed|
  {
    if events == [] {
      StartKeepsInv(toDelete, Min(CONCURRENCY, |toDelete|));
      NothingAnswered(toDelete, Min(CONCURRENCY, |toDelete|));
    } else {
      EnabledEventsAnswer(toDelete, events[..|events| - 1]);
      hide Start, Inv;
      var before := Run(toDelete, Start(toDelete), events[..|events| - 1]);
      var (w, outcome) := events[|events| - 1];
      if Enabled(toDelete, before, w) {
        ResumeAnswersOne(toDelete, before, w, outcome);
      }
    }
  }

  lemma {:induction false} NothingAnswered(toDelete: seq<CacheEntry>, k: nat)
    requires k <= Min(CONCURRENCY, |toDelete|)
    ensures StartFirst(toDelete, k).succeeded == [] && StartFirst(toDelete, k).failed == []
  {
    if k > 0 {
      NothingAnswered(toDelete, k - 1);
    }
  }

  lemma ResumeAnswersOne(toDelete: seq<CacheEntry>, s: Pool, w: nat, outcome: Outcome)
    requires Enabled(toDelete, s, w)
    ensures var t := Resume(toDelete, s, w, outcome);
            |t.succeeded| + |t.failed| == |s.succeeded| + |s.failed| + 1
  {
  }

  /** In every schedule at most one delete settles per chosen entry, so the pool always comes to its end. */
  lemma EveryScheduleEnds(toDelete: seq<CacheEntry>, events: seq<(nat, Outcome)>)
    ensures EnabledCount(toDelete, events) <= |toDelete|
    ensures var s := Run(toDelete, Start(toDelete), events);
            (EnabledCount(toDelete, events) == |toDelete| ==> AllFinished(s)) &&
            (!AllFinished(s) ==> exists w: nat :: Enabled(toDelete, s, w))
  {
    RunKeepsInv(toDelete, events);
    EnabledEventsAnswer(toDelete, events);
    BusyBounds(Run(toDelete, Start(toDelete), events).workers);
    hide Run, Start, EnabledCount;
    var s := Run(toDelete, Start(toDelete), events);
    if w :| 0 <= w < |s.workers| && !s.workers[w].Finished? {
      assert Enabled(toDelete, s, w);
    }
  }

  /** How many settled deletes came back with this outcome. */
  function SettledAs(toDelete: seq<CacheEntry>, events: seq<(nat, Outcome)>, outcome: Outcome): nat {
    if events == [] then 0
    else
      var front, last := events[..|events| - 1], events[|events| - 1];
      SettledAs(toDelete, front, outcome) +
      if Enabled(toDelete, Run(toDelete, Start(toDelete), front), last.0) && last.1 == outcome then 1 else 0
  }

  /**
   The counters tell the outcomes: a delete counts exactly when it succeeded, one not found or failed in
   any other way counts as neither, and the pool stops exactly when permission was denied.
   */
  lemma {:induction false} CountersTellOutcomes(toDelete: seq<CacheEntry>, events: seq<(nat, Outcome)>)
    ensures var s := Run(toDelete, Start(toDelete), events);
            && s.deleted == SettledAs(toDelete, events, Deleted)
            && (s.aborted <==> SettledAs(toDelete, events, PermissionDenied) > 0)
            && |s.failed| == SettledAs(toDelete, events, PermissionDenied) + SettledAs(toDelete, events, NotFound) +
                             SettledAs(toDelete, events, OtherError)
  {
    if events == [] {
      NothingCounted(toDelete, Min(CONCURRENCY, |toDelete|));
    } else {
      CountersTellOutcomes(toDelete, events[..|events| - 1]);
      hide Start;
      var before := Run(toDelete, Start(toDelete), events[..|events| - 1]);
      var (w, outcome) := events[|events| - 1];
      if Enabled(toDelete, before, w) {
        ResumeCounts(toDelete, before, w, outcome);
      }
    }
  }

  lemma {:induction false} NothingCounted(toDelete: seq<CacheEntry>, k: nat)
    requires k <= Min(CONCURRENCY, |toDelete|)
    ensures var s := StartFirst(toDelete, k); s.deleted == 0 && !s.aborted && s.failed == []
  {
    if k > 0 {
      NothingCounted(toDelete, k - 1);
    }
  }

  lemma ResumeCounts(toDelete: seq<CacheEntry>, s: Pool, w: nat, outcome: Outcome)
    requires Enabled(toDelete, s, w)
    ensures var t := Resume(toDelete, s, w, outcome);
            && t.deleted == s.deleted + (if outcome.Deleted? then 1 else 0)
            && |t.failed| == |s.failed| + (if outcome.Deleted? then 0 else 1)
            && (t.aborted <==> s.aborted || outcome.PermissionDenied?)
  {
  }

  /** Once aborted, no delete starts, and those still in flight bound what can still succeed. */
  lemma {:induction false} AbortedRunDrains(toDelete: seq<CacheEntry>, s: Pool, events: seq<(nat, Outcome)>)
    requires s.aborted
    ensures var t := Run(toDelete, s, events);
            && t.aborted && t.attempts == s.attempts && |t.workers| == |s.workers|
            && t.deleted + Busy(t.workers) <= s.deleted + Busy(s.workers)
  {
    if events != [] {
      AbortedRunDrains(toDelete, s, events[..|events| - 1]);
      var before := Run(toDelete, s, events[..|events| - 1]);
      var (w, outcome) := events[|events| - 1];
      if Enabled(toDelete, before, w) {
        WorkerChanges(toDelete, before.workers, w, Finished);
      }
    }
  }

  /** At most nine deletes complete after a permission error, and none is started. */
  lemma AtMostNineAfterAbort(toDelete: seq<CacheEntry>, upToAbort: seq<(nat, Outcome)>, after: seq<(nat, Outcome)>)
    requires Run(toDelete, Start(toDelete), upToAbort).aborted
    ensures var s := Run(toDelete, Start(toDelete), upToAbort);
            var t := Run(toDelete, s, after);
            t.deleted <= s.deleted + CONCURRENCY - 1 && t.attempts == s.attempts
  {
    var s := Run(toDelete, Start(toDelete), upToAbort);
    RunKeepsInv(toDelete, upToAbort);
    AbortedRunDrains(toDelete, s, after);
    BusyBounds(s.workers);
  }

  /** In every interleaving, each delete call names a distinct listed entry that is evictable. */
  lemma OnlyEvictableAttempted(usage: int, target: real, entries: seq<CacheEntry>, ageCutoff: real,
                               toDelete: seq<CacheEntry>, events: seq<(nat, Outcome)>)
    requires IsSlice(usage, target, Ranking(Filter(entries, ageCutoff)), toDelete)
    ensures var s := Run(toDelete, Start(toDelete), events);
            && OnceEach(s.attempts)
            && forall i :: i in s.attempts ==>
                 i < |toDelete| && toDelete[i] in entries && IsEvictable(toDelete[i], ageCutoff)
  {
    RunKeepsInv(toDelete, events);
    ChosenAreEvictable(usage, target, entries, ageCutoff, toDelete);
  }

  /** When every delete succeeds, the reported usage is at or below the target if that is reachable. */
  lemma CleanRunReachesTarget(usage: int, target: real, ranked: seq<CacheEntry>, toDelete: seq<CacheEntry>,
                              events: seq<(nat, Outcome)>)
    requires IsSlice(usage, target, ranked, toDelete)
    requires var s := Run(toDelete, Start(toDelete), events); AllFinished(s) && s.failed == [] && !s.aborted
    ensures var after := usage - Run(toDelete, Start(toDelete), events).deletedBytes;
            if after as real <= target
            then toDelete != [] ==> target - toDelete[|toDelete| - 1].size as real < after as real
            else toDelete == ranked
  {
    FinishedPoolAttemptedAll(toDelete, events);
    SliceLands(usage, target, ranked, toDelete);
  }

  lemma ResumeKeepsValid(toDelete: seq<CacheEntry>, s: Pool, w: nat, outcome: Outcome)
    requires Inv(toDelete, s) && StopsForAReason(toDelete, s) && Enabled(toDelete, s, w)
    ensures var t := Resume(toDelete, s, w, outcome); Inv(toDelete, t) && StopsForAReason(toDelete, t)
  {
    ResumeKeepsInv(toDelete, s, w, outcome);
    ResumeStopsForAReason(toDelete, s, w, outcome);
    hide Inv, StopsForAReason, Resume;
  }

  // ---- The worker pool itself ----

  /** The shared variables of the worker closures; `View` is the state the steps above describe. */
  class WorkerPool {
    const toDelete: seq<CacheEntry>
    var queueIndex: nat
    var aborted: bool
    var deleted: nat
    var deletedBytes: int
    var workers: seq<Worker>
    ghost var attempts: seq<nat>
    ghost var succeeded: seq<nat>
    ghost var failed: seq<nat>

    ghost function View(): Pool
      reads this
    {
      Pool(queueIndex, aborted, deleted, deletedBytes, workers, attempts, succeeded, failed)
    }

    ghost predicate Valid()
      reads this
    {
      Inv(toDelete, View()) && StopsForAReason(toDelete, View())
    }

    constructor (chosen: seq<CacheEntry>)
      ensures toDelete == chosen && View() == Start(chosen) && Valid()
    {
      toDelete := chosen;
      queueIndex, aborted, deleted, deletedBytes := 0, false, 0, 0;
      workers := seq(Min(CONCURRENCY, |chosen|), _ => Finished);
      attempts, succeeded, failed := [], [], [];
      new;
      for w := 0 to |workers|
        invariant |workers| == Min(CONCURRENCY, |toDelete|)
        invariant View() == StartFirst(toDelete, w)
      {
        Next(w);
      }
      RunKeepsInv(chosen, []);
    }

    /** Pull the next index from the shared queue, unless aborted or exhausted. */
    method Next(w: nat)
      requires w < |workers|
      modifies this
      ensures View() == Claim(toDelete, old(View()), w)
    {
      if aborted {
        workers := workers[w := Finished];
        return;
      }
      var i := queueIndex;
      queueIndex := queueIndex + 1;
      if i >= |toDelete| {
        workers := workers[w := Finished];
        return;
      }
      workers := workers[w := InFlight(i)];
      attempts := attempts + [i];
    }

    /** The delete awaited by worker `w` settles; the worker runs on to its next await. */
    method OnSettled(w: nat, outcome: Outcome)
      requires Valid() && Enabled(toDelete, View(), w)
      modifies this
      ensures View() == Resume(toDelete, old(View()), w, outcome) && Valid()
    {
      hide Inv, StopsForAReason, Claim;
      ResumeKeepsValid(toDelete, View(), w, outcome);
      var i := workers[w].index;
      if outcome == Deleted {
        deleted := deleted + 1;
        deletedBytes := deletedBytes + toDelete[i].size;
        succeeded := succeeded + [i];
      } else {
        failed := failed + [i];
        if outcome == PermissionDenied {
          aborted := true;
          workers := workers[w := Finished];
          return;
        }
      }
      Next(w);
    }
  }
}
