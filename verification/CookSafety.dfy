/**
 When a ready delta is over the very base its run loaded: exactly when no ref restores from two
 uploading refs, and when a base is deleted only while nothing can still build on it.
 */
module CookSafety {
  import opened Common
  import opened CookLayers
  import Eviction

  // ---- The outcome, and the invariant behind it ----

  /** The restored delta was built against the restored base. */
  predicate Matches(r: Run) {
    r.baseArchive.Some? && r.deltaArchive.Some? && r.deltaArchive.value.DeltaArchive? &&
    r.deltaArchive.value.over == r.baseArchive.value
  }

  predicate IsTrue(r: Run) { DeltaReady(r.restore, r.loaded) ==> Matches(r) }

  /** From this state on, without base deletions, every ready delta is over the base its run loaded. */
  ghost predicate IsSound(v: Service, s: System) {
    forall t, id :: Leads(v, s, t) && id in t.runs ==> IsTrue(t.runs[id])
  }

  /** The one uploading ref a reader sees, if there is one. */
  ghost function Home(v: Service, reader: Ref): Ref {
    if exists u :: Sees(v, reader, u) then (var u :| Sees(v, reader, u); u) else reader
  }

  lemma HomeIs(v: Service, reader: Ref, u: Ref)
    requires HasOneSource(v) && Sees(v, reader, u)
    ensures Home(v, reader) == u
  {
  }

  lemma UploaderIsItsHome(v: Service, ref: Ref)
    requires IsService(v) && HasOneSource(v) && ref in v.uploaders
    ensures Home(v, ref) == ref
  {
    assert v.visible(ref)[0] == ref;
    HomeIs(v, ref, ref);
  }

  ghost predicate IsOverBase(store: Store, ref: Ref, parts: KeyParts, archive: Archive) {
    archive.DeltaArchive? && Slot(ref, BaseKey(parts)) in store && store[Slot(ref, BaseKey(parts))] == archive.over
  }

  ghost predicate IsEntryConsistent(v: Service, store: Store, slot: Slot)
    requires slot in store
  {
    slot.ref in v.uploaders &&
    if slot.key.BaseKey? then store[slot].BaseArchive? else IsOverBase(store, slot.ref, slot.key.parts, store[slot])
  }

  /** Base keys hold base archives, and every stored delta is over the archive under its base key. */
  ghost predicate IsStoreConsistent(v: Service, store: Store) {
    forall slot :: slot in store ==> IsEntryConsistent(v, store, slot)
  }

  /** What holds of a run in each phase, whatever the store. */
  predicate HasShape(r: Run) {
    && (r.phase.Restoring? ==> r.restore == (MISS, MISS))
    && (r.phase.Restoring? || r.phase.Restored? ==> r.loaded == Loads(false, false) && !r.cookRan)
    && (r.baseAnswer.Some? && r.baseAnswer.value.matchedKey.Some? ==> r.baseArchive.Some?)
    && (r.baseAnswer.Some? && r.baseAnswer.value.hit ==> r.baseAnswer.value.matchedKey.Some?)
    && (r.deltaAnswer.Some? && r.deltaAnswer.value.matchedKey.Some? ==> r.deltaArchive.Some?)
    && (r.restore.0.hit ==> r.restore.0.matchedKey.Some?)
    && (r.restore.0.matchedKey.Some? ==> r.baseArchive.Some?)
    && (r.restore.1.matchedKey.Some? ==> r.deltaArchive.Some?)
    && (r.loaded.baseLoaded ==> r.manifest == r.baseArchive && r.restore.0.matchedKey.Some?)
    && (r.cookRan ==> !DeltaReady(r.restore, r.loaded))
    && (!r.deltaEnabled ==> r.deltaAnswer.None? && r.restore.1 == MISS)
  }

  /** An exact base hit and a matched delta are what the store at `home` still holds. */
  ghost predicate AgreesWith(store: Store, home: Ref, r: Run, base: LayerInfo, delta: LayerInfo) {
    var slot := Slot(home, r.target.Base());
    && (base.hit ==> slot in store && r.baseArchive == Some(store[slot]))
    && (delta.matchedKey.Some? && r.deltaArchive.Some? ==> IsOverBase(store, home, r.target.parts, r.deltaArchive.value))
  }

  function AnswerOf(answer: Option<LayerInfo>): LayerInfo { if answer.Some? then answer.value else MISS }

  ghost predicate IsCurrent(store: Store, home: Ref, r: Run) {
    AgreesWith(store, home, r, AnswerOf(r.baseAnswer), AnswerOf(r.deltaAnswer)) &&
    AgreesWith(store, home, r, r.restore.0, r.restore.1)
  }

  predicate Uploads(v: Service, r: Run) { r.target.ref in v.uploaders }

  /** Whatever the store becomes, the run neither saves a delta nor gets a false one ready. */
  predicate IsHarmless(v: Service, r: Run) {
    !r.deltaEnabled ||
    match r.phase
    case Restoring =>
      r.baseAnswer.Some? &&
      (!r.baseAnswer.value.hit ||
       (r.deltaAnswer.Some? && !Uploads(v, r) && (r.deltaAnswer.value.matchedKey.Some? ==> Matches(r))))
    case Restored => !r.restore.0.hit || (!Uploads(v, r) && (r.restore.1.matchedKey.Some? ==> Matches(r)))
    case Loaded => !BaseReady(r.restore, r.loaded) || DeltaReady(r.restore, r.loaded) || !Uploads(v, r)
    case Cooked => !(r.cookRan && BaseReady(r.restore, r.loaded) && Uploads(v, r))
    case Finished => true
  }

  ghost predicate IsRunSafe(v: Service, store: Store, r: Run) {
    HasShape(r) && IsTrue(r) && (IsCurrent(store, Home(v, r.target.ref), r) || IsHarmless(v, r))
  }

  ghost predicate IsSafe(v: Service, s: System) {
    IsStoreConsistent(v, s.store) && forall id :: id in s.runs ==> IsRunSafe(v, s.store, s.runs[id])
  }

  // ---- The steps of a run keep it safe ----

  lemma NewRunIsSafe(v: Service, store: Store, target: Target, deltaEnabled: bool, stale: Option<Archive>)
    ensures IsRunSafe(v, store, NewRun(target, deltaEnabled, stale))
  {
  }

  /** Under one source, what a lookup matches lies at the reader's home. */
  lemma MatchIsAtHome(v: Service, store: Store, t: Target, m: Slot, keys: set<CacheKey>)
    requires HasOneSource(v) && IsStoreConsistent(v, store) && m in store && IsNearest(v, store, t, m, keys)
    ensures Home(v, t.ref) == m.ref
  {
    assert IsEntryConsistent(v, store, m);
    assert m.ref in v.visible(t.ref);
    HomeIs(v, t.ref, m.ref);
  }

  lemma RestoreBaseKeepsSafe(v: Service, store: Store, r: Run, matched: Option<Slot>, archiveBytes: nat)
    requires HasOneSource(v) && IsStoreConsistent(v, store) && IsRunSafe(v, store, r)
    requires r.phase.Restoring? && r.baseAnswer.None?
    requires matched.Some? ==> BaseMayMatch(v, store, r.target, matched.value)
    ensures IsRunSafe(v, store, AfterRestoreBase(store, r, matched, archiveBytes))
  {
    hide Home, IsNearest;
    if matched.Some? {
      MatchIsAtHome(v, store, r.target, matched.value, {r.target.Base()});
      assert IsEntryConsistent(v, store, matched.value);
    }
  }

  lemma RestoreDeltaKeepsSafe(v: Service, store: Store, r: Run, matched: Option<Slot>, archiveBytes: nat)
    requires HasOneSource(v) && IsStoreConsistent(v, store) && IsRunSafe(v, store, r)
    requires r.phase.Restoring? && r.deltaAnswer.None? && r.deltaEnabled
    requires matched.Some? ==> DeltaMayMatch(v, store, r.target, matched.value)
    ensures IsRunSafe(v, store, AfterRestoreDelta(store, r, matched, archiveBytes))
  {
    hide Home, IsNearest;
    if matched.Some? {
      MatchIsAtHome(v, store, r.target, matched.value, DeltaKeysOf(store, r.target));
      assert IsEntryConsistent(v, store, matched.value);
    }
  }

  lemma JoinKeepsSafe(v: Service, store: Store, r: Run)
    requires IsRunSafe(v, store, r) && CanJoin(r)
    ensures IsRunSafe(v, store, AfterJoin(r))
  {
    hide Home;
  }

  lemma LoadKeepsSafe(v: Service, store: Store, r: Run, baseOk: bool, deltaOk: bool, partial: Option<Archive>)
    requires IsRunSafe(v, store, r) && r.phase.Restored?
    ensures IsRunSafe(v, store, AfterLoad(r, baseOk, deltaOk, partial))
  {
    hide Home;
  }

  lemma CookKeepsSafe(v: Service, store: Store, r: Run, exitZero: bool)
    requires IsRunSafe(v, store, r) && r.phase.Loaded?
    ensures IsRunSafe(v, store, AfterCook(r, exitZero))
    ensures IsRunSafe(v, store, r.(phase := Finished))
  {
    hide Home;
  }

  lemma FinishKeepsSafe(v: Service, store: Store, r: Run)
    requires IsRunSafe(v, store, r) && r.phase.Cooked?
    ensures IsRunSafe(v, store, r.(phase := Finished))
  {
    hide Home;
  }

  /** Base entries stay as they are. */
  ghost predicate KeepsBases(before: Store, after: Store) {
    forall slot: Slot :: slot.key.BaseKey? && slot in before ==> slot in after && after[slot] == before[slot]
  }

  lemma StoreGrowthKeepsSafe(v: Service, before: Store, after: Store, r: Run)
    requires IsRunSafe(v, before, r) && KeepsBases(before, after)
    ensures IsRunSafe(v, after, r)
  {
    hide Home, IsHarmless, HasShape;
  }

  /** The slot was free and holds the only new entry. */
  ghost predicate AddsOne(before: Store, after: Store, slot: Slot) {
    slot !in before && slot in after && after == before[slot := after[slot]]
  }

  /** A save adds at most one entry, in the run's own scope; a delta it adds is over the base stored there. */
  lemma SaveKeepsStore(v: Service, store: Store, r: Run, allowed: bool, hasTarget: bool, produced: bool, content: nat)
    requires IsService(v) && HasOneSource(v)
    requires IsStoreConsistent(v, store) && IsRunSafe(v, store, r) && r.phase.Cooked?
    ensures var after := AfterSave(v, store, r, allowed, hasTarget, produced, content);
            IsStoreConsistent(v, after) && KeepsBases(store, after) &&
            (after == store || AddsOne(store, after, Slot(r.target.ref, SaveKey(r))))
  {
    var after := AfterSave(v, store, r, allowed, hasTarget, produced, content);
    assert after == store || AddsOne(store, after, Slot(r.target.ref, SaveKey(r)));
    if after != store {
      UploaderIsItsHome(v, r.target.ref);
    }
    hide Home;
    forall slot | slot in after
      ensures IsEntryConsistent(v, after, slot)
    {
      if slot in store {
        assert IsEntryConsistent(v, store, slot);
      }
    }
  }

  // ---- When a base may be deleted ----

  /** An unfinished run that can still save a delta over the base in this slot, or get one ready over another. */
  ghost predicate Threatens(v: Service, r: Run, slot: Slot) {
    r.deltaEnabled && Home(v, r.target.ref) == slot.ref && r.target.Base() == slot.key &&
    match r.phase
    case Restoring =>
      var base, delta := AnswerOf(r.baseAnswer), AnswerOf(r.deltaAnswer);
      (base.hit && (r.deltaAnswer.None? || Uploads(v, r))) || (r.baseAnswer.None? && delta.matchedKey.Some?)
    case Restored => r.restore.0.hit && Uploads(v, r)
    case Loaded => BaseReady(r.restore, r.loaded) && !DeltaReady(r.restore, r.loaded) && Uploads(v, r)
    case Cooked => r.cookRan && BaseReady(r.restore, r.loaded) && Uploads(v, r)
    case Finished => false
  }

  predicate IsDeltaOver(slot: Slot, k: Slot) {
    k.ref == slot.ref && k.key.DeltaKey? && BaseKey(k.key.parts) == slot.key
  }

  /** A stored delta of this base, or a run that can still save or load one. */
  ghost predicate IsBuiltOn(v: Service, s: System, slot: Slot) {
    (exists k :: k in s.store && IsDeltaOver(slot, k)) ||
    (exists id :: id in s.runs && Threatens(v, s.runs[id], slot))
  }

  lemma DeletionKeepsRunSafe(v: Service, store: Store, r: Run, slot: Slot)
    requires IsRunSafe(v, store, r) && slot.key.BaseKey? && !Threatens(v, r, slot)
    ensures IsRunSafe(v, store - {slot}, r)
  {
    hide Home;
    var home := Home(v, r.target.ref);
    if Slot(home, r.target.Base()) != slot && IsCurrent(store, home, r) {
      SameBaseKeepsCurrent(store, store - {slot}, home, r);
    }
  }

  lemma SameBaseKeepsCurrent(before: Store, after: Store, home: Ref, r: Run)
    requires IsCurrent(before, home, r)
    requires var base := Slot(home, r.target.Base()); base in before ==> base in after && after[base] == before[base]
    ensures IsCurrent(after, home, r)
  {
  }

  lemma DeletionKeepsStore(v: Service, store: Store, slot: Slot)
    requires IsStoreConsistent(v, store)
    requires slot.key.BaseKey? ==> slot !in store || forall k :: k in store ==> !IsDeltaOver(slot, k)
    ensures IsStoreConsistent(v, store - {slot})
  {
    forall k | k in store - {slot}
      ensures IsEntryConsistent(v, store - {slot}, k)
    {
      assert IsEntryConsistent(v, store, k);
    }
  }

  /** The event does not delete a base that something still builds on. */
  ghost predicate IsCareful(v: Service, s: System, e: Event) {
    YanksBase(e) && e.slot in s.store ==> !IsBuiltOn(v, s, e.slot)
  }

  lemma DropKeepsSafe(v: Service, s: System, slot: Slot)
    requires IsSafe(v, s) && (slot.key.BaseKey? && slot in s.store ==> !IsBuiltOn(v, s, slot))
    ensures IsSafe(v, s.(store := s.store - {slot}))
  {
    hide IsRunSafe, IsEntryConsistent, IsDeltaOver, Threatens;
    DeletionKeepsStore(v, s.store, slot);
    forall id | id in s.runs
      ensures IsRunSafe(v, s.store - {slot}, s.runs[id])
    {
      if slot.key.BaseKey? && slot in s.store {
        DeletionKeepsRunSafe(v, s.store, s.runs[id], slot);
      } else {
        StoreGrowthKeepsSafe(v, s.store, s.store - {slot}, s.runs[id]);
      }
    }
  }

  lemma RunUpdateKeepsSafe(v: Service, s: System, id: nat, r: Run)
    requires IsSafe(v, s) && IsRunSafe(v, s.store, r)
    ensures IsSafe(v, WithRun(s, id, r))
  {
    hide IsRunSafe, IsStoreConsistent;
  }

  lemma SaveKeepsSafe(v: Service, s: System, id: nat, allowed: bool, hasTarget: bool, produced: bool, content: nat)
    requires IsService(v) && HasOneSource(v) && IsSafe(v, s) && id in s.runs && s.runs[id].phase.Cooked?
    ensures IsSafe(v, Next(v, s, Save(id, allowed, hasTarget, produced, content)))
  {
    var r := s.runs[id];
    var after := AfterSave(v, s.store, r, allowed, hasTarget, produced, content);
    SaveKeepsStore(v, s.store, r, allowed, hasTarget, produced, content);
    FinishKeepsSafe(v, s.store, r);
    hide IsRunSafe, IsStoreConsistent, AfterSave, KeepsBases;
    var runs := s.runs[id := r.(phase := Finished)];
    forall k | k in runs
      ensures IsRunSafe(v, after, runs[k])
    {
      StoreGrowthKeepsSafe(v, s.store, after, if k == id then r.(phase := Finished) else s.runs[k]);
    }
  }

  lemma RestoreKeepsSafe(v: Service, s: System, e: Event)
    requires IsService(v) && HasOneSource(v) && IsSafe(v, s)
    requires e.RestoreBase? || e.RestoreDelta?
    ensures IsSafe(v, Next(v, s, e))
  {
    hide IsRunSafe, IsStoreConsistent, IsNearest, DeltaKeysOf;
    if Next(v, s, e) != s {
      var r := s.runs[e.id];
      if e.RestoreBase? {
        RestoreBaseKeepsSafe(v, s.store, r, e.matched, e.archiveBytes);
        RunUpdateKeepsSafe(v, s, e.id, AfterRestoreBase(s.store, r, e.matched, e.archiveBytes));
      } else {
        RestoreDeltaKeepsSafe(v, s.store, r, e.matched, e.archiveBytes);
        RunUpdateKeepsSafe(v, s, e.id, AfterRestoreDelta(s.store, r, e.matched, e.archiveBytes));
      }
    }
  }

  lemma LocalKeepsSafe(v: Service, s: System, e: Event)
    requires IsSafe(v, s) && (e.Begin? || e.JoinRestores? || e.Load? || e.Cook?)
    ensures IsSafe(v, Next(v, s, e))
  {
    hide IsRunSafe, IsStoreConsistent;
    match e
    case Begin(id, target, deltaEnabled, stale) =>
      if id !in s.runs {
        NewRunIsSafe(v, s.store, target, deltaEnabled, stale);
        RunUpdateKeepsSafe(v, s, id, NewRun(target, deltaEnabled, stale));
      }
    case JoinRestores(id) =>
      if id in s.runs && CanJoin(s.runs[id]) {
        JoinKeepsSafe(v, s.store, s.runs[id]);
        RunUpdateKeepsSafe(v, s, id, AfterJoin(s.runs[id]));
      }
    case Load(id, baseOk, deltaOk, partial) =>
      if id in s.runs && s.runs[id].phase.Restored? {
        LoadKeepsSafe(v, s.store, s.runs[id], baseOk, deltaOk, partial);
        RunUpdateKeepsSafe(v, s, id, AfterLoad(s.runs[id], baseOk, deltaOk, partial));
      }
    case Cook(id, exitZero) =>
      if id in s.runs && s.runs[id].phase.Loaded? {
        CookKeepsSafe(v, s.store, s.runs[id], exitZero);
        RunUpdateKeepsSafe(v, s, id, AfterCook(s.runs[id], exitZero));
      }
  }

  /** Every event that is careful about bases keeps the system safe. */
  lemma NextKeepsSafe(v: Service, s: System, e: Event)
    requires IsService(v) && HasOneSource(v) && IsSafe(v, s) && IsCareful(v, s, e)
    ensures IsSafe(v, Next(v, s, e))
  {
    match e
    case RestoreBase(_, _, _) => RestoreKeepsSafe(v, s, e);
    case RestoreDelta(_, _, _) => RestoreKeepsSafe(v, s, e);
    case Save(id, allowed, hasTarget, produced, content) =>
      if id in s.runs && s.runs[id].phase.Cooked? {
        SaveKeepsSafe(v, s, id, allowed, hasTarget, produced, content);
      }
    case Evict(slot) =>
      if slot.key.BaseKey? {
        BaseKeysAreFoundations(slot.key.parts);
      } else {
        DropKeepsSafe(v, s, slot);
      }
    case YankDelete(slot) => DropKeepsSafe(v, s, slot);
    case _ => LocalKeepsSafe(v, s, e);
  }

  /** Each event of a run of the system is careful in the state it meets. */
  ghost predicate AllCareful(v: Service, s: System, events: seq<Event>)
    decreases |events|
  {
    events != [] ==> IsCareful(v, s, events[0]) && AllCareful(v, Next(v, s, events[0]), events[1..])
  }

  lemma {:induction false} EventsKeepSafe(v: Service, s: System, events: seq<Event>)
    requires IsService(v) && HasOneSource(v) && IsSafe(v, s) && AllCareful(v, s, events)
    ensures IsSafe(v, After(v, s, events))
    decreases |events|
  {
    hide Next, IsSafe, IsCareful;
    if events != [] {
      NextKeepsSafe(v, s, events[0]);
      EventsKeepSafe(v, Next(v, s, events[0]), events[1..]);
    }
  }

  lemma {:induction false} WithoutYanksIsCareful(v: Service, s: System, events: seq<Event>)
    requires forall e :: e in events ==> !YanksBase(e)
    ensures AllCareful(v, s, events)
    decreases |events|
  {
    hide Next;
    if events != [] {
      WithoutYanksIsCareful(v, Next(v, s, events[0]), events[1..]);
    }
  }

  lemma SafeIsSound(v: Service, s: System)
    requires IsService(v) && HasOneSource(v) && IsSafe(v, s)
    ensures IsSound(v, s)
  {
    forall t, id | Leads(v, s, t) && id in t.runs
      ensures IsTrue(t.runs[id])
    {
      var events :| After(v, s, events) == t && forall e :: e in events ==> !YanksBase(e);
      WithoutYanksIsCareful(v, s, events);
      EventsKeepSafe(v, s, events);
      assert IsRunSafe(v, t.store, t.runs[id]);
    }
  }

  lemma StartIsSafe(v: Service)
    ensures IsSafe(v, START)
  {
  }

  // ---- What careful events guarantee ----

  /**
   Over every interleaving of runs, policy evictions, deletions of deltas and careful deletions of
   bases, each stored delta was built against the archive stored under its base key.
   */
  lemma StoredDeltasAreOverStoredBases(v: Service, events: seq<Event>, slot: Slot)
    requires IsService(v) && HasOneSource(v) && AllCareful(v, START, events)
    requires slot in After(v, START, events).store && slot.key.DeltaKey?
    ensures var store := After(v, START, events).store;
            var base := Slot(slot.ref, BaseKey(slot.key.parts));
            store[slot].DeltaArchive? && base in store && store[base] == store[slot].over
  {
    StartIsSafe(v);
    EventsKeepSafe(v, START, events);
    assert IsEntryConsistent(v, After(v, START, events).store, slot);
  }

  /** A run that reports its delta ready has loaded a delta over the very base it loaded. */
  lemma ReadyDeltaIsOverLoadedBase(v: Service, events: seq<Event>, id: nat)
    requires IsService(v) && HasOneSource(v) && AllCareful(v, START, events)
    requires id in After(v, START, events).runs
    requires var r := After(v, START, events).runs[id]; DeltaReady(r.restore, r.loaded)
    ensures Matches(After(v, START, events).runs[id])
  {
    StartIsSafe(v);
    EventsKeepSafe(v, START, events);
    var t := After(v, START, events);
    assert IsRunSafe(v, t.store, t.runs[id]);
  }
}
