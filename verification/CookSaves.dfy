/** What makes a layered restore ready, and what a save stores: only a run whose cook succeeded adds an entry. */
module CookSaves {
  import opened Common
  import opened CookLayers

  // ---- From lookups and loads to ready layers ----

  /**
   The base is ready exactly when its exact key matched an archive that is not empty and loaded; the delta
   when besides its layer is on and any delta matched one that is not empty and loaded too.
   */
  lemma LayersReadyIff(target: Target, base: Option<CacheKey>, baseBytes: nat, delta: Option<CacheKey>, deltaBytes: nat,
                       deltaEnabled: bool, baseOk: bool, deltaOk: bool)
    ensures var restore := RestoreLayered(RestoreOneLayer(target.Base(), base, baseBytes),
                                          RestoreOneLayer(target.Delta(), delta, deltaBytes), deltaEnabled);
            var loaded := LoadLayered(restore, baseOk, deltaOk);
            && (BaseReady(restore, loaded) <==>
                  base == Some(BaseKey(target.parts)) && baseBytes > 0 && baseOk)
            && (DeltaReady(restore, loaded) <==>
                  base == Some(BaseKey(target.parts)) && baseBytes > 0 && baseOk &&
                  deltaEnabled && delta.Some? && deltaBytes > 0 && deltaOk)
            && (loaded.baseLoaded <==> base.Some? && baseBytes > 0 && baseOk)
            && (loaded.deltaLoaded <==>
                  base.Some? && baseBytes > 0 && baseOk && deltaEnabled && delta.Some? && deltaBytes > 0 && deltaOk)
  {
  }

  /** A lookup is kept only for an archive that is not empty, a delta's only beside a kept base and if its layer is on. */
  lemma LookupsIff(target: Target, base: Option<CacheKey>, baseBytes: nat, delta: Option<CacheKey>, deltaBytes: nat,
                   deltaEnabled: bool)
    ensures var restore := RestoreLayered(RestoreOneLayer(target.Base(), base, baseBytes),
                                          RestoreOneLayer(target.Delta(), delta, deltaBytes), deltaEnabled);
            && (forall k :: restore.0.matchedKey == Some(k) <==> base == Some(k) && baseBytes > 0)
            && (restore.0.hit <==> restore.0.matchedKey == Some(BaseKey(target.parts)))
            && (forall k :: restore.1.matchedKey == Some(k) <==>
                  restore.0.matchedKey.Some? && deltaEnabled && delta == Some(k) && deltaBytes > 0)
            && (restore.1.hit <==> restore.1.matchedKey == Some(DeltaKey(target.parts, target.shape, target.sha)))
  {
  }

  // ---- One save ----

  /** A delta is due once the exact base is loaded. */
  predicate IsDeltaDue(r: Run) { r.restore.0.hit && r.loaded.baseLoaded }

  function DueSlot(r: Run): Slot {
    Slot(r.target.ref, if IsDeltaDue(r) then DeltaKey(r.target.parts, r.target.shape, r.target.sha)
                       else BaseKey(r.target.parts))
  }

  /**
   A save adds an entry exactly when the cook ran to a zero exit, policy and ref allow the upload, the
   target is there, a due delta is enabled and has its base's manifest, the slot is free and the archive
   was made; and then it adds a delta over the manifest's base if one is due, else a base.
   */
  lemma SaveAddsIff(v: Service, store: Store, r: Run, allowed: bool, hasTarget: bool, produced: bool, content: nat)
    ensures var after := AfterSave(v, store, r, allowed, hasTarget, produced, content);
            && (after != store <==>
                  && r.cookRan && allowed && r.target.ref in v.uploaders && hasTarget && produced
                  && (IsDeltaDue(r) ==> r.deltaEnabled && r.manifest.Some?)
                  && DueSlot(r) !in store)
            && (after != store ==>
                  after == store[DueSlot(r) :=
                                 if IsDeltaDue(r) then DeltaArchive(content, r.manifest.value) else BaseArchive(content)])
  {
    var after := AfterSave(v, store, r, allowed, hasTarget, produced, content);
    assert after != store ==> DueSlot(r) in after;
    assert DueSlot(r) !in store && DueSlot(r) in after ==> after != store;
  }

  // ---- Over whole runs ----

  /** Past its cook, which no ready delta had made superfluous. */
  predicate CookedWithoutDelta(r: Run) {
    (r.phase.Cooked? || r.phase.Finished?) &&
    !(IsDeltaDue(r) && r.restore.1.matchedKey.Some? && r.loaded.deltaLoaded)
  }

  /** The run's cook was called for, and exited 0. */
  lemma {:induction false} CookedRunsCooked(v: Service, events: seq<Event>, id: nat)
    requires id in After(v, START, events).runs && After(v, START, events).runs[id].cookRan
    ensures Cook(id, true) in events
    ensures var r := After(v, START, events).runs[id]; CookedWithoutDelta(r)
    decreases |events|
  {
    if events != [] {
      var front, last := events[..|events| - 1], events[|events| - 1];
      assert events == front + [last];
      AfterAppend(v, START, front, last);
      var before := After(v, START, front);
      if id in before.runs && before.runs[id].cookRan {
        CookedRunsCooked(v, front, id);
        CookedStays(v, before, last, id);
      } else {
        CookSetsRan(v, before, last, id);
      }
    }
  }

  /** What a run restored and loaded does not change any more once it has cooked. */
  lemma CookedStays(v: Service, s: System, e: Event, id: nat)
    requires id in s.runs && id in Next(v, s, e).runs && s.runs[id].cookRan && Next(v, s, e).runs[id].cookRan
    requires var r := s.runs[id]; CookedWithoutDelta(r)
    ensures var r := Next(v, s, e).runs[id]; CookedWithoutDelta(r)
  {
  }

  lemma CookSetsRan(v: Service, s: System, e: Event, id: nat)
    requires id in Next(v, s, e).runs && Next(v, s, e).runs[id].cookRan
    requires id in s.runs ==> !s.runs[id].cookRan
    ensures e == Cook(id, true)
    ensures var r := Next(v, s, e).runs[id]; CookedWithoutDelta(r)
  {
  }

  /** At event `i` a run that had cooked saved this entry. */
  ghost predicate IsSavedAt(v: Service, events: seq<Event>, i: nat, slot: Slot, archive: Archive)
    requires i < |events|
  {
    var s := After(v, START, events[..i]);
    var e := events[i];
    e.Save? && e.id in s.runs && s.runs[e.id].cookRan && Cook(e.id, true) in events[..i] &&
    slot == DueSlot(s.runs[e.id]) && e.allowed && slot.ref in v.uploaders && slot !in s.store &&
    After(v, START, events[..i + 1]).store == s.store[slot := archive]
  }

  lemma SavedAtStays(v: Service, events: seq<Event>, e: Event, i: nat, slot: Slot, archive: Archive)
    requires i < |events| && IsSavedAt(v, events, i, slot, archive)
    ensures IsSavedAt(v, events + [e], i, slot, archive)
  {
    var longer := events + [e];
    assert longer[..i] == events[..i] && longer[..i + 1] == events[..i + 1];
  }

  lemma OnlySavesAdd(v: Service, s: System, e: Event, slot: Slot)
    requires slot in Next(v, s, e).store
    requires slot in s.store ==> Next(v, s, e).store[slot] != s.store[slot]
    ensures e.Save? && e.id in s.runs && s.runs[e.id].cookRan && e.allowed && slot == DueSlot(s.runs[e.id])
    ensures slot.ref in v.uploaders && slot !in s.store
    ensures Next(v, s, e).store == s.store[slot := Next(v, s, e).store[slot]]
  {
    hide AfterSave;
    if e.Save? && e.id in s.runs {
      SaveAddsIff(v, s.store, s.runs[e.id], e.allowed, e.hasTarget, e.produced, e.content);
    }
  }

  /**
   Over every interleaving of runs, evictions and deletions, each stored entry was saved under its key in
   its scope by a run whose cook exited 0 before, and nothing has replaced it.
   */
  lemma {:induction false} EntriesAreOfCookedRuns(v: Service, events: seq<Event>, slot: Slot)
    requires slot in After(v, START, events).store
    ensures exists i :: 0 <= i < |events| && IsSavedAt(v, events, i, slot, After(v, START, events).store[slot])
    decreases |events|
  {
    if events != [] {
      hide Next, IsSavedAt;
      var front, last := events[..|events| - 1], events[|events| - 1];
      assert events == front + [last];
      AfterAppend(v, START, front, last);
      var before := After(v, START, front);
      var archive := After(v, START, events).store[slot];
      if slot in before.store && before.store[slot] == archive {
        EntriesAreOfCookedRuns(v, front, slot);
        var i :| 0 <= i < |front| && IsSavedAt(v, front, i, slot, archive);
        SavedAtStays(v, front, last, i, slot, archive);
      } else {
        OnlySavesAdd(v, before, last, slot);
        CookedRunsCooked(v, front, last.id);
        LastSaved(v, events, slot);
      }
    }
  }

  lemma LastSaved(v: Service, events: seq<Event>, slot: Slot)
    requires events != [] && slot in After(v, START, events).store
    requires var s, e := After(v, START, events[..|events| - 1]), events[|events| - 1];
             e.Save? && e.id in s.runs && s.runs[e.id].cookRan && Cook(e.id, true) in events[..|events| - 1] &&
             slot == DueSlot(s.runs[e.id]) && e.allowed && slot.ref in v.uploaders && slot !in s.store &&
             After(v, START, events).store == s.store[slot := After(v, START, events).store[slot]]
    ensures IsSavedAt(v, events, |events| - 1, slot, After(v, START, events).store[slot])
  {
    assert events[..|events| - 1 + 1] == events;
  }
}
