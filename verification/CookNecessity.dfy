/** The runs that go wrong where the conditions on scopes and deletions fail, and so the exact conditions. */
module CookNecessity {
  import opened Common
  import opened CookLayers
  import opened CookSafety

  // ---- Chains of events ----

  lemma {:induction false} AfterConcat(v: Service, s: System, a: seq<Event>, b: seq<Event>)
    ensures After(v, s, a + b) == After(v, After(v, s, a), b)
    decreases |a|
  {
    hide Next;
    if a == [] {
      assert a + b == b;
    } else {
      assert (a + b)[1..] == a[1..] + b;
      AfterConcat(v, Next(v, s, a[0]), a[1..], b);
    }
  }

  lemma LeadsThrough(v: Service, s: System, t: System, u: System)
    requires Leads(v, s, t) && Leads(v, t, u)
    ensures Leads(v, s, u)
  {
    hide After;
    var a :| After(v, s, a) == t && forall e :: e in a ==> !YanksBase(e);
    var b :| After(v, t, b) == u && forall e :: e in b ==> !YanksBase(e);
    AfterConcat(v, s, a, b);
    assert forall e :: e in a + b ==> !YanksBase(e);
  }

  lemma UnsoundBefore(v: Service, s: System, t: System)
    requires Leads(v, s, t) && !IsSound(v, t)
    ensures !IsSound(v, s)
  {
    hide Leads;
    var u, id :| Leads(v, t, u) && id in u.runs && !IsTrue(u.runs[id]);
    LeadsThrough(v, s, t, u);
  }

  lemma {:induction false} UpperBound(ids: set<nat>) returns (bound: nat)
    ensures forall id :: id in ids ==> id < bound
  {
    if ids == {} {
      bound := 0;
    } else {
      var id :| id in ids;
      var rest := UpperBound(ids - {id});
      bound := if id < rest then rest else id + 1;
      assert ids == ids - {id} + {id};
    }
  }

  lemma FreshId(runs: map<nat, Run>) returns (id: nat)
    ensures id !in runs
  {
    id := UpperBound(runs.Keys);
    assert id !in runs.Keys;
  }

  // ---- Whole runs ----

  ghost function RestoredRun(store: Store, target: Target, base: Option<Slot>, delta: Option<Slot>): Run
    requires base.Some? ==> base.value in store
    requires delta.Some? ==> delta.value in store
  {
    AfterJoin(AfterRestoreDelta(store, AfterRestoreBase(store, NewRun(target, true, None), base, 1), delta, 1))
  }

  /** A new run that gets these two answers. */
  lemma RunRestores(v: Service, s: System, target: Target, base: Option<Slot>, delta: Option<Slot>)
    returns (t: System, id: nat)
    requires base.Some? ==> BaseMayMatch(v, s.store, target, base.value)
    requires delta.Some? ==> DeltaMayMatch(v, s.store, target, delta.value)
    ensures id !in s.runs && Leads(v, s, t) && t == WithRun(s, id, RestoredRun(s.store, target, base, delta))
  {
    hide BaseMayMatch, DeltaMayMatch, Leads, RestoreOneLayer;
    id := FreshId(s.runs);
    LeadsToItself(v, s);
    LeadsOn(v, s, s, Begin(id, target, true, None));
    var s1 := Next(v, s, Begin(id, target, true, None));
    LeadsOn(v, s, s1, RestoreBase(id, base, 1));
    var s2 := Next(v, s1, RestoreBase(id, base, 1));
    LeadsOn(v, s, s2, RestoreDelta(id, delta, 1));
    var s3 := Next(v, s2, RestoreDelta(id, delta, 1));
    LeadsOn(v, s, s3, JoinRestores(id));
    t := Next(v, s3, JoinRestores(id));
  }

  /** The run after loading the base, and the delta too if `deltaOk`, and a successful cook. */
  function CookedRun(r: Run, deltaOk: bool): Run { AfterCook(AfterLoad(r, true, deltaOk, None), true) }

  lemma RunFinishes(v: Service, s: System, id: nat, deltaOk: bool, content: nat) returns (t: System)
    requires id in s.runs && s.runs[id].phase.Restored?
    ensures Leads(v, s, t)
    ensures var c := CookedRun(s.runs[id], deltaOk);
            t == WithRun(s.(store := AfterSave(v, s.store, c, true, true, true, content)), id, c.(phase := Finished))
  {
    hide Leads, LoadLayered, DeltaReady, AfterSave;
    LeadsToItself(v, s);
    LeadsOn(v, s, s, Load(id, true, deltaOk, None));
    var s1 := Next(v, s, Load(id, true, deltaOk, None));
    LeadsOn(v, s, s1, Cook(id, true));
    var s2 := Next(v, s1, Cook(id, true));
    LeadsOn(v, s, s2, Save(id, true, true, true, content));
    t := Next(v, s2, Save(id, true, true, true, content));
  }

  /** The runs that were there are still there, unchanged. */
  ghost predicate KeepsRuns(s: System, t: System) {
    forall id :: id in s.runs ==> id in t.runs && t.runs[id] == s.runs[id]
  }

  /** A run whose lookups fail saves a base in its own scope. */
  lemma ColdRun(v: Service, s: System, target: Target, content: nat) returns (t: System)
    requires target.ref in v.uploaders && Slot(target.ref, target.Base()) !in s.store
    ensures Leads(v, s, t) && KeepsRuns(s, t)
    ensures t.store == s.store[Slot(target.ref, target.Base()) := BaseArchive(content)]
  {
    hide Leads;
    var s1, id := RunRestores(v, s, target, None, None);
    t := RunFinishes(v, s1, id, true, content);
    LeadsThrough(v, s, s1, t);
  }

  lemma OwnScopeIsNearest(v: Service, store: Store, target: Target, m: Slot, keys: set<CacheKey>)
    requires IsService(v) && m.ref == target.ref
    ensures IsNearest(v, store, target, m, keys)
  {
    assert v.visible(target.ref)[0] == m.ref;
  }

  /** A run that hits its own scope's base saves a delta over it. */
  lemma WarmRun(v: Service, s: System, target: Target, content: nat) returns (t: System)
    requires IsService(v) && target.ref in v.uploaders
    requires Slot(target.ref, target.Base()) in s.store && Slot(target.ref, target.Delta()) !in s.store
    ensures Leads(v, s, t) && KeepsRuns(s, t)
    ensures t.store == s.store[Slot(target.ref, target.Delta()) :=
                               DeltaArchive(content, s.store[Slot(target.ref, target.Base())])]
  {
    hide Leads, IsNearest;
    var base := Slot(target.ref, target.Base());
    OwnScopeIsNearest(v, s.store, target, base, {target.Base()});
    var s1, id := RunRestores(v, s, target, Some(base), None);
    t := RunFinishes(v, s1, id, true, content);
    LeadsThrough(v, s, s1, t);
  }

  /** A run that restores a base and a delta of another one reports a false ready delta. */
  lemma FalseReadyRun(v: Service, s: System, target: Target, base: Slot, delta: Slot)
    requires BaseMayMatch(v, s.store, target, base) && base.key == target.Base()
    requires DeltaMayMatch(v, s.store, target, delta)
    requires s.store[delta].DeltaArchive? && s.store[delta].over != s.store[base]
    ensures !IsSound(v, s)
  {
    hide Leads, IsNearest, DeltaKeysOf;
    var s1, id := RunRestores(v, s, target, Some(base), Some(delta));
    var t := RunFinishes(v, s1, id, true, 0);
    LeadsThrough(v, s, s1, t);
    assert DeltaReady(t.runs[id].restore, t.runs[id].loaded) && !Matches(t.runs[id]);
  }

  // ---- Two sources seen by one reader ----

  const PARTS: KeyParts := KeyParts("", "", "", "", "", "", "", None)

  lemma FirstIndex(refs: seq<Ref>, ref: Ref) returns (k: nat)
    requires ref in refs
    ensures k < |refs| && refs[k] == ref && ref !in refs[..k]
  {
    if refs[0] == ref {
      k := 0;
    } else {
      assert refs == [refs[0]] + refs[1..];
      var j := FirstIndex(refs[1..], ref);
      k := j + 1;
      assert refs[..k] == [refs[0]] + refs[1..][..j];
    }
  }

  /** `near` and `far` both upload and are seen, `near` first: a base of one meets a delta of the other. */
  lemma TwoSourcesAreUnsound(v: Service, reader: Ref, near: Ref, far: Ref, i: nat, j: nat)
    requires IsService(v) && near in v.uploaders && far in v.uploaders && near != far
    requires i < j < |v.visible(reader)| && v.visible(reader)[i] == near && v.visible(reader)[j] == far
    requires near !in v.visible(reader)[..i] && far !in v.visible(reader)[..j]
    ensures !IsSound(v, START)
  {
    hide Leads, IsSound, KeepsRuns;
    var target := Target(far, PARTS, "", "");
    var reading := Target(reader, PARTS, "", "");
    var s1 := ColdRun(v, START, Target(near, PARTS, "", ""), 0);
    var s2 := ColdRun(v, s1, target, 1);
    var s3 := WarmRun(v, s2, target, 2);
    LeadsThrough(v, START, s1, s2);
    LeadsThrough(v, START, s2, s3);
    var base, delta := Slot(near, BaseKey(PARTS)), Slot(far, DeltaKey(PARTS, "", ""));
    assert s3.store.Keys == {base, Slot(far, BaseKey(PARTS)), delta};
    var visible := v.visible(reader);
    assert forall k :: 0 <= k < i ==> visible[k] == visible[..i][k] != near;
    assert forall k :: 0 <= k < j ==> visible[k] == visible[..j][k] != far;
    assert IsNearest(v, s3.store, reading, base, {BaseKey(PARTS)});
    NearestDelta(v, s3.store, reading, delta, j);
    FalseReadyRun(v, s3, reading, base, delta);
    UnsoundBefore(v, START, s3);
  }

  /** No delta for the target lies in a scope before the match. */
  lemma NearestDelta(v: Service, store: Store, target: Target, m: Slot, j: nat)
    requires j < |v.visible(target.ref)| && v.visible(target.ref)[j] == m.ref
    requires forall slot :: slot in store && IsDeltaFor(target, slot.key) ==> slot.ref !in v.visible(target.ref)[..j]
    ensures IsNearest(v, store, target, m, DeltaKeysOf(store, target))
  {
    var visible := v.visible(target.ref);
    forall i, k | 0 <= i < j && k in DeltaKeysOf(store, target)
      ensures Slot(visible[i], k) !in store
    {
      assert visible[i] in visible[..j];
    }
  }

  /**
   Without base deletions every ready delta is over its run's base, in every interleaving, exactly
   when no ref restores from two uploading refs.
   */
  lemma SoundIffOneSource(v: Service)
    requires IsService(v)
    ensures IsSound(v, START) <==> HasOneSource(v)
  {
    hide IsSound;
    if HasOneSource(v) {
      StartIsSafe(v);
      SafeIsSound(v, START);
    } else {
      var reader, a, b :| Sees(v, reader, a) && Sees(v, reader, b) && a != b;
      var i := FirstIndex(v.visible(reader), a);
      var j := FirstIndex(v.visible(reader), b);
      if i < j {
        TwoSourcesAreUnsound(v, reader, a, b, i, j);
      } else {
        TwoSourcesAreUnsound(v, reader, b, a, j, i);
      }
    }
  }

  /** The default policy leaves one uploading ref, so every ready delta is true. */
  lemma OneUploaderIsSound(v: Service, ref: Ref)
    requires IsService(v) && v.uploaders <= {ref}
    ensures IsSound(v, START)
  {
    hide IsSound;
    SoundIffOneSource(v);
  }

  /** No ref restores from two refs of the repository. */
  ghost predicate SeesOneRef(v: Service, refs: set<Ref>) {
    forall reader, a, b :: a in refs && b in refs && a in v.visible(reader) && b in v.visible(reader) ==> a == b
  }

  /**
   Under the save policy every ready delta is true exactly when nothing uploads, or only the default
   branch does, or the scopes keep all refs apart.
   */
  lemma PolicyIsSoundIff(v: Service, p: Setup, refs: set<Ref>)
    requires IsService(v) && FollowsPolicy(v, p, refs) && "" !in refs
    ensures IsSound(v, START) <==> p.UploadsNothing() || p.ScopesToDefault() || SeesOneRef(v, refs)
  {
    hide IsSound, MayUpload;
    SoundIffOneSource(v);
    forall ref | ref in refs
      ensures ref in v.uploaders <==> !p.UploadsNothing() && (p.ScopesToDefault() ==> ref == p.DefaultRef())
    {
      MayUploadIff(p, ref);
    }
    if HasOneSource(v) && !p.UploadsNothing() && !p.ScopesToDefault() {
      forall reader, a, b | a in refs && b in refs && a in v.visible(reader) && b in v.visible(reader)
        ensures a == b
      {
        assert Sees(v, reader, a) && Sees(v, reader, b);
      }
    }
  }

  /** With uploads from everywhere, a pull request that saved its own base meets the default branch's delta. */
  lemma PullRequestScopeIsUnsound(v: Service, pr: Ref, main: Ref)
    requires IsService(v) && pr != main && v.uploaders == {pr, main} && v.visible(pr) == [pr, main]
    ensures !IsSound(v, START)
  {
    hide IsSound;
    SoundIffOneSource(v);
    assert Sees(v, pr, pr) && Sees(v, pr, main);
  }

  // ---- Deleting a base that something builds on ----

  function OtherContent(a: Archive): (content: nat)
    ensures BaseArchive(content) != a
  {
    if a.BaseArchive? then a.content + 1 else 0
  }

  /** A delta whose base is gone: a rebuilt base gets it for its own. */
  lemma StaleDeltaIsUnsound(v: Service, t: System, slot: Slot, k: Slot)
    requires IsService(v) && slot.ref in v.uploaders && slot.key.BaseKey? && slot !in t.store
    requires k in t.store && IsDeltaOver(slot, k) && t.store[k].DeltaArchive?
    ensures !IsSound(v, t)
  {
    hide Leads, IsSound, IsNearest, KeepsRuns;
    var target := Target(slot.ref, slot.key.parts, k.key.shape, k.key.sha);
    var t1 := ColdRun(v, t, target, OtherContent(t.store[k].over));
    OwnScopeIsNearest(v, t1.store, target, slot, {target.Base()});
    OwnScopeIsNearest(v, t1.store, target, k, DeltaKeysOf(t1.store, target));
    hide DeltaKeysOf;
    FalseReadyRun(v, t1, target, slot, k);
    UnsoundBefore(v, t, t1);
  }

  /** The run, driven on without its delta, saves a new one over its base. */
  predicate WillSave(v: Service, r: Run) {
    r.deltaEnabled && Uploads(v, r) && r.baseArchive.Some? &&
    match r.phase
    case Restoring => r.baseAnswer.Some? && r.baseAnswer.value.hit && r.baseAnswer.value.matchedKey.Some?
    case Restored => r.restore.0.hit && r.restore.0.matchedKey.Some?
    case Loaded => BaseReady(r.restore, r.loaded) && !DeltaReady(r.restore, r.loaded) && r.manifest == r.baseArchive
    case Cooked => r.cookRan && BaseReady(r.restore, r.loaded) && r.manifest == r.baseArchive
    case Finished => false
  }

  /** Only this run moved, and not its target; the store is as it was. */
  ghost predicate MovedOn(v: Service, t: System, u: System, id: nat) {
    Leads(v, t, u) && u.store == t.store && id in t.runs && id in u.runs &&
    u.runs[id].target == t.runs[id].target && WillSave(v, u.runs[id])
  }

  lemma Move(v: Service, t: System, u: System, id: nat, e: Event)
    requires MovedOn(v, t, u, id) && !YanksBase(e) && Next(v, u, e).store == u.store
    requires id in Next(v, u, e).runs && WillSave(v, Next(v, u, e).runs[id])
    requires Next(v, u, e).runs[id].target == u.runs[id].target
    ensures MovedOn(v, t, Next(v, u, e), id)
  {
    hide Next, Leads, WillSave;
    LeadsOn(v, t, u, e);
  }

  lemma DriveToCooked(v: Service, t: System, id: nat) returns (u: System)
    requires id in t.runs && WillSave(v, t.runs[id])
    ensures MovedOn(v, t, u, id) && u.runs[id].phase.Cooked?
  {
    LeadsToItself(v, t);
    hide Leads;
    u := t;
    if u.runs[id].phase.Restoring? {
      u := DriveToRestored(v, u, id);
    }
    hide MovedOn;
    if u.runs[id].phase.Restored? {
      Move(v, t, u, id, Load(id, true, false, None));
      u := Next(v, u, Load(id, true, false, None));
    }
    if u.runs[id].phase.Loaded? {
      Move(v, t, u, id, Cook(id, true));
      u := Next(v, u, Cook(id, true));
    }
  }

  lemma DriveToRestored(v: Service, t: System, id: nat) returns (u: System)
    requires id in t.runs && WillSave(v, t.runs[id]) && t.runs[id].phase.Restoring?
    ensures MovedOn(v, t, u, id) && u.runs[id].phase.Restored?
  {
    LeadsToItself(v, t);
    hide Leads;
    u := t;
    if u.runs[id].deltaAnswer.None? {
      Move(v, t, u, id, RestoreDelta(id, None, 0));
      u := Next(v, u, RestoreDelta(id, None, 0));
    }
    Move(v, t, u, id, JoinRestores(id));
    u := Next(v, u, JoinRestores(id));
  }

  /** A run that will save a delta, over a base that is no longer stored. */
  lemma SavingRunIsUnsound(v: Service, t: System, slot: Slot, id: nat)
    requires IsService(v) && slot.ref in v.uploaders && slot.key.BaseKey? && slot !in t.store
    requires forall k :: k in t.store && k.key.DeltaKey? ==> t.store[k].DeltaArchive?
    requires id in t.runs && WillSave(v, t.runs[id])
    requires t.runs[id].target.ref == slot.ref && t.runs[id].target.Base() == slot.key
    ensures !IsSound(v, t)
  {
    hide Leads, IsSound;
    var k := Slot(slot.ref, t.runs[id].target.Delta());
    if k in t.store {
      StaleDeltaIsUnsound(v, t, slot, k);
    } else {
      var u := DriveToCooked(v, t, id);
      var w := Next(v, u, Save(id, true, true, true, 0));
      LeadsOn(v, t, u, Save(id, true, true, true, 0));
      StaleDeltaIsUnsound(v, w, slot, k);
      UnsoundBefore(v, t, w);
    }
  }

  /** Both answers in, of archives that do not match. */
  lemma FalseJoinIsUnsound(v: Service, t: System, id: nat)
    requires id in t.runs && CanJoin(t.runs[id]) && t.runs[id].deltaEnabled && !Matches(t.runs[id])
    requires t.runs[id].baseAnswer.value.hit && t.runs[id].baseAnswer.value.matchedKey.Some?
    requires t.runs[id].deltaAnswer.value.matchedKey.Some?
    ensures !IsSound(v, t)
  {
    LeadsToItself(v, t);
    hide Leads;
    LeadsOn(v, t, t, JoinRestores(id));
    var t1 := Next(v, t, JoinRestores(id));
    var t2 := RunFinishes(v, t1, id, true, 0);
    LeadsThrough(v, t, t1, t2);
    assert DeltaReady(t2.runs[id].restore, t2.runs[id].loaded) && !Matches(t2.runs[id]);
  }

  lemma HomeIsSeen(v: Service, reader: Ref, home: Ref)
    requires IsService(v) && Home(v, reader) == home && home in v.uploaders
    ensures Sees(v, reader, home)
  {
    if !exists u :: Sees(v, reader, u) {
      assert v.visible(reader)[0] == reader;
    }
  }

  /** All entries come from uploading refs. */
  ghost predicate IsUploaded(v: Service, store: Store) { forall slot :: slot in store ==> slot.ref in v.uploaders }

  /** Under one source, no scope before the home holds anything. */
  lemma HomeIsNearest(v: Service, store: Store, target: Target, m: Slot, keys: set<CacheKey>)
    requires HasOneSource(v) && IsUploaded(v, store) && Sees(v, target.ref, m.ref)
    ensures IsNearest(v, store, target, m, keys)
  {
    var visible := v.visible(target.ref);
    var j := FirstIndex(visible, m.ref);
    forall i, k | 0 <= i < j && k in keys
      ensures Slot(visible[i], k) !in store
    {
      assert visible[i] == visible[..j][i] != m.ref;
      if visible[i] in v.uploaders {
        assert Sees(v, target.ref, visible[i]);
      }
    }
  }

  /** A run that restored the old base and still waits for its delta gets one over the rebuilt base. */
  lemma WaitingForDeltaIsUnsound(v: Service, t: System, slot: Slot, id: nat)
    requires IsService(v) && HasOneSource(v) && IsUploaded(v, t.store)
    requires slot.ref in v.uploaders && slot.key.BaseKey? && slot !in t.store
    requires forall k :: k in t.store && k.key.DeltaKey? ==> t.store[k].DeltaArchive?
    requires id in t.runs && Sees(v, t.runs[id].target.ref, slot.ref) && t.runs[id].target.Base() == slot.key
    requires var r := t.runs[id];
             r.phase.Restoring? && r.deltaEnabled && r.deltaAnswer.None? && r.baseArchive.Some? &&
             r.baseAnswer.Some? && r.baseAnswer.value.hit && r.baseAnswer.value.matchedKey.Some?
    ensures !IsSound(v, t)
  {
    hide Leads, IsSound, IsNearest;
    var r := t.runs[id];
    var target := r.target.(ref := slot.ref);
    var k := Slot(slot.ref, target.Delta());
    if k in t.store {
      StaleDeltaIsUnsound(v, t, slot, k);
    } else {
      var t1 := ColdRun(v, t, target, OtherContent(r.baseArchive.value));
      var t2 := WarmRun(v, t1, target, 0);
      LeadsThrough(v, t, t1, t2);
      HomeIsNearest(v, t2.store, r.target, k, DeltaKeysOf(t2.store, r.target));
      hide DeltaKeysOf;
      var t3 := Next(v, t2, RestoreDelta(id, Some(k), 1));
      LeadsOn(v, t, t2, RestoreDelta(id, Some(k), 1));
      assert t3 == WithRun(t2, id, AfterRestoreDelta(t2.store, r, Some(k), 1));
      hide Next;
      FalseJoinIsUnsound(v, t3, id);
      UnsoundBefore(v, t, t3);
    }
  }

  /** A run that restored a delta and still waits for its base gets the rebuilt one. */
  lemma WaitingForBaseIsUnsound(v: Service, t: System, slot: Slot, id: nat)
    requires IsService(v) && HasOneSource(v) && IsUploaded(v, t.store)
    requires slot.ref in v.uploaders && slot.key.BaseKey? && slot !in t.store
    requires id in t.runs && Sees(v, t.runs[id].target.ref, slot.ref) && t.runs[id].target.Base() == slot.key
    requires var r := t.runs[id];
             r.phase.Restoring? && r.deltaEnabled && r.baseAnswer.None? &&
             r.deltaAnswer.Some? && r.deltaAnswer.value.matchedKey.Some? && r.deltaArchive.Some? &&
             r.deltaArchive.value.DeltaArchive?
    ensures !IsSound(v, t)
  {
    hide Leads, IsSound, IsNearest;
    var r := t.runs[id];
    var target := r.target.(ref := slot.ref);
    var t1 := ColdRun(v, t, target, OtherContent(r.deltaArchive.value.over));
    HomeIsNearest(v, t1.store, r.target, slot, {r.target.Base()});
    var t2 := Next(v, t1, RestoreBase(id, Some(slot), 1));
    LeadsOn(v, t, t1, RestoreBase(id, Some(slot), 1));
    assert t2 == WithRun(t1, id, AfterRestoreBase(t1.store, r, Some(slot), 1));
    hide Next;
    FalseJoinIsUnsound(v, t2, id);
    UnsoundBefore(v, t, t2);
  }

  // ---- The exact condition for a deletion ----

  lemma ThreatIsUnsound(v: Service, s: System, slot: Slot, id: nat)
    requires IsService(v) && HasOneSource(v) && IsSafe(v, s)
    requires slot in s.store && slot.key.BaseKey? && id in s.runs && Threatens(v, s.runs[id], slot)
    ensures !IsSound(v, s.(store := s.store - {slot}))
  {
    var t := s.(store := s.store - {slot});
    var r := s.runs[id];
    assert IsRunSafe(v, s.store, r) && IsEntryConsistent(v, s.store, slot);
    assert forall k :: k in s.store ==> IsEntryConsistent(v, s.store, k);
    HomeIsSeen(v, r.target.ref, slot.ref);
    ThreatCases(v, s.store, r, slot);
    hide IsSound, IsRunSafe, Threatens, WillSave, IsEntryConsistent;
    if WillSave(v, r) {
      UploaderIsItsHome(v, r.target.ref);
      SavingRunIsUnsound(v, t, slot, id);
    } else if r.baseAnswer.Some? {
      WaitingForDeltaIsUnsound(v, t, slot, id);
    } else {
      WaitingForBaseIsUnsound(v, t, slot, id);
    }
  }

  /** A threatening run will save a delta, or waits for its delta, or waits for its base. */
  lemma ThreatCases(v: Service, store: Store, r: Run, slot: Slot)
    requires IsRunSafe(v, store, r) && Threatens(v, r, slot)
    ensures r.deltaEnabled
    ensures WillSave(v, r) ||
            (r.phase.Restoring? && r.deltaAnswer.None? && r.baseArchive.Some? && r.baseAnswer.Some? &&
             r.baseAnswer.value.hit && r.baseAnswer.value.matchedKey.Some?) ||
            (r.phase.Restoring? && r.baseAnswer.None? && r.deltaAnswer.Some? && r.deltaAnswer.value.matchedKey.Some? &&
             r.deltaArchive.Some? && r.deltaArchive.value.DeltaArchive?)
    ensures WillSave(v, r) ==> Uploads(v, r)
  {
    hide Home;
  }

  /**
   Deleting a base leaves every later ready delta true, whatever else happens, exactly when no delta
   of it is stored and no unfinished run can still save or load one.
   */
  lemma DeletionIsSoundIff(v: Service, s: System, slot: Slot)
    requires IsService(v) && HasOneSource(v) && IsSafe(v, s) && slot in s.store && slot.key.BaseKey?
    ensures IsSound(v, Next(v, s, YankDelete(slot))) <==> !IsBuiltOn(v, s, slot)
  {
    hide IsSound, IsSafe, Threatens;
    var t := Next(v, s, YankDelete(slot));
    if !IsBuiltOn(v, s, slot) {
      NextKeepsSafe(v, s, YankDelete(slot));
      SafeIsSound(v, t);
    } else if k :| k in s.store && IsDeltaOver(slot, k) {
      EntriesOf(v, s, slot);
      EntriesOf(v, s, k);
      StaleDeltaIsUnsound(v, t, slot, k);
    } else {
      var id :| id in s.runs && Threatens(v, s.runs[id], slot);
      ThreatIsUnsound(v, s, slot, id);
    }
  }

  lemma EntriesOf(v: Service, s: System, k: Slot)
    requires IsSafe(v, s) && k in s.store
    ensures k.ref in v.uploaders && (k.key.DeltaKey? ==> s.store[k].DeltaArchive?)
  {
    assert IsEntryConsistent(v, s.store, k);
  }

  /** The way it goes wrong, from nothing: a base, a delta over it, and the base deleted. */
  lemma YankedBaseLeavesStaleDelta(v: Service, target: Target)
    requires IsService(v) && HasOneSource(v) && target.ref in v.uploaders
    ensures exists s :: Leads(v, START, s) && !IsSound(v, Next(v, s, YankDelete(Slot(target.ref, target.Base()))))
  {
    hide Leads, IsSound, KeepsRuns;
    var slot := Slot(target.ref, target.Base());
    var s1 := ColdRun(v, START, target, 0);
    var s2 := WarmRun(v, s1, target, 0);
    LeadsThrough(v, START, s1, s2);
    StaleDeltaIsUnsound(v, Next(v, s2, YankDelete(slot)), slot, Slot(target.ref, target.Delta()));
  }
}
