/**
 The layered cook cache over many concurrent runs: base and delta archives in one immutable store
 with one scope per ref, with policy evictions and yank deletions in between.
 */
module CookLayers {
  import opened Common
  import Eviction

  // ---- Keys and archives ----

  /** The cleaned key fragments shared by a base key and the deltas on top of it. */
  datatype KeyParts = KeyParts(os: string, arch: string, libc: string, rustc: string, flags: string,
                               lock: string, soldr: string, suffix: Option<string>)

  datatype CacheKey = BaseKey(parts: KeyParts) | DeltaKey(parts: KeyParts, shape: string, sha: string)

  const BASE_KEY_PREFIX: string := "cook-base-v2"
  const DELTA_KEY_PREFIX: string := "cook-delta-v2"

  function PartsText(p: KeyParts): string {
    p.os + "-" + p.arch + "-" + p.libc + "-rustc" + p.rustc + "-f" + p.flags + "-l" + p.lock + "-soldr" + p.soldr
    + if p.suffix.Some? then "-x" + p.suffix.value else ""
  }

  function KeyText(k: CacheKey): string {
    match k
    case BaseKey(p) => BASE_KEY_PREFIX + ("-" + PartsText(p))
    case DeltaKey(p, shape, sha) => DELTA_KEY_PREFIX + ("-" + PartsText(p) + "-s" + shape + "-g" + sha)
  }

  /** A delta archive is readable only over the base archive its manifest came from. */
  datatype Archive = BaseArchive(content: nat) | DeltaArchive(content: nat, over: Archive)

  type Ref = string

  /** An entry belongs to the ref whose run saved it. */
  datatype Slot = Slot(ref: Ref, key: CacheKey)

  type Store = map<Slot, Archive>

  // ---- The cache service ----

  /** The refs whose entries a run can restore, its own first, and the refs that upload at all. */
  datatype Service = Service(visible: Ref -> seq<Ref>, uploaders: set<Ref>)

  ghost predicate IsService(v: Service) {
    forall ref :: v.visible(ref) != [] && v.visible(ref)[0] == ref
  }

  ghost predicate Sees(v: Service, reader: Ref, writer: Ref) { writer in v.visible(reader) && writer in v.uploaders }

  /** No ref can restore what two different refs saved. */
  ghost predicate HasOneSource(v: Service) {
    forall reader, a, b :: Sees(v, reader, a) && Sees(v, reader, b) ==> a == b
  }

  datatype SaveMode = Auto | Always | Never

  /** The shared save policy; empty strings are an unknown ref or default branch. */
  predicate DecideCacheSave(mode: SaveMode, event: string, localRunner: bool, remoteMode: SaveMode,
                            ref: Ref, defaultBranch: string) {
    if mode.Never? then false
    else if !localRunner && !remoteMode.Auto? then remoteMode.Always?
    else if mode.Always? || localRunner then true
    else event != "pull_request" && (ref == "" || defaultBranch == "" || ref == "refs/heads/" + defaultBranch)
  }

  /** How a repository is set up; `knownScope` is whether its runs know their ref and the default branch. */
  datatype Setup = Setup(mode: SaveMode, localRunner: bool, remoteMode: SaveMode, knownScope: bool, defaultBranch: string) {
    predicate UploadsNothing() { mode.Never? || (!localRunner && remoteMode.Never?) }

    /** The default mode on GitHub, scoped to the default branch. */
    predicate ScopesToDefault() {
      mode.Auto? && !localRunner && remoteMode.Auto? && knownScope && defaultBranch != ""
    }

    function DefaultRef(): Ref { "refs/heads/" + defaultBranch }
  }

  /** What the policy decides for a run on this ref. */
  predicate AllowsUpload(p: Setup, event: string, ref: Ref) {
    DecideCacheSave(p.mode, event, p.localRunner, p.remoteMode,
                    if p.knownScope then ref else "", if p.knownScope then p.defaultBranch else "")
  }

  /**
   On GitHub and without a remote setting, `auto` lets a run upload unless it is for a pull request or known
   to be off the default branch; the other settings do not look at event and ref.
   */
  lemma AllowsUploadIff(p: Setup, event: string, ref: Ref)
    ensures AllowsUpload(p, event, ref) <==>
            && !p.mode.Never?
            && (!p.localRunner ==>
                  && !p.remoteMode.Never?
                  && (p.remoteMode.Auto? && p.mode.Auto? ==>
                        && event != "pull_request"
                        && (p.knownScope && ref != "" && p.defaultBranch != "" ==> ref == "refs/heads/" + p.defaultBranch)))
  {
  }

  /** Some run on this ref, for whatever event, is allowed to upload. */
  ghost predicate MayUpload(p: Setup, ref: Ref) { exists event :: AllowsUpload(p, event, ref) }

  /** The uploading refs are those of the repository's refs that the save policy lets upload. */
  ghost predicate FollowsPolicy(v: Service, p: Setup, refs: set<Ref>) {
    v.uploaders == set ref | ref in refs && MayUpload(p, ref)
  }

  /** A ref may upload unless nothing does, or only the default branch does and it is another one. */
  lemma MayUploadIff(p: Setup, ref: Ref)
    requires ref != ""
    ensures MayUpload(p, ref) <==> !p.UploadsNothing() && (p.ScopesToDefault() ==> ref == p.DefaultRef())
  {
    PushIsNoPullRequest();
    if !p.UploadsNothing() && (p.ScopesToDefault() ==> ref == p.DefaultRef()) {
      assert AllowsUpload(p, "push", ref);
    }
  }

  lemma PushIsNoPullRequest()
    ensures "push" != "pull_request"
  {
    assert |"push"| == 4;
  }

  /** The policy eviction never touches a base layer. */
  lemma BaseKeysAreFoundations(p: KeyParts)
    ensures Eviction.IsFoundation(KeyText(BaseKey(p)))
  {
    var protectedPrefix := "cook-base-v2-";
    assert Eviction.FOUNDATION_PREFIXES[4] == protectedPrefix;
    assert BASE_KEY_PREFIX + "-" == protectedPrefix;
    assert KeyText(BaseKey(p)) == protectedPrefix + PartsText(p);
  }

  // ---- What one run decides ----

  datatype LayerInfo = LayerInfo(hit: bool, matchedKey: Option<CacheKey>)

  const MISS: LayerInfo := LayerInfo(false, None)

  /** A matched entry with an empty payload is a miss; a hit is an exact match. */
  function RestoreOneLayer(key: CacheKey, matched: Option<CacheKey>, archiveBytes: nat): LayerInfo {
    if matched.None? || archiveBytes == 0 then MISS else LayerInfo(matched.value == key, matched)
  }

  /** A delta without any base, or with the delta layer off, is discarded. */
  function RestoreLayered(base: LayerInfo, delta: LayerInfo, deltaEnabled: bool): (LayerInfo, LayerInfo) {
    if !deltaEnabled || base.matchedKey.None? then (base, MISS) else (base, delta)
  }

  datatype Loads = Loads(baseLoaded: bool, deltaLoaded: bool)

  /** The base is loaded first; the delta only over a loaded base. */
  function LoadLayered(restore: (LayerInfo, LayerInfo), baseOk: bool, deltaOk: bool): Loads {
    if restore.0.matchedKey.None? || !baseOk then Loads(false, false)
    else if restore.1.matchedKey.None? then Loads(true, false)
    else Loads(true, deltaOk)
  }

  predicate BaseReady(restore: (LayerInfo, LayerInfo), loaded: Loads) {
    restore.0.hit && loaded.baseLoaded
  }

  predicate DeltaReady(restore: (LayerInfo, LayerInfo), loaded: Loads) {
    BaseReady(restore, loaded) && restore.1.matchedKey.Some? && loaded.deltaLoaded
  }

  datatype SaveLayer = SaveBase | SaveDelta | SaveNone

  function SelectCookSaveLayer(cookRan: bool, baseReady: bool, deltaEnabled: bool): SaveLayer {
    if !cookRan then SaveNone
    else if !baseReady then SaveBase
    else if deltaEnabled then SaveDelta
    else SaveNone
  }

  datatype SaveStatus = Saved | PolicySkip | MissingTarget | MissingManifest | ReservationConflict | ProduceFailed

  /** The save gates in order; `produced` is false when the archive or its upload fails. */
  function SaveLayeredStatus(layer: SaveLayer, slot: Slot, store: Store, manifest: Option<Archive>,
                             allowed: bool, hasTarget: bool, produced: bool): SaveStatus {
    if !allowed then PolicySkip
    else if !hasTarget then MissingTarget
    else if layer.SaveDelta? && manifest.None? then MissingManifest
    else if slot in store then ReservationConflict
    else if !produced then ProduceFailed
    else Saved
  }

  // ---- Runs and the store as one system ----

  datatype Phase = Restoring | Restored | Loaded | Cooked | Finished

  /** The ref a run is on and what its keys are made of. */
  datatype Target = Target(ref: Ref, parts: KeyParts, shape: string, sha: string) {
    function Base(): CacheKey { BaseKey(parts) }

    function Delta(): CacheKey { DeltaKey(parts, shape, sha) }
  }

  /** `None` answers are lookups still outstanding; the archives are the files restored to disk. */
  datatype Run = Run(target: Target, deltaEnabled: bool, phase: Phase,
                     baseAnswer: Option<LayerInfo>, deltaAnswer: Option<LayerInfo>,
                     baseArchive: Option<Archive>, deltaArchive: Option<Archive>, manifest: Option<Archive>,
                     restore: (LayerInfo, LayerInfo), loaded: Loads, cookRan: bool)

  datatype System = System(store: Store, runs: map<nat, Run>)

  datatype Event =
    /** `stale` is a manifest file an earlier job left on the runner. */
    | Begin(id: nat, target: Target, deltaEnabled: bool, stale: Option<Archive>)
    | RestoreBase(id: nat, matched: Option<Slot>, archiveBytes: nat)
    | RestoreDelta(id: nat, matched: Option<Slot>, archiveBytes: nat)
    | JoinRestores(id: nat)
    /** `partial` is what a failed load leaves as manifest. */
    | Load(id: nat, baseOk: bool, deltaOk: bool, partial: Option<Archive>)
    | Cook(id: nat, exitZero: bool)
    | Save(id: nat, allowed: bool, hasTarget: bool, produced: bool, content: nat)
    | Evict(slot: Slot)
    | YankDelete(slot: Slot)

  /**
   A base lookup carries the exact key, which is also a prefix: the nearest scope that holds the exact
   key answers with it; a scope without it may answer with a longer base key.
   */
  ghost predicate BaseMayMatch(v: Service, store: Store, t: Target, m: Slot) {
    m in store && m.key.BaseKey? && IsNearest(v, store, t, m, {t.Base()}) &&
    (Slot(m.ref, t.Base()) in store ==> m.key == t.Base())
  }

  /** A delta lookup carries the exact, the parent and the shape prefix key, all of one parts record. */
  ghost predicate DeltaMayMatch(v: Service, store: Store, t: Target, m: Slot) {
    m in store && IsDeltaFor(t, m.key) && IsNearest(v, store, t, m, DeltaKeysOf(store, t)) &&
    (Slot(m.ref, t.Delta()) in store ==> m.key == t.Delta())
  }

  predicate IsDeltaFor(t: Target, k: CacheKey) { k.DeltaKey? && k.parts == t.parts && k.shape == t.shape }

  ghost function DeltaKeysOf(store: Store, t: Target): set<CacheKey> {
    set slot | slot in store && IsDeltaFor(t, slot.key) :: slot.key
  }

  /** The match is visible, and no scope before its own holds one of the keys. */
  ghost predicate IsNearest(v: Service, store: Store, t: Target, m: Slot, keys: set<CacheKey>) {
    exists j :: 0 <= j < |v.visible(t.ref)| && v.visible(t.ref)[j] == m.ref &&
                forall i, k :: 0 <= i < j && k in keys ==> Slot(v.visible(t.ref)[i], k) !in store
  }

  function KeyOf(matched: Option<Slot>): Option<CacheKey> {
    if matched.Some? then Some(matched.value.key) else None
  }

  ghost function AfterRestoreBase(store: Store, r: Run, matched: Option<Slot>, archiveBytes: nat): Run
    requires matched.Some? ==> matched.value in store
  {
    r.(baseAnswer := Some(RestoreOneLayer(r.target.Base(), KeyOf(matched), archiveBytes)),
       baseArchive := if matched.Some? then Some(store[matched.value]) else None)
  }

  ghost function AfterRestoreDelta(store: Store, r: Run, matched: Option<Slot>, archiveBytes: nat): Run
    requires matched.Some? ==> matched.value in store
  {
    r.(deltaAnswer := Some(RestoreOneLayer(r.target.Delta(), KeyOf(matched), archiveBytes)),
       deltaArchive := if matched.Some? then Some(store[matched.value]) else None)
  }

  predicate CanJoin(r: Run) {
    r.phase.Restoring? && r.baseAnswer.Some? && (r.deltaEnabled ==> r.deltaAnswer.Some?)
  }

  function AfterJoin(r: Run): Run
    requires CanJoin(r)
  {
    r.(phase := Restored,
       restore := RestoreLayered(r.baseAnswer.value,
                                 if r.deltaAnswer.Some? then r.deltaAnswer.value else MISS, r.deltaEnabled))
  }

  function AfterLoad(r: Run, baseOk: bool, deltaOk: bool, partial: Option<Archive>): Run {
    var loaded := LoadLayered(r.restore, baseOk, deltaOk);
    r.(phase := Loaded, loaded := loaded,
       manifest := if loaded.baseLoaded then r.baseArchive
                   else if r.restore.0.matchedKey.Some? then partial else r.manifest)
  }

  /** A run with a delta on its base does not cook. */
  function AfterCook(r: Run, exitZero: bool): Run {
    r.(phase := Cooked, cookRan := !DeltaReady(r.restore, r.loaded) && exitZero)
  }

  function LayerOf(r: Run): SaveLayer {
    SelectCookSaveLayer(r.cookRan, BaseReady(r.restore, r.loaded), r.deltaEnabled)
  }

  function SaveKey(r: Run): CacheKey {
    if LayerOf(r).SaveDelta? then r.target.Delta() else r.target.Base()
  }

  /** A save goes to the run's own scope, if its ref uploads at all. */
  function AfterSave(v: Service, store: Store, r: Run, allowed: bool, hasTarget: bool, produced: bool, content: nat): Store {
    var layer, slot := LayerOf(r), Slot(r.target.ref, SaveKey(r));
    if layer.SaveNone? then store
    else
      var status := SaveLayeredStatus(layer, slot, store, r.manifest, allowed && r.target.ref in v.uploaders, hasTarget, produced);
      if !status.Saved? then store
      else store[slot := if layer.SaveDelta? then DeltaArchive(content, r.manifest.value) else BaseArchive(content)]
  }

  /** One event; an event that cannot happen in this state changes nothing. */
  ghost function Next(v: Service, s: System, e: Event): System {
    match e
    case Begin(id, target, deltaEnabled, stale) =>
      if id in s.runs then s
      else WithRun(s, id, NewRun(target, deltaEnabled, stale))
    case RestoreBase(id, matched, archiveBytes) =>
      if id in s.runs && s.runs[id].phase.Restoring? && s.runs[id].baseAnswer.None?
         && (matched.Some? ==> BaseMayMatch(v, s.store, s.runs[id].target, matched.value))
      then WithRun(s, id, AfterRestoreBase(s.store, s.runs[id], matched, archiveBytes))
      else s
    case RestoreDelta(id, matched, archiveBytes) =>
      if id in s.runs && s.runs[id].phase.Restoring? && s.runs[id].deltaAnswer.None? && s.runs[id].deltaEnabled
         && (matched.Some? ==> DeltaMayMatch(v, s.store, s.runs[id].target, matched.value))
      then WithRun(s, id, AfterRestoreDelta(s.store, s.runs[id], matched, archiveBytes))
      else s
    case JoinRestores(id) =>
      if id in s.runs && CanJoin(s.runs[id]) then WithRun(s, id, AfterJoin(s.runs[id])) else s
    case Load(id, baseOk, deltaOk, partial) =>
      if id in s.runs && s.runs[id].phase.Restored?
      then WithRun(s, id, AfterLoad(s.runs[id], baseOk, deltaOk, partial))
      else s
    case Cook(id, exitZero) =>
      if id in s.runs && s.runs[id].phase.Loaded? then WithRun(s, id, AfterCook(s.runs[id], exitZero)) else s
    case Save(id, allowed, hasTarget, produced, content) =>
      if id in s.runs && s.runs[id].phase.Cooked?
      then WithRun(s.(store := AfterSave(v, s.store, s.runs[id], allowed, hasTarget, produced, content)), id,
                   s.runs[id].(phase := Finished))
      else s
    case Evict(slot) => if Eviction.IsFoundation(KeyText(slot.key)) then s else s.(store := s.store - {slot})
    case YankDelete(slot) => s.(store := s.store - {slot})
  }

  function NewRun(target: Target, deltaEnabled: bool, stale: Option<Archive>): Run {
    Run(target, deltaEnabled, Restoring, None, None, None, None, stale,
        (MISS, MISS), Loads(false, false), false)
  }

  function WithRun(s: System, id: nat, r: Run): System { s.(runs := s.runs[id := r]) }

  ghost function After(v: Service, s: System, events: seq<Event>): System
    decreases |events|
  {
    if events == [] then s else After(v, Next(v, s, events[0]), events[1..])
  }

  const START: System := System(map[], map[])

  predicate YanksBase(e: Event) { e.YankDelete? && e.slot.key.BaseKey? }

  /** Some events without a base deletion lead from one state to the other. */
  ghost predicate Leads(v: Service, s: System, t: System) {
    exists events :: After(v, s, events) == t && forall e :: e in events ==> !YanksBase(e)
  }

  lemma LeadsToItself(v: Service, s: System)
    ensures Leads(v, s, s)
  {
    assert After(v, s, []) == s;
  }

  lemma {:induction false} AfterAppend(v: Service, s: System, events: seq<Event>, e: Event)
    ensures After(v, s, events + [e]) == Next(v, After(v, s, events), e)
    decreases |events|
  {
    hide Next;
    if events == [] {
      assert [] + [e] == [e] && [e][1..] == [];
    } else {
      assert (events + [e])[1..] == events[1..] + [e];
      AfterAppend(v, Next(v, s, events[0]), events[1..], e);
    }
  }

  lemma LeadsOn(v: Service, s: System, t: System, e: Event)
    requires Leads(v, s, t) && !YanksBase(e)
    ensures Leads(v, s, Next(v, t, e))
  {
    hide Next;
    var events :| After(v, s, events) == t && forall e :: e in events ==> !YanksBase(e);
    AfterAppend(v, s, events, e);
    assert After(v, s, events + [e]) == Next(v, t, e);
  }
}
