/**
 The post step of a job: the audit join, the gates before the build-cache save, the save itself,
 and the clean-save marker. Jobs run one after another over one cache service.
 */
module PostSave {
  import opened Common
  import opened AncestorKey
  import CachePayload
  import CookLayers

  // ---- The failed-job gate ----

  const TRUTHY: set<string> := {"1", "true", "yes", "on"}
  const FALSY: set<string> := {"", "0", "false", "no", "off"}
  const NOT_SUCCEEDED: set<string> := {"failure", "cancelled"}

  function Normal(s: string): string { CachePayload.ToLower(CachePayload.Trim(s)) }

  predicate ReportsFailure(jobStatus: string) { Normal(jobStatus) in NOT_SUCCEEDED }

  /** Whether build outputs may be saved; an unreadable `save-on-failure` throws. */
  function DecideBuildOutputSave(jobStatus: string, saveOnFailure: string): Result<bool> {
    var raw := Normal(saveOnFailure);
    if raw !in TRUTHY && raw !in FALSY then Failure
    else if !ReportsFailure(jobStatus) then Success(true)
    else Success(raw in TRUTHY)
  }

  /** `skip` of the compile-delta gate; `None` is an unknown count. */
  predicate IsTinyDelta(restored: bool, newCompiles: Option<nat>, minCompiles: int) {
    minCompiles > 0 && restored && newCompiles.Some? && newCompiles.value < minCompiles
  }

  // ---- The yank audit ----

  datatype AuditStatus = Pending | Clean | Yanked | NotChecked

  /** A result file or answer; `names` says whether its list of yanked crates is non-empty. */
  datatype Audit = Audit(status: AuditStatus, names: bool)

  /** What the join sees: the result file, whether its deadline is ahead, the wait, and the recheck. */
  datatype AuditSources = AuditSources(existing: Option<Audit>, inTime: bool, joined: Audit, recheck: Audit)

  /** The wait and the recheck never answer `Pending`, and a recheck is clean only without yanked crates. */
  predicate AreAuditSources(a: AuditSources) {
    !a.joined.status.Pending? && !a.recheck.status.Pending? && (a.recheck.status.Clean? ==> !a.recheck.names)
  }

  predicate IsDecided(a: Audit) { a.status.Clean? || a.status.Yanked? }

  function Verdict(a: Audit): AuditStatus { if a.names then Yanked else a.status }

  function ResolveYankAudit(a: AuditSources): AuditStatus {
    if a.existing.Some? && (a.existing.value.names || IsDecided(a.existing.value)) then Verdict(a.existing.value)
    else if (a.existing.None? || a.existing.value.status.Pending?) && a.inTime && (a.joined.names || IsDecided(a.joined))
    then Verdict(a.joined)
    else a.recheck.status
  }

  /** Some source says clean and names no yanked crate. */
  predicate SomeSourceIsClean(a: AuditSources) {
    a.existing == Some(Audit(Clean, false)) || a.joined == Audit(Clean, false) || a.recheck == Audit(Clean, false)
  }

  /** The join is never undecided, and it is clean only on a source that is. */
  lemma CleanNeedsCleanSource(a: AuditSources)
    requires AreAuditSources(a)
    ensures !ResolveYankAudit(a).Pending?
    ensures ResolveYankAudit(a).Clean? ==> SomeSourceIsClean(a)
    ensures a.existing.Some? && a.existing.value.names ==> ResolveYankAudit(a).Yanked?
  {
  }

  /** A source says something: it names a crate, or is decided. */
  predicate Speaks(a: Audit) { a.names || a.status.Clean? || a.status.Yanked? }

  /** The sources in the order they are consulted; the wait counts only in time and while the result file may still come. */
  function Consulted(a: AuditSources): seq<Audit> {
    (if a.existing.Some? then [a.existing.value] else []) +
    (if a.inTime && (a.existing.None? || a.existing.value.status.Pending?) then [a.joined] else [])
  }

  /** The first of them that says anything decides, else the recheck. */
  lemma FirstSpeakerDecides(a: AuditSources, k: nat)
    requires k < |Consulted(a)| && Speaks(Consulted(a)[k]) && forall j :: 0 <= j < k ==> !Speaks(Consulted(a)[j])
    ensures ResolveYankAudit(a).Clean? <==> Consulted(a)[k] == Audit(Clean, false)
    ensures ResolveYankAudit(a).Yanked? <==> Consulted(a)[k] != Audit(Clean, false)
  {
    if a.existing.Some? {
      assert Consulted(a)[0] == a.existing.value;
    }
  }

  lemma RecheckDecides(a: AuditSources)
    requires forall x :: x in Consulted(a) ==> !Speaks(x)
    ensures ResolveYankAudit(a) == a.recheck.status
  {
    if a.existing.Some? {
      assert a.existing.value in Consulted(a);
    }
    assert a.inTime && (a.existing.None? || a.existing.value.status.Pending?) ==> a.joined in Consulted(a);
  }

  // ---- One job ----

  datatype Writer = Writer(sha: string, runId: int, attempt: int, ref: string)
  datatype Packing = Packed | Oversize | PackFailed
  datatype Upload = Stored | Declined | Threw

  // ---- What main restored, reported and handed to the audit ----

  /**
   What restoring one archive came to: nothing on disk, an archive of unknown codec, an unpacking that
   failed after it had written something, or the whole archive. `matched` is the key of the entry found.
   */
  datatype Restore = Missed | UnknownCodec(matched: string) | Partial(matched: string) | Whole(matched: string) {
    predicate LeftFiles() { Partial? || Whole? }

    /** The target, build and registry layers count all but a whole archive as a miss. */
    function UsableKey(): string { if Whole? then matched else "" }

    /** The plain cook layer reports the key of an archive it found, of use or not. */
    function FoundKey(): string { if Missed? then "" else matched }
  }

  /** `partial`: a load that failed has written something all the same. */
  datatype Cook =
    | NoCook
    | Plain(archive: Restore)
    | Layered(restore: (CookLayers.LayerInfo, CookLayers.LayerInfo), loaded: CookLayers.Loads, partial: bool)
  {
    predicate LeftFiles() {
      match this
      case NoCook => false
      case Plain(archive) => archive.LeftFiles()
      case Layered(_, loaded, partial) => loaded.baseLoaded || partial
    }

    /** The matched keys in the saved state. */
    function ReportedKeys(): seq<string> {
      match this
      case NoCook => []
      case Plain(archive) => [archive.FoundKey()]
      case Layered(restore, _, _) => [LayerKey(restore.0), LayerKey(restore.1)]
    }

    /** The keys handed to the audit: of a whole plain archive, or of layers that are ready. */
    function AuditedKeys(): seq<string> {
      match this
      case NoCook => []
      case Plain(archive) => [archive.UsableKey()]
      case Layered(restore, loaded, _) =>
        (if CookLayers.BaseReady(restore, loaded) then [LayerKey(restore.0)] else []) +
        (if CookLayers.DeltaReady(restore, loaded) then [LayerKey(restore.1)] else [])
    }
  }

  function LayerKey(info: CookLayers.LayerInfo): string {
    if info.matchedKey.Some? then CookLayers.KeyText(info.matchedKey.value) else ""
  }

  /** The layers that carry compiled or downloaded dependencies. */
  datatype Restores = Restores(target: Restore, build: Restore, registry: Restore, cook: Cook) {
    /** Files of some layer are on disk, whatever the layer reports. */
    predicate LeftFiles() { target.LeftFiles() || build.LeftFiles() || registry.LeftFiles() || cook.LeftFiles() }

    function AuditedKeys(): seq<string> {
      [target.UsableKey(), build.UsableKey(), registry.UsableKey()] + cook.AuditedKeys()
    }

    /** Empty keys do not count. */
    predicate HasAuditedKey() { exists key :: key in AuditedKeys() && key != "" }
  }

  /**
   What one job's main step left in the saved state, and what its post step meets. `mainFinished`
   is whether main got past its restores to the launch of the audit.
   */
  datatype Job = Job(
    hasState: bool, lazy: bool, mainFinished: bool,
    restores: Restores, buildCacheEnabled: bool,
    audit: AuditSources,
    jobStatus: string, saveOnFailure: string, newCompiles: Option<nat>, minCompiles: int,
    policyAllows: bool, dirExists: bool, packing: Packing, upload: Upload,
    key: string, writer: Option<Writer>)
  {
    /** The build cache's saved matched key, empty after a miss. */
    function BuildMatched(): string { restores.build.UsableKey() }
  }

  predicate AuditStarted(job: Job) { job.mainFinished && job.restores.HasAuditedKey() }

  datatype Status =
    | NoState | Aborted | Disabled | FailedJobSkip | TinyDeltaSkip
    | PolicySkip | MissingDirSkip | ExactHitSkip | OversizeSkip | SaveFailed | Saved(id: int)

  /** `nextId` is the id the cache service gives the next entry. */
  function SaveOne(job: Job, nextId: int): Status {
    if !job.policyAllows then PolicySkip
    else if !job.dirExists then MissingDirSkip
    else if job.BuildMatched() == job.key then ExactHitSkip
    else if job.packing.Oversize? then OversizeSkip
    else if job.packing.PackFailed? then SaveFailed
    else match job.upload
      case Stored => Saved(nextId)
      case Declined => Saved(-1)
      case Threw => SaveFailed
  }

  predicate AuditRefuses(job: Job) { AuditStarted(job) && !ResolveYankAudit(job.audit).Clean? }

  /** The outcome of a job that is turned away before the save. */
  function Refused(job: Job): Option<Status> {
    if !job.hasState || job.lazy then Some(NoState)
    else if AuditRefuses(job) then Some(Aborted)
    else
      var gate := DecideBuildOutputSave(job.jobStatus, job.saveOnFailure);
      if gate.Failure? then Some(Aborted)
      else if !job.buildCacheEnabled then Some(Disabled)
      else if !gate.value then Some(FailedJobSkip)
      else if IsTinyDelta(Normal(job.BuildMatched()) != "", job.newCompiles, job.minCompiles) then Some(TinyDeltaSkip)
      else None
  }

  function PostStatus(job: Job, nextId: int): Status {
    if Refused(job).Some? then Refused(job).value else SaveOne(job, nextId)
  }

  datatype Proof = Proof(cacheId: int, key: string, ref: string, sha: string, runId: int, attempt: int)

  /** The marker the post step prints for a save, if any. */
  function Marker(job: Job, status: Status): Option<Proof> {
    var key := ParseAncestorKey(job.key);
    if job.writer.None? || key.None? || !status.Saved? || status.id <= 0 then None
    else
      var w, k := job.writer.value, key.value;
      if w.sha == k.sha && w.runId == k.runId && w.attempt == k.attempt
      then Some(Proof(status.id, job.key, w.ref, k.sha, k.runId, k.attempt))
      else None
  }

  // ---- The cache service over many jobs ----

  datatype Entry = Entry(key: string, savedBy: Job)

  datatype World = World(entries: map<int, Entry>, nextId: int, markers: set<Proof>)

  const EMPTY: World := World(map[], 1, {})

  datatype Event = Run(job: Job) | Evict(ids: set<int>)

  function Publish(w: World, job: Job, status: Status): World {
    var stored := if status.Saved? && status.id > 0
      then w.(entries := w.entries[status.id := Entry(job.key, job)], nextId := w.nextId + 1) else w;
    var marker := Marker(job, status);
    if marker.Some? then stored.(markers := stored.markers + {marker.value}) else stored
  }

  function Next(w: World, e: Event): World {
    match e
    case Run(job) => Publish(w, job, PostStatus(job, w.nextId))
    case Evict(ids) => w.(entries := w.entries - ids)
  }

  function After(events: seq<Event>): World {
    if events == [] then EMPTY else Next(After(events[..|events| - 1]), events[|events| - 1])
  }

  class CacheService {
    var entries: map<int, Entry>
    var nextId: int
    var markers: set<Proof>

    ghost function Value(): World
      reads this
    {
      World(entries, nextId, markers)
    }

    constructor ()
      ensures Value() == EMPTY
    {
      entries, nextId, markers := map[], 1, {};
    }

    method JoinAudit(a: AuditSources) returns (status: AuditStatus)
      ensures status == ResolveYankAudit(a)
    {
      if a.existing.Some? {
        var existing := a.existing.value;
        if existing.names { return Yanked; }
        if existing.status.Clean? || existing.status.Yanked? { return existing.status; }
      }
      if (a.existing.None? || a.existing.value.status.Pending?) && a.inTime {
        if a.joined.names { return Yanked; }
        if a.joined.status.Clean? || a.joined.status.Yanked? { return a.joined.status; }
      }
      return a.recheck.status;
    }

    /** The gates and the packing; the upload adds the entry. */
    method SaveBuildCache(job: Job) returns (status: Status)
      requires nextId > 0
      modifies this
      ensures status == SaveOne(job, old(nextId)) && markers == old(markers)
      ensures if status.Saved? && status.id > 0
              then entries == old(entries)[status.id := Entry(job.key, job)] && nextId == old(nextId) + 1
              else entries == old(entries) && nextId == old(nextId)
    {
      if !job.policyAllows { return PolicySkip; }
      if !job.dirExists { return MissingDirSkip; }
      if job.BuildMatched() == job.key { return ExactHitSkip; }
      if job.packing.Oversize? { return OversizeSkip; }
      if job.packing.PackFailed? { return SaveFailed; }
      if job.upload.Threw? { return SaveFailed; }
      if job.upload.Declined? { return Saved(-1); }
      status := Saved(nextId);
      entries := entries[nextId := Entry(job.key, job)];
      nextId := nextId + 1;
    }

    method PrintMarker(job: Job, status: Status)
      modifies this`markers
      ensures markers == old(markers) + match Marker(job, status) { case Some(p) => {p} case None => {} }
    {
      var key := ParseAncestorKey(job.key);
      if job.writer.Some? && key.Some? && status.Saved? && status.id > 0 {
        var w, k := job.writer.value, key.value;
        if w.sha == k.sha && w.runId == k.runId && w.attempt == k.attempt {
          markers := markers + {Proof(status.id, job.key, w.ref, k.sha, k.runId, k.attempt)};
        }
      }
    }

    method CheckGates(job: Job) returns (refused: Option<Status>)
      ensures refused == Refused(job)
    {
      if !job.hasState || job.lazy { return Some(NoState); }
      if AuditStarted(job) {
        var audit := JoinAudit(job.audit);
        if !audit.Clean? { return Some(Aborted); }
      }
      var gate := DecideBuildOutputSave(job.jobStatus, job.saveOnFailure);
      if gate.Failure? { return Some(Aborted); }
      if !job.buildCacheEnabled { return Some(Disabled); }
      if !gate.value { return Some(FailedJobSkip); }
      if IsTinyDelta(Normal(job.BuildMatched()) != "", job.newCompiles, job.minCompiles) { return Some(TinyDeltaSkip); }
      return None;
    }

    method RunPost(job: Job) returns (status: Status)
      requires nextId > 0
      modifies this
      ensures status == PostStatus(job, old(nextId))
      ensures Value() == Next(old(Value()), Run(job))
    {
      hide Refused, ParseAncestorKey, SaveOne;
      RefusalsSaveNothing(job);
      var refused := CheckGates(job);
      if refused.Some? { return refused.value; }
      status := SaveBuildCache(job);
      PrintMarker(job, status);
    }
  }

  lemma RefusalsSaveNothing(job: Job)
    ensures Refused(job).Some? ==> !Refused(job).value.Saved?
  {
  }

  // ---- What every stored entry and every marker tells ----

  /** The job's reported status is not a failure, or it asked to save anyway. */
  predicate PassesFailedJobGate(job: Job) {
    !ReportsFailure(job.jobStatus) || Normal(job.saveOnFailure) in TRUTHY
  }

  predicate IsAudited(job: Job) { AuditStarted(job) && ResolveYankAudit(job.audit).Clean? }

  /** No restored file is on disk, or the audit of the dependency closure came out clean. */
  predicate IsAuditedOrCold(job: Job) { !job.restores.LeftFiles() || IsAudited(job) }

  /** Main launches an audit whenever files were restored: it finished, and some layer handed over its key. */
  predicate AuditGuards(mainFinished: bool, restores: Restores) {
    !restores.LeftFiles() || (mainFinished && restores.HasAuditedKey())
  }

  /** Past the failed-job gate, and past the audit wherever main launches one. */
  ghost predicate EntryIsGated(e: Entry) {
    PassesFailedJobGate(e.savedBy) && e.key == e.savedBy.key &&
    (AuditGuards(e.savedBy.mainFinished, e.savedBy.restores) ==> IsAuditedOrCold(e.savedBy))
  }

  /** The marker's sha, run and attempt are those of its key. */
  ghost predicate MarkerIsOfItsKey(p: Proof) {
    ParseAncestorKey(p.key).Some? &&
    var k := ParseAncestorKey(p.key).value;
    k.sha == p.sha && k.runId == p.runId && k.attempt == p.attempt
  }

  /** The marker names its entry's key and the writer that saved it. */
  ghost predicate MarkerIsHonest(p: Proof, e: Entry) {
    p.key == e.key && e.savedBy.writer == Some(Writer(p.sha, p.runId, p.attempt, p.ref))
  }

  ghost predicate Inv(w: World) {
    w.nextId > 0 &&
    (forall id :: id in w.entries ==> 0 < id < w.nextId && EntryIsGated(w.entries[id])) &&
    (forall p :: p in w.markers ==> 0 < p.cacheId < w.nextId && MarkerIsOfItsKey(p)) &&
    (forall p :: p in w.markers && p.cacheId in w.entries ==> MarkerIsHonest(p, w.entries[p.cacheId]))
  }

  lemma StoredMeansGated(job: Job, nextId: int)
    requires PostStatus(job, nextId).Saved?
    ensures EntryIsGated(Entry(job.key, job))
  {
    hide ResolveYankAudit, Normal;
  }

  lemma MarkerOf(job: Job, status: Status)
    ensures Marker(job, status).Some? ==>
              status.Saved? && status.id > 0 && Marker(job, status).value.cacheId == status.id &&
              MarkerIsOfItsKey(Marker(job, status).value) &&
              MarkerIsHonest(Marker(job, status).value, Entry(job.key, job))
  {
    hide ParseAncestorKey;
  }

  lemma RunKeepsInv(w: World, job: Job)
    requires Inv(w)
    ensures Inv(Next(w, Run(job)))
  {
    hide EntryIsGated, MarkerIsOfItsKey, MarkerIsHonest, Marker, Refused;
    var status := PostStatus(job, w.nextId);
    RefusalsSaveNothing(job);
    MarkerOf(job, status);
    if status.Saved? {
      StoredMeansGated(job, w.nextId);
    }
  }

  /** Over every sequence of jobs and evictions. */
  lemma {:induction false} JobsKeepInv(events: seq<Event>)
    ensures Inv(After(events))
  {
    if events != [] {
      hide Inv, Next;
      JobsKeepInv(events[..|events| - 1]);
      match events[|events| - 1]
      case Run(job) => RunKeepsInv(After(events[..|events| - 1]), job);
      case Evict(ids) => EvictKeepsInv(After(events[..|events| - 1]), ids);
    }
  }

  lemma EvictKeepsInv(w: World, ids: set<int>)
    requires Inv(w)
    ensures Inv(Next(w, Evict(ids)))
  {
    hide EntryIsGated, MarkerIsOfItsKey, MarkerIsHonest;
  }

  // ---- Which jobs store an entry ----

  /** The failed-job gate is open: an input that reads as yes or no, and a status that is no failure or a yes. */
  predicate MaySaveAfter(jobStatus: string, saveOnFailure: string) {
    Normal(saveOnFailure) in TRUTHY || (Normal(saveOnFailure) in FALSY && !ReportsFailure(jobStatus))
  }

  /** Enough was compiled, or that is unknown, or not asked for, or there was nothing to begin with. */
  predicate CompiledEnough(job: Job) {
    || job.minCompiles <= 0 || job.newCompiles.None? || job.newCompiles.value >= job.minCompiles
    || Normal(job.BuildMatched()) == ""
  }

  /**
   Everything a save takes: a usable state, an audit that came out clean if one was started, the failed-job
   gate, the layer switched on, enough compiled, the save policy, a directory, a key other than the one
   restored, and a packing and an upload that succeed.
   */
  predicate IsSaveDue(job: Job) {
    && job.hasState && !job.lazy && job.buildCacheEnabled
    && (job.mainFinished && job.restores.HasAuditedKey() ==> ResolveYankAudit(job.audit).Clean?)
    && MaySaveAfter(job.jobStatus, job.saveOnFailure) && CompiledEnough(job)
    && job.policyAllows && job.dirExists && job.key != job.BuildMatched()
    && job.packing.Packed? && job.upload.Stored?
  }

  /** A job adds its entry under the next id exactly when its save is due, and else leaves all entries alone. */
  lemma StoresIff(w: World, job: Job)
    requires w.nextId > 0
    ensures Next(w, Run(job)).entries == if IsSaveDue(job) then w.entries[w.nextId := Entry(job.key, job)] else w.entries
  {
    FalsyIsNotTruthy(Normal(job.saveOnFailure));
    hide ResolveYankAudit, Normal, ParseAncestorKey, TRUTHY, FALSY;
  }

  /** Over every sequence of jobs and evictions, each stored entry is of a job whose save was due. */
  lemma {:induction false} EntriesWereDue(events: seq<Event>, id: int)
    requires id in After(events).entries
    ensures var e := After(events).entries[id];
            e.key == e.savedBy.key && IsSaveDue(e.savedBy) && Run(e.savedBy) in events
  {
    if events != [] {
      hide Next, IsSaveDue;
      var front, last := events[..|events| - 1], events[|events| - 1];
      assert events == front + [last];
      hide After;
      var before := After(front);
      assert After(events) == Next(before, last) by { AfterStep(events); }
      match last
      case Run(job) =>
        StartsAboveZero(front);
        StoresIff(before, job);
        if IsSaveDue(job) && id == before.nextId {
          assert last in events;
        } else {
          EntriesWereDue(front, id);
        }
      case Evict(ids) =>
        EvictKeepsEntries(before, ids);
        EntriesWereDue(front, id);
    }
  }

  lemma AfterStep(events: seq<Event>)
    requires events != []
    ensures After(events) == Next(After(events[..|events| - 1]), events[|events| - 1])
  {
    hide Next;
  }

  lemma StartsAboveZero(events: seq<Event>)
    ensures After(events).nextId > 0
  {
    JobsKeepInv(events);
  }

  lemma EvictKeepsEntries(w: World, ids: set<int>)
    ensures Next(w, Evict(ids)).entries == w.entries - ids && Next(w, Evict(ids)).markers == w.markers
  {
  }

  // ---- A saved entry is proved ----

  lemma {:induction false} MarkersStay(events: seq<Event>, more: seq<Event>)
    ensures After(events).markers <= After(events + more).markers
  {
    if more == [] {
      assert events + more == events;
    } else {
      MarkersStay(events, more[..|more| - 1]);
      assert (events + more)[..|events + more| - 1] == events + more[..|more| - 1];
      hide ParseAncestorKey, PostStatus;
    }
  }

  /**
   A due save under a key made for the job's own writer prints the marker that proves it, and whatever
   happens later, the reader finds it.
   */
  lemma SavedEntryIsProved(events: seq<Event>, job: Job, key: Key, ref: string, more: seq<Event>)
    requires IsSaveDue(job) && MakeAncestorKey(key) == Success(job.key)
    requires job.writer == Some(Writer(key.sha, key.runId, key.attempt, ref))
    ensures var id := After(events).nextId;
            Proof(id, job.key, ref, key.sha, key.runId, key.attempt) in After(events + [Run(job)] + more).markers
  {
    var w := After(events);
    JobsKeepInv(events);
    ParseInvertsMake(job.key, key);
    DueIsSaved(job, w.nextId);
    assert (events + [Run(job)])[..|events|] == events;
    hide ParseAncestorKey, MakeAncestorKey, PostStatus, IsSaveDue;
    assert Proof(w.nextId, job.key, ref, key.sha, key.runId, key.attempt) in After(events + [Run(job)]).markers;
    MarkersStay(events + [Run(job)], more);
  }

  lemma DueIsSaved(job: Job, nextId: int)
    ensures IsSaveDue(job) ==> PostStatus(job, nextId) == Saved(nextId)
  {
    FalsyIsNotTruthy(Normal(job.saveOnFailure));
    hide ResolveYankAudit, Normal, TRUTHY, FALSY;
  }

  // ---- The gaps, and what closes them ----

  const NO_AUDIT: AuditSources := AuditSources(None, false, Audit(NotChecked, false), Audit(NotChecked, false))

  /** How main and its restores ended, and the two inputs that gate a failed job. */
  datatype Facts = Facts(mainFinished: bool, restores: Restores, jobStatus: string, saveOnFailure: string)

  function FactsOf(job: Job): Facts { Facts(job.mainFinished, job.restores, job.jobStatus, job.saveOnFailure) }

  /** A job with these facts and every remaining gate open. */
  function OpenJob(f: Facts): (job: Job)
    ensures FactsOf(job) == f
  {
    Job(true, false, f.mainFinished, f.restores, true, NO_AUDIT, f.jobStatus, f.saveOnFailure, None, 0,
        true, true, Packed, Stored, f.restores.build.UsableKey() + "x", None)
  }

  /** Whatever else happens to such a job, it saves nothing unaudited. */
  ghost predicate NeverSavesUnaudited(f: Facts) {
    forall job: Job, nextId: int :: FactsOf(job) == f && AreAuditSources(job.audit) && PostStatus(job, nextId).Saved? ==>
      IsAuditedOrCold(job)
  }

  /**
   A job never saves unaudited exactly when no restore left files, or main finished with some layer's
   key handed to the audit, or the failed-job gate is shut.
   */
  lemma NeverSavesUnauditedIff(f: Facts)
    ensures NeverSavesUnaudited(f) <==>
            AuditGuards(f.mainFinished, f.restores) || DecideBuildOutputSave(f.jobStatus, f.saveOnFailure) != Success(true)
  {
    hide DecideBuildOutputSave, ResolveYankAudit, Normal;
    var open := OpenJob(f);
    forall job: Job, nextId: int | FactsOf(job) == f && PostStatus(job, nextId).Saved?
      ensures DecideBuildOutputSave(f.jobStatus, f.saveOnFailure) == Success(true)
      ensures AuditGuards(f.mainFinished, f.restores) ==> IsAuditedOrCold(job)
    {
      SavedPassedGates(job, nextId);
    }
    if !AuditGuards(f.mainFinished, f.restores) && DecideBuildOutputSave(f.jobStatus, f.saveOnFailure) == Success(true) {
      OpenJobSaves(f);
      assert FactsOf(open) == f && AreAuditSources(open.audit) && PostStatus(open, 1).Saved? && !IsAuditedOrCold(open);
    }
  }

  lemma SavedPassedGates(job: Job, nextId: int)
    requires PostStatus(job, nextId).Saved?
    ensures DecideBuildOutputSave(job.jobStatus, job.saveOnFailure) == Success(true)
    ensures AuditStarted(job) ==> IsAudited(job)
  {
    hide DecideBuildOutputSave, ResolveYankAudit, Normal;
  }

  lemma OpenJobSaves(f: Facts)
    requires DecideBuildOutputSave(f.jobStatus, f.saveOnFailure) == Success(true)
    requires !AuditStarted(OpenJob(f))
    ensures PostStatus(OpenJob(f), 1) == Saved(1)
  {
    hide DecideBuildOutputSave, ResolveYankAudit, Normal;
    var job := OpenJob(f);
    assert |job.key| == |job.BuildMatched()| + 1;
  }

  // ---- Which restores start the audit ----

  /** A matched key is not empty, and an exact hit has one. */
  predicate HasNamedKeys(r: Restores) {
    IsNamed(r.target) && IsNamed(r.build) && IsNamed(r.registry) &&
    (r.cook.Plain? ==> IsNamed(r.cook.archive)) &&
    (r.cook.Layered? ==> (r.cook.restore.0.hit ==> r.cook.restore.0.matchedKey.Some?))
  }

  predicate IsNamed(r: Restore) { r.Whole? ==> r.matched != "" }

  /** Some archive was unpacked whole; of the layered cook archives, the exact base was loaded. */
  predicate RestoredWhole(r: Restores) {
    r.target.Whole? || r.build.Whole? || r.registry.Whole? ||
    match r.cook
    case NoCook => false
    case Plain(archive) => archive.Whole?
    case Layered(restore, loaded, _) => CookLayers.BaseReady(restore, loaded)
  }

  /** The audit is handed a key exactly when some layer was restored whole; a delta alone hands over none. */
  lemma AuditedKeyIff(r: Restores)
    requires HasNamedKeys(r)
    ensures r.HasAuditedKey() <==> RestoredWhole(r)
  {
    var keys := r.AuditedKeys();
    assert keys[0] in keys && keys[1] in keys && keys[2] in keys;
    match r.cook
    case NoCook =>
    case Plain(archive) => assert keys[3] in keys;
    case Layered(restore, loaded, _) =>
      if CookLayers.BaseReady(restore, loaded) {
        assert keys[3] == LayerKey(restore.0) && keys[3] in keys;
        KeyTextIsNotEmpty(restore.0.matchedKey.value);
      }
  }

  lemma KeyTextIsNotEmpty(key: CookLayers.CacheKey)
    ensures CookLayers.KeyText(key) != ""
  {
  }

  /**
   With a stopped main reported as a failure and `save-on-failure` off, what is left is exactly this: files
   on disk, and no layer restored whole.
   */
  lemma WiredStatusLeavesPartialRestores(f: Facts)
    requires !f.mainFinished ==> ReportsFailure(f.jobStatus)
    requires Normal(f.saveOnFailure) in FALSY && HasNamedKeys(f.restores)
    ensures NeverSavesUnaudited(f) <==>
            !f.restores.LeftFiles() || RestoredWhole(f.restores) || ReportsFailure(f.jobStatus)
  {
    NeverSavesUnauditedIff(f);
    AuditedKeyIff(f.restores);
    FalsyIsNotTruthy(Normal(f.saveOnFailure));
    hide ReportsFailure, NeverSavesUnaudited, Normal, HasNamedKeys, RestoredWhole;
  }

  lemma FalsyIsNotTruthy(s: string)
    ensures s in FALSY ==> s !in TRUTHY
  {
    assert forall a, b :: a in FALSY && b in TRUTHY ==> a != b;
  }

  // ---- Runs that save unaudited ----

  const NO_RESTORES: Restores := Restores(Missed, Missed, Missed, NoCook)

  /** Main stopped after restoring the build cache, and no `job-status` was passed. */
  lemma UnfinishedMainSavesUnaudited()
    ensures !NeverSavesUnaudited(Facts(false, NO_RESTORES.(build := Whole("old")), "", ""))
  {
    EmptyIsNormal();
    NeverSavesUnauditedIff(Facts(false, NO_RESTORES.(build := Whole("old")), "", ""));
  }

  /** Unpacking the build cache failed part way and counted as a miss, with the job status wired and all. */
  lemma PartialUnpackSavesUnaudited()
    ensures !NeverSavesUnaudited(Facts(true, NO_RESTORES.(build := Partial("old")), "success", ""))
  {
    SuccessSaves(NO_RESTORES.(build := Partial("old")));
  }

  /** The cook layer after a base other than the exact one was found and loaded. */
  function PrefixBaseLoaded(exact: CookLayers.CacheKey, found: CookLayers.CacheKey): Cook {
    var restore := (CookLayers.RestoreOneLayer(exact, Some(found), 1), CookLayers.MISS);
    Layered(restore, CookLayers.LoadLayered(restore, true, true), false)
  }

  /** Its key is reported, and handed to no audit. */
  lemma PrefixBaseSavesUnaudited(exact: CookLayers.CacheKey, found: CookLayers.CacheKey)
    requires found != exact
    ensures var cook := PrefixBaseLoaded(exact, found);
            CookLayers.KeyText(found) in cook.ReportedKeys() && CookLayers.KeyText(found) != "" && cook.AuditedKeys() == [] &&
            !NeverSavesUnaudited(Facts(true, NO_RESTORES.(cook := cook), "success", ""))
  {
    var cook := PrefixBaseLoaded(exact, found);
    KeyTextIsNotEmpty(found);
    hide CookLayers.KeyText;
    assert cook.ReportedKeys()[0] == CookLayers.KeyText(found);
    SuccessSaves(NO_RESTORES.(cook := cook));
  }

  /** A plain cook archive failed part way: it too reports its key and hands over none. */
  lemma BrokenCookSavesUnaudited()
    ensures Plain(Partial("cook")).ReportedKeys() == ["cook"] && Plain(Partial("cook")).AuditedKeys() == [""]
    ensures !NeverSavesUnaudited(Facts(true, NO_RESTORES.(cook := Plain(Partial("cook"))), "success", ""))
  {
    SuccessSaves(NO_RESTORES.(cook := Plain(Partial("cook"))));
  }

  lemma SuccessSaves(r: Restores)
    requires r.LeftFiles() && HasNamedKeys(r) && !RestoredWhole(r)
    ensures !NeverSavesUnaudited(Facts(true, r, "success", ""))
  {
    SuccessIsNormal();
    AuditedKeyIff(r);
    NeverSavesUnauditedIff(Facts(true, r, "success", ""));
  }

  lemma EmptyIsNormal()
    ensures DecideBuildOutputSave("", "") == Success(true)
  {
    assert Normal("") == "";
  }

  lemma SuccessIsNormal()
    ensures DecideBuildOutputSave("success", "") == Success(true)
  {
    assert Normal("") == "" && Normal("success") == "success";
  }

  // ---- The reader of the markers ----

  datatype TrustedWriter = TrustedWriter(sha: string, runId: int, attempt: int, jobId: int)

  predicate IsWriterOf(writer: Option<TrustedWriter>, key: Key, jobId: int) {
    writer == Some(TrustedWriter(key.sha, key.runId, key.attempt, jobId))
  }

  /** `log` holds, line by line, the marker that line carries, if it parses. */
  method HasCleanSaveProof(log: seq<Option<Proof>>, id: int, entryKey: string, ref: string, key: Key,
                           writer: Option<TrustedWriter>, jobId: int)
    returns (proved: bool)
    ensures proved <==> IsWriterOf(writer, key, jobId) &&
                        Some(Proof(id, entryKey, ref, key.sha, key.runId, key.attempt)) in log
  {
    if writer.None? { return false; }
    var w := writer.value;
    if w.runId != key.runId || w.attempt != key.attempt || w.sha != key.sha || w.jobId != jobId { return false; }
    for n := 0 to |log|
      invariant Some(Proof(id, entryKey, ref, key.sha, key.runId, key.attempt)) !in log[..n]
    {
      if log[n].None? { continue; }
      var proof := log[n].value;
      if proof.cacheId == id && proof.key == entryKey && proof.ref == ref &&
         proof.sha == key.sha && proof.runId == key.runId && proof.attempt == key.attempt {
        return true;
      }
    }
    return false;
  }

  /**
   A proof read from a log that holds only markers the post step printed: an entry still there under
   the proved id has that key, was written by that very run, and passed the gates.
   */
  lemma ProvedDonorIsGated(events: seq<Event>, log: seq<Option<Proof>>, id: int, entryKey: string, ref: string, key: Key)
    requires forall p: Proof :: Some(p) in log ==> p in After(events).markers
    requires Some(Proof(id, entryKey, ref, key.sha, key.runId, key.attempt)) in log
    requires id in After(events).entries
    ensures var e := After(events).entries[id];
            e.key == entryKey && EntryIsGated(e) &&
            e.savedBy.writer == Some(Writer(key.sha, key.runId, key.attempt, ref))
  {
    hide EntryIsGated;
    JobsKeepInv(events);
    assert Proof(id, entryKey, ref, key.sha, key.runId, key.attempt) in After(events).markers;
  }
}
