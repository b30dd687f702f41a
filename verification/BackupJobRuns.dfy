/** Whole runs of the backup job registry: one step per file operation, with a crash possible between any two. */
module BackupJobRuns {
  import opened Bytes
  import opened BackupJobs
  import StartUp = BackupJobStartUp

  /** What an update closure does to a record. */
  datatype Change =
    | StartRunning
    | Complete(archiveId: Id, logicalVaultId: Id, epoch: u64, length: u64, sha256: bytes, recordCount: u64)
    | Fail(code: ErrorCode)
    | StartDownload

  function Extended(r: JobRecord, now: i64): i64 {
    SaturatingAdd(Max(now, r.createdAt), JOB_TTL_MS)
  }

  /** The candidate record of `update`. */
  function Changed(r: JobRecord, change: Change, now: i64): JobRecord {
    var c := match change
      case StartRunning => r.(state := Running)
      case Complete(archiveId, vault, epoch, length, sha, count) =>
        r.(state := Completed, expiresAt := Extended(r, now), archiveId := Some(archiveId),
           formatVersion := Some(FORMAT_VERSION), logicalVaultId := Some(vault), sourceRecoveryEpoch := Some(epoch),
           archiveBytes := Some(length), artifactSha256 := Some(sha), recordCount := Some(count))
      case Fail(code) => r.(state := Failed, expiresAt := Extended(r, now), errorCode := Some(code))
      case StartDownload => r.(downloadStarted := true);
    c.(updatedAt := Max(r.updatedAt, now))
  }

  /** The record `create` persists. */
  function Fresh(id: JobId, now: i64): JobRecord {
    JobRecord(id, Pending, now, now, SaturatingAdd(now, JOB_TTL_MS), None, None, None, None, None, None, None, false,
              None)
  }

  /** The operation that holds the registry's lock. */
  datatype Op =
    | Idle
    | Persisting(record: JobRecord, token: Id, isNew: bool, phase: Phase)
    | Removing(ids: set<JobId>)
    | Opening(now: i64, loaded: Jobs, failed: bool)

  /** How far `persist` has come. */
  datatype Phase = Begun | Written | Renamed

  datatype World = World(disk: Disk, jobs: Jobs, up: bool, op: Op)

  datatype Step =
    | BeginCreate(id: JobId, token: Id, now: i64)
    | BeginUpdate(id: JobId, token: Id, change: Change, now: i64)
    | WriteTemporary
    | Rename
    | Acknowledge
    | PersistFails
    | SyncFails
    | BeginRemove(ids: set<JobId>)
    | RemoveArtifact(id: JobId)
    | RemoveStatus(id: JobId)
    | RemoveFails
    | FinishRemove
    | PublishArtifact(id: JobId, artifact: Artifact)
    | DropArtifact(id: JobId)
    | Crash
    | BeginOpen(now: i64)
    | Load(step: StartUp.LoadStep)
    | OpenFails
    | FinishOpen

  /** Steps of `persist`. */
  function ApplyPersist(w: World, step: Step): World
    requires w.op.Persisting?
  {
    var id := w.op.record.jobId;
    match step
    case WriteTemporary =>
      if w.op.phase == Begun
         then w.(op := w.op.(phase := Written), disk := w.disk.(temporaries := w.disk.temporaries + {w.op.token}))
      else w
    case Rename =>
      if w.op.phase == Written then
        w.(op := w.op.(phase := Renamed),
           disk := w.disk.(temporaries := w.disk.temporaries - {w.op.token},
                           status := w.disk.status[id := Some(w.op.record)]))
      else w
    case Acknowledge => if w.op.phase == Renamed then w.(op := Idle, jobs := w.jobs[id := w.op.record]) else w
    case PersistFails =>
      if w.op.phase != Renamed then w.(op := Idle, disk := w.disk.(temporaries := w.disk.temporaries - {w.op.token}))
         else w
    case SyncFails => if w.op.phase == Renamed then w.(op := Idle) else w
    case _ => w
  }

  /** Steps of `remove` and `cleanup_expired`: artifact first, then status, then memory. */
  function ApplyRemove(w: World, step: Step): World
    requires w.op.Removing?
  {
    match step
    case RemoveArtifact(id) => if id in w.op.ids then w.(disk := w.disk.(artifacts := w.disk.artifacts - {id})) else w
    case RemoveStatus(id) =>
      if id in w.op.ids && id !in w.disk.artifacts then w.(disk := w.disk.(status := w.disk.status - {id})) else w
    case RemoveFails => w.(op := Idle)
    case FinishRemove =>
      if forall id :: id in w.op.ids ==> id !in w.disk.status then w.(op := Idle, jobs := w.jobs - w.op.ids) else w
    case _ => w
  }

  /** Start-up in progress: the directory and the records loaded so far. */
  function LoadOf(w: World): StartUp.Loading
    requires w.op.Opening?
  {
    StartUp.Loading(w.disk, w.op.loaded, w.op.failed)
  }

  /** Steps of `load_statuses`. Until it finishes nothing but the directory is changed. */
  ghost function ApplyOpening(w: World, step: Step): World
    requires w.op.Opening?
  {
    match step
    case Load(s) =>
      var l := StartUp.ApplyLoad(LoadOf(w), w.op.now, s);
      w.(disk := l.disk, op := w.op.(loaded := l.loaded, failed := l.failed))
    case OpenFails => w.(op := Idle)
    case FinishOpen => if StartUp.Done(LoadOf(w)) then World(w.disk, w.op.loaded, true, Idle) else w
    case _ => w
  }

  function ApplyIdle(w: World, step: Step): World {
    match step
    case BeginCreate(id, token, now) =>
      if |w.jobs| < MAX_JOBS && id !in w.jobs && id !in w.disk.status && 0 <= now < I64_MAX then
        w.(op := Persisting(Fresh(id, now), token, true, Begun))
      else w
    case BeginUpdate(id, token, change, now) =>
      if id in w.jobs then w.(op := Persisting(Changed(w.jobs[id], change, now), token, false, Begun)) else w
    case BeginRemove(ids) =>
      if ids <= w.jobs.Keys && forall id :: id in ids ==> Terminal(w.jobs[id]) then w.(op := Removing(ids)) else w
    case _ => w
  }

  /** One step; a step that is not enabled changes nothing. */
  ghost function Apply(w: World, step: Step): World {
    match step
    case Crash => World(w.disk, map[], false, Idle)
    case PublishArtifact(id, artifact) =>
      if w.up && id in w.jobs && w.jobs[id].state == Running && id !in w.disk.artifacts then
        w.(disk := w.disk.(artifacts := w.disk.artifacts[id := artifact]))
      else w
    case DropArtifact(id) =>
      if w.up && !(id in w.jobs && w.jobs[id].state == Completed) then
        w.(disk := w.disk.(artifacts := w.disk.artifacts - {id}))
      else w
    case _ =>
      if !w.up then
        if w.op.Opening? then ApplyOpening(w, step)
        else if step.BeginOpen? then w.(op := Opening(step.now, map[], false))
        else w
      else match w.op
        case Idle => ApplyIdle(w, step)
        case Persisting(_, _, _, _) => ApplyPersist(w, step)
        case Removing(_) => ApplyRemove(w, step)
        case Opening(_, _, _) => w
  }

  ghost function Run(w: World, steps: seq<Step>): World
    decreases |steps|
  {
    if steps == [] then w else Run(Apply(w, steps[0]), steps[1..])
  }

  const EMPTY: World := World(Disk(map[], map[], {}, {}), map[], false, Idle)

  // ----- Every status file is always well formed -----

  ghost predicate AllWellFormed(w: World) {
    && (forall id :: id in w.disk.status ==> WellFormed(id, w.disk.status[id]))
    && (forall id :: id in w.jobs ==> WellFormed(id, Some(w.jobs[id])))
    && (w.op.Persisting? ==> WellFormed(w.op.record.jobId, Some(w.op.record)))
    && (w.op.Opening? ==> !w.up && StartUp.Agrees(LoadOf(w)))
  }

  lemma ChangedWellFormed(id: JobId, r: JobRecord, change: Change, now: i64)
    requires WellFormed(id, Some(r))
    ensures WellFormed(id, Some(Changed(r, change, now)))
  {
  }

  lemma FreshWellFormed(id: JobId, now: i64)
    requires 0 <= now < I64_MAX
    ensures WellFormed(id, Some(Fresh(id, now)))
  {
  }

  lemma StepKeepsWellFormed(w: World, step: Step)
    requires AllWellFormed(w)
    ensures AllWellFormed(Apply(w, step))
  {
    hide WellFormed, Changed, Fresh, Settled;
    if step.BeginUpdate? && step.id in w.jobs {
      Identity(step.id, w.jobs[step.id]);
      ChangedWellFormed(step.id, w.jobs[step.id], step.change, step.now);
      Identity(step.id, Changed(w.jobs[step.id], step.change, step.now));
    }
    if step.BeginCreate? && 0 <= step.now < I64_MAX {
      FreshWellFormed(step.id, step.now);
      Identity(step.id, Fresh(step.id, step.now));
    }
    if w.op.Opening? {
      OpeningKeepsWellFormed(w, step);
    } else if step.BeginOpen? {
      BeginsWellFormed(w);
    }
  }

  lemma BeginsWellFormed(w: World)
    requires AllWellFormed(w)
    ensures StartUp.Agrees(StartUp.Loading(w.disk, map[], false))
  {
    hide WellFormed;
    forall id: JobId
      ensures StartUp.AgreesAt(StartUp.Loading(w.disk, map[], false), id)
    {
    }
  }

  lemma OpeningKeepsWellFormed(w: World, step: Step)
    requires AllWellFormed(w) && w.op.Opening?
    ensures AllWellFormed(Apply(w, step))
  {
    hide WellFormed, StartUp.ApplyLoad, StartUp.AgreesAt;
    if step.Load? {
      StartUp.StepKeepsAgreement(LoadOf(w), w.op.now, step.step);
      AgreedWellFormed(StartUp.ApplyLoad(LoadOf(w), w.op.now, step.step));
    } else {
      AgreedWellFormed(LoadOf(w));
    }
  }

  lemma AgreedWellFormed(l: StartUp.Loading)
    requires StartUp.Agrees(l)
    ensures forall id :: id in l.disk.status ==> WellFormed(id, l.disk.status[id])
    ensures forall id :: id in l.loaded ==> WellFormed(id, Some(l.loaded[id]))
    ensures forall id :: id in l.loaded ==> id in l.disk.status && l.disk.status[id] == Some(l.loaded[id])
  {
    forall id: JobId {:trigger id in l.disk.status} {:trigger id in l.loaded}
      ensures id in l.disk.status ==> WellFormed(id, l.disk.status[id])
      ensures id in l.loaded ==> id in l.disk.status && l.disk.status[id] == Some(l.loaded[id])
    {
      assert StartUp.AgreesAt(l, id);
    }
  }

  lemma Identity(id: JobId, r: JobRecord)
    ensures WellFormed(id, Some(r)) ==> r.jobId == id
  {
  }

  /**
   * In every run, with any input or output failure, a directory is refused only for holding more than 32 surviving
   * jobs.
   */
  lemma {:induction false} RefusedOnlyOverQuota(w: World, steps: seq<Step>, now: i64)
    requires AllWellFormed(w)
    ensures AllWellFormed(Run(w, steps))
    ensures Loadable(Run(w, steps).disk, now) <==> |Surviving(Run(w, steps).disk, now)| <= MAX_JOBS
    decreases |steps|
  {
    if steps != [] {
      StepKeepsWellFormed(w, steps[0]);
      RefusedOnlyOverQuota(Apply(w, steps[0]), steps[1..], now);
    }
  }

  // ----- Runs in which no synchronisation or removal fails -----

  predicate Faultless(step: Step) {
    !step.SyncFails? && !step.RemoveFails?
  }

  /** What a lock holder has already written for a job but memory does not show yet. */
  predicate InFlight(w: World, id: JobId) {
    w.op.Persisting? && w.op.phase == Renamed && w.op.record.jobId == id
  }

  /** One job: memory and disk agree, except for the operation that holds the lock. */
  ghost predicate DurableAt(w: World, id: JobId) {
    && (id in w.jobs && !InFlight(w, id) ==>
          if id in w.disk.status then w.disk.status[id] == Some(w.jobs[id]) else w.op.Removing? && id in w.op.ids)
    && (InFlight(w, id) ==> id in w.disk.status && w.disk.status[id] == Some(w.op.record))
    && (id in w.disk.status ==> id in w.jobs || (InFlight(w, id) && w.op.isNew))
  }

  ghost predicate Durable(w: World) {
    if w.up then
      && |w.jobs| <= MAX_JOBS
      && (w.op.Persisting? ==>
            if w.op.isNew then |w.jobs| < MAX_JOBS && w.op.record.jobId !in w.jobs else w.op.record.jobId in w.jobs)
      && (w.op.Removing? ==> w.op.ids <= w.jobs.Keys)
      && forall id {:trigger DurableAt(w, id)} :: DurableAt(w, id)
    else w.jobs == map[] && (w.op.Idle? || w.op.Opening?) && |w.disk.status| <= MAX_JOBS
  }

  lemma CrashKeepsQuota(w: World)
    requires Durable(w) && w.up
    ensures |w.disk.status| <= MAX_JOBS
  {
    var extra := if w.op.Persisting? && w.op.isNew then {w.op.record.jobId} else {};
    forall id | id in w.disk.status
      ensures id in w.jobs.Keys + extra
    {
      assert DurableAt(w, id);
    }
    Fewer(w.disk.status.Keys, w.jobs.Keys + extra);
    assert |w.jobs.Keys + extra| <= |w.jobs.Keys| + |extra|;
    assert |w.disk.status| == |w.disk.status.Keys| && |w.jobs| == |w.jobs.Keys|;
  }

  lemma OpeningKeepsDurable(w: World, step: Step)
    requires Durable(w) && AllWellFormed(w) && !w.up && w.op.Opening? && !step.Crash?
    ensures Durable(Apply(w, step))
  {
    hide WellFormed, StartUp.ApplyLoad, StartUp.AgreesAt;
    match step
    case Load(s) =>
      StartUp.StepKeepsAgreement(LoadOf(w), w.op.now, s);
      var d := Apply(w, step).disk;
      Fewer(d.status.Keys, w.disk.status.Keys);
      assert |d.status| == |d.status.Keys| && |w.disk.status| == |w.disk.status.Keys|;
    case FinishOpen => FinishIsDurable(w);
    case _ =>
  }

  lemma FinishIsDurable(w: World)
    requires Durable(w) && AllWellFormed(w) && !w.up && w.op.Opening?
    ensures Durable(Apply(w, FinishOpen))
  {
    hide WellFormed, StartUp.AgreesAt;
    var v := Apply(w, FinishOpen);
    AgreedWellFormed(LoadOf(w));
    if StartUp.Done(LoadOf(w)) {
      assert w.op.loaded.Keys == w.disk.status.Keys;
      forall id: JobId
        ensures DurableAt(v, id)
      {
        assert id in w.op.loaded <==> id in w.disk.status;
      }
    }
  }

  lemma StepKeepsDurable(w: World, step: Step)
    requires Durable(w) && AllWellFormed(w) && Faultless(step)
    ensures Durable(Apply(w, step))
  {
    hide WellFormed, Changed, Fresh, StartUp.ApplyLoad, StartUp.Done, StartUp.Agrees;
    if step.Crash? {
      if w.up {
        CrashKeepsQuota(w);
      }
    } else if w.up {
      match w.op
      case Idle => IdleKeepsDurable(w, step);
      case Persisting(_, _, _, _) => PersistKeepsDurable(w, step);
      case Removing(_) => RemoveKeepsDurable(w, step);
    } else if w.op.Opening? {
      OpeningKeepsDurable(w, step);
    }
  }

  lemma IdleKeepsDurable(w: World, step: Step)
    requires Durable(w) && AllWellFormed(w) && w.up && w.op.Idle? && !step.Crash?
    ensures Durable(Apply(w, step))
  {
    hide WellFormed, Changed, Fresh;
    var v := Apply(w, step);
    if step.BeginUpdate? && step.id in w.jobs {
      Identity(step.id, w.jobs[step.id]);
      ChangedKeepsId(w.jobs[step.id], step.change, step.now);
    }
    FreshHasId(step);
    BeginsDurably(w, v);
  }

  /** Taking the lock changes neither status files nor memory. */
  lemma BeginsDurably(w: World, v: World)
    requires Durable(w) && w.up && w.op.Idle?
    requires v.up && v.disk.status == w.disk.status && v.jobs == w.jobs
    requires v.op.Idle? || (v.op.Removing? && v.op.ids <= v.jobs.Keys) || (v.op.Persisting? && v.op.phase == Begun)
    requires v.op.Persisting? ==>
             if v.op.isNew then |v.jobs| < MAX_JOBS && v.op.record.jobId !in v.jobs else v.op.record.jobId in v.jobs
    ensures Durable(v)
  {
    forall id: JobId
      ensures DurableAt(v, id)
    {
      assert DurableAt(w, id);
    }
  }

  lemma ChangedKeepsId(r: JobRecord, change: Change, now: i64)
    ensures Changed(r, change, now).jobId == r.jobId
  {
  }

  lemma FreshHasId(step: Step)
    ensures step.BeginCreate? ==> Fresh(step.id, step.now).jobId == step.id
  {
  }

  lemma OneMore(jobs: Jobs, id: JobId, r: JobRecord)
    ensures |jobs[id := r]| == |jobs| + if id in jobs then 0 else 1
  {
    if id in jobs {
      assert jobs[id := r].Keys == jobs.Keys;
    } else {
      assert jobs[id := r].Keys == jobs.Keys + {id};
    }
    assert |jobs[id := r]| == |jobs[id := r].Keys| && |jobs| == |jobs.Keys|;
  }

  lemma PersistKeepsDurableAt(w: World, step: Step, id: JobId)
    requires Durable(w) && w.up && w.op.Persisting? && Faultless(step) && !step.Crash?
    ensures DurableAt(Apply(w, step), id)
  {
    assert DurableAt(w, id);
  }

  lemma PersistKeepsDurable(w: World, step: Step)
    requires Durable(w) && w.up && w.op.Persisting? && Faultless(step) && !step.Crash?
    ensures Durable(Apply(w, step))
  {
    hide DurableAt;
    forall id: JobId
      ensures DurableAt(Apply(w, step), id)
    {
      PersistKeepsDurableAt(w, step, id);
    }
    OneMore(w.jobs, w.op.record.jobId, w.op.record);
  }

  lemma RemoveKeepsDurable(w: World, step: Step)
    requires Durable(w) && w.up && w.op.Removing? && Faultless(step) && !step.Crash?
    ensures Durable(Apply(w, step))
  {
    var v := Apply(w, step);
    forall id: JobId
      ensures DurableAt(v, id)
    {
      assert DurableAt(w, id);
    }
    Fewer(v.jobs.Keys, w.jobs.Keys);
    assert |v.jobs| == |v.jobs.Keys| && |w.jobs| == |w.jobs.Keys|;
  }

  ghost predicate AllFaultless(steps: seq<Step>) {
    forall i :: 0 <= i < |steps| ==> Faultless(steps[i])
  }

  lemma {:induction false} RunsStayDurable(w: World, steps: seq<Step>)
    requires Durable(w) && AllWellFormed(w) && AllFaultless(steps)
    ensures Durable(Run(w, steps))
    decreases |steps|
  {
    hide Durable, AllWellFormed;
    if steps != [] {
      StepKeepsDurable(w, steps[0]);
      StepKeepsWellFormed(w, steps[0]);
      RunsStayDurable(Apply(w, steps[0]), steps[1..]);
    }
  }

  /** Whatever prefix of the file operations a crash leaves, the registry opens again. */
  lemma CrashedRegistryOpens(steps: seq<Step>, now: i64)
    requires AllFaultless(steps)
    ensures Loadable(Apply(Run(EMPTY, steps), Crash).disk, now)
  {
    hide Surviving;
    RunsStayDurable(EMPTY, steps);
    RefusedOnlyOverQuota(EMPTY, steps, now);
    var w := Run(EMPTY, steps);
    if w.up {
      CrashKeepsQuota(w);
    }
    SurvivingAreOnDisk(w.disk, now);
  }

  lemma SurvivingAreOnDisk(d: Disk, now: i64)
    ensures |Surviving(d, now)| <= |d.status|
  {
    Fewer(Surviving(d, now), d.status.Keys);
    assert |d.status| == |d.status.Keys|;
  }

  /** What start-up will find of a job: the record in flight once it has been renamed, otherwise the one in memory. */
  function Newest(w: World, id: JobId): JobRecord
    requires InFlight(w, id) || id in w.jobs
  {
    if InFlight(w, id) then w.op.record else w.jobs[id]
  }

  /** Whatever happens between a crash and the next time the registry is up, while the record has not expired. */
  predicate Recovers(step: Step, r: JobRecord) {
    match step
    case Crash => true
    case BeginOpen(now) => !Expired(r, now)
    case Load(_) => true
    case OpenFails => true
    case FinishOpen => true
    case _ => false
  }

  /** The completed job is on disk with its artifact; memory shows it if the registry is up. */
  ghost predicate Survives(w: World, id: JobId, r: JobRecord, a: Artifact) {
    && StartUp.Intact(w.disk, id, r, a)
    && if w.up then w.op.Idle? && id in w.jobs && w.jobs[id] == r
       else w.op.Idle? || (w.op.Opening? && !Expired(r, w.op.now) && (id in w.op.loaded ==> w.op.loaded[id] == r))
  }

  lemma StepKeepsSurviving(w: World, step: Step, id: JobId, r: JobRecord, a: Artifact)
    requires Survives(w, id, r, a) && Recovers(step, r)
    ensures Survives(Apply(w, step), id, r, a)
  {
    hide Expired, ArtifactValid, StartUp.ApplyLoad;
    if !w.up && w.op.Opening? {
      match step
      case Load(s) => StartUp.StepKeepsIntact(LoadOf(w), w.op.now, s, id, r, a);
      case FinishOpen => assert StartUp.AllLoaded(LoadOf(w)) ==> (id in w.op.loaded <==> id in w.disk.status);
      case _ =>
    }
  }

  lemma {:induction false} RecoveryKeepsSurviving(w: World, steps: seq<Step>, id: JobId, r: JobRecord, a: Artifact)
    requires Survives(w, id, r, a) && forall i :: 0 <= i < |steps| ==> Recovers(steps[i], r)
    ensures Survives(Run(w, steps), id, r, a)
    decreases |steps|
  {
    hide Survives, Recovers, Apply;
    if steps != [] {
      StepKeepsSurviving(w, steps[0], id, r, a);
      RecoveryKeepsSurviving(Apply(w, steps[0]), steps[1..], id, r, a);
    }
  }

  /**
   * A crash at any point, also in the middle of a file operation, leaves a completed job with an intact artifact on
   * disk unless that very job is being removed. Through any number of further crashes and failed start-ups before it
   * expires it stays there, and whenever the registry is up again it holds the job. A completion whose rename has
   * happened counts, acknowledged or not.
   */
  lemma CompletedJobsSurvive(steps: seq<Step>, id: JobId, later: seq<Step>)
    requires AllFaultless(steps)
    requires var w := Run(EMPTY, steps);
             && w.up && (InFlight(w, id) || id in w.jobs) && !(w.op.Removing? && id in w.op.ids)
             && Newest(w, id).state == Completed && ArtifactValid(Newest(w, id), ArtifactOf(w.disk, id))
             && forall i :: 0 <= i < |later| ==> Recovers(later[i], Newest(w, id))
    ensures var w := Run(EMPTY, steps);
            var v := Run(Apply(w, Crash), later);
            && id in v.disk.status && v.disk.status[id] == Some(Newest(w, id))
            && ArtifactOf(v.disk, id) == ArtifactOf(w.disk, id)
            && (v.up ==> id in v.jobs && v.jobs[id] == Newest(w, id))
  {
    hide WellFormed, ArtifactValid, Expired, Recovers;
    RunsStayDurable(EMPTY, steps);
    var w := Run(EMPTY, steps);
    assert DurableAt(w, id);
    ValidHasArtifact(Newest(w, id), ArtifactOf(w.disk, id));
    var a := w.disk.artifacts[id];
    assert Survives(Apply(w, Crash), id, Newest(w, id), a);
    hide Run;
    RecoveryKeepsSurviving(Apply(w, Crash), later, id, Newest(w, id), a);
  }

  lemma ValidHasArtifact(r: JobRecord, a: Option<Artifact>)
    ensures ArtifactValid(r, a) ==> a.Some?
  {
  }

  // ----- A directory that is not refused opens -----

  function Loads(steps: seq<StartUp.LoadStep>): seq<Step> {
    seq(|steps|, i requires 0 <= i < |steps| => Load(steps[i]))
  }

  lemma {:induction false} LoadsRun(w: World, steps: seq<StartUp.LoadStep>)
    requires !w.up && w.op.Opening?
    ensures var l := StartUp.RunLoad(LoadOf(w), w.op.now, steps);
            Run(w, Loads(steps)) == w.(disk := l.disk, op := Opening(w.op.now, l.loaded, l.failed))
    decreases |steps|
  {
    hide StartUp.ApplyLoad;
    if steps != [] {
      assert Loads(steps)[1..] == Loads(steps[1..]);
      LoadsRun(Apply(w, Load(steps[0])), steps[1..]);
    }
  }

  /** Every order of file operations that gets start-up to its end leaves what `LoadStatuses` promises. */
  lemma OpeningRefinesLoad(w: World, now: i64, steps: seq<StartUp.LoadStep>)
    requires !w.up && w.op.Idle?
    ensures var v := Run(w, [BeginOpen(now)] + Loads(steps) + [FinishOpen]);
            v.up ==> Loadable(w.disk, now) && v == World(LoadedDisk(w.disk, now), LoadedJobs(w.disk, now), true, Idle)
  {
    hide Loadable, LoadedDisk, LoadedJobs, StartUp.LoadingFrom, StartUp.RunLoad;
    OpeningRun(w, now, steps);
    StartUp.LoadStarts(w.disk, now);
    var l := StartUp.RunLoad(StartUp.Loading(w.disk, map[], false), now, steps);
    StartUp.RunKeepsLoading(w.disk, now, StartUp.Loading(w.disk, map[], false), steps);
    if StartUp.Done(l) {
      StartUp.FinishedIsLoaded(w.disk, now, l);
    }
  }

  lemma OpeningRun(w: World, now: i64, steps: seq<StartUp.LoadStep>)
    requires !w.up && w.op.Idle?
    ensures var l := StartUp.RunLoad(StartUp.Loading(w.disk, map[], false), now, steps);
            var v := Run(w, [BeginOpen(now)] + Loads(steps) + [FinishOpen]);
            if StartUp.Done(l) then v == World(l.disk, l.loaded, true, Idle) else !v.up
  {
    hide StartUp.RunLoad, StartUp.Done, Loads;
    var w1 := Apply(w, BeginOpen(now));
    LoadsRun(w1, steps);
    RunSplit(w, [BeginOpen(now)] + Loads(steps), [FinishOpen]);
    RunSplit(w, [BeginOpen(now)], Loads(steps));
    RunOne(w, BeginOpen(now));
    RunOne(Run(w1, Loads(steps)), FinishOpen);
  }

  lemma RunOne(w: World, step: Step)
    ensures Run(w, [step]) == Apply(w, step)
  {
    hide Apply;
    assert [step][1..] == [];
  }

  /** A loadable directory opens: some order of file operations gets there, and they all end alike. */
  lemma LoadableOpens(w: World, now: i64) returns (steps: seq<StartUp.LoadStep>)
    requires !w.up && w.op.Idle? && Loadable(w.disk, now)
    ensures Run(w, [BeginOpen(now)] + Loads(steps) + [FinishOpen]).up
  {
    hide Loadable, LoadedDisk, LoadedJobs, StartUp.LoadingFrom, StartUp.RunLoad, StartUp.Done, Run;
    StartUp.LoadStarts(w.disk, now);
    steps := StartUp.StartUpFinishes(w.disk, now, StartUp.Loading(w.disk, map[], false));
    OpeningRun(w, now, steps);
  }

  // ----- A failed synchronisation leaks a status file -----

  function Numbered(k: byte): JobId {
    JobId([k, k, k, k, k, k, k, k, k, k, k, k, k, k, k, k])
  }

  lemma {:induction false} RunSplit(w: World, a: seq<Step>, b: seq<Step>)
    ensures Run(w, a + b) == Run(Run(w, a), b)
    decreases |a|
  {
    if a == [] {
      assert a + b == b;
    } else {
      RunSplit(Apply(w, a[0]), a[1..], b);
      assert (a + b)[1..] == a[1..] + b;
    }
  }

  /** A create whose directory synchronisation fails after the rename: the caller sees an error, the file stays. */
  function LeakingCreate(k: byte): seq<Step> {
    [BeginCreate(Numbered(k), Numbered(k).uuid, 0), WriteTemporary, Rename, SyncFails]
  }

  ghost predicate Leaked(w: World, n: byte) {
    && w.up && w.op.Idle? && w.jobs == map[] && |w.disk.status| == n
    && (forall k: byte {:trigger Numbered(k)} :: Numbered(k) in w.disk.status ==> k < n)
    && (forall id :: id in w.disk.status ==> w.disk.status[id].Some? && w.disk.status[id].value.state == Pending)
  }

  lemma FourSteps(w: World, a: Step, b: Step, c: Step, d: Step)
    ensures Run(w, [a, b, c, d]) == Apply(Apply(Apply(Apply(w, a), b), c), d)
  {
    hide Apply;
    assert [a, b, c, d][1..] == [b, c, d] && [b, c, d][1..] == [c, d] && [c, d][1..] == [d] && [d][1..] == [];
    assert Run(Apply(Apply(Apply(w, a), b), c), [d]) == Apply(Apply(Apply(Apply(w, a), b), c), d);
    assert Run(Apply(Apply(w, a), b), [c, d]) == Run(Apply(Apply(Apply(w, a), b), c), [d]);
    assert Run(Apply(w, a), [b, c, d]) == Run(Apply(Apply(w, a), b), [c, d]);
  }

  lemma LeakOnce(w: World, n: byte)
    requires Leaked(w, n) && n < 255
    ensures Leaked(Run(w, LeakingCreate(n)), n + 1)
  {
    var id := Numbered(n);
    var w1 := Apply(w, LeakingCreate(n)[0]);
    assert id !in w.disk.status;
    assert w1 == w.(op := Persisting(Fresh(id, 0), id.uuid, true, Begun));
    var w2 := Apply(w1, WriteTemporary);
    var w3 := Apply(w2, Rename);
    var w4 := Apply(w3, SyncFails);
    FourSteps(w, LeakingCreate(n)[0], WriteTemporary, Rename, SyncFails);
    assert w4.disk.status == w.disk.status[id := Some(Fresh(id, 0))];
    assert w4.disk.status.Keys == w.disk.status.Keys + {id};
    assert |w4.disk.status| == |w4.disk.status.Keys| && |w.disk.status| == |w.disk.status.Keys|;
    forall k: byte | Numbered(k) in w4.disk.status
      ensures k < n + 1
    {
      assert Numbered(k).uuid[0] == k && Numbered(n).uuid[0] == n;
    }
  }

  lemma {:induction false} LeakMany(n: byte) returns (steps: seq<Step>)
    requires n < 255
    ensures Leaked(Run(EMPTY, steps), n)
    decreases n
  {
    if n == 0 {
      steps := [BeginOpen(0), FinishOpen];
      RunSplit(EMPTY, [BeginOpen(0)], [FinishOpen]);
      RunOne(EMPTY, BeginOpen(0));
      RunOne(Apply(EMPTY, BeginOpen(0)), FinishOpen);
    } else {
      var before := LeakMany(n - 1);
      LeakOnce(Run(EMPTY, before), n - 1);
      RunSplit(EMPTY, before, LeakingCreate(n - 1));
      steps := before + LeakingCreate(n - 1);
    }
  }

  /** Start-up at `now` does not finish, and if the quota has refused it, one that waits until all have expired does. */
  ghost predicate RefusedForNow(d: Disk, now: i64, loads: seq<StartUp.LoadStep>, later: i64) {
    var l := StartUp.RunLoad(StartUp.Loading(d, map[], false), now, loads);
    !Loadable(d, now) && !StartUp.Done(l) && (l.failed && StartUp.Waited(l.disk, later) ==> Loadable(l.disk, later))
  }

  /**
   * After 33 leaked files the next start-up is refused, whenever it is tried. Not for good: it fails the leaked jobs
   * while it is being refused, and a start-up after they have expired opens.
   */
  lemma LeaksBlockStartUp() returns (steps: seq<Step>)
    ensures forall now, loads, later :: RefusedForNow(Apply(Run(EMPTY, steps), Crash).disk, now, loads, later)
  {
    steps := LeakMany(33);
    var d := Run(EMPTY, steps).disk;
    RefusedOnlyOverQuota(EMPTY, steps, 0);
    forall now: i64, loads: seq<StartUp.LoadStep>, later: i64
      ensures RefusedForNow(d, now, loads, later)
    {
      LeakedIsRefused(d, now, loads, later);
    }
  }

  lemma LeakedIsRefused(d: Disk, now: i64, loads: seq<StartUp.LoadStep>, later: i64)
    requires |d.status| == 33 && forall id :: id in d.status ==>
             WellFormed(id, d.status[id]) && d.status[id].value.state == Pending
    ensures RefusedForNow(d, now, loads, later)
  {
    assert Surviving(d, now) == d.status.Keys && StartUp.Live(d) == d.status.Keys;
    assert |d.status| == |d.status.Keys|;
    assert StartUp.Waited(d, now);
    hide StartUp.RunLoad, StartUp.Waited, StartUp.Done, StartUp.LoadingFrom, Loadable, StartUp.Live;
    var start := StartUp.Loading(d, map[], false);
    StartUp.LoadStarts(d, now);
    StartUp.RunKeepsLoading(d, now, start, loads);
    var l := StartUp.RunLoad(start, now, loads);
    if StartUp.Done(l) {
      StartUp.FinishedIsLoaded(d, now, l);
    }
    if l.failed && StartUp.Waited(l.disk, later) {
      StartUp.RefusedThenOpens(d, now, loads, later);
    }
  }

  // ----- What goes through -----

  ghost function Persisted(w: World): World {
    Apply(Apply(Apply(w, WriteTemporary), Rename), Acknowledge)
  }

  /** `persist` without failures: the record is on disk and in memory, and nothing else has changed. */
  lemma PersistGoesThrough(w: World)
    requires w.up && w.op.Persisting? && w.op.phase == Begun && w.op.token !in w.disk.temporaries
    ensures var id := w.op.record.jobId;
            Persisted(w) == w.(op := Idle, jobs := w.jobs[id := w.op.record],
                               disk := w.disk.(status := w.disk.status[id := Some(w.op.record)]))
  {
    assert w.disk.temporaries + {w.op.token} - {w.op.token} == w.disk.temporaries;
  }

  /** `create`: a fresh pending job, kept for 15 minutes. */
  lemma CreateGoesThrough(w: World, id: JobId, token: Id, now: i64)
    requires w.up && w.op.Idle? && |w.jobs| < MAX_JOBS && id !in w.jobs && id !in w.disk.status
    requires 0 <= now < I64_MAX && token !in w.disk.temporaries
    ensures var expiry := if now + 900_000 <= I64_MAX then now + 900_000 else I64_MAX;
            var r := JobRecord(id, Pending, now, now, expiry, None, None, None, None, None, None, None, false, None);
            Persisted(Apply(w, BeginCreate(id, token, now)))
            == w.(jobs := w.jobs[id := r], disk := w.disk.(status := w.disk.status[id := Some(r)]))
  {
    hide Persisted;
    PersistGoesThrough(Apply(w, BeginCreate(id, token, now)));
  }

  /** What each change does to a record, and that nothing moves its update time back. */
  ghost predicate IsChanged(r: JobRecord, c: JobRecord, change: Change, now: i64) {
    var kept := (if now < r.createdAt then r.createdAt else now) + 900_000;
    var expiry := if kept <= I64_MAX then kept else I64_MAX;
    && c.updatedAt >= r.updatedAt && c.updatedAt >= now && (c.updatedAt == r.updatedAt || c.updatedAt == now)
    && match change
       case StartRunning => c == r.(state := Running, updatedAt := c.updatedAt)
       case Complete(archiveId, vault, epoch, length, sha, count) =>
         c == r.(state := Completed, updatedAt := c.updatedAt, expiresAt := expiry, archiveId := Some(archiveId),
                 formatVersion := Some(1), logicalVaultId := Some(vault), sourceRecoveryEpoch := Some(epoch),
                 archiveBytes := Some(length), artifactSha256 := Some(sha), recordCount := Some(count))
       case Fail(code) =>
         c == r.(state := Failed, updatedAt := c.updatedAt, expiresAt := expiry, errorCode := Some(code))
       case StartDownload => c == r.(downloadStarted := true, updatedAt := c.updatedAt)
  }

  /** `update`: exactly the changed record. */
  lemma UpdateGoesThrough(w: World, id: JobId, token: Id, change: Change, now: i64)
    requires w.up && w.op.Idle? && id in w.jobs && w.jobs[id].jobId == id && token !in w.disk.temporaries
    ensures var v := Persisted(Apply(w, BeginUpdate(id, token, change, now)));
            && id in v.jobs && IsChanged(w.jobs[id], v.jobs[id], change, now)
            && v == w.(jobs := w.jobs[id := v.jobs[id]],
                       disk := w.disk.(status := w.disk.status[id := Some(v.jobs[id])]))
  {
    ChangedIs(w.jobs[id], change, now);
    hide Persisted, Changed, IsChanged;
    ChangedKeepsId(w.jobs[id], change, now);
    PersistGoesThrough(Apply(w, BeginUpdate(id, token, change, now)));
  }

  lemma ChangedIs(r: JobRecord, change: Change, now: i64)
    ensures IsChanged(r, Changed(r, change, now), change, now)
  {
  }

  /** What each operation asks before it begins. */
  lemma BeginsIff(w: World, id: JobId, token: Id, change: Change, now: i64, ids: set<JobId>)
    requires w.up && w.op.Idle?
    ensures Apply(w, BeginCreate(id, token, now)).op.Persisting? <==>
            |w.jobs| < 32 && id !in w.jobs && id !in w.disk.status && 0 <= now < I64_MAX
    ensures Apply(w, BeginUpdate(id, token, change, now)).op.Persisting? <==> id in w.jobs
    ensures Apply(w, BeginRemove(ids)).op.Removing? <==>
            forall x :: x in ids ==> x in w.jobs && (w.jobs[x].state == Completed || w.jobs[x].state == Failed)
  {
  }

  /**
   * `persist` keeps its order: no status file changes before the temporary is written, memory not before the rename,
   * and a failure before the rename leaves no trace.
   */
  lemma PersistIsOrdered(w: World, step: Step)
    requires w.up && w.op.Persisting? && !step.Crash? && !step.PublishArtifact? && !step.DropArtifact?
    ensures w.op.phase == Begun ==> Apply(w, step).disk.status == w.disk.status
    ensures w.op.phase != Renamed ==> Apply(w, step).jobs == w.jobs
    ensures w.op.phase != Renamed ==>
            Apply(w, PersistFails)
            == w.(op := Idle, disk := w.disk.(temporaries := w.disk.temporaries - {w.op.token}))
    ensures Apply(w, SyncFails) == if w.op.phase == Renamed then w.(op := Idle) else w
  {
  }

  /** A removal goes through: artifact, status and memory. */
  lemma RemovalGoesThrough(w: World, id: JobId)
    requires w.up && w.op.Idle? && id in w.jobs && (w.jobs[id].state == Completed || w.jobs[id].state == Failed)
    ensures var begun := Apply(w, BeginRemove({id}));
            Apply(Apply(Apply(begun, RemoveArtifact(id)), RemoveStatus(id)), FinishRemove)
            == w.(jobs := w.jobs - {id},
                  disk := w.disk.(artifacts := w.disk.artifacts - {id}, status := w.disk.status - {id}))
  {
  }

  /** And only in that order, and only what it was begun for. */
  lemma RemovalIsOrdered(w: World, id: JobId)
    requires w.up && w.op.Removing?
    ensures id !in w.op.ids ==> Apply(w, RemoveArtifact(id)) == w && Apply(w, RemoveStatus(id)) == w
    ensures id in w.disk.artifacts ==> Apply(w, RemoveStatus(id)) == w
    ensures id in w.op.ids && id in w.disk.status ==> Apply(w, FinishRemove) == w
  {
  }

  /** An artifact is published exactly once for a running job, and dropped for any job that has not completed. */
  lemma PublishIff(w: World, id: JobId, artifact: Artifact)
    requires w.up
    ensures Apply(w, PublishArtifact(id, artifact))
            == if id in w.jobs && w.jobs[id].state == Running && id !in w.disk.artifacts then
                 w.(disk := w.disk.(artifacts := w.disk.artifacts[id := artifact]))
               else w
    ensures id in w.jobs && w.jobs[id].state == Completed ==> Apply(w, DropArtifact(id)) == w
    ensures !(id in w.jobs && w.jobs[id].state == Completed) ==>
            Apply(w, DropArtifact(id)) == w.(disk := w.disk.(artifacts := w.disk.artifacts - {id}))
  {
  }

  /** A record completed with the length of its published artifact passes the start-up check of that artifact. */
  lemma CompletionChecksOut(r: JobRecord, done: Change, now: i64, artifact: Artifact)
    requires done.Complete? && done.length == artifact.length && artifact.restrictive && IsHexDigest(done.sha256)
    ensures Changed(r, done, now).state == Completed && Matches(Changed(r, done, now), artifact)
  {
  }
}
