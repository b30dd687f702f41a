/** The backup job registry: status files and artifacts on disk, and how start-up settles whatever a crash left. */
module BackupJobs {
  import opened Bytes

  const MAX_JOBS: nat := 32
  const JOB_TTL_MS: i64 := 15 * 60 * 1000
  const FORMAT_VERSION: u16 := 1

  datatype JobId = JobId(uuid: Id)

  datatype JobState = Pending | Running | Completed | Failed

  datatype ErrorCode = Interrupted | ArtifactIntegrityFailed | StatusPersistenceFailed | BackupFailed

  datatype JobRecord = JobRecord(jobId: JobId, state: JobState, createdAt: i64, updatedAt: i64, expiresAt: i64,
                                 archiveId: Option<Id>, formatVersion: Option<u16>, logicalVaultId: Option<Id>,
                                 sourceRecoveryEpoch: Option<u64>, archiveBytes: Option<u64>,
                                 artifactSha256: Option<bytes>, recordCount: Option<u64>, downloadStarted: bool,
                                 errorCode: Option<ErrorCode>)

  /** An artifact file: its length and whether its custody metadata is restrictive. */
  datatype Artifact = Artifact(length: u64, restrictive: bool)

  /**
   * The artifact directory: `<uuid>.json` files (absent when the content does not parse or is oversized),
   * `<uuid>.smcvault` files, swept temporaries, and `.partial` files, which start-up leaves alone.
   */
  datatype Disk = Disk(status: map<JobId, Option<JobRecord>>, artifacts: map<JobId, Artifact>, temporaries: set<Id>,
                       partials: set<Id>)

  type Jobs = map<JobId, JobRecord>

  datatype RegistryError = InvalidStatus | QuotaExceeded | Io

  // ----- Settling one record -----

  function Max(a: i64, b: i64): i64 {
    if a < b then b else a
  }

  /** `saturating_add` of a non-negative amount. */
  function SaturatingAdd(a: i64, n: i64): i64
    requires n >= 0
  {
    if a + n > I64_MAX then I64_MAX else a + n
  }

  predicate WellFormed(id: JobId, r: Option<JobRecord>) {
    && r.Some? && r.value.jobId == id && r.value.createdAt >= 0
    && r.value.updatedAt >= r.value.createdAt && r.value.expiresAt > r.value.createdAt
  }

  predicate Terminal(r: JobRecord) {
    r.state == Completed || r.state == Failed
  }

  predicate Expired(r: JobRecord, now: i64) {
    Terminal(r) && r.expiresAt <= now
  }

  predicate IsHexDigest(text: bytes) {
    |text| == 64 && forall i :: 0 <= i < 64 ==> 48 <= text[i] <= 57 || 65 <= text[i] <= 70 || 97 <= text[i] <= 102
  }

  /** `completed_artifact_metadata_is_valid`. */
  predicate ArtifactValid(r: JobRecord, a: Option<Artifact>) {
    && r.archiveBytes.Some? && r.artifactSha256.Some? && IsHexDigest(r.artifactSha256.value)
    && r.archiveId.Some? && r.formatVersion == Some(FORMAT_VERSION) && r.logicalVaultId.Some?
    && r.sourceRecoveryEpoch.Some? && r.recordCount.Some?
    && a.Some? && a.value.restrictive && a.value.length == r.archiveBytes.value
  }

  function FailedAt(r: JobRecord, code: ErrorCode, now: i64): JobRecord {
    var updated := Max(r.updatedAt, now);
    r.(state := Failed, errorCode := Some(code), updatedAt := updated,
       expiresAt := Max(SaturatingAdd(updated, JOB_TTL_MS), SaturatingAdd(r.createdAt, 1)))
  }

  /** What start-up makes of one unexpired record. */
  function Settled(r: JobRecord, a: Option<Artifact>, now: i64): JobRecord {
    if !Terminal(r) then FailedAt(r, Interrupted, now)
    else if r.state == Completed && !ArtifactValid(r, a) then FailedAt(r, ArtifactIntegrityFailed, now)
    else r
  }

  function ArtifactOf(d: Disk, id: JobId): Option<Artifact> {
    if id in d.artifacts then Some(d.artifacts[id]) else None
  }

  // ----- Start-up as a whole -----

  function Surviving(d: Disk, now: i64): set<JobId>
  {
    set id | id in d.status && d.status[id].Some? && !Expired(d.status[id].value, now)
  }

  /** Start-up succeeds exactly when every status file is well formed and at most 32 jobs survive. */
  ghost predicate Loadable(d: Disk, now: i64) {
    (forall id :: id in d.status ==> WellFormed(id, d.status[id])) && |Surviving(d, now)| <= MAX_JOBS
  }

  function LoadedJobs(d: Disk, now: i64): Jobs {
    map id | id in Surviving(d, now) :: Settled(d.status[id].value, ArtifactOf(d, id), now)
  }

  function LoadedDisk(d: Disk, now: i64): Disk {
    Disk(map id | id in Surviving(d, now) :: Some(Settled(d.status[id].value, ArtifactOf(d, id), now)),
         map id | id in d.artifacts && id in LoadedJobs(d, now)
         && LoadedJobs(d, now)[id].state == Completed :: d.artifacts[id],
         {}, d.partials)
  }

  /** One job identity after the first pass has handled the status files outside `todo`. */
  ghost predicate PassAt(d: Disk, now: i64, todo: set<JobId>, disk: Disk, loaded: Jobs, id: JobId) {
    if id !in d.status then
      id !in disk.status && id !in loaded && ArtifactOf(disk, id) == ArtifactOf(d, id)
    else if id in todo then
      id in disk.status && disk.status[id] == d.status[id] && id !in loaded && ArtifactOf(disk, id) == ArtifactOf(d, id)
    else
      && WellFormed(id, d.status[id])
      && (ArtifactOf(disk, id) == ArtifactOf(d, id) || ArtifactOf(disk, id) == None)
      && if Expired(d.status[id].value, now) then id !in disk.status && id !in loaded
         else
           && id in loaded && loaded[id] == Settled(d.status[id].value, ArtifactOf(d, id), now)
           && id in disk.status && disk.status[id] == Some(loaded[id])
           && (loaded[id].state == Completed ==> ArtifactOf(disk, id) == ArtifactOf(d, id))
  }

  ghost predicate FirstPass(d: Disk, now: i64, todo: set<JobId>, disk: Disk, loaded: Jobs) {
    && todo <= d.status.Keys && disk.partials == d.partials && |loaded| <= MAX_JOBS
    && forall id {:trigger PassAt(d, now, todo, disk, loaded, id)} :: PassAt(d, now, todo, disk, loaded, id)
  }

  lemma PassStarts(d: Disk, now: i64)
    ensures FirstPass(d, now, d.status.Keys, d, map[])
  {
  }

  /** Identities other than the one being handled are as they were. */
  ghost predicate SameElsewhere(disk: Disk, loaded: Jobs, disk': Disk, loaded': Jobs, id: JobId) {
    disk'.partials == disk.partials && forall x {:trigger SameAt(disk, loaded, disk', loaded', x)} ::
      x != id ==> SameAt(disk, loaded, disk', loaded', x)
  }

  ghost predicate SameAt(disk: Disk, loaded: Jobs, disk': Disk, loaded': Jobs, x: JobId) {
    && (x in disk'.status <==> x in disk.status) && (x in disk.status ==> disk'.status[x] == disk.status[x])
    && (x in loaded' <==> x in loaded) && (x in loaded ==> loaded'[x] == loaded[x])
    && ArtifactOf(disk', x) == ArtifactOf(disk, x)
  }

  lemma PassMoves(d: Disk, now: i64, todo: set<JobId>, disk: Disk, loaded: Jobs, id: JobId, disk': Disk, loaded': Jobs)
    requires FirstPass(d, now, todo, disk, loaded) && SameElsewhere(disk, loaded, disk', loaded', id)
    requires |loaded'| <= MAX_JOBS && PassAt(d, now, todo - {id}, disk', loaded', id)
    ensures FirstPass(d, now, todo - {id}, disk', loaded')
  {
    hide WellFormed, Expired, Settled, ArtifactOf;
    forall x: JobId
      ensures PassAt(d, now, todo - {id}, disk', loaded', x)
    {
      if x != id {
        assert PassAt(d, now, todo, disk, loaded, x) && SameAt(disk, loaded, disk', loaded', x);
      }
    }
  }

  lemma PassExpired(d: Disk, now: i64, todo: set<JobId>, disk: Disk, loaded: Jobs, id: JobId)
    requires FirstPass(d, now, todo, disk, loaded) && id in todo && id in d.status
    requires WellFormed(id, d.status[id]) && Expired(d.status[id].value, now)
    ensures FirstPass(d, now, todo - {id}, disk.(artifacts := disk.artifacts - {id}, status := disk.status - {id}),
                      loaded)
  {
    hide WellFormed, Expired, Settled, FirstPass, SameElsewhere;
    Unhandled(d, now, todo, disk, loaded, id);
    DroppedElsewhere(disk, loaded, id);
    PassMoves(d, now, todo, disk, loaded, id, disk.(artifacts := disk.artifacts - {id}, status := disk.status - {id}),
              loaded);
  }

  lemma DroppedElsewhere(disk: Disk, loaded: Jobs, id: JobId)
    ensures SameElsewhere(disk, loaded, disk.(artifacts := disk.artifacts - {id}, status := disk.status - {id}),
                          loaded, id)
  {
  }

  lemma PassKept(d: Disk, now: i64, todo: set<JobId>, disk: Disk, loaded: Jobs, id: JobId, settled: JobRecord,
                 artifacts: map<JobId, Artifact>)
    requires FirstPass(d, now, todo, disk, loaded) && id in todo && id in d.status && |loaded| < MAX_JOBS
    requires WellFormed(id, d.status[id]) && !Expired(d.status[id].value, now)
    requires settled == Settled(d.status[id].value, ArtifactOf(d, id), now)
    requires settled.state == Completed ==> artifacts == disk.artifacts
    requires artifacts == disk.artifacts || artifacts == disk.artifacts - {id}
    ensures FirstPass(d, now, todo - {id}, disk.(artifacts := artifacts, status := disk.status[id := Some(settled)]),
                      loaded[id := settled])
  {
    hide WellFormed, Expired, Settled, FirstPass, SameElsewhere;
    Unhandled(d, now, todo, disk, loaded, id);
    assert |loaded[id := settled]| <= MAX_JOBS by {
      assert loaded[id := settled].Keys == loaded.Keys + {id};
    }
    KeptElsewhere(disk, loaded, id, settled, artifacts);
    PassMoves(d, now, todo, disk, loaded, id,
              disk.(artifacts := artifacts, status := disk.status[id := Some(settled)]), loaded[id := settled]);
  }

  lemma KeptElsewhere(disk: Disk, loaded: Jobs, id: JobId, settled: JobRecord, artifacts: map<JobId, Artifact>)
    requires artifacts == disk.artifacts || artifacts == disk.artifacts - {id}
    ensures SameElsewhere(disk, loaded, disk.(artifacts := artifacts, status := disk.status[id := Some(settled)]),
                          loaded[id := settled], id)
  {
  }

  lemma PassOverQuota(d: Disk, now: i64, todo: set<JobId>, disk: Disk, loaded: Jobs, id: JobId)
    requires FirstPass(d, now, todo, disk, loaded) && id in todo && id in d.status && |loaded| >= MAX_JOBS
    requires WellFormed(id, d.status[id]) && !Expired(d.status[id].value, now)
    ensures !Loadable(d, now)
  {
    hide Expired, Settled;
    var kept := loaded.Keys + {id};
    forall x | x in kept
      ensures x in Surviving(d, now)
    {
      assert PassAt(d, now, todo, disk, loaded, x);
    }
    assert PassAt(d, now, todo, disk, loaded, id);
    Fewer(kept, Surviving(d, now));
  }

  lemma Fewer(a: set<JobId>, b: set<JobId>)
    requires a <= b
    ensures |a| <= |b|
  {
    var rest := b - a;
    assert b == a + rest;
  }

  lemma DoneAt(d: Disk, now: i64, disk: Disk, loaded: Jobs, id: JobId)
    requires FirstPass(d, now, {}, disk, loaded)
    ensures id in d.status ==> WellFormed(id, d.status[id])
    ensures (id in loaded <==> id in Surviving(d, now)) && (id in disk.status <==> id in loaded)
    ensures id in loaded ==> id in disk.status && disk.status[id] == Some(loaded[id])
    ensures id in loaded ==>
            id in d.status && d.status[id].Some? && loaded[id] == Settled(d.status[id].value, ArtifactOf(d, id), now)
    ensures id in loaded && loaded[id].state == Completed ==> ArtifactOf(disk, id) == ArtifactOf(d, id)
    ensures id in disk.artifacts ==> id in d.artifacts && disk.artifacts[id] == d.artifacts[id]
  {
    hide Expired, Settled;
    assert PassAt(d, now, {}, disk, loaded, id);
  }

  lemma LoadedWhole(d: Disk, now: i64, disk: Disk, loaded: Jobs)
    requires FirstPass(d, now, {}, disk, loaded)
    ensures loaded == LoadedJobs(d, now) && loaded.Keys == Surviving(d, now)
  {
    hide FirstPass, WellFormed, Settled, Surviving, ArtifactOf;
    forall id: JobId {:trigger id in loaded} {:trigger id in Surviving(d, now)}
      ensures id in loaded <==> id in Surviving(d, now)
      ensures id in loaded ==>
              id in d.status && d.status[id].Some? && loaded[id] == Settled(d.status[id].value, ArtifactOf(d, id), now)
    {
      DoneAt(d, now, disk, loaded, id);
    }
  }

  lemma StatusWhole(d: Disk, now: i64, disk: Disk, loaded: Jobs)
    requires FirstPass(d, now, {}, disk, loaded)
    ensures disk.status == LoadedDisk(d, now).status
  {
    hide FirstPass, WellFormed, Settled, Surviving, ArtifactOf;
    LoadedWhole(d, now, disk, loaded);
    forall id: JobId {:trigger id in disk.status} {:trigger id in loaded}
      ensures id in disk.status <==> id in loaded
      ensures id in loaded ==> disk.status[id] == Some(loaded[id])
    {
      DoneAt(d, now, disk, loaded, id);
    }
  }

  lemma LoadableWhole(d: Disk, now: i64, disk: Disk, loaded: Jobs)
    requires FirstPass(d, now, {}, disk, loaded)
    ensures Loadable(d, now)
  {
    assert |loaded| <= MAX_JOBS;
    hide FirstPass, WellFormed, Settled, Surviving, ArtifactOf;
    LoadedWhole(d, now, disk, loaded);
    assert |loaded| == |loaded.Keys|;
    forall id | id in d.status
      ensures WellFormed(id, d.status[id])
    {
      DoneAt(d, now, disk, loaded, id);
    }
  }

  /** After the first pass over every status file. */
  lemma FirstPassDone(d: Disk, now: i64, disk: Disk, loaded: Jobs)
    requires FirstPass(d, now, {}, disk, loaded)
    ensures Loadable(d, now) && loaded == LoadedJobs(d, now) && disk.status == LoadedDisk(d, now).status
            && disk.partials == d.partials
    ensures forall id :: id in loaded && loaded[id].state == Completed ==> ArtifactOf(disk, id) == ArtifactOf(d, id)
    ensures forall id :: id in disk.artifacts ==> id in d.artifacts && disk.artifacts[id] == d.artifacts[id]
  {
    assert disk.partials == d.partials;
    hide FirstPass, WellFormed, Settled, Surviving, ArtifactOf, Loadable;
    LoadableWhole(d, now, disk, loaded);
    LoadedWhole(d, now, disk, loaded);
    StatusWhole(d, now, disk, loaded);
    forall id: JobId {:trigger id in loaded} {:trigger id in disk.artifacts}
      ensures id in loaded && loaded[id].state == Completed ==> ArtifactOf(disk, id) == ArtifactOf(d, id)
      ensures id in disk.artifacts ==> id in d.artifacts && disk.artifacts[id] == d.artifacts[id]
    {
      DoneAt(d, now, disk, loaded, id);
    }
  }

  class BackupJobRegistry {
    var disk: Disk
    var jobs: Jobs

    constructor (disk: Disk)
      ensures this.disk == disk && jobs == map[]
    {
      this.disk, jobs := disk, map[];
    }

    /** The first loop of `load_statuses`. */
    method LoadRecords(now: i64) returns (r: Result<Jobs, RegistryError>)
      modifies this`disk
      ensures r.Ok? ==> FirstPass(old(disk), now, {}, disk, r.value)
      ensures r.Err? && r.error != Io ==> !Loadable(old(disk), now)
    {
      hide FirstPass, Expired, ArtifactValid, Loadable, ArtifactOf, WellFormed;
      var loaded: Jobs := map[];
      var todo := disk.status.Keys;
      PassStarts(disk, now);
      while todo != {}
        invariant FirstPass(old(disk), now, todo, disk, loaded)
        decreases todo
      {
        var id :| id in todo;
        Unhandled(old(disk), now, todo, disk, loaded, id);
        Parsed(id, disk.status[id]);
        if !WellFormed(id, disk.status[id]) {
          return Err(InvalidStatus);
        }
        if * {
          return Err(Io);
        }
        var record := disk.status[id].value;
        if Expired(record, now) {
          PassExpired(old(disk), now, todo, disk, loaded, id);
          disk := disk.(artifacts := disk.artifacts - {id}, status := disk.status - {id});
          todo := todo - {id};
          continue;
        }
        var artifacts := disk.artifacts;
        if !Terminal(record) {
          record := FailedAt(record, Interrupted, now);
          artifacts := artifacts - {id};
        }
        if record.state == Completed && !ArtifactValid(record, ArtifactOf(disk, id)) {
          record := FailedAt(record, ArtifactIntegrityFailed, now);
          artifacts := artifacts - {id};
        }
        if |loaded| >= MAX_JOBS {
          PassOverQuota(old(disk), now, todo, disk, loaded, id);
          return Err(QuotaExceeded);
        }
        PassKept(old(disk), now, todo, disk, loaded, id, record, artifacts);
        disk := disk.(artifacts := artifacts, status := disk.status[id := Some(record)]);
        loaded := loaded[id := record];
        todo := todo - {id};
      }
      return Ok(loaded);
    }

    /** The second loop of `load_statuses`: artifacts without a completed record go. */
    method SweepArtifacts(loaded: Jobs) returns (r: Result<(), RegistryError>)
      modifies this`disk
      ensures r.Ok? ==>
              disk == old(disk).(artifacts := map id | && id in old(disk.artifacts)
                                                       && id in loaded && loaded[id].state == Completed ::
                                                old(disk.artifacts)[id])
      ensures r.Err? ==> r.error == Io
    {
      var todo := disk.artifacts.Keys;
      while todo != {}
        invariant todo <= disk.artifacts.Keys && disk == old(disk).(artifacts := disk.artifacts)
        invariant forall id :: id in disk.artifacts ==>
                  id in old(disk.artifacts) && disk.artifacts[id] == old(disk.artifacts)[id]
        invariant forall id :: id in old(disk.artifacts) && id !in todo ==>
                    (id in disk.artifacts <==> id in loaded && loaded[id].state == Completed)
        decreases todo
      {
        var id :| id in todo;
        if !(id in loaded && loaded[id].state == Completed) {
          if * {
            return Err(Io);
          }
          disk := disk.(artifacts := disk.artifacts - {id});
        }
        todo := todo - {id};
      }
      return Ok(());
    }

    /** `load_statuses`. Either it fails on input and output, or it succeeds exactly on a loadable directory. */
    method LoadStatuses(now: i64) returns (r: Result<(), RegistryError>)
      modifies this
      ensures r.Ok? ==>
              Loadable(old(disk), now) && disk == LoadedDisk(old(disk), now) && jobs == LoadedJobs(old(disk), now)
      ensures r.Err? && r.error != Io ==> !Loadable(old(disk), now)
      ensures r.Err? ==> jobs == old(jobs)
    {
      hide Loadable, FirstPass;
      var loaded := LoadRecords(now);
      if loaded.Err? {
        return Err(loaded.error);
      }
      FirstPassDone(old(disk), now, disk, loaded.value);
      if * {
        return Err(Io);
      }
      disk := disk.(temporaries := {});
      r := SweepArtifacts(loaded.value);
      if r.Err? {
        return;
      }
      assert disk.artifacts == LoadedDisk(old(disk), now).artifacts;
      jobs := loaded.value;
    }
  }

  lemma Parsed(id: JobId, r: Option<JobRecord>)
    ensures WellFormed(id, r) ==> r.Some?
  {
  }

  lemma Unhandled(d: Disk, now: i64, todo: set<JobId>, disk: Disk, loaded: Jobs, id: JobId)
    requires FirstPass(d, now, todo, disk, loaded) && id in todo
    ensures id in d.status && id in disk.status && disk.status[id] == d.status[id]
            && ArtifactOf(disk, id) == ArtifactOf(d, id)
    ensures id !in loaded && |loaded| <= MAX_JOBS
    ensures !WellFormed(id, d.status[id]) ==> !Loadable(d, now)
  {
    assert PassAt(d, now, todo, disk, loaded, id);
  }

  // ----- What a successful start-up guarantees -----

  /** The record is whole, and the artifact is restrictive and has the length the record gives. */
  ghost predicate Matches(r: JobRecord, a: Artifact) {
    && a.restrictive && r.archiveBytes == Some(a.length)
    && r.artifactSha256.Some? && |r.artifactSha256.value| == 64
    && (forall i :: 0 <= i < 64 ==>
          || '0' as int <= r.artifactSha256.value[i] <= '9' as int
          || 'A' as int <= r.artifactSha256.value[i] <= 'F' as int
          || 'a' as int <= r.artifactSha256.value[i] <= 'f' as int)
    && r.archiveId.Some? && r.logicalVaultId.Some? && r.sourceRecoveryEpoch.Some? && r.recordCount.Some?
    && r.formatVersion == Some(1)
  }

  lemma ValidIff(r: JobRecord, a: Option<Artifact>)
    ensures ArtifactValid(r, a) <==> a.Some? && Matches(r, a.value)
  {
  }

  /** The jobs that have not both ended and expired. */
  ghost function LiveJobs(d: Disk, now: i64): set<JobId> {
    set id | id in d.status && d.status[id].Some?
             && !((d.status[id].value.state == Completed || d.status[id].value.state == Failed)
                  && d.status[id].value.expiresAt <= now)
  }

  /** Start-up succeeds exactly when every status file is well formed and at most 32 jobs live. */
  lemma LoadableIff(d: Disk, now: i64)
    ensures Loadable(d, now) <==>
            && |LiveJobs(d, now)| <= 32
            && forall id :: id in d.status ==>
                 && d.status[id].Some? && d.status[id].value.jobId == id
                 && 0 <= d.status[id].value.createdAt <= d.status[id].value.updatedAt
                 && d.status[id].value.createdAt < d.status[id].value.expiresAt
  {
    assert Surviving(d, now) == LiveJobs(d, now);
  }

  /** Failed for this reason, now or at its last update if that is later, and kept for 15 minutes. */
  ghost predicate FailedNow(r: JobRecord, s: JobRecord, code: ErrorCode, now: i64) {
    && s == r.(state := Failed, errorCode := Some(code), updatedAt := s.updatedAt, expiresAt := s.expiresAt)
    && s.updatedAt >= r.updatedAt && s.updatedAt >= now && (s.updatedAt == r.updatedAt || s.updatedAt == now)
    && s.expiresAt == if s.updatedAt + 900_000 <= I64_MAX then s.updatedAt + 900_000 else I64_MAX
  }

  /**
   * What start-up makes of every live job: a pending or running one has failed as interrupted, a completed one whose
   * artifact is missing or does not match has failed its integrity check, and both lose their artifact; a completed
   * one with its matching artifact keeps it and, like a failed one, stays as it was.
   */
  lemma OpenSettles(d: Disk, now: i64, id: JobId)
    requires Loadable(d, now)
    ensures id in LoadedJobs(d, now) <==> id in LiveJobs(d, now)
    ensures id in LiveJobs(d, now) ==>
            var r, s, a := d.status[id].value, LoadedJobs(d, now)[id], LoadedDisk(d, now).artifacts;
            match r.state
            case Pending => FailedNow(r, s, Interrupted, now) && id !in a
            case Running => FailedNow(r, s, Interrupted, now) && id !in a
            case Failed => s == r && id !in a
            case Completed =>
              if id in d.artifacts && Matches(r, d.artifacts[id]) then s == r && id in a && a[id] == d.artifacts[id]
              else FailedNow(r, s, ArtifactIntegrityFailed, now) && id !in a
  {
    hide ArtifactValid, Matches;
    if id in LiveJobs(d, now) {
      ValidIff(d.status[id].value, ArtifactOf(d, id));
      assert WellFormed(id, d.status[id]);
    }
  }

  /**
   * No job is pending or running, every artifact left is restrictive and of the length its whole, completed record
   * gives, and what is in memory is what is on disk.
   */
  lemma OpenGuarantees(d: Disk, now: i64, id: JobId)
    requires Loadable(d, now)
    ensures id in LoadedJobs(d, now) ==>
            && (LoadedJobs(d, now)[id].state == Completed || LoadedJobs(d, now)[id].state == Failed)
            && LoadedJobs(d, now)[id].jobId == id
            && 0 <= LoadedJobs(d, now)[id].createdAt <= LoadedJobs(d, now)[id].updatedAt
            && LoadedJobs(d, now)[id].createdAt < LoadedJobs(d, now)[id].expiresAt
    ensures id in LoadedDisk(d, now).artifacts <==>
            id in LoadedJobs(d, now) && LoadedJobs(d, now)[id].state == Completed
    ensures id in LoadedDisk(d, now).artifacts ==>
            Matches(LoadedJobs(d, now)[id], LoadedDisk(d, now).artifacts[id])
    ensures LoadedDisk(d, now).status.Keys == LoadedJobs(d, now).Keys
    ensures id in LoadedJobs(d, now) ==> LoadedDisk(d, now).status[id] == Some(LoadedJobs(d, now)[id])
    ensures LoadedDisk(d, now).temporaries == {} && LoadedDisk(d, now).partials == d.partials
  {
    hide ArtifactValid, Matches;
    if id in d.status {
      assert WellFormed(id, d.status[id]);
      ValidIff(d.status[id].value, ArtifactOf(d, id));
    }
  }

  lemma SettledLasts(r: JobRecord, a: Option<Artifact>, now: i64)
    requires WellFormed(r.jobId, Some(r)) && !Expired(r, now) && now < I64_MAX
    ensures var s := Settled(r, a, now);
            && WellFormed(r.jobId, Some(s)) && !Expired(s, now)
            && Settled(s, if s.state == Completed then a else None, now) == s
  {
  }

  /** Opening again at once changes nothing. */
  lemma OpenIsIdempotent(d: Disk, now: i64)
    requires Loadable(d, now) && now < I64_MAX
    ensures Loadable(LoadedDisk(d, now), now)
    ensures LoadedJobs(LoadedDisk(d, now), now) == LoadedJobs(d, now)
    ensures LoadedDisk(LoadedDisk(d, now), now) == LoadedDisk(d, now)
  {
    hide Settled, WellFormed, Expired;
    var e := LoadedDisk(d, now);
    forall id | id in e.status
      ensures WellFormed(id, e.status[id]) && !Expired(e.status[id].value, now)
      ensures Settled(e.status[id].value, ArtifactOf(e, id), now) == e.status[id].value
    {
      ReopenedRecord(d, now, id);
    }
    assert Surviving(e, now) == Surviving(d, now);
    assert LoadedJobs(e, now) == LoadedJobs(d, now);
  }

  lemma ReopenedRecord(d: Disk, now: i64, id: JobId)
    requires Loadable(d, now) && now < I64_MAX && id in LoadedDisk(d, now).status
    ensures var e := LoadedDisk(d, now);
            && e.status[id].Some? && WellFormed(id, e.status[id]) && !Expired(e.status[id].value, now)
            && Settled(e.status[id].value, ArtifactOf(e, id), now) == e.status[id].value
  {
    hide Settled;
    var r := d.status[id].value;
    assert WellFormed(id, d.status[id]);
    SettledLasts(r, ArtifactOf(d, id), now);
  }
}
