/** Start-up of the backup job registry, one file operation at a time, so that it can be cut off anywhere. */
module BackupJobStartUp {
  import opened Bytes
  import opened BackupJobs

  /** The directory, the records loaded so far, and whether the quota has refused one. */
  datatype Loading = Loading(disk: Disk, loaded: Jobs, failed: bool)

  datatype LoadStep =
    | DropArtifact(id: JobId)
    | DropStatus(id: JobId)
    | WriteTemporary(token: Id)
    | ReplaceStatus(id: JobId, token: Id)
    | Take(id: JobId)
    | SweepArtifact(id: JobId)
    | SweepTemporary(token: Id)

  /** A well-formed record that has not been loaded yet. */
  predicate Ahead(l: Loading, id: JobId) {
    id in l.disk.status && WellFormed(id, l.disk.status[id]) && id !in l.loaded
  }

  predicate Unsettled(l: Loading, id: JobId, now: i64)
    requires Ahead(l, id)
  {
    Settled(l.disk.status[id].value, ArtifactOf(l.disk, id), now) != l.disk.status[id].value
  }

  /** `loaded.insert`, behind the quota. */
  function Insert(l: Loading, id: JobId, r: JobRecord): Loading {
    if |l.loaded| < MAX_JOBS then l.(loaded := l.loaded[id := r]) else l.(failed := true)
  }

  /** The first loop is over: every status file on disk has been loaded. */
  predicate AllLoaded(l: Loading) {
    l.loaded.Keys == l.disk.status.Keys
  }

  predicate Stray(l: Loading, id: JobId) {
    id in l.disk.artifacts && !(id in l.loaded && l.loaded[id].state == Completed)
  }

  function WithoutArtifact(l: Loading, id: JobId): Loading {
    l.(disk := l.disk.(artifacts := l.disk.artifacts - {id}))
  }

  function WithoutStatus(l: Loading, id: JobId): Loading {
    l.(disk := l.disk.(status := l.disk.status - {id}))
  }

  function WithStatus(l: Loading, id: JobId, r: JobRecord): Loading {
    l.(disk := l.disk.(status := l.disk.status[id := Some(r)]))
  }

  function WithTemporaries(l: Loading, tokens: set<Id>): Loading {
    l.(disk := l.disk.(temporaries := tokens))
  }

  /** The rename of a persisted record, then its insertion. */
  function Replace(l: Loading, id: JobId, r: JobRecord, token: Id): Loading {
    Insert(WithTemporaries(WithStatus(l, id, r), l.disk.temporaries - {token}), id, r)
  }

  /** One file operation of `load_statuses`; one that is not due changes nothing. */
  function ApplyLoad(l: Loading, now: i64, step: LoadStep): Loading {
    if l.failed then l
    else match step
      case DropArtifact(id) =>
        if Ahead(l, id)
           && (Expired(l.disk.status[id].value, now) || Unsettled(l, id, now)) then WithoutArtifact(l, id) else l
      case DropStatus(id) =>
        if Ahead(l, id) && Expired(l.disk.status[id].value, now)
           && id !in l.disk.artifacts then WithoutStatus(l, id) else l
      case WriteTemporary(token) => WithTemporaries(l, l.disk.temporaries + {token})
      case ReplaceStatus(id, token) =>
        if Ahead(l, id) && !Expired(l.disk.status[id].value, now) && Unsettled(l, id, now)
           && id !in l.disk.artifacts && token in l.disk.temporaries
        then Replace(l, id, Settled(l.disk.status[id].value, None, now), token)
        else l
      case Take(id) =>
        if Ahead(l, id) && !Expired(l.disk.status[id].value, now) && !Unsettled(l, id, now) then
          Insert(l, id, l.disk.status[id].value)
        else l
      case SweepArtifact(id) => if AllLoaded(l) && Stray(l, id) then WithoutArtifact(l, id) else l
      case SweepTemporary(token) => WithTemporaries(l, l.disk.temporaries - {token})
  }

  /** Nothing is left to do. */
  ghost predicate Done(l: Loading) {
    !l.failed && AllLoaded(l) && (forall id :: id in l.disk.artifacts ==> !Stray(l, id)) && l.disk.temporaries == {}
  }

  // ----- What every prefix keeps -----

  ghost predicate Shrunk(d: Disk, e: Disk, id: JobId) {
    ArtifactOf(e, id) == ArtifactOf(d, id) || ArtifactOf(e, id) == None
  }

  /** What start-up makes of a record that it does not remove. */
  function Outcome(d: Disk, id: JobId, now: i64): JobRecord
    requires id in d.status && d.status[id].Some?
  {
    Settled(d.status[id].value, ArtifactOf(d, id), now)
  }

  /** The record as it was, its artifact possibly gone if it is going to be removed or failed. */
  ghost predicate Waiting(d: Disk, now: i64, e: Disk, id: JobId)
    requires id in d.status
  {
    && id in e.status && e.status[id] == d.status[id]
    && (ArtifactOf(e, id) == ArtifactOf(d, id)
        || (&& WellFormed(id, d.status[id]) && ArtifactOf(e, id) == None
            && (Expired(d.status[id].value, now) || Outcome(d, id, now) != d.status[id].value)))
  }

  /** The expired record is gone, after its artifact. */
  ghost predicate Removed(d: Disk, now: i64, e: Disk, id: JobId)
    requires id in d.status
  {
    WellFormed(id, d.status[id]) && Expired(d.status[id].value, now) && id !in e.status && ArtifactOf(e, id) == None
  }

  /** The record is on disk as start-up leaves it. */
  ghost predicate Kept(d: Disk, now: i64, e: Disk, id: JobId)
    requires id in d.status
  {
    && WellFormed(id, d.status[id]) && !Expired(d.status[id].value, now)
    && id in e.status && e.status[id] == Some(Outcome(d, id, now)) && Shrunk(d, e, id)
    && (Outcome(d, id, now).state == Completed ==> ArtifactOf(e, id) == ArtifactOf(d, id))
  }

  ghost predicate LoadAt(d: Disk, now: i64, l: Loading, id: JobId) {
    if id !in d.status then id !in l.disk.status && id !in l.loaded && Shrunk(d, l.disk, id)
    else if id in l.loaded then Kept(d, now, l.disk, id) && l.loaded[id] == Outcome(d, id, now)
    else Waiting(d, now, l.disk, id) || Removed(d, now, l.disk, id) || (l.failed && Kept(d, now, l.disk, id))
  }

  /** How far a start-up that found the directory `d` has come. */
  ghost predicate LoadingFrom(d: Disk, now: i64, l: Loading) {
    l.disk.partials == d.partials && |l.loaded| <= MAX_JOBS
    && forall id {:trigger LoadAt(d, now, l, id)} :: LoadAt(d, now, l, id)
  }

  lemma LoadStarts(d: Disk, now: i64)
    ensures LoadingFrom(d, now, Loading(d, map[], false))
  {
  }

  lemma InsertCounts(l: Loading, now: i64, step: LoadStep)
    requires |l.loaded| <= MAX_JOBS
    ensures |ApplyLoad(l, now, step).loaded| <= MAX_JOBS
  {
    hide Settled, Expired, WellFormed;
    if step.ReplaceStatus? || step.Take? {
      var loaded := ApplyLoad(l, now, step).loaded;
      assert loaded.Keys == l.loaded.Keys || loaded.Keys == l.loaded.Keys + {step.id};
      assert |loaded| == |loaded.Keys| && |l.loaded| == |l.loaded.Keys|;
    }
  }

  /** Without its artifact a record that must be failed still must be, and in the same way. */
  lemma OutcomeWithout(r: JobRecord, a: Option<Artifact>, now: i64)
    ensures Settled(r, a, now) != r ==>
            Settled(r, None, now) == Settled(r, a, now) && Settled(r, a, now).state == Failed
  {
  }

  /** Nothing about this job has changed, except that the quota may have refused another. */
  ghost predicate SameView(l: Loading, l': Loading, id: JobId) {
    && (id in l'.disk.status <==> id in l.disk.status)
    && (id in l.disk.status ==> l'.disk.status[id] == l.disk.status[id])
    && (id in l'.loaded <==> id in l.loaded) && (id in l.loaded ==> l'.loaded[id] == l.loaded[id])
    && ArtifactOf(l'.disk, id) == ArtifactOf(l.disk, id) && (l.failed ==> l'.failed)
  }

  predicate Concerns(step: LoadStep, id: JobId) {
    !step.WriteTemporary? && !step.SweepTemporary? && step.id == id
  }

  lemma RemovedElsewhere(l: Loading, id: JobId, x: JobId)
    requires x != id
    ensures SameView(l, WithoutArtifact(l, x), id) && SameView(l, WithoutStatus(l, x), id)
  {
  }

  lemma InsertedElsewhere(l: Loading, id: JobId, x: JobId, r: JobRecord)
    requires x != id
    ensures SameView(l, Insert(l, x, r), id)
  {
  }

  lemma ReplacedElsewhere(l: Loading, id: JobId, x: JobId, r: JobRecord, token: Id)
    requires x != id
    ensures SameView(l, Replace(l, x, r, token), id)
  {
    var l' := WithTemporaries(WithStatus(l, x, r), l.disk.temporaries - {token});
    assert SameView(l, l', id);
    InsertedElsewhere(l', id, x, r);
  }

  lemma SameAsBefore(l: Loading, id: JobId)
    ensures SameView(l, l, id)
  {
  }

  lemma OtherSteps(l: Loading, now: i64, step: LoadStep, id: JobId)
    requires !Concerns(step, id)
    ensures SameView(l, ApplyLoad(l, now, step), id)
  {
    SameAsBefore(l, id);
    if !step.WriteTemporary? && !step.SweepTemporary? {
      var x := step.id;
      RemovedElsewhere(l, id, x);
      if Ahead(l, x) {
        InsertedElsewhere(l, id, x, l.disk.status[x].value);
        if step.ReplaceStatus? {
          ReplacedElsewhere(l, id, x, Settled(l.disk.status[x].value, None, now), step.token);
        }
      }
      hide Settled, Expired, Ahead, Unsettled, AllLoaded, Stray, SameView, WithoutArtifact, WithoutStatus, Insert;
      hide Replace;
    }
  }

  lemma SameViewKeeps(d: Disk, now: i64, l: Loading, l': Loading, id: JobId)
    requires LoadAt(d, now, l, id) && SameView(l, l', id)
    ensures LoadAt(d, now, l', id)
  {
    hide Settled, Expired, WellFormed;
  }

  lemma DropKeeps(d: Disk, now: i64, l: Loading, id: JobId)
    requires LoadAt(d, now, l, id)
    ensures LoadAt(d, now, ApplyLoad(l, now, DropArtifact(id)), id)
    ensures LoadAt(d, now, ApplyLoad(l, now, DropStatus(id)), id)
  {
    hide Settled, Expired, WellFormed;
    if id in d.status {
      Parsed(id, d.status[id]);
    }
  }

  lemma ReplaceKeeps(d: Disk, now: i64, l: Loading, id: JobId, token: Id)
    requires LoadAt(d, now, l, id)
    ensures LoadAt(d, now, ApplyLoad(l, now, ReplaceStatus(id, token)), id)
  {
    hide Settled, Expired, WellFormed;
    if id in d.status {
      Parsed(id, d.status[id]);
      if d.status[id].Some? {
        OutcomeWithout(d.status[id].value, ArtifactOf(d, id), now);
      }
    }
  }

  lemma TakeKeeps(d: Disk, now: i64, l: Loading, id: JobId)
    requires LoadAt(d, now, l, id)
    ensures LoadAt(d, now, ApplyLoad(l, now, Take(id)), id)
  {
    hide Settled, Expired, WellFormed;
    if id in d.status {
      Parsed(id, d.status[id]);
      if d.status[id].Some? {
        OutcomeWithout(d.status[id].value, ArtifactOf(d, id), now);
      }
    }
  }

  lemma SweepKeeps(d: Disk, now: i64, l: Loading, id: JobId)
    requires LoadAt(d, now, l, id)
    ensures LoadAt(d, now, ApplyLoad(l, now, SweepArtifact(id)), id)
  {
    hide Settled, Expired, WellFormed;
    assert AllLoaded(l) ==> (id in l.disk.status <==> id in l.loaded);
  }

  lemma StepKeepsLoadAt(d: Disk, now: i64, l: Loading, step: LoadStep, id: JobId)
    requires LoadAt(d, now, l, id)
    ensures LoadAt(d, now, ApplyLoad(l, now, step), id)
  {
    hide LoadAt, ApplyLoad, SameView;
    if !Concerns(step, id) {
      OtherSteps(l, now, step, id);
      SameViewKeeps(d, now, l, ApplyLoad(l, now, step), id);
    } else {
      match step
      case DropArtifact(_) => DropKeeps(d, now, l, id);
      case DropStatus(_) => DropKeeps(d, now, l, id);
      case ReplaceStatus(_, token) => ReplaceKeeps(d, now, l, id, token);
      case Take(_) => TakeKeeps(d, now, l, id);
      case SweepArtifact(_) => SweepKeeps(d, now, l, id);
    }
  }

  lemma StepKeepsLoading(d: Disk, now: i64, l: Loading, step: LoadStep)
    requires LoadingFrom(d, now, l)
    ensures LoadingFrom(d, now, ApplyLoad(l, now, step))
  {
    hide LoadAt, Settled, Expired, WellFormed, Unsettled;
    forall id: JobId
      ensures LoadAt(d, now, ApplyLoad(l, now, step), id)
    {
      StepKeepsLoadAt(d, now, l, step, id);
    }
    InsertCounts(l, now, step);
  }

  // ----- Where a finished start-up ends -----

  /** One job after a finished start-up. */
  ghost predicate EndsAt(d: Disk, now: i64, l: Loading, id: JobId) {
    && (id in d.status ==> WellFormed(id, d.status[id]))
    && (id in l.loaded <==> id in Surviving(d, now))
    && (id in l.loaded ==> id in d.status && d.status[id].Some? && l.loaded[id] == Outcome(d, id, now))
    && (id in l.disk.status <==> id in l.loaded) && (id in l.loaded ==> l.disk.status[id] == Some(l.loaded[id]))
    && (id in l.disk.artifacts <==> id in d.artifacts && id in l.loaded && l.loaded[id].state == Completed)
    && (id in l.disk.artifacts ==> l.disk.artifacts[id] == d.artifacts[id])
  }

  lemma DoneEndsAt(d: Disk, now: i64, l: Loading, id: JobId)
    requires LoadingFrom(d, now, l) && Done(l)
    ensures EndsAt(d, now, l, id)
  {
    hide Settled, Expired;
    assert LoadAt(d, now, l, id);
    assert id in l.disk.artifacts ==> !Stray(l, id);
    assert id in l.disk.status <==> id in l.loaded;
  }

  /** However its file operations were ordered, a start-up that finishes has done what `LoadStatuses` promises. */
  lemma FinishedIsLoaded(d: Disk, now: i64, l: Loading)
    requires LoadingFrom(d, now, l) && Done(l)
    ensures Loadable(d, now) && l.loaded == LoadedJobs(d, now) && l.disk == LoadedDisk(d, now)
  {
    DoneFacts(d, now, l);
    forall id: JobId
      ensures EndsAt(d, now, l, id)
    {
      DoneEndsAt(d, now, l, id);
    }
    EndsLoaded(d, now, l);
  }

  lemma EndsLoaded(d: Disk, now: i64, l: Loading)
    requires l.disk.partials == d.partials && l.disk.temporaries == {} && |l.loaded| <= MAX_JOBS
    requires forall id {:trigger EndsAt(d, now, l, id)} :: EndsAt(d, now, l, id)
    ensures Loadable(d, now) && l.loaded == LoadedJobs(d, now) && l.disk == LoadedDisk(d, now)
  {
    hide Settled, WellFormed, Expired;
    forall id | id in d.status
      ensures WellFormed(id, d.status[id])
    {
      assert EndsAt(d, now, l, id);
    }
    forall id: JobId
      ensures id in l.loaded <==> id in Surviving(d, now)
      ensures id in l.disk.status <==> id in l.loaded
    {
      assert EndsAt(d, now, l, id);
    }
    assert l.loaded.Keys == Surviving(d, now) && |l.loaded| == |l.loaded.Keys|;
    forall id | id in l.loaded
      ensures id in d.status && d.status[id].Some? && l.loaded[id] == Outcome(d, id, now)
              && l.disk.status[id] == Some(l.loaded[id])
    {
      assert EndsAt(d, now, l, id);
    }
    assert l.loaded == LoadedJobs(d, now);
    forall id: JobId
      ensures id in l.disk.artifacts <==> id in d.artifacts && id in l.loaded && l.loaded[id].state == Completed
      ensures id in l.disk.artifacts ==> l.disk.artifacts[id] == d.artifacts[id]
    {
      assert EndsAt(d, now, l, id);
    }
  }

  lemma DoneFacts(d: Disk, now: i64, l: Loading)
    requires LoadingFrom(d, now, l) && Done(l)
    ensures l.disk.partials == d.partials && l.disk.temporaries == {} && |l.loaded| <= MAX_JOBS && AllLoaded(l)
  {
  }

  // ----- A start-up that is cut off -----

  /** One record after a cut-off start-up is settled by the next one as it would have been. */
  lemma CutOffAt(d: Disk, now: i64, l: Loading, id: JobId)
    requires LoadAt(d, now, l, id) && now < I64_MAX
    ensures id in Surviving(l.disk, now) <==> id in Surviving(d, now)
    ensures id in Surviving(d, now) ==>
            && id in d.status && d.status[id].Some? && id in l.disk.status && l.disk.status[id].Some?
            && (WellFormed(id, l.disk.status[id]) <==> WellFormed(id, d.status[id]))
            && (WellFormed(id, d.status[id]) ==> Outcome(l.disk, id, now) == Outcome(d, id, now))
            && (Outcome(d, id, now).state == Completed ==> ArtifactOf(l.disk, id) == ArtifactOf(d, id))
    ensures (id in l.disk.status ==> WellFormed(id, l.disk.status[id])) <==>
            (id in d.status ==> WellFormed(id, d.status[id]))
  {
    hide Settled, Expired;
    if id in d.status && d.status[id].Some? {
      var r := d.status[id].value;
      OutcomeWithout(r, ArtifactOf(d, id), now);
      if WellFormed(id, d.status[id]) && !Expired(r, now) {
        SettledLasts(r, ArtifactOf(d, id), now);
        FailedStays(Outcome(d, id, now), ArtifactOf(l.disk, id), now);
      }
    }
  }

  lemma FailedStays(r: JobRecord, a: Option<Artifact>, now: i64)
    ensures r.state == Failed ==> Settled(r, a, now) == r
  {
  }

  lemma CutOffSurvivors(d: Disk, now: i64, l: Loading)
    requires LoadingFrom(d, now, l) && now < I64_MAX
    ensures Surviving(l.disk, now) == Surviving(d, now) && (Loadable(l.disk, now) <==> Loadable(d, now))
  {
    hide LoadAt, Surviving, WellFormed;
    forall id: JobId {:trigger id in Surviving(d, now)} {:trigger id in d.status} {:trigger id in l.disk.status}
      ensures id in Surviving(l.disk, now) <==> id in Surviving(d, now)
      ensures (id in l.disk.status ==> WellFormed(id, l.disk.status[id])) <==>
              (id in d.status ==> WellFormed(id, d.status[id]))
    {
      assert LoadAt(d, now, l, id);
      CutOffAt(d, now, l, id);
    }
    assert Surviving(l.disk, now) == Surviving(d, now);
  }

  /**
   * A start-up cut off after any of its file operations does no harm: started again, it accepts the same directories
   * and ends where the first one would have ended.
   */
  lemma CutOffReopensAlike(d: Disk, now: i64, l: Loading)
    requires LoadingFrom(d, now, l) && now < I64_MAX
    ensures Loadable(l.disk, now) <==> Loadable(d, now)
    ensures Loadable(d, now) ==>
            LoadedJobs(l.disk, now) == LoadedJobs(d, now) && LoadedDisk(l.disk, now) == LoadedDisk(d, now)
  {
    hide Loadable, LoadedJobs, LoadedDisk;
    CutOffSurvivors(d, now, l);
    if Loadable(d, now) {
      CutOffJobs(d, now, l);
      CutOffDisk(d, now, l);
    }
  }

  lemma CutOffJobs(d: Disk, now: i64, l: Loading)
    requires LoadingFrom(d, now, l) && now < I64_MAX && Loadable(d, now) && Surviving(l.disk, now) == Surviving(d, now)
    ensures LoadedJobs(l.disk, now) == LoadedJobs(d, now)
  {
    hide LoadAt, Settled, WellFormed, Expired;
    forall id | id in Surviving(d, now)
      ensures Outcome(l.disk, id, now) == Outcome(d, id, now)
    {
      assert LoadAt(d, now, l, id);
      CutOffAt(d, now, l, id);
    }
  }

  lemma CutOffDisk(d: Disk, now: i64, l: Loading)
    requires LoadingFrom(d, now, l) && now < I64_MAX && Loadable(d, now)
    requires Surviving(l.disk, now) == Surviving(d, now) && LoadedJobs(l.disk, now) == LoadedJobs(d, now)
    ensures LoadedDisk(l.disk, now) == LoadedDisk(d, now)
  {
    hide LoadAt, Settled, WellFormed, Expired, Surviving;
    var a, b := LoadedDisk(l.disk, now), LoadedDisk(d, now);
    var jobs := LoadedJobs(d, now);
    assert forall id :: id in jobs ==> a.status[id] == Some(jobs[id]) && b.status[id] == Some(jobs[id]);
    assert a.status == b.status;
    forall id | id in jobs && jobs[id].state == Completed
      ensures ArtifactOf(l.disk, id) == ArtifactOf(d, id)
    {
      assert LoadAt(d, now, l, id);
      CutOffAt(d, now, l, id);
    }
    assert a.artifacts == b.artifacts;
  }

  /** It opens at any later time as well. */
  lemma CutOffOpensLater(d: Disk, now: i64, l: Loading, later: i64)
    requires LoadingFrom(d, now, l) && now < I64_MAX && now <= later && Loadable(d, now)
    ensures Loadable(l.disk, later)
  {
    CutOffSurvivors(d, now, l);
    Fewer(Surviving(l.disk, later), Surviving(l.disk, now));
  }

  // ----- A start-up that is left alone finishes -----

  function RunLoad(l: Loading, now: i64, steps: seq<LoadStep>): Loading
    decreases |steps|
  {
    if steps == [] then l else RunLoad(ApplyLoad(l, now, steps[0]), now, steps[1..])
  }

  lemma {:induction false} RunLoadSplit(l: Loading, now: i64, a: seq<LoadStep>, b: seq<LoadStep>)
    ensures RunLoad(l, now, a + b) == RunLoad(RunLoad(l, now, a), now, b)
    decreases |a|
  {
    hide ApplyLoad;
    if a == [] {
      assert a + b == b;
    } else {
      assert (a + b)[1..] == a[1..] + b;
      RunLoadSplit(ApplyLoad(l, now, a[0]), now, a[1..], b);
    }
  }

  lemma {:induction false} RunKeepsLoading(d: Disk, now: i64, l: Loading, steps: seq<LoadStep>)
    requires LoadingFrom(d, now, l)
    ensures LoadingFrom(d, now, RunLoad(l, now, steps))
    decreases |steps|
  {
    hide LoadingFrom, ApplyLoad;
    if steps != [] {
      StepKeepsLoading(d, now, l, steps[0]);
      RunKeepsLoading(d, now, ApplyLoad(l, now, steps[0]), steps[1..]);
    }
  }

  lemma RunOne(l: Loading, now: i64, a: LoadStep)
    ensures RunLoad(l, now, [a]) == ApplyLoad(l, now, a)
  {
    hide ApplyLoad;
    assert [a][1..] == [];
  }

  lemma RunTwo(l: Loading, now: i64, a: LoadStep, b: LoadStep)
    ensures RunLoad(l, now, [a, b]) == ApplyLoad(ApplyLoad(l, now, a), now, b)
  {
    hide ApplyLoad;
    assert [a, b][1..] == [b];
    RunOne(ApplyLoad(l, now, a), now, b);
  }

  lemma RunThree(l: Loading, now: i64, a: LoadStep, b: LoadStep, c: LoadStep)
    ensures RunLoad(l, now, [a, b, c]) == ApplyLoad(ApplyLoad(ApplyLoad(l, now, a), now, b), now, c)
  {
    hide ApplyLoad;
    assert [a, b, c][1..] == [b, c];
    RunTwo(ApplyLoad(l, now, a), now, b, c);
  }

  /** Whoever is not loaded yet and survives still has room. */
  lemma Room(d: Disk, now: i64, l: Loading, id: JobId)
    requires LoadingFrom(d, now, l) && Loadable(d, now) && id in Surviving(d, now) && id !in l.loaded
    ensures |l.loaded| < MAX_JOBS
  {
    hide Settled, Expired;
    forall x | x in l.loaded
      ensures x in Surviving(d, now)
    {
      assert LoadAt(d, now, l, x);
    }
    Fewer(l.loaded.Keys + {id}, Surviving(d, now));
    assert |l.loaded| == |l.loaded.Keys|;
  }

  ghost function Todo(l: Loading): set<JobId> {
    l.disk.status.Keys - l.loaded.Keys
  }

  /** The record can be handled, and unless it has expired there is room for it. */
  lemma Ready(d: Disk, now: i64, l: Loading, id: JobId)
    requires LoadingFrom(d, now, l) && !l.failed && Loadable(d, now) && id in Todo(l)
    ensures Ahead(l, id) && (!Expired(l.disk.status[id].value, now) ==> |l.loaded| < MAX_JOBS)
  {
    hide Settled, Expired;
    assert LoadAt(d, now, l, id);
    if !Expired(l.disk.status[id].value, now) {
      Room(d, now, l, id);
    }
  }

  lemma HandleExpired(l: Loading, now: i64, id: JobId)
    requires !l.failed && Ahead(l, id) && Expired(l.disk.status[id].value, now)
    ensures var l' := RunLoad(l, now, [DropArtifact(id), DropStatus(id)]); !l'.failed && Todo(l') == Todo(l) - {id}
  {
    hide Settled, Expired, WellFormed;
    RunTwo(l, now, DropArtifact(id), DropStatus(id));
  }

  lemma StillUnsettled(l: Loading, now: i64, id: JobId)
    requires Ahead(l, id) && Unsettled(l, id, now)
    ensures Ahead(WithoutArtifact(l, id), id) && Unsettled(WithoutArtifact(l, id), id, now)
  {
    OutcomeWithout(l.disk.status[id].value, ArtifactOf(l.disk, id), now);
  }

  lemma ReplaceHandles(l: Loading, now: i64, id: JobId, token: Id)
    requires !l.failed && Ahead(l, id) && !Expired(l.disk.status[id].value, now) && Unsettled(l, id, now)
             && |l.loaded| < MAX_JOBS
    requires id !in l.disk.artifacts && token in l.disk.temporaries
    ensures var l' := ApplyLoad(l, now, ReplaceStatus(id, token)); !l'.failed && Todo(l') == Todo(l) - {id}
  {
    hide Settled, Expired, WellFormed, Unsettled;
    var l' := ApplyLoad(l, now, ReplaceStatus(id, token));
    assert l'.disk.status.Keys == l.disk.status.Keys && l'.loaded.Keys == l.loaded.Keys + {id};
  }

  lemma HandleUnsettled(l: Loading, now: i64, id: JobId)
    requires !l.failed && Ahead(l, id) && !Expired(l.disk.status[id].value, now) && Unsettled(l, id, now)
             && |l.loaded| < MAX_JOBS
    ensures var l' := RunLoad(l, now, [DropArtifact(id), WriteTemporary(id.uuid), ReplaceStatus(id, id.uuid)]);
            !l'.failed && Todo(l') == Todo(l) - {id}
  {
    StillUnsettled(l, now, id);
    var l1 := WithoutArtifact(l, id);
    var l2 := WithTemporaries(l1, l1.disk.temporaries + {id.uuid});
    assert ApplyLoad(l, now, DropArtifact(id)) == l1;
    assert Unsettled(l2, id, now) && Todo(l2) == Todo(l);
    hide Settled, Expired, WellFormed, RunLoad;
    assert ApplyLoad(l1, now, WriteTemporary(id.uuid)) == l2;
    RunThree(l, now, DropArtifact(id), WriteTemporary(id.uuid), ReplaceStatus(id, id.uuid));
    ReplaceHandles(l2, now, id, id.uuid);
  }

  /** The file operations for one record. */
  lemma HandleOne(d: Disk, now: i64, l: Loading, id: JobId) returns (steps: seq<LoadStep>)
    requires LoadingFrom(d, now, l) && !l.failed && Loadable(d, now) && id in Todo(l)
    ensures !RunLoad(l, now, steps).failed && Todo(RunLoad(l, now, steps)) == Todo(l) - {id}
  {
    Ready(d, now, l, id);
    hide Settled, Expired, WellFormed, LoadingFrom, Loadable;
    if Expired(l.disk.status[id].value, now) {
      steps := [DropArtifact(id), DropStatus(id)];
      HandleExpired(l, now, id);
    } else if Unsettled(l, id, now) {
      steps := [DropArtifact(id), WriteTemporary(id.uuid), ReplaceStatus(id, id.uuid)];
      HandleUnsettled(l, now, id);
    } else {
      steps := [Take(id)];
      RunOne(l, now, steps[0]);
    }
  }

  lemma {:induction false} HandleAll(d: Disk, now: i64, l: Loading) returns (steps: seq<LoadStep>)
    requires LoadingFrom(d, now, l) && !l.failed && Loadable(d, now)
    ensures !RunLoad(l, now, steps).failed && Todo(RunLoad(l, now, steps)) == {}
    decreases Todo(l)
  {
    hide LoadingFrom, Loadable, Todo;
    if Todo(l) == {} {
      steps := [];
    } else {
      var id :| id in Todo(l);
      var first := HandleOne(d, now, l, id);
      RunKeepsLoading(d, now, l, first);
      var rest := HandleAll(d, now, RunLoad(l, now, first));
      RunLoadSplit(l, now, first, rest);
      steps := first + rest;
    }
  }

  lemma {:induction false} SweepAll(l: Loading, now: i64) returns (steps: seq<LoadStep>)
    requires !l.failed && AllLoaded(l)
    ensures Done(RunLoad(l, now, steps))
    decreases l.disk.artifacts.Keys, l.disk.temporaries
  {
    hide RunLoad;
    if id :| id in l.disk.artifacts && Stray(l, id) {
      var rest := SweepAll(ApplyLoad(l, now, SweepArtifact(id)), now);
      RunOne(l, now, SweepArtifact(id));
      RunLoadSplit(l, now, [SweepArtifact(id)], rest);
      steps := [SweepArtifact(id)] + rest;
    } else if l.disk.temporaries != {} {
      var token :| token in l.disk.temporaries;
      var rest := SweepAll(ApplyLoad(l, now, SweepTemporary(token)), now);
      RunOne(l, now, SweepTemporary(token));
      RunLoadSplit(l, now, [SweepTemporary(token)], rest);
      steps := [SweepTemporary(token)] + rest;
    } else {
      steps := [];
      RunNone(l, now);
    }
  }

  lemma RunNone(l: Loading, now: i64)
    ensures RunLoad(l, now, []) == l
  {
  }

  /** From any point of a start-up that has not been refused, some further file operations finish it. */
  lemma StartUpFinishes(d: Disk, now: i64, l: Loading) returns (steps: seq<LoadStep>)
    requires LoadingFrom(d, now, l) && !l.failed && Loadable(d, now)
    ensures Done(RunLoad(l, now, steps))
    ensures RunLoad(l, now, steps) == Loading(LoadedDisk(d, now), LoadedJobs(d, now), false)
  {
    hide LoadingFrom, Loadable, RunLoad, LoadedDisk, LoadedJobs;
    var first := HandleAll(d, now, l);
    var l1 := RunLoad(l, now, first);
    RunKeepsLoading(d, now, l, first);
    NothingTodo(d, now, l1);
    var rest := SweepAll(l1, now);
    RunLoadSplit(l, now, first, rest);
    steps := first + rest;
    RunKeepsLoading(d, now, l, steps);
    FinishedIsLoaded(d, now, RunLoad(l, now, steps));
  }

  lemma NothingTodo(d: Disk, now: i64, l: Loading)
    requires LoadingFrom(d, now, l) && Todo(l) == {}
    ensures AllLoaded(l)
  {
    forall id | id in l.loaded
      ensures id in l.disk.status
    {
      assert LoadAt(d, now, l, id);
    }
    assert forall id :: id in l.disk.status.Keys && id !in l.loaded.Keys ==> id in Todo(l);
  }

  // ----- A start-up that is refused makes progress -----

  /** Jobs that are still pending or running on disk. */
  function Live(d: Disk): set<JobId> {
    set id | id in d.status && d.status[id].Some? && !Terminal(d.status[id].value)
  }

  /** Every finished job has expired: whoever restarts the server has waited long enough. */
  ghost predicate Waited(d: Disk, now: i64) {
    && (forall id :: id in d.status ==> WellFormed(id, d.status[id]))
    && (forall id :: id in d.status && Terminal(d.status[id].value) ==> Expired(d.status[id].value, now))
  }

  /** The quota has refused this job, with as many as allowed before it; on disk it is settled all the same. */
  ghost predicate RefusedAt(d: Disk, now: i64, l: Loading, id: JobId) {
    |l.loaded| >= MAX_JOBS && id !in l.loaded && id in d.status && Kept(d, now, l.disk, id)
  }

  ghost predicate HasRefused(d: Disk, now: i64, l: Loading) {
    l.failed ==> exists id :: RefusedAt(d, now, l, id)
  }

  lemma ReplaceRefused(d: Disk, now: i64, l: Loading, id: JobId, token: Id)
    requires LoadAt(d, now, l, id) && !l.failed && ApplyLoad(l, now, ReplaceStatus(id, token)).failed
    ensures RefusedAt(d, now, ApplyLoad(l, now, ReplaceStatus(id, token)), id)
  {
    hide Settled, Expired, WellFormed;
    Parsed(id, d.status[id]);
    OutcomeWithout(d.status[id].value, ArtifactOf(d, id), now);
  }

  lemma TakeRefused(d: Disk, now: i64, l: Loading, id: JobId)
    requires LoadAt(d, now, l, id) && !l.failed && ApplyLoad(l, now, Take(id)).failed
    ensures RefusedAt(d, now, ApplyLoad(l, now, Take(id)), id)
  {
    hide Settled, Expired, WellFormed;
    Parsed(id, d.status[id]);
    OutcomeWithout(d.status[id].value, ArtifactOf(d, id), now);
  }

  lemma OnlyTheseRefuse(l: Loading, now: i64, step: LoadStep)
    ensures l.failed ==> ApplyLoad(l, now, step) == l
    ensures !l.failed && ApplyLoad(l, now, step).failed ==> step.ReplaceStatus? || step.Take?
  {
    hide Settled, Expired, WellFormed;
  }

  lemma StepKeepsRefusal(d: Disk, now: i64, l: Loading, step: LoadStep)
    requires LoadingFrom(d, now, l) && HasRefused(d, now, l)
    ensures HasRefused(d, now, ApplyLoad(l, now, step))
  {
    hide ApplyLoad, RefusedAt, LoadAt;
    OnlyTheseRefuse(l, now, step);
    if !l.failed && ApplyLoad(l, now, step).failed {
      assert LoadAt(d, now, l, step.id);
      match step
      case ReplaceStatus(id, token) => ReplaceRefused(d, now, l, id, token);
      case Take(id) => TakeRefused(d, now, l, id);
    }
  }

  lemma {:induction false} RunKeepsRefusal(d: Disk, now: i64, l: Loading, steps: seq<LoadStep>)
    requires LoadingFrom(d, now, l) && HasRefused(d, now, l)
    ensures HasRefused(d, now, RunLoad(l, now, steps))
    decreases |steps|
  {
    hide LoadingFrom, HasRefused, ApplyLoad;
    if steps != [] {
      StepKeepsLoading(d, now, l, steps[0]);
      StepKeepsRefusal(d, now, l, steps[0]);
      RunKeepsRefusal(d, now, ApplyLoad(l, now, steps[0]), steps[1..]);
    }
  }

  lemma SettledIsTerminal(r: JobRecord, a: Option<Artifact>, now: i64)
    ensures Terminal(Settled(r, a, now))
  {
  }

  /** After a long enough wait, a job that is kept was live, and is no longer. */
  lemma KeptWasLive(d: Disk, now: i64, e: Disk, id: JobId)
    requires Waited(d, now) && id in d.status && Kept(d, now, e, id)
    ensures id in Live(d) && id !in Live(e)
  {
    hide Settled;
    SettledIsTerminal(d.status[id].value, ArtifactOf(d, id), now);
  }

  /** No job comes to life during a start-up. */
  lemma NoneRevived(d: Disk, now: i64, l: Loading, id: JobId)
    requires Waited(d, now) && LoadAt(d, now, l, id) && id in Live(l.disk)
    ensures id in Live(d) && id !in l.loaded
  {
    hide Settled;
    if id in d.status {
      Parsed(id, d.status[id]);
      SettledIsTerminal(d.status[id].value, ArtifactOf(d, id), now);
    }
  }

  /**
   * A start-up that the quota refuses, after a long enough wait, has still failed 33 of the live jobs on disk; they
   * expire in turn, so that after finitely many such start-ups the registry opens.
   */
  lemma RefusedMakesProgress(d: Disk, now: i64, steps: seq<LoadStep>)
    requires Waited(d, now) && RunLoad(Loading(d, map[], false), now, steps).failed
    ensures |Live(RunLoad(Loading(d, map[], false), now, steps).disk)| + MAX_JOBS + 1 <= |Live(d)|
  {
    hide LoadAt, Kept, Live, Waited, RunLoad;
    LoadStarts(d, now);
    var l := RunLoad(Loading(d, map[], false), now, steps);
    RunKeepsLoading(d, now, Loading(d, map[], false), steps);
    RunKeepsRefusal(d, now, Loading(d, map[], false), steps);
    var id :| RefusedAt(d, now, l, id);
    var failed := l.loaded.Keys + {id};
    forall x | x in failed
      ensures x in Live(d) && x !in Live(l.disk)
    {
      assert LoadAt(d, now, l, x);
      LoadedIsKept(d, now, l, x);
      KeptWasLive(d, now, l.disk, x);
    }
    forall x | x in Live(l.disk)
      ensures x in Live(d)
    {
      assert LoadAt(d, now, l, x);
      NoneRevived(d, now, l, x);
    }
    assert failed !! Live(l.disk) && |failed| >= MAX_JOBS + 1 && |l.loaded| == |l.loaded.Keys|;
    Fewer(failed + Live(l.disk), Live(d));
  }

  lemma LoadedIsKept(d: Disk, now: i64, l: Loading, id: JobId)
    requires LoadAt(d, now, l, id)
    ensures id in l.loaded ==> id in d.status && Kept(d, now, l.disk, id)
  {
  }

  /** With at most 32 live jobs left, a start-up after a long enough wait is not refused. */
  lemma WaitedOpens(d: Disk, now: i64)
    requires Waited(d, now) && |Live(d)| <= MAX_JOBS
    ensures Loadable(d, now)
  {
    hide WellFormed;
    Fewer(Surviving(d, now), Live(d));
  }

  /**
   * So a directory with at most 65 live jobs opens at the latest on the second start-up that has waited long enough.
   */
  lemma RefusedThenOpens(d: Disk, now: i64, steps: seq<LoadStep>, later: i64)
    requires Waited(d, now) && |Live(d)| <= 2 * MAX_JOBS + 1
    requires var l := RunLoad(Loading(d, map[], false), now, steps); l.failed && Waited(l.disk, later)
    ensures Loadable(RunLoad(Loading(d, map[], false), now, steps).disk, later)
  {
    hide Waited, Live, RunLoad, Loadable;
    RefusedMakesProgress(d, now, steps);
    WaitedOpens(RunLoad(Loading(d, map[], false), now, steps).disk, later);
  }

  // ----- What the registry needs of one file operation -----

  /** The record is well formed, and if it is loaded it is on disk as it was loaded. */
  ghost predicate AgreesAt(l: Loading, id: JobId) {
    && (id in l.disk.status ==> WellFormed(id, l.disk.status[id]))
    && (id in l.loaded ==> id in l.disk.status && l.disk.status[id] == Some(l.loaded[id]))
  }

  ghost predicate Agrees(l: Loading) {
    |l.loaded| <= MAX_JOBS && forall id {:trigger AgreesAt(l, id)} :: AgreesAt(l, id)
  }

  lemma SettledWellFormed(id: JobId, r: JobRecord, a: Option<Artifact>, now: i64)
    requires WellFormed(id, Some(r))
    ensures WellFormed(id, Some(Settled(r, a, now)))
  {
  }

  lemma StepAgreesAt(l: Loading, now: i64, step: LoadStep, id: JobId)
    requires AgreesAt(l, id)
    ensures AgreesAt(ApplyLoad(l, now, step), id) && (id in ApplyLoad(l, now, step).disk.status ==> id in l.disk.status)
  {
    if !Concerns(step, id) {
      hide ApplyLoad;
      OtherSteps(l, now, step, id);
    } else {
      if id in l.disk.status {
        Parsed(id, l.disk.status[id]);
        SettledWellFormed(id, l.disk.status[id].value, None, now);
      }
      hide Settled, Expired, WellFormed, Unsettled, AllLoaded, Stray;
    }
  }

  lemma StepKeepsAgreement(l: Loading, now: i64, step: LoadStep)
    requires Agrees(l)
    ensures Agrees(ApplyLoad(l, now, step)) && ApplyLoad(l, now, step).disk.status.Keys <= l.disk.status.Keys
  {
    hide ApplyLoad, AgreesAt;
    InsertCounts(l, now, step);
    var l' := ApplyLoad(l, now, step);
    forall id: JobId
      ensures AgreesAt(l', id) && (id in l'.disk.status ==> id in l.disk.status)
    {
      StepAgreesAt(l, now, step, id);
    }
  }

  /** A completed job with an intact artifact. */
  ghost predicate Intact(d: Disk, id: JobId, r: JobRecord, a: Artifact) {
    && id in d.status && d.status[id] == Some(r) && id in d.artifacts && d.artifacts[id] == a
    && r.state == Completed && ArtifactValid(r, Some(a))
  }

  lemma StepKeepsIntact(l: Loading, now: i64, step: LoadStep, id: JobId, r: JobRecord, a: Artifact)
    requires Intact(l.disk, id, r, a) && !Expired(r, now) && (id in l.loaded ==> l.loaded[id] == r)
    ensures var l' := ApplyLoad(l, now, step); Intact(l'.disk, id, r, a) && (id in l'.loaded ==> l'.loaded[id] == r)
  {
    hide Expired, WellFormed, ArtifactValid;
    IntactIsSettled(r, a, now);
    assert AllLoaded(l) ==> (id in l.loaded <==> id in l.disk.status);
  }

  lemma IntactIsSettled(r: JobRecord, a: Artifact, now: i64)
    ensures r.state == Completed && ArtifactValid(r, Some(a)) ==> Settled(r, Some(a), now) == r
  {
  }
}
