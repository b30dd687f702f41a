/**
 * The single-use recovery channel: claim, stage one archive, activate once. Handlers are interleaved one step at a
 * time.
 */
module RecoveryChannel {
  import opened Bytes

  type HandlerId = nat

  datatype Archive = Archive(archiveId: Id, path: Id)

  /** Where a request handler is between two atomic operations. */
  datatype Stage =
    | ClaimSeen(code: bytes)
    | ClaimWon
    | VerifyAuthorized
    | Reserving
    | Receiving
    | ActivateAuthorized

  /** The shared state, and what the channel has done so far. */
  datatype Channel = Channel(claimed: bool, session: Option<bytes>, reserved: bool, consumed: bool,
                             pending: Option<Archive>, handlers: map<HandlerId, Stage>, claims: nat,
                             staged: seq<Archive>, restores: seq<(Archive, Id)>)

  const IDLE := Channel(false, None, false, false, None, map[], 0, [], [])

  datatype Step =
    | LookAtClaim(h: HandlerId, code: bytes, expired: bool)
    | WinClaim(h: HandlerId)
    | OpenSession(h: HandlerId, token: bytes)
    | AuthorizeVerify(h: HandlerId, token: bytes, expired: bool)
    | Reserve(h: HandlerId)
    | Extract(h: HandlerId, works: bool)
    | Reject(h: HandlerId)
    | StageArchive(h: HandlerId, archive: Archive)
    | AuthorizeActivate(h: HandlerId, token: bytes, expired: bool)
    | Activate(h: HandlerId, confirmed: Id)
    | Abandon(h: HandlerId)

  predicate Free(c: Channel, h: HandlerId) {
    h !in c.handlers
  }

  predicate At(c: Channel, h: HandlerId, s: Stage) {
    h in c.handlers && c.handlers[h] == s
  }

  function Put(c: Channel, h: HandlerId, s: Stage): Channel {
    c.(handlers := c.handlers[h := s])
  }

  function Leave(c: Channel, h: HandlerId): Channel {
    c.(handlers := c.handlers - {h})
  }

  /** `authorize`. */
  predicate Authorized(c: Channel, token: bytes, expired: bool) {
    !expired && !c.consumed && c.session == Some(token)
  }

  /** `claim_channel`: a look, then one compare-and-exchange, then the session. */
  function ApplyClaim(c: Channel, code: bytes, step: Step): Channel {
    match step
    case LookAtClaim(h, supplied, expired) =>
      if Free(c, h) && !expired && !c.claimed then Put(c, h, ClaimSeen(supplied)) else c
    case WinClaim(h) =>
      if h in c.handlers && c.handlers[h].ClaimSeen? then
        if c.handlers[h].code == code && !c.claimed then Put(c, h, ClaimWon).(claimed := true, claims := c.claims + 1)
        else Leave(c, h)
      else c
    case OpenSession(h, token) => if At(c, h, ClaimWon) then Leave(c, h).(session := Some(token)) else c
    case _ => c
  }

  /** `verify_archive`: reserve, extract, receive and verify, stage. */
  function ApplyVerify(c: Channel, step: Step): Channel {
    match step
    case AuthorizeVerify(h, token, expired) =>
      if Free(c, h) && Authorized(c, token, expired) then Put(c, h, VerifyAuthorized) else c
    case Reserve(h) =>
      if !At(c, h, VerifyAuthorized) then c
      else if c.reserved then Leave(c, h)
      else Put(c, h, Reserving).(reserved := true)
    case Extract(h, works) => if At(c, h, Reserving) then if works then Put(c, h, Receiving) else Leave(c, h) else c
    case Reject(h) => if At(c, h, Receiving) then Leave(c, h).(reserved := false) else c
    case StageArchive(h, archive) =>
      if At(c, h, Receiving) then Leave(c, h).(pending := Some(archive), staged := c.staged + [archive]) else c
    case _ => c
  }

  /** `activate_restore`: under the lock on the pending archive, compare the confirmation, swap `consumed`, take. */
  function ApplyActivate(c: Channel, step: Step): Channel {
    match step
    case AuthorizeActivate(h, token, expired) =>
      if Free(c, h) && Authorized(c, token, expired) then Put(c, h, ActivateAuthorized) else c
    case Activate(h, confirmed) =>
      if !At(c, h, ActivateAuthorized) then c
      else if c.pending.None? || c.pending.value.archiveId != confirmed then Leave(c, h)
      else if c.consumed then Leave(c, h)
      else Leave(c, h).(consumed := true, pending := None, restores := c.restores + [(c.pending.value, confirmed)])
    case _ => c
  }

  /** A handler whose request is dropped: what it had set stays set. */
  function ApplyAbandon(c: Channel, step: Step): Channel {
    match step
    case Abandon(h) => Leave(c, h)
    case _ => c
  }

  function Apply(c: Channel, code: bytes, step: Step): Channel {
    match step
    case LookAtClaim(_, _, _) => ApplyClaim(c, code, step)
    case WinClaim(_) => ApplyClaim(c, code, step)
    case OpenSession(_, _) => ApplyClaim(c, code, step)
    case AuthorizeActivate(_, _, _) => ApplyActivate(c, step)
    case Activate(_, _) => ApplyActivate(c, step)
    case Abandon(_) => ApplyAbandon(c, step)
    case _ => ApplyVerify(c, step)
  }

  function Run(c: Channel, code: bytes, steps: seq<Step>): Channel
    decreases |steps|
  {
    if steps == [] then c else Run(Apply(c, code, steps[0]), code, steps[1..])
  }

  // ----- What every interleaving keeps -----

  predicate HoldsReservation(s: Stage) {
    s.Reserving? || s.Receiving?
  }

  ghost predicate Inv(c: Channel) {
    // One claim, and the session only through it.
    && c.claims == (if c.claimed then 1 else 0) && (c.session.Some? ==> c.claimed)
    && (forall h :: h in c.handlers && c.handlers[h].ClaimWon? ==> c.claimed)
    // One reservation holder, none once an archive is staged.
    && (forall h :: h in c.handlers && HoldsReservation(c.handlers[h]) ==> c.reserved && c.staged == [])
    && (forall h, g ::
          h in c.handlers && g in c.handlers && HoldsReservation(c.handlers[h]) && HoldsReservation(c.handlers[g]) ==>
            h == g)
    && |c.staged| <= 1 && (c.staged != [] ==> c.reserved)
    // The pending archive is the staged one until it is consumed.
    && (c.pending.Some? ==> !c.consumed && c.staged == [c.pending.value])
    && (c.staged != [] && c.pending.None? ==> c.consumed)
    // One restore, of the staged archive the caller confirmed.
    && |c.restores| == (if c.consumed then 1 else 0)
    && (c.consumed ==> c.staged == [c.restores[0].0] && c.restores[0].0.archiveId == c.restores[0].1)
  }

  /** What one step may add. */
  ghost predicate Grows(c: Channel, d: Channel) {
    (c.consumed ==> d.consumed && d.staged == c.staged) && c.staged <= d.staged && c.restores <= d.restores
  }

  lemma ClaimKeepsInv(c: Channel, code: bytes, step: Step)
    requires Inv(c)
    ensures Inv(ApplyClaim(c, code, step)) && Grows(c, ApplyClaim(c, code, step))
  {
  }

  lemma VerifyKeepsInv(c: Channel, step: Step)
    requires Inv(c)
    ensures Inv(ApplyVerify(c, step)) && Grows(c, ApplyVerify(c, step))
  {
  }

  lemma ActivateKeepsInv(c: Channel, step: Step)
    requires Inv(c)
    ensures Inv(ApplyActivate(c, step)) && Grows(c, ApplyActivate(c, step))
    ensures Inv(ApplyAbandon(c, step)) && Grows(c, ApplyAbandon(c, step))
  {
  }

  lemma StepKeepsInv(c: Channel, code: bytes, step: Step)
    requires Inv(c)
    ensures Inv(Apply(c, code, step)) && Grows(c, Apply(c, code, step))
  {
    hide Inv, Grows, ApplyClaim, ApplyVerify, ApplyActivate, ApplyAbandon;
    ClaimKeepsInv(c, code, step);
    VerifyKeepsInv(c, step);
    ActivateKeepsInv(c, step);
  }

  /**
   * In every interleaving: at most one claim, one staged archive, one restore of it, and nothing staged after
   * consumption.
   */
  lemma {:induction false} RunsKeepInv(c: Channel, code: bytes, steps: seq<Step>)
    requires Inv(c)
    ensures var d := Run(c, code, steps);
            Inv(d) && Grows(c, d)
    decreases |steps|
  {
    hide Inv, Apply;
    if steps != [] {
      StepKeepsInv(c, code, steps[0]);
      RunsKeepInv(Apply(c, code, steps[0]), code, steps[1..]);
    }
  }

  /** From the start: the counts, and which archive a restore uses. */
  lemma SingleUse(code: bytes, steps: seq<Step>)
    ensures var c := Run(IDLE, code, steps);
            && c.claims <= 1 && |c.staged| <= 1 && |c.restores| <= 1
            && forall k :: 0 <= k < |c.restores| ==>
                c.restores[k].0 in c.staged && c.restores[k].0.archiveId == c.restores[k].1
  {
    RunsKeepInv(IDLE, code, steps);
  }

  // ----- Retrying a failed upload -----

  /** Reserved, nothing staged, and no handler that could still stage or release. */
  ghost predicate Stuck(c: Channel) {
    c.reserved && c.staged == [] && forall h :: h in c.handlers ==> !HoldsReservation(c.handlers[h])
  }

  lemma StepKeepsStuck(c: Channel, code: bytes, step: Step)
    requires Inv(c) && Stuck(c)
    ensures Stuck(Apply(c, code, step))
  {
  }

  /** A channel stuck this way never stages and never restores. */
  lemma {:induction false} StuckForGood(c: Channel, code: bytes, steps: seq<Step>)
    requires Inv(c) && Stuck(c)
    ensures Run(c, code, steps).staged == [] && Run(c, code, steps).restores == []
    decreases |steps|
  {
    if steps != [] {
      StepKeepsInv(c, code, steps[0]);
      StepKeepsStuck(c, code, steps[0]);
      StuckForGood(Apply(c, code, steps[0]), code, steps[1..]);
    }
  }

  /** A step that ends a reservation without releasing it: a failed extraction, or a holder whose request is dropped. */
  predicate Drops(c: Channel, step: Step) {
    match step
    case Extract(h, works) => !works && At(c, h, Reserving)
    case Abandon(h) => h in c.handlers && HoldsReservation(c.handlers[h])
    case _ => false
  }

  predicate Dropped(c: Channel, code: bytes, steps: seq<Step>)
    decreases |steps|
  {
    steps != [] && (Drops(c, steps[0]) || Dropped(Apply(c, code, steps[0]), code, steps[1..]))
  }

  lemma StepSticks(c: Channel, code: bytes, step: Step)
    requires Inv(c)
    ensures Stuck(Apply(c, code, step)) <==> Stuck(c) || Drops(c, step)
  {
    if Stuck(c) {
      StepKeepsStuck(c, code, step);
    } else if Drops(c, step) {
      DropSticks(c, code, step);
    } else {
      OthersDoNotStick(c, code, step);
    }
  }

  lemma DropSticks(c: Channel, code: bytes, step: Step)
    requires Inv(c) && Drops(c, step)
    ensures Stuck(Apply(c, code, step))
  {
  }

  lemma OthersDoNotStick(c: Channel, code: bytes, step: Step)
    requires Inv(c) && !Stuck(c) && !Drops(c, step)
    ensures !Stuck(Apply(c, code, step))
  {
    var d := Apply(c, code, step);
    if step.Reserve? && At(c, step.h, VerifyAuthorized) && !c.reserved {
      assert d.handlers[step.h] == Reserving;
    } else if c.reserved && c.staged == [] {
      var h :| h in c.handlers && HoldsReservation(c.handlers[h]);
      if d.reserved && d.staged == [] {
        assert h in d.handlers && HoldsReservation(d.handlers[h]);
      }
    }
  }

  /** A run leaves the channel stuck exactly when it was, or when some reservation was dropped on the way. */
  lemma {:induction false} StuckIff(c: Channel, code: bytes, steps: seq<Step>)
    requires Inv(c)
    ensures Stuck(Run(c, code, steps)) <==> Stuck(c) || Dropped(c, code, steps)
    decreases |steps|
  {
    hide Inv, Apply, Stuck, Drops;
    if steps != [] {
      StepKeepsInv(c, code, steps[0]);
      StepSticks(c, code, steps[0]);
      StuckIff(Apply(c, code, steps[0]), code, steps[1..]);
    }
  }

  lemma AboveAll(ids: set<HandlerId>) returns (h: HandlerId)
    ensures forall g :: g in ids ==> g < h
    decreases |ids|
  {
    h := 0;
    if ids != {} {
      var g :| g in ids;
      var rest := ids - {g};
      var k := AboveAll(rest);
      h := if g < k then k else g + 1;
      assert forall x :: x in ids ==> x == g || x in rest;
    }
  }

  /** How an upload comes to be staged: by the reservation holder there is, or by a new request. */
  lemma StagingRun(c: Channel, code: bytes, token: bytes, archive: Archive) returns (more: seq<Step>)
    requires Inv(c) && c.session == Some(token) && c.staged == [] && !Stuck(c)
    ensures Run(c, code, more).staged == [archive]
  {
    if c.reserved {
      var h :| h in c.handlers && HoldsReservation(c.handlers[h]);
      more := [Extract(h, true), StageArchive(h, archive)];
      RunTwo(c, code, more[0], more[1]);
    } else {
      var h := AboveAll(c.handlers.Keys);
      StagingGoesThrough(c, code, h, token, archive);
      more := [AuthorizeVerify(h, token, false), Reserve(h), Extract(h, true), StageArchive(h, archive)];
      var d := Apply(Apply(c, code, more[0]), code, more[1]);
      RunTwo(d, code, more[2], more[3]);
      assert more[1..][1..] == [more[2], more[3]];
    }
  }

  lemma RunTwo(c: Channel, code: bytes, a: Step, b: Step)
    ensures Run(c, code, [a, b]) == Apply(Apply(c, code, a), code, b)
  {
    hide Apply;
    assert [a, b][1..] == [b] && Run(Apply(c, code, a), code, [b]) == Apply(Apply(c, code, a), code, b);
  }

  lemma RunThree(c: Channel, code: bytes, a: Step, b: Step, e: Step)
    ensures Run(c, code, [a, b, e]) == Apply(Apply(Apply(c, code, a), code, b), code, e)
  {
    hide Apply;
    assert [a, b, e][1..] == [b, e];
    RunTwo(Apply(c, code, a), code, b, e);
  }

  lemma {:induction false} RunSplit(c: Channel, code: bytes, a: seq<Step>, b: seq<Step>)
    ensures Run(c, code, a + b) == Run(Run(c, code, a), code, b)
    decreases |a|
  {
    hide Apply;
    if a == [] {
      assert a + b == b;
    } else {
      assert (a + b)[1..] == a[1..] + b;
      RunSplit(Apply(c, code, a[0]), code, a[1..], b);
    }
  }

  /**
   * Once the session is open and before anything is staged, an archive can still be staged exactly when no reservation
   * was ever dropped.
   */
  lemma RetryIff(code: bytes, steps: seq<Step>, token: bytes)
    requires var c := Run(IDLE, code, steps); c.session == Some(token) && c.staged == []
    ensures (exists more :: Run(Run(IDLE, code, steps), code, more).staged != []) <==> !Dropped(IDLE, code, steps)
  {
    hide Inv, Stuck, Run;
    var c := Run(IDLE, code, steps);
    StartsFree();
    RunsKeepInv(IDLE, code, steps);
    StuckIff(IDLE, code, steps);
    if Stuck(c) {
      forall more: seq<Step>
        ensures Run(c, code, more).staged == []
      {
        StuckForGood(c, code, more);
      }
    } else {
      var more := StagingRun(c, code, token, Archive(ZERO_ARCHIVE, ZERO_ARCHIVE));
      assert Run(c, code, more).staged != [];
    }
  }

  const ZERO_ARCHIVE: Id := [0, 0, 0, 0, 0, 0, 0, 0, 0, 0, 0, 0, 0, 0, 0, 0]

  lemma StartsFree()
    ensures Inv(IDLE) && !Stuck(IDLE)
  {
  }

  /** Claim, open the session, reserve, and fail to extract: six steps to a channel that stages nothing any more. */
  lemma DroppedUploadIsReachable(code: bytes, token: bytes) returns (steps: seq<Step>)
    ensures |steps| == 6 && Stuck(Run(IDLE, code, steps)) && Run(IDLE, code, steps).session == Some(token)
    ensures forall more :: Run(Run(IDLE, code, steps), code, more).staged == []
    ensures forall more :: Run(Run(IDLE, code, steps), code, more).restores == []
  {
    var claim := [LookAtClaim(0, code, false), WinClaim(0), OpenSession(0, token)];
    var upload := [AuthorizeVerify(0, token, false), Reserve(0), Extract(0, false)];
    steps := claim + upload;
    var open := IDLE.(claimed := true, claims := 1, session := Some(token));
    assert Run(IDLE, code, claim) == open by {
      ClaimGoesThrough(IDLE, code, 0, token);
      RunThree(IDLE, code, claim[0], claim[1], claim[2]);
    }
    var c := Run(open, code, upload);
    RunThree(open, code, upload[0], upload[1], upload[2]);
    assert c == open.(reserved := true) by {
      assert map[0 := VerifyAuthorized][0 := Reserving] - {0} == map[];
    }
    RunSplit(IDLE, code, claim, upload);
    RunsKeepInv(IDLE, code, steps);
    hide Run;
    forall more: seq<Step>
      ensures Run(c, code, more).staged == [] && Run(c, code, more).restores == []
    {
      StuckForGood(c, code, more);
    }
  }

  // ----- What goes through -----

  /** The right code claims an unclaimed channel and opens its session. */
  lemma ClaimGoesThrough(c: Channel, code: bytes, h: HandlerId, token: bytes)
    requires h !in c.handlers && !c.claimed
    ensures var d := Apply(Apply(Apply(c, code, LookAtClaim(h, code, false)), code, WinClaim(h)), code,
                           OpenSession(h, token));
            d == c.(claimed := true, claims := c.claims + 1, session := Some(token))
  {
    assert c.handlers[h := ClaimSeen(code)][h := ClaimWon] - {h} == c.handlers;
  }

  /** An authorized upload that verifies becomes the pending archive of an unreserved channel. */
  lemma StagingGoesThrough(c: Channel, code: bytes, h: HandlerId, token: bytes, archive: Archive)
    requires h !in c.handlers && c.session == Some(token) && !c.consumed && !c.reserved
    ensures var d := Apply(Apply(Apply(Apply(c, code, AuthorizeVerify(h, token, false)), code, Reserve(h)), code,
                                 Extract(h, true)), code, StageArchive(h, archive));
            d == c.(reserved := true, pending := Some(archive), staged := c.staged + [archive])
  {
    assert c.handlers[h := VerifyAuthorized][h := Reserving][h := Receiving] - {h} == c.handlers;
  }

  /** An upload that fails verification gives its reservation back. */
  lemma RejectionReleases(c: Channel, code: bytes, h: HandlerId)
    requires At(c, h, Receiving)
    ensures Apply(c, code, Reject(h)) == c.(handlers := c.handlers - {h}, reserved := false)
  {
  }

  /** Activation restores the pending archive exactly when its identity is confirmed. */
  lemma ActivationIff(c: Channel, code: bytes, h: HandlerId, token: bytes, confirmed: Id)
    requires Inv(c) && h !in c.handlers && c.session == Some(token) && !c.consumed
    ensures var d := Apply(Apply(c, code, AuthorizeActivate(h, token, false)), code, Activate(h, confirmed));
            if c.pending.Some? && c.pending.value.archiveId == confirmed then
              d == c.(consumed := true, pending := None, restores := [(c.pending.value, confirmed)])
            else d == c
  {
    assert c.handlers[h := ActivateAuthorized] - {h} == c.handlers;
    assert c.restores == [];
  }

  // ----- What does not go through -----

  /** A step that does not present the right code in time. */
  ghost predicate WithoutCode(step: Step, code: bytes) {
    step.LookAtClaim? ==> step.code != code || step.expired
  }

  /** Nobody has claimed the channel, and whoever looked has the wrong code. */
  ghost predicate Unclaimed(c: Channel, code: bytes) {
    && c == IDLE.(handlers := c.handlers)
    && forall h :: h in c.handlers ==> c.handlers[h].ClaimSeen? && c.handlers[h].code != code
  }

  lemma {:induction false} StaysUnclaimed(c: Channel, code: bytes, steps: seq<Step>)
    requires Unclaimed(c, code) && forall k :: 0 <= k < |steps| ==> WithoutCode(steps[k], code)
    ensures Unclaimed(Run(c, code, steps), code)
    decreases |steps|
  {
    if steps != [] {
      assert WithoutCode(steps[0], code);
      assert Unclaimed(Apply(c, code, steps[0]), code);
      hide Unclaimed, Apply;
      StaysUnclaimed(Apply(c, code, steps[0]), code, steps[1..]);
    }
  }

  /** Without the right code in time there is no claim, no session, no staged archive and no restore, ever. */
  lemma NothingWithoutCode(code: bytes, steps: seq<Step>)
    requires forall k :: 0 <= k < |steps| ==> WithoutCode(steps[k], code)
    ensures var c := Run(IDLE, code, steps);
            c.claims == 0 && !c.claimed && c.session == None && c.staged == [] && c.restores == []
  {
    StaysUnclaimed(IDLE, code, steps);
  }

  /** A step that does not present this session's token in time. */
  ghost predicate WithoutToken(step: Step, session: Option<bytes>) {
    match step
    case AuthorizeVerify(_, token, expired) => expired || Some(token) != session
    case AuthorizeActivate(_, token, expired) => expired || Some(token) != session
    case _ => true
  }

  /** The channel is claimed, and nobody is past a look at it. */
  ghost predicate Quiet(c: Channel) {
    c.claimed && forall h :: h in c.handlers ==> c.handlers[h].ClaimSeen?
  }

  lemma StaysQuiet(c: Channel, code: bytes, step: Step)
    requires Quiet(c) && (c.consumed || WithoutToken(step, c.session))
    ensures var d := Apply(c, code, step); Quiet(d) && d == c.(handlers := d.handlers)
  {
  }

  /**
   * On a claimed channel nothing but requests that look at it changes without the session's token in time, and nothing
   * at all once it is consumed: no second claim, no new session, nothing reserved, staged, activated or restored.
   */
  lemma {:induction false} NothingWithoutToken(c: Channel, code: bytes, steps: seq<Step>)
    requires Quiet(c) && (c.consumed || forall k :: 0 <= k < |steps| ==> WithoutToken(steps[k], c.session))
    ensures Run(c, code, steps) == c.(handlers := Run(c, code, steps).handlers)
    decreases |steps|
  {
    if steps != [] {
      StaysQuiet(c, code, steps[0]);
      hide Apply, Quiet;
      NothingWithoutToken(Apply(c, code, steps[0]), code, steps[1..]);
    }
  }
}
