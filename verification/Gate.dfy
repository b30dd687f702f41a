/**
 * The authorization gate: live requests hold it for reading, revocations and policy changes for writing, while session
 * touches, credential uses, logins and namespace creates go on beside it. Threads are interleaved one step at a time.
 */
module Gate {
  import opened Bytes
  import opened Forest
  import opened Access
  import GraphCommitment

  type ThreadId = nat

  datatype SessionId = SessionId(uuid: Id)
  datatype CredentialId = CredentialId(uuid: Id)

  datatype Session = Session(principal: PrincipalId, createdAt: i64, lastUsedAt: i64, idleExpiresAt: i64,
                             absoluteExpiresAt: i64, revokedAt: Option<i64>)

  datatype Credential = Credential(principal: PrincipalId, createdAt: i64, expiresAt: Option<i64>,
                                   lastUsedAt: Option<i64>, revokedAt: Option<i64>, revision: u64)

  /** What authentication handed to a request. */
  datatype Context =
    | Owner(sessionId: SessionId, principal: PrincipalId, validFrom: i64, validUntil: i64, recentUntil: i64)
    | Service(credentialId: CredentialId, principal: PrincipalId)

  /** Durable state; `issued` remembers every session identity ever handed out. */
  datatype Database = Database(sessions: SessionTable, issued: set<SessionId>,
                               credentials: map<CredentialId, Credential>, activePrincipals: set<PrincipalId>,
                               graph: GraphCommitment.Rows, namespaces: Forest.Store)

  /** Where a thread is in its current operation. */
  datatype Local =
    | Reading
    | Guarded(context: Context, graph: GraphCommitment.Rows, namespaces: Forest.Store)
    | Writing
    | RevokingSession(sessionId: SessionId, seen: Session, at: i64)
    | RevokingCredential(credentialId: CredentialId, found: Credential, at: i64)
    | Touching(sessionId: SessionId, seen: Session, at: i64)
    | Using(credentialId: CredentialId, found: Credential, at: i64)

  datatype World = World(db: Database, threads: map<ThreadId, Local>)

  predicate HoldsRead(l: Local) {
    l.Reading? || l.Guarded?
  }

  predicate HoldsWrite(l: Local) {
    l.Writing? || l.RevokingSession? || l.RevokingCredential?
  }

  // ----- The checks -----

  type OwnerContext = c: Context | c.Owner? witness Owner(SessionId(ZERO), PrincipalId(ZERO), 0, 0, 0)

  const ZERO: Id := [0, 0, 0, 0, 0, 0, 0, 0, 0, 0, 0, 0, 0, 0, 0, 0]

  type SessionTable = map<SessionId, Session>

  /** `verify_owner_context_active`. */
  predicate OwnerActive(sessions: SessionTable, c: OwnerContext, now: i64) {
    && c.validFrom <= now <= c.validUntil && c.sessionId in sessions
    && var s := sessions[c.sessionId];
    && s.principal == c.principal && s.revokedAt.None? && s.createdAt <= now && s.lastUsedAt <= now
    && now <= s.idleExpiresAt && now <= s.absoluteExpiresAt
  }

  /** `is_recent_at`. */
  predicate IsRecent(c: OwnerContext, now: i64) {
    now <= c.recentUntil && c.validFrom <= now <= c.validUntil
  }

  /** `verify_owner_context_active` and `verify_service_context_active`. */
  predicate ContextActive(db: Database, c: Context, now: i64) {
    match c
    case Owner(_, _, _, _, _) => OwnerActive(db.sessions, c, now)
    case Service(id, principal) =>
      && id in db.credentials
      && var k := db.credentials[id];
      && k.principal == principal && k.revokedAt.None? && k.createdAt <= now
      && (k.lastUsedAt.Some? ==> k.lastUsedAt.value <= now) && (k.expiresAt.Some? ==> now <= k.expiresAt.value)
      && principal in db.activePrincipals
  }

  const IDLE_MS: i64 := 30 * 60 * 1000

  function NextIdle(s: Session, now: i64): i64
    requires now + IDLE_MS <= I64_MAX
  {
    if now + IDLE_MS <= s.absoluteExpiresAt then now + IDLE_MS else s.absoluteExpiresAt
  }

  // ----- Steps -----

  datatype Step =
    | AcquireRead(thread: ThreadId)
    | Check(thread: ThreadId, context: Context, now: i64)
    | Drop(thread: ThreadId)
    | AcquireWrite(thread: ThreadId)
    | LoadSession(thread: ThreadId, sessionId: SessionId, now: i64)
    | RevokeSession(thread: ThreadId)
    | LoadCredential(thread: ThreadId, credentialId: CredentialId, now: i64)
    | RevokeCredential(thread: ThreadId)
    | ChangePolicies(thread: ThreadId, graph: GraphCommitment.Rows)
    | MoveNamespace(thread: ThreadId, id: NamespaceId, expected: u64, parent: Option<NamespaceId>)
    | ReleaseWrite(thread: ThreadId)
    | LoadTouch(thread: ThreadId, sessionId: SessionId, now: i64)
    | TouchSession(thread: ThreadId)
    | LoadUse(thread: ThreadId, credentialId: CredentialId, now: i64)
    | MarkUsed(thread: ThreadId)
    | Login(sessionId: SessionId, session: Session)
    | Issue(credentialId: CredentialId, credential: Credential)
    | CreateNamespace(id: NamespaceId, parent: Option<NamespaceId>, name: bytes)

  ghost predicate NoWriter(w: World) {
    forall t :: t in w.threads ==> !HoldsWrite(w.threads[t])
  }

  ghost predicate NoHolder(w: World) {
    forall t :: t in w.threads ==> !HoldsWrite(w.threads[t]) && !HoldsRead(w.threads[t])
  }

  /** The reader's side: take the gate, verify, keep the guard until dropped. */
  ghost function ApplyReader(w: World, step: Step): World {
    match step
    case AcquireRead(t) => if t !in w.threads && NoWriter(w) then w.(threads := w.threads[t := Reading]) else w
    case Check(t, c, now) =>
      if t !in w.threads || !w.threads[t].Reading? then w
      else if ContextActive(w.db, c, now) then w.(threads := w.threads[t := Guarded(c, w.db.graph, w.db.namespaces)])
      else w.(threads := w.threads - {t})
    case Drop(t) => if t in w.threads && w.threads[t].Guarded? then w.(threads := w.threads - {t}) else w
    case _ => w
  }

  /** `revoke_session`: only the row that was loaded, and only if it is still unrevoked. */
  function SessionRevoked(db: Database, id: SessionId, seen: Session, at: i64): Database {
    if id in db.sessions && db.sessions[id].lastUsedAt == seen.lastUsedAt && db.sessions[id].revokedAt.None? then
      db.(sessions := db.sessions[id := db.sessions[id].(revokedAt := Some(at))])
    else db
  }

  /** `revoke_application_credential` at the storage level. */
  function CredentialRevoked(db: Database, id: CredentialId, found: Credential, at: i64): (r: Database)
    ensures r == db.(credentials := r.credentials)
  {
    if id in db.credentials && db.credentials[id].revision == found.revision && db.credentials[id].revokedAt.None?
       && found.revision < I64_MAX then
      var revoked := db.credentials[id].(revokedAt := Some(at), revision := found.revision + 1);
      db.(credentials := db.credentials[id := revoked])
    else db
  }

  /** The writer's side. */
  ghost function ApplyWriter(w: World, step: Step): World {
    match step
    case AcquireWrite(t) => if t !in w.threads && NoHolder(w) then w.(threads := w.threads[t := Writing]) else w
    case LoadSession(t, id, now) =>
      if t in w.threads && w.threads[t].Writing? && id in w.db.sessions && w.db.sessions[id].revokedAt.None? then
        w.(threads := w.threads[t := RevokingSession(id, w.db.sessions[id], now)])
      else w
    case RevokeSession(t) =>
      if t in w.threads && w.threads[t].RevokingSession? then
        World(SessionRevoked(w.db, w.threads[t].sessionId, w.threads[t].seen, w.threads[t].at), w.threads[t := Writing])
      else w
    case LoadCredential(t, id, now) =>
      if t in w.threads && w.threads[t].Writing? && id in w.db.credentials && w.db.credentials[id].revokedAt.None? then
        w.(threads := w.threads[t := RevokingCredential(id, w.db.credentials[id], now)])
      else w
    case RevokeCredential(t) =>
      if t in w.threads && w.threads[t].RevokingCredential? then
        World(CredentialRevoked(w.db, w.threads[t].credentialId, w.threads[t].found, w.threads[t].at),
              w.threads[t := Writing])
      else w
    case ChangePolicies(t, graph) =>
      if t in w.threads && w.threads[t].Writing? then w.(db := w.db.(graph := graph)) else w
    case MoveNamespace(t, id, expected, parent) =>
      if t in w.threads && w.threads[t].Writing? && Move(w.db.namespaces, id, expected, parent).Ok? then
        w.(db := w.db.(namespaces := Move(w.db.namespaces, id, expected, parent).value))
      else w
    case ReleaseWrite(t) => if t in w.threads && HoldsWrite(w.threads[t]) then w.(threads := w.threads - {t}) else w
    case _ => w
  }

  /** `touch_session`. */
  function SessionTouched(db: Database, id: SessionId, seen: Session, now: i64): Database {
    if id in db.sessions && now + IDLE_MS <= I64_MAX && db.sessions[id].lastUsedAt == seen.lastUsedAt
       && db.sessions[id].revokedAt.None? && now <= db.sessions[id].idleExpiresAt
       && now <= db.sessions[id].absoluteExpiresAt
       && NextIdle(seen, now) <= db.sessions[id].absoluteExpiresAt then
      db.(sessions := db.sessions[id := db.sessions[id].(lastUsedAt := now, idleExpiresAt := NextIdle(seen, now))])
    else db
  }

  /** `mark_application_credential_used`. */
  function CredentialUsed(db: Database, id: CredentialId, found: Credential, now: i64): (r: Database)
    ensures r == db.(credentials := r.credentials)
  {
    if id in db.credentials && db.credentials[id].revision == found.revision && db.credentials[id].revokedAt.None?
       && (db.credentials[id].expiresAt.Some? ==> now <= db.credentials[id].expiresAt.value)
       && found.revision < I64_MAX then
      var used := db.credentials[id].(lastUsedAt := Some(now), revision := found.revision + 1);
      db.(credentials := db.credentials[id := used])
    else db
  }

  const MAX_ACTIVE_SESSIONS: nat := 32

  /** The sessions of a principal that are not revoked. */
  function OpenSessions(sessions: SessionTable, principal: PrincipalId): set<SessionId> {
    set x | x in sessions && sessions[x].principal == principal && sessions[x].revokedAt.None?
  }

  /** The sweep of `create_session`: revoked and absolutely expired sessions go. */
  function Swept(sessions: SessionTable, now: i64): SessionTable {
    map x | x in sessions && sessions[x].revokedAt.None? && sessions[x].absoluteExpiresAt >= now :: sessions[x]
  }

  /** `create_session`: checks the windows, sweeps, counts against the quota, then inserts a fresh session. */
  function LoggedIn(db: Database, id: SessionId, s: Session): Database {
    var kept := Swept(db.sessions, s.createdAt);
    if s.idleExpiresAt <= s.createdAt || s.absoluteExpiresAt < s.idleExpiresAt || id in db.issued
       || |OpenSessions(kept, s.principal)| >= MAX_ACTIVE_SESSIONS then db
    else
      db.(sessions := kept[id := s.(lastUsedAt := s.createdAt, revokedAt := None)], issued := db.issued + {id})
  }

  /** Everything that runs beside the gate. */
  function ApplyBeside(w: World, step: Step): World {
    match step
    case LoadTouch(t, id, now) =>
      if t !in w.threads && id in w.db.sessions then
        w.(threads := w.threads[t := Touching(id, w.db.sessions[id], now)])
      else w
    case TouchSession(t) =>
      if t in w.threads && w.threads[t].Touching? then
        World(SessionTouched(w.db, w.threads[t].sessionId, w.threads[t].seen, w.threads[t].at), w.threads - {t})
      else w
    case LoadUse(t, id, now) =>
      if t !in w.threads && id in w.db.credentials then
        w.(threads := w.threads[t := Using(id, w.db.credentials[id], now)])
      else w
    case MarkUsed(t) =>
      if t in w.threads && w.threads[t].Using? then
        World(CredentialUsed(w.db, w.threads[t].credentialId, w.threads[t].found, w.threads[t].at), w.threads - {t})
      else w
    case Login(id, s) => w.(db := LoggedIn(w.db, id, s))
    case Issue(id, k) =>
      if id in w.db.credentials then w else w.(db := w.db.(credentials := w.db.credentials[id := k]))
    case CreateNamespace(id, parent, name) =>
      if Create(w.db.namespaces, id, parent, name).Ok? then
        w.(db := w.db.(namespaces := Create(w.db.namespaces, id, parent, name).value))
      else w
    case _ => w
  }

  ghost function Apply(w: World, step: Step): World {
    match step
    case AcquireRead(_) => ApplyReader(w, step)
    case Check(_, _, _) => ApplyReader(w, step)
    case Drop(_) => ApplyReader(w, step)
    case LoadTouch(_, _, _) => ApplyBeside(w, step)
    case TouchSession(_) => ApplyBeside(w, step)
    case LoadUse(_, _, _) => ApplyBeside(w, step)
    case MarkUsed(_) => ApplyBeside(w, step)
    case Login(_, _) => ApplyBeside(w, step)
    case Issue(_, _) => ApplyBeside(w, step)
    case CreateNamespace(_, _, _) => ApplyBeside(w, step)
    case _ => ApplyWriter(w, step)
  }

  ghost function Run(w: World, steps: seq<Step>): World
    decreases |steps|
  {
    if steps == [] then w else Run(Apply(w, steps[0]), steps[1..])
  }

  /** A run is its steps one after the other. */
  lemma {:induction false} RunAppend(w: World, steps: seq<Step>, step: Step)
    ensures Run(w, steps + [step]) == Apply(Run(w, steps), step)
    decreases |steps|
  {
    hide Apply;
    if steps == [] {
      assert steps + [step] == [step];
    } else {
      RunAppend(Apply(w, steps[0]), steps[1..], step);
      assert (steps + [step])[1..] == steps[1..] + [step];
    }
  }

  // ----- What every interleaving keeps -----

  /** The credential behind a context has not been revoked. */
  ghost predicate Unrevoked(db: Database, c: Context) {
    match c
    case Owner(id, _, _, _, _) => id in db.issued && (id in db.sessions ==> db.sessions[id].revokedAt.None?)
    case Service(id, _) => id in db.credentials && db.credentials[id].revokedAt.None?
  }

  /** Every namespace the guard saw still hangs where it hung. */
  ghost predicate SameParents(seen: Forest.Store, now: Forest.Store) {
    forall id :: id in seen ==> id in now && now[id].parent == seen[id].parent
  }

  /** What a live guard may rely on. */
  ghost predicate GuardHolds(db: Database, l: Local)
    requires l.Guarded?
  {
    Unrevoked(db, l.context) && db.graph == l.graph && SameParents(l.namespaces, db.namespaces)
  }

  ghost predicate Inv(w: World) {
    && (forall id :: id in w.db.sessions ==> id in w.db.issued)
    && (forall t, u :: t in w.threads && u in w.threads && t != u && HoldsWrite(w.threads[t]) ==>
          !HoldsRead(w.threads[u]) && !HoldsWrite(w.threads[u]))
    && (forall t :: t in w.threads && w.threads[t].Guarded? ==> GuardHolds(w.db, w.threads[t]))
  }

  lemma ReaderKeepsInv(w: World, step: Step)
    requires Inv(w)
    ensures Inv(ApplyReader(w, step))
  {
    hide ContextActive;
    if step.Check? && step.thread in w.threads && w.threads[step.thread].Reading?
       && ContextActive(w.db, step.context, step.now) {
      ActiveIsUnrevoked(w.db, step.context, step.now);
    }
  }

  lemma ActiveIsUnrevoked(db: Database, c: Context, now: i64)
    requires ContextActive(db, c, now) && forall id :: id in db.sessions ==> id in db.issued
    ensures Unrevoked(db, c)
  {
  }

  /** While a thread writes there is no guard, so the writer may change anything. */
  lemma WriterKeepsInv(w: World, step: Step)
    requires Inv(w)
    ensures Inv(ApplyWriter(w, step))
  {
    hide GuardHolds;
    var v := ApplyWriter(w, step);
    if v.db != w.db {
      assert HoldsWrite(w.threads[step.thread]);
      assert forall u :: u in v.threads && u != step.thread ==> !v.threads[u].Guarded?;
    }
  }

  lemma BesideKeepsGuard(w: World, step: Step, l: Local)
    requires Inv(w) && l.Guarded? && GuardHolds(w.db, l)
    ensures GuardHolds(ApplyBeside(w, step).db, l)
  {
  }

  lemma BesideKeepsInv(w: World, step: Step)
    requires Inv(w)
    ensures Inv(ApplyBeside(w, step))
  {
    hide GuardHolds;
    var v := ApplyBeside(w, step);
    forall t | t in v.threads && v.threads[t].Guarded?
      ensures GuardHolds(v.db, v.threads[t])
    {
      BesideKeepsGuard(w, step, w.threads[t]);
    }
  }

  /**
   * In every interleaving, every live guard's credential is unrevoked and the graph and parents it reads are
   * unchanged.
   */
  lemma {:induction false} RunsKeepInv(w: World, steps: seq<Step>)
    requires Inv(w)
    ensures Inv(Run(w, steps))
    decreases |steps|
  {
    hide Inv, ApplyReader, ApplyWriter, ApplyBeside;
    if steps != [] {
      ReaderKeepsInv(w, steps[0]);
      WriterKeepsInv(w, steps[0]);
      BesideKeepsInv(w, steps[0]);
      RunsKeepInv(Apply(w, steps[0]), steps[1..]);
    }
  }

  // ----- The session quota -----

  lemma NoMoreSessions(a: set<SessionId>, b: set<SessionId>)
    requires a <= b
    ensures |a| <= |b|
  {
    assert b == a + (b - a);
  }

  lemma LoginKeepsQuota(db: Database, id: SessionId, s: Session, principal: PrincipalId)
    requires |OpenSessions(db.sessions, principal)| <= MAX_ACTIVE_SESSIONS
    ensures |OpenSessions(LoggedIn(db, id, s).sessions, principal)| <= MAX_ACTIVE_SESSIONS
  {
    var kept := Swept(db.sessions, s.createdAt);
    var after := OpenSessions(LoggedIn(db, id, s).sessions, principal);
    NoMoreSessions(OpenSessions(kept, principal), OpenSessions(db.sessions, principal));
    if LoggedIn(db, id, s) != db {
      var own := if s.principal == principal then {id} else {};
      NoMoreSessions(after, OpenSessions(kept, principal) + own);
    }
  }

  lemma StepKeepsQuota(w: World, step: Step, principal: PrincipalId)
    requires |OpenSessions(w.db.sessions, principal)| <= MAX_ACTIVE_SESSIONS
    ensures |OpenSessions(Apply(w, step).db.sessions, principal)| <= MAX_ACTIVE_SESSIONS
  {
    hide LoggedIn, OpenSessions;
    if step.Login? {
      LoginKeepsQuota(w.db, step.sessionId, step.session, principal);
    } else {
      OthersOpenNothing(w, step, principal);
      hide Apply;
      NoMoreSessions(OpenSessions(Apply(w, step).db.sessions, principal), OpenSessions(w.db.sessions, principal));
    }
  }

  lemma OthersOpenNothing(w: World, step: Step, principal: PrincipalId)
    requires !step.Login?
    ensures OpenSessions(Apply(w, step).db.sessions, principal) <= OpenSessions(w.db.sessions, principal)
  {
    hide Move, Create, ContextActive, CredentialRevoked, CredentialUsed, LoggedIn, NextIdle;
  }

  /** In every interleaving no principal ever has more than 32 sessions that are not revoked. */
  lemma {:induction false} RunsKeepQuota(w: World, steps: seq<Step>, principal: PrincipalId)
    requires |OpenSessions(w.db.sessions, principal)| <= MAX_ACTIVE_SESSIONS
    ensures |OpenSessions(Run(w, steps).db.sessions, principal)| <= MAX_ACTIVE_SESSIONS
    decreases |steps|
  {
    hide Apply, OpenSessions;
    if steps != [] {
      StepKeepsQuota(w, steps[0], principal);
      RunsKeepQuota(Apply(w, steps[0]), steps[1..], principal);
    }
  }

  // ----- After a revocation -----

  /** Issued, and now revoked or swept away. */
  predicate Ended(db: Database, c: Context) {
    match c
    case Owner(id, _, _, _, _) => id in db.issued && (id in db.sessions ==> db.sessions[id].revokedAt.Some?)
    case Service(id, _) => id in db.credentials && db.credentials[id].revokedAt.Some?
  }

  lemma StepKeepsEnded(w: World, step: Step, c: Context)
    requires Ended(w.db, c)
    ensures Ended(Apply(w, step).db, c)
  {
    hide Move, Create, ContextActive, OpenSessions, NextIdle;
  }

  /** Nothing brings an ended credential back, and the check refuses it at any time. */
  lemma {:induction false} EndedForGood(w: World, steps: seq<Step>, c: Context, now: i64)
    requires Ended(w.db, c)
    ensures Ended(Run(w, steps).db, c) && !ContextActive(Run(w, steps).db, c, now)
    decreases |steps|
  {
    if steps != [] {
      StepKeepsEnded(w, steps[0], c);
      EndedForGood(Apply(w, steps[0]), steps[1..], c, now);
    }
  }

  /** A revocation that commits ends the session for every context that names it. */
  lemma RevocationEnds(w: World, t: ThreadId, steps: seq<Step>, c: Context, now: i64)
    requires Inv(w) && t in w.threads
    requires (w.threads[t].RevokingSession? && c.Owner? && c.sessionId == w.threads[t].sessionId
              && Apply(w, RevokeSession(t)).db != w.db)
             || (w.threads[t].RevokingCredential? && c.Service? && c.credentialId == w.threads[t].credentialId
                 && Apply(w, RevokeCredential(t)).db != w.db)
    ensures var v := Apply(w, if c.Owner? then RevokeSession(t) else RevokeCredential(t));
            !ContextActive(Run(v, steps).db, c, now)
  {
    hide ContextActive;
    var v := Apply(w, if c.Owner? then RevokeSession(t) else RevokeCredential(t));
    assert Ended(v.db, c);
    EndedForGood(v, steps, c, now);
  }

  /** Once revoked, a session's row never changes again; only the sweep of a login removes it. */
  lemma {:induction false} RevokedSessionIsFrozen(w: World, steps: seq<Step>, id: SessionId)
    requires id in w.db.issued && id in w.db.sessions && w.db.sessions[id].revokedAt.Some?
    ensures var v := Run(w, steps); id in v.db.sessions ==> v.db.sessions[id] == w.db.sessions[id]
    decreases |steps|
  {
    if steps != [] {
      StepKeepsRevokedSession(w, steps[0], id);
      hide Apply;
      if id in Apply(w, steps[0]).db.sessions {
        RevokedSessionIsFrozen(Apply(w, steps[0]), steps[1..], id);
      } else {
        SweptForGood(Apply(w, steps[0]), steps[1..], id);
      }
    }
  }

  lemma StepKeepsRevokedSession(w: World, step: Step, id: SessionId)
    requires id in w.db.issued && id in w.db.sessions && w.db.sessions[id].revokedAt.Some?
    ensures var v := Apply(w, step);
            id in v.db.issued && (id in v.db.sessions ==> v.db.sessions[id] == w.db.sessions[id])
  {
    hide Move, Create, ContextActive;
  }

  lemma StepKeepsSwept(w: World, step: Step, id: SessionId)
    requires id in w.db.issued && id !in w.db.sessions
    ensures id in Apply(w, step).db.issued && id !in Apply(w, step).db.sessions
  {
    hide Move, Create, ContextActive;
  }

  lemma {:induction false} SweptForGood(w: World, steps: seq<Step>, id: SessionId)
    requires id in w.db.issued && id !in w.db.sessions
    ensures id !in Run(w, steps).db.sessions
    decreases |steps|
  {
    if steps != [] {
      StepKeepsSwept(w, steps[0], id);
      hide Apply;
      SweptForGood(Apply(w, steps[0]), steps[1..], id);
    }
  }

  /** Once revoked, a credential's row never changes again. */
  lemma {:induction false} RevokedCredentialIsFrozen(w: World, steps: seq<Step>, id: CredentialId)
    requires id in w.db.credentials && w.db.credentials[id].revokedAt.Some?
    ensures id in Run(w, steps).db.credentials && Run(w, steps).db.credentials[id] == w.db.credentials[id]
    decreases |steps|
  {
    if steps != [] {
      StepKeepsRevokedCredential(w, steps[0], id);
      hide Apply;
      RevokedCredentialIsFrozen(Apply(w, steps[0]), steps[1..], id);
    }
  }

  lemma StepKeepsRevokedCredential(w: World, step: Step, id: CredentialId)
    requires id in w.db.credentials && w.db.credentials[id].revokedAt.Some?
    ensures id in Apply(w, step).db.credentials && Apply(w, step).db.credentials[id] == w.db.credentials[id]
  {
    hide Move, Create, ContextActive;
  }

  // ----- After an expiry -----

  lemma StepKeepsExpiry(w: World, step: Step, id: CredentialId)
    requires id in w.db.credentials
    ensures id in Apply(w, step).db.credentials
    ensures Apply(w, step).db.credentials[id].expiresAt == w.db.credentials[id].expiresAt
  {
    hide Move, Create, ContextActive;
  }

  /** No interleaving puts off a credential's expiry, and past it every request that presents it is turned away. */
  lemma {:induction false} ExpiredCredentialIsRefused(w: World, steps: seq<Step>, t: ThreadId, id: CredentialId,
                                                      principal: PrincipalId, expiry: i64, now: i64)
    requires id in w.db.credentials && w.db.credentials[id].expiresAt == Some(expiry) && expiry < now
    ensures var v := Run(w, steps);
            t in v.threads && v.threads[t].Reading? ==>
              t !in Apply(v, Check(t, Service(id, principal), now)).threads
    decreases |steps|
  {
    if steps != [] {
      StepKeepsExpiry(w, steps[0], id);
      hide Apply;
      ExpiredCredentialIsRefused(Apply(w, steps[0]), steps[1..], t, id, principal, expiry, now);
    }
  }

  lemma StepKeepsAbsoluteExpiry(w: World, step: Step, id: SessionId, expiry: i64)
    requires id in w.db.issued && (id in w.db.sessions ==> w.db.sessions[id].absoluteExpiresAt == expiry)
    ensures var v := Apply(w, step);
            id in v.db.issued && (id in v.db.sessions ==> v.db.sessions[id].absoluteExpiresAt == expiry)
  {
    hide Move, Create, ContextActive;
  }

  /** Nothing puts off a session's absolute expiry either, whatever window its contexts were given. */
  lemma {:induction false} ExpiredSessionIsRefused(w: World, steps: seq<Step>, t: ThreadId, c: OwnerContext,
                                                   expiry: i64, now: i64)
    requires c.sessionId in w.db.issued && expiry < now
    requires c.sessionId in w.db.sessions ==> w.db.sessions[c.sessionId].absoluteExpiresAt == expiry
    ensures var v := Run(w, steps);
            t in v.threads && v.threads[t].Reading? ==> t !in Apply(v, Check(t, c, now)).threads
    decreases |steps|
  {
    if steps != [] {
      StepKeepsAbsoluteExpiry(w, steps[0], c.sessionId, expiry);
      hide Apply;
      ExpiredSessionIsRefused(Apply(w, steps[0]), steps[1..], t, c, expiry, now);
    }
  }

  // ----- What goes through -----

  /**
   * With no writer, a service request is granted its guard exactly when its credential is there, is that principal's,
   * is unrevoked, was neither created nor last used after now, has not expired, and the principal is active.
   */
  lemma ServiceGrantedIff(w: World, t: ThreadId, id: CredentialId, principal: PrincipalId, now: i64)
    requires t !in w.threads && NoWriter(w)
    ensures t in Apply(Apply(w, AcquireRead(t)), Check(t, Service(id, principal), now)).threads <==>
            && id in w.db.credentials
            && w.db.credentials[id].principal == principal && principal in w.db.activePrincipals
            && w.db.credentials[id].revokedAt == None && w.db.credentials[id].createdAt <= now
            && (w.db.credentials[id].lastUsedAt == None || w.db.credentials[id].lastUsedAt.value <= now)
            && (w.db.credentials[id].expiresAt == None || now <= w.db.credentials[id].expiresAt.value)
  {
  }

  /**
   * With no writer, an owner's request is granted its guard exactly when now is in the context's own window and the
   * session is there, is that principal's, is unrevoked, was neither created nor last used after now, and neither its
   * idle nor its absolute window has run out.
   */
  lemma OwnerGrantedIff(w: World, t: ThreadId, c: OwnerContext, now: i64)
    requires t !in w.threads && NoWriter(w)
    ensures t in Apply(Apply(w, AcquireRead(t)), Check(t, c, now)).threads <==>
            && c.validFrom <= now && now <= c.validUntil && c.sessionId in w.db.sessions
            && w.db.sessions[c.sessionId].principal == c.principal && w.db.sessions[c.sessionId].revokedAt == None
            && w.db.sessions[c.sessionId].createdAt <= now && w.db.sessions[c.sessionId].lastUsedAt <= now
            && now <= w.db.sessions[c.sessionId].idleExpiresAt
            && now <= w.db.sessions[c.sessionId].absoluteExpiresAt
  {
  }

  /** A writer gets in exactly when no thread holds the gate, for reading or for writing. */
  lemma WriterEntersIff(w: World, t: ThreadId)
    requires t !in w.threads
    ensures t in Apply(w, AcquireWrite(t)).threads <==>
            forall u :: u in w.threads ==> w.threads[u].Touching? || w.threads[u].Using?
  {
  }

  /** Exactly who holds the gate can let go of it: a guard by dropping it, a writer by releasing it. */
  lemma GateIsReleased(w: World, t: ThreadId)
    requires t in w.threads
    ensures Apply(w, Drop(t)) == if w.threads[t].Guarded? then w.(threads := w.threads - {t}) else w
    ensures var writes := w.threads[t].Writing? || w.threads[t].RevokingSession? || w.threads[t].RevokingCredential?;
            Apply(w, ReleaseWrite(t)) == if writes then w.(threads := w.threads - {t}) else w
  {
  }

  /** A thread in the middle of an operation starts no other. */
  lemma BusyThreadsStartNothing(w: World, t: ThreadId, s: SessionId, k: CredentialId, now: i64)
    requires t in w.threads
    ensures Apply(w, AcquireRead(t)) == w && Apply(w, AcquireWrite(t)) == w
    ensures Apply(w, LoadTouch(t, s, now)) == w && Apply(w, LoadUse(t, k, now)) == w
  {
  }

  /** Policies change and namespaces move exactly for a writer, and then no guard is alive to see it. */
  lemma ChangesTakeEffectIff(w: World, t: ThreadId, graph: GraphCommitment.Rows, id: NamespaceId, expected: u64,
                             parent: Option<NamespaceId>)
    requires Inv(w) && t in w.threads
    ensures Apply(w, ChangePolicies(t, graph)).db
            == if w.threads[t].Writing? then w.db.(graph := graph) else w.db
    ensures var moved := Move(w.db.namespaces, id, expected, parent);
            Apply(w, MoveNamespace(t, id, expected, parent)).db
            == if w.threads[t].Writing? && moved.Ok? then w.db.(namespaces := moved.value) else w.db
    ensures w.threads[t].Writing? ==> forall u :: u in w.threads ==> !w.threads[u].Guarded?
  {
    hide Move, GuardHolds;
    assert w.threads[t].Writing? ==> HoldsWrite(w.threads[t]);
  }

  /** New credentials and namespaces need no gate: an unused identity is issued, a permitted namespace created. */
  lemma AdditionsNeedNoGate(w: World, id: CredentialId, k: Credential, n: NamespaceId, parent: Option<NamespaceId>,
                            name: bytes)
    ensures Apply(w, Issue(id, k)).db
            == if id in w.db.credentials then w.db else w.db.(credentials := w.db.credentials[id := k])
    ensures var created := Create(w.db.namespaces, n, parent, name);
            Apply(w, CreateNamespace(n, parent, name)).db
            == if created.Ok? then w.db.(namespaces := created.value) else w.db
  {
    hide Create;
  }

  /** With no writer, a request is granted its guard exactly when its context is active. */
  lemma GuardGrantedIff(w: World, t: ThreadId, c: Context, now: i64)
    requires t !in w.threads && NoWriter(w)
    ensures var v := Apply(Apply(w, AcquireRead(t)), Check(t, c, now));
            && v.db == w.db
            && (t in v.threads <==> ContextActive(w.db, c, now))
            && (t in v.threads ==> v.threads[t] == Guarded(c, w.db.graph, w.db.namespaces))
  {
    hide ContextActive;
  }

  function ThreadOf(step: Step): Option<ThreadId> {
    match step
    case Login(_, _) => None
    case Issue(_, _) => None
    case CreateNamespace(_, _, _) => None
    case _ => Some(step.thread)
  }

  ghost predicate ByOthers(steps: seq<Step>, t: ThreadId) {
    forall k :: 0 <= k < |steps| ==> ThreadOf(steps[k]) != Some(t)
  }

  /** A thread in the middle of a logout; only it can revoke the session it loaded. */
  ghost predicate LoggingOut(w: World, t: ThreadId, l: Local)
    requires l.RevokingSession?
  {
    && Inv(w) && t in w.threads && w.threads[t] == l && l.sessionId in w.db.issued
    && (l.sessionId in w.db.sessions ==> w.db.sessions[l.sessionId].revokedAt.None?)
  }

  lemma OthersKeepLoggingOut(w: World, t: ThreadId, l: Local, step: Step)
    requires l.RevokingSession? && LoggingOut(w, t, l) && ThreadOf(step) != Some(t)
    ensures LoggingOut(Apply(w, step), t, l)
  {
    ReaderKeepsInv(w, step);
    WriterKeepsInv(w, step);
    BesideKeepsInv(w, step);
    hide Move, Create, ContextActive, GuardHolds, OpenSessions;
  }

  lemma {:induction false} OthersKeepLogout(w: World, t: ThreadId, l: Local, steps: seq<Step>)
    requires l.RevokingSession? && LoggingOut(w, t, l) && ByOthers(steps, t)
    ensures LoggingOut(Run(w, steps), t, l)
    decreases |steps|
  {
    hide LoggingOut, Apply, ThreadOf;
    if steps != [] {
      OthersKeepLoggingOut(w, t, l, steps[0]);
      OthersKeepLogout(Apply(w, steps[0]), t, l, steps[1..]);
    }
  }

  /**
   * Whatever other threads do between a logout's read and its write, the logout revokes the session exactly when it is
   * still there with the last use it had: a request that touched it in between makes the logout fail.
   */
  lemma LogoutIff(w: World, steps: seq<Step>, t: ThreadId, id: SessionId, now: i64)
    requires Inv(w) && t !in w.threads && NoHolder(w) && id in w.db.sessions && w.db.sessions[id].revokedAt.None?
    requires ByOthers(steps, t)
    ensures var v := Run(Apply(Apply(w, AcquireWrite(t)), LoadSession(t, id, now)), steps);
            var after := Apply(v, RevokeSession(t)).db;
            if id in v.db.sessions && v.db.sessions[id].lastUsedAt == w.db.sessions[id].lastUsedAt then
              after == v.db.(sessions := v.db.sessions[id := v.db.sessions[id].(revokedAt := Some(now))])
            else after == v.db
  {
    var entered := Apply(w, AcquireWrite(t));
    WriterKeepsInv(w, AcquireWrite(t));
    var loaded := Apply(entered, LoadSession(t, id, now));
    WriterKeepsInv(entered, LoadSession(t, id, now));
    var l := RevokingSession(id, w.db.sessions[id], now);
    OthersKeepLogout(loaded, t, l, steps);
  }

  /** What is revoked already is not loaded for another revocation. */
  lemma RevokedIsNotLoaded(w: World, t: ThreadId, s: SessionId, k: CredentialId, now: i64)
    ensures s in w.db.sessions && w.db.sessions[s].revokedAt.Some? ==> Apply(w, LoadSession(t, s, now)) == w
    ensures k in w.db.credentials && w.db.credentials[k].revokedAt.Some? ==> Apply(w, LoadCredential(t, k, now)) == w
  {
  }

  /** A thread in the middle of a credential's revocation; only it can revoke the credential it loaded. */
  ghost predicate Revoking(w: World, t: ThreadId, l: Local)
    requires l.RevokingCredential?
  {
    && Inv(w) && t in w.threads && w.threads[t] == l
    && l.credentialId in w.db.credentials && w.db.credentials[l.credentialId].revokedAt.None?
  }

  lemma OthersKeepRevoking(w: World, t: ThreadId, l: Local, step: Step)
    requires l.RevokingCredential? && Revoking(w, t, l) && ThreadOf(step) != Some(t)
    ensures Revoking(Apply(w, step), t, l)
  {
    ReaderKeepsInv(w, step);
    WriterKeepsInv(w, step);
    BesideKeepsInv(w, step);
    hide Move, Create, ContextActive, GuardHolds, OpenSessions;
  }

  lemma {:induction false} OthersKeepRevocation(w: World, t: ThreadId, l: Local, steps: seq<Step>)
    requires l.RevokingCredential? && Revoking(w, t, l) && ByOthers(steps, t)
    ensures Revoking(Run(w, steps), t, l)
    decreases |steps|
  {
    hide Revoking, Apply, ThreadOf;
    if steps != [] {
      OthersKeepRevoking(w, t, l, steps[0]);
      OthersKeepRevocation(Apply(w, steps[0]), t, l, steps[1..]);
    }
  }

  /** Likewise a credential is revoked, one revision on, exactly when no use has moved its revision in between. */
  lemma RevocationIff(w: World, steps: seq<Step>, t: ThreadId, id: CredentialId, now: i64)
    requires Inv(w) && t !in w.threads && NoHolder(w) && id in w.db.credentials
    requires w.db.credentials[id].revokedAt.None? && ByOthers(steps, t)
    ensures var v := Run(Apply(Apply(w, AcquireWrite(t)), LoadCredential(t, id, now)), steps);
            var after := Apply(v, RevokeCredential(t)).db;
            && id in v.db.credentials
            && var k := v.db.credentials[id];
            if k.revision == w.db.credentials[id].revision && k.revision < I64_MAX then
              var revoked := k.(revokedAt := Some(now), revision := k.revision + 1);
              after == v.db.(credentials := v.db.credentials[id := revoked])
            else after == v.db
  {
    var entered := Apply(w, AcquireWrite(t));
    WriterKeepsInv(w, AcquireWrite(t));
    var loaded := Apply(entered, LoadCredential(t, id, now));
    WriterKeepsInv(entered, LoadCredential(t, id, now));
    var l := RevokingCredential(id, w.db.credentials[id], now);
    OthersKeepRevocation(loaded, t, l, steps);
  }

  lemma OthersKeepThread(w: World, t: ThreadId, step: Step)
    requires t in w.threads && ThreadOf(step) != Some(t)
    ensures t in Apply(w, step).threads && Apply(w, step).threads[t] == w.threads[t]
  {
    hide Move, Create, ContextActive, SessionRevoked, CredentialRevoked, SessionTouched, CredentialUsed, LoggedIn;
  }

  lemma {:induction false} OthersKeepThreads(w: World, t: ThreadId, steps: seq<Step>)
    requires t in w.threads && ByOthers(steps, t)
    ensures t in Run(w, steps).threads && Run(w, steps).threads[t] == w.threads[t]
    decreases |steps|
  {
    hide Apply, ThreadOf;
    if steps != [] {
      OthersKeepThread(w, t, steps[0]);
      OthersKeepThreads(Apply(w, steps[0]), t, steps[1..]);
    }
  }

  lemma {:induction false} KeepsAbsoluteExpiry(w: World, steps: seq<Step>, id: SessionId, expiry: i64)
    requires id in w.db.issued && (id in w.db.sessions ==> w.db.sessions[id].absoluteExpiresAt == expiry)
    ensures var v := Run(w, steps); id in v.db.sessions ==> v.db.sessions[id].absoluteExpiresAt == expiry
    decreases |steps|
  {
    if steps != [] {
      StepKeepsAbsoluteExpiry(w, steps[0], id, expiry);
      hide Apply;
      KeepsAbsoluteExpiry(Apply(w, steps[0]), steps[1..], id, expiry);
    }
  }

  /**
   * Whatever other threads do in between, a touch goes through exactly when the session is still there, unrevoked,
   * with the last use it was read with, and in both windows; it moves the idle window to 30 minutes, within the
   * absolute one.
   */
  lemma TouchIff(w: World, steps: seq<Step>, t: ThreadId, id: SessionId, now: i64)
    requires t !in w.threads && id in w.db.sessions && id in w.db.issued && ByOthers(steps, t)
    ensures var v := Run(Apply(w, LoadTouch(t, id, now)), steps);
            var after := Apply(v, TouchSession(t)).db;
            if id in v.db.sessions && v.db.sessions[id].lastUsedAt == w.db.sessions[id].lastUsedAt
               && v.db.sessions[id].revokedAt == None && now <= v.db.sessions[id].idleExpiresAt
               && now <= v.db.sessions[id].absoluteExpiresAt && now + 1_800_000 <= I64_MAX
            then
              var s := v.db.sessions[id];
              var idle := if now + 1_800_000 <= s.absoluteExpiresAt then now + 1_800_000 else s.absoluteExpiresAt;
              after == v.db.(sessions := v.db.sessions[id := s.(lastUsedAt := now, idleExpiresAt := idle)])
            else after == v.db
  {
    assert IDLE_MS == 1_800_000;
    var loaded := Apply(w, LoadTouch(t, id, now));
    assert loaded == w.(threads := w.threads[t := Touching(id, w.db.sessions[id], now)]);
    OthersKeepThreads(loaded, t, steps);
    KeepsAbsoluteExpiry(loaded, steps, id, w.db.sessions[id].absoluteExpiresAt);
    hide Run;
  }

  /** Likewise a use is recorded exactly for an unrevoked, unexpired credential whose revision no one else has moved. */
  lemma UseIff(w: World, steps: seq<Step>, t: ThreadId, id: CredentialId, now: i64)
    requires t !in w.threads && id in w.db.credentials && ByOthers(steps, t)
    ensures var v := Run(Apply(w, LoadUse(t, id, now)), steps);
            var after := Apply(v, MarkUsed(t)).db;
            if id in v.db.credentials && v.db.credentials[id].revision == w.db.credentials[id].revision
               && v.db.credentials[id].revokedAt == None && v.db.credentials[id].revision < I64_MAX
               && (v.db.credentials[id].expiresAt == None || now <= v.db.credentials[id].expiresAt.value)
            then
              var used := v.db.credentials[id].(lastUsedAt := Some(now), revision := v.db.credentials[id].revision + 1);
              after == v.db.(credentials := v.db.credentials[id := used])
            else after == v.db
  {
    var loaded := Apply(w, LoadUse(t, id, now));
    assert loaded == w.(threads := w.threads[t := Using(id, w.db.credentials[id], now)]);
    OthersKeepThreads(loaded, t, steps);
    hide Run;
  }

  /** The sessions of a principal that a login at this time would find open. */
  ghost function OpenAt(sessions: SessionTable, principal: PrincipalId, now: i64): set<SessionId> {
    set x | x in sessions && sessions[x].principal == principal && sessions[x].revokedAt == None
            && now <= sessions[x].absoluteExpiresAt
  }

  /**
   * A login is let in exactly with proper windows, an identity never issued, and fewer than 32 open sessions. It adds
   * the session and removes exactly the revoked and the absolutely expired ones.
   */
  lemma LoginIff(w: World, id: SessionId, s: Session)
    ensures var after := Apply(w, Login(id, s)).db;
            if s.createdAt < s.idleExpiresAt <= s.absoluteExpiresAt && id !in w.db.issued
               && |OpenAt(w.db.sessions, s.principal, s.createdAt)| < 32 then
              && id in after.sessions && after.sessions[id] == s.(lastUsedAt := s.createdAt, revokedAt := None)
              && (forall x :: x in after.sessions && x != id ==>
                    x in w.db.sessions && after.sessions[x] == w.db.sessions[x])
              && (forall x :: x in w.db.sessions && x != id ==>
                    (x in after.sessions <==>
                     w.db.sessions[x].revokedAt == None && s.createdAt <= w.db.sessions[x].absoluteExpiresAt))
            else after == w.db
  {
    assert OpenSessions(Swept(w.db.sessions, s.createdAt), s.principal)
        == OpenAt(w.db.sessions, s.principal, s.createdAt);
  }

  /** While any guard lives, no thread can start to write. */
  lemma GuardsBlockWriters(w: World, t: ThreadId, g: ThreadId)
    requires g in w.threads && w.threads[g].Guarded? && t !in w.threads
    ensures t !in Apply(w, AcquireWrite(t)).threads
  {
  }
}
