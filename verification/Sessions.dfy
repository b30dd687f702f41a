/** Browser sessions: the windows every run of authentications and a logout stays within. */
module Sessions {
  import opened Bytes
  import opened Access

  const SESSION_IDLE_MS: i64 := 30 * 60 * 1000
  const SESSION_ABSOLUTE_MS: i64 := 12 * 60 * 60 * 1000
  const RECENT_AUTH_MS: i64 := 5 * 60 * 1000

  datatype AuthenticationError = Rejected | Unavailable

  datatype SessionRecord = SessionRecord(principalId: PrincipalId, createdAt: i64, lastUsedAt: i64, idleExpiresAt: i64,
                                         absoluteExpiresAt: i64, recentAuthAt: i64, revokedAt: Option<i64>)

  /** The context handed to a request. */
  datatype AuthenticatedOwner = AuthenticatedOwner(principalId: PrincipalId, recentAuthUntil: i64, validFrom: i64,
                                                   validUntil: i64) {
    predicate IsValidAt(now: i64) {
      validFrom <= now <= validUntil
    }

    predicate IsRecentAt(now: i64) {
      now <= recentAuthUntil && IsValidAt(now)
    }
  }

  predicate SumFits(a: i64, n: int) {
    a + n <= I64_MAX
  }

  /**
   * What a request presents beside the clock: its token, its anti-forgery token if one is required, an active owner.
   */
  datatype Presented = Presented(tokenMatches: bool, csrfAccepted: bool, ownerActive: bool)

  predicate InWindow(s: SessionRecord, now: i64) {
    s.revokedAt.None? && s.createdAt <= now && s.lastUsedAt <= now && now <= s.idleExpiresAt
    && now <= s.absoluteExpiresAt
  }

  function Min(a: int, b: int): int {
    if a <= b then a else b
  }

  /** The successful uses of one session, in order, lie in every window at once. */
  ghost predicate Windows(s: SessionRecord, uses: seq<i64>) {
    && s.absoluteExpiresAt == s.createdAt + SESSION_ABSOLUTE_MS && s.recentAuthAt == s.createdAt
    && s.lastUsedAt == (if uses == [] then s.createdAt else uses[|uses| - 1])
    && s.idleExpiresAt == Min(s.lastUsedAt + SESSION_IDLE_MS, s.absoluteExpiresAt)
    && (uses != [] ==> s.createdAt <= uses[0] <= s.createdAt + SESSION_IDLE_MS)
    && (forall k :: 0 < k < |uses| ==> uses[k - 1] <= uses[k] <= uses[k - 1] + SESSION_IDLE_MS)
    && (forall k :: 0 <= k < |uses| ==> s.createdAt <= uses[k] <= s.createdAt + SESSION_ABSOLUTE_MS)
  }

  // ----- Whole runs -----

  datatype Call = Authenticating(presented: Presented, now: i64) | LoggingOut(owner: AuthenticatedOwner, now: i64)

  /** A session with its history of successful authentications and the contexts they gave. */
  datatype History = History(record: SessionRecord, uses: seq<i64>, contexts: seq<AuthenticatedOwner>,
                             loggedOutAfter: Option<nat>)

  function Begin(principalId: PrincipalId, now: i64): History
    requires SumFits(now, SESSION_ABSOLUTE_MS)
  {
    History(SessionRecord(principalId, now, now, now + SESSION_IDLE_MS, now + SESSION_ABSOLUTE_MS, now, None), [], [],
            None)
  }

  function ApplyCall(h: History, c: Call): History
  {
    match c
    case Authenticating(p, now) =>
      if InWindow(h.record, now) && p.tokenMatches && p.csrfAccepted && p.ownerActive && SumFits(now, SESSION_IDLE_MS)
         && SumFits(h.record.recentAuthAt, RECENT_AUTH_MS) then
        var idle := Min(now + SESSION_IDLE_MS, h.record.absoluteExpiresAt);
        History(h.record.(lastUsedAt := now, idleExpiresAt := idle), h.uses + [now],
                h.contexts + [AuthenticatedOwner(h.record.principalId, h.record.recentAuthAt + RECENT_AUTH_MS, now,
                                                 idle)],
                h.loggedOutAfter)
      else h
    case LoggingOut(owner, now) =>
      if owner.IsValidAt(now) && owner.principalId == h.record.principalId && h.record.revokedAt.None? then
        h.(record := h.record.(revokedAt := Some(now)), loggedOutAfter := Some(|h.uses|))
      else h
  }

  function RunCalls(h: History, calls: seq<Call>): History
    decreases |calls|
  {
    if calls == [] then h else RunCalls(ApplyCall(h, calls[0]), calls[1..])
  }

  /** The context a use gives: valid from then on for the idle window, recent for five minutes after the login. */
  ghost predicate Given(c: AuthenticatedOwner, principalId: PrincipalId, login: i64, absolute: i64, use: i64) {
    && c.principalId == principalId && c.validFrom == use && c.validUntil == Min(use + SESSION_IDLE_MS, absolute)
    && c.recentAuthUntil == login + RECENT_AUTH_MS
  }

  ghost predicate HistoryHolds(h: History) {
    && Windows(h.record, h.uses) && h.record.idleExpiresAt <= h.record.absoluteExpiresAt
    && |h.contexts| == |h.uses|
    && (forall k :: 0 <= k < |h.contexts| ==>
          Given(h.contexts[k], h.record.principalId, h.record.createdAt, h.record.absoluteExpiresAt, h.uses[k]))
    && (h.record.revokedAt.Some? <==> h.loggedOutAfter.Some?)
    && (h.loggedOutAfter.Some? ==> h.loggedOutAfter.value == |h.uses|)
  }

  lemma UseKeepsWindows(s: SessionRecord, uses: seq<i64>, now: i64)
    requires Windows(s, uses) && InWindow(s, now)
    ensures Windows(s.(lastUsedAt := now, idleExpiresAt := Min(now + SESSION_IDLE_MS, s.absoluteExpiresAt)),
                    uses + [now])
  {
    var next := uses + [now];
    forall k | 0 < k < |next|
      ensures next[k - 1] <= next[k] <= next[k - 1] + SESSION_IDLE_MS
    {
      if k < |uses| {
        assert next[k - 1] == uses[k - 1] && next[k] == uses[k];
      }
    }
    assert forall k :: 0 <= k < |uses| ==> next[k] == uses[k];
  }

  lemma CallKeepsHistory(h: History, c: Call)
    requires HistoryHolds(h)
    ensures HistoryHolds(ApplyCall(h, c)) && ApplyCall(h, c).record.createdAt == h.record.createdAt
  {
    assert h.record.idleExpiresAt <= h.record.absoluteExpiresAt;
    if c.Authenticating? && InWindow(h.record, c.now) {
      UseKeepsWindows(h.record, h.uses, c.now);
    } else {
      LogoutKeepsWindows(h.record, h.uses, c.now);
    }
    hide Windows, Given;
    if ApplyCall(h, c).contexts != h.contexts {
      assert Given(ApplyCall(h, c).contexts[|h.contexts|], h.record.principalId, h.record.createdAt,
                   h.record.absoluteExpiresAt, c.now) by {
        UseIsGiven(h, c);
      }
    }
  }

  lemma UseIsGiven(h: History, c: Call)
    requires HistoryHolds(h) && |ApplyCall(h, c).contexts| > |h.contexts|
    ensures Given(ApplyCall(h, c).contexts[|h.contexts|], h.record.principalId, h.record.createdAt,
                  h.record.absoluteExpiresAt, c.now)
  {
  }

  lemma LogoutKeepsWindows(s: SessionRecord, uses: seq<i64>, now: i64)
    requires Windows(s, uses)
    ensures Windows(s.(revokedAt := Some(now)), uses)
  {
  }

  lemma RecentAt(h: History, k: nat, now: i64)
    requires HistoryHolds(h) && k < |h.contexts|
    ensures h.contexts[k].IsRecentAt(now) <==>
            && h.uses[k] <= now <= h.uses[k] + SESSION_IDLE_MS && now <= h.record.createdAt + SESSION_ABSOLUTE_MS
            && now <= h.record.createdAt + RECENT_AUTH_MS
  {
  }

  /** In every run the successful uses stay in their windows and none follows a logout. */
  lemma {:induction false} RunsStayInWindows(h: History, calls: seq<Call>)
    requires HistoryHolds(h)
    ensures HistoryHolds(RunCalls(h, calls)) && RunCalls(h, calls).record.createdAt == h.record.createdAt
    decreases |calls|
  {
    hide HistoryHolds, ApplyCall;
    if calls != [] {
      CallKeepsHistory(h, calls[0]);
      RunsStayInWindows(ApplyCall(h, calls[0]), calls[1..]);
    }
  }

  /** In any run a context counts as recent exactly in its own window and within five minutes of the login. */
  lemma RecentIff(principalId: PrincipalId, login: i64, calls: seq<Call>, k: nat, now: i64)
    requires SumFits(login, SESSION_ABSOLUTE_MS)
    requires k < |RunCalls(Begin(principalId, login), calls).contexts|
    ensures var h := RunCalls(Begin(principalId, login), calls);
            && k < |h.uses|
            && (h.contexts[k].IsRecentAt(now) <==>
                h.uses[k] <= now <= h.uses[k] as int + 1_800_000 && now <= login as int + 300_000)
  {
    RunsStayInWindows(Begin(principalId, login), calls);
    RecentAt(RunCalls(Begin(principalId, login), calls), k, now);
  }

  /** Every use was a request's whose token and anti-forgery value were accepted and whose owner was active. */
  lemma {:induction false} UsesWerePresented(h: History, calls: seq<Call>)
    ensures var after := RunCalls(h, calls).uses;
            h.uses <= after && forall k :: |h.uses| <= k < |after| ==> Authenticating(GOOD, after[k]) in calls
    decreases |calls|
  {
    if calls != [] {
      var next := ApplyCall(h, calls[0]);
      UsesWerePresented(next, calls[1..]);
      var after := RunCalls(next, calls[1..]).uses;
      assert next.uses == h.uses || (next.uses == h.uses + [calls[0].now] && calls[0].presented == GOOD);
      forall k | |h.uses| <= k < |after|
        ensures Authenticating(GOOD, after[k]) in calls
      {
        if k < |next.uses| {
          assert after[k] == next.uses[k];
        }
      }
    }
  }

  /** Any two successful uses are in order. */
  lemma {:induction false} UsesAreOrdered(s: SessionRecord, uses: seq<i64>, i: nat, j: nat)
    requires Windows(s, uses) && i <= j < |uses|
    ensures uses[i] <= uses[j]
    decreases j - i
  {
    if i < j {
      UsesAreOrdered(s, uses, i, j - 1);
    }
  }

  // ----- Exactly the windowed uses succeed -----

  /** Times that start after the login, never go back, never pause longer than 30 minutes and end within 12 hours. */
  ghost predicate Windowed(login: i64, uses: seq<i64>) {
    && (uses != [] ==> login <= uses[0] <= login as int + 1_800_000)
    && (forall k :: 0 < k < |uses| ==> uses[k - 1] <= uses[k] <= uses[k - 1] as int + 1_800_000)
    && (forall k :: 0 <= k < |uses| ==> uses[k] <= login as int + 43_200_000 && uses[k] as int + 1_800_000 <= I64_MAX)
  }

  const GOOD := Presented(true, true, true)

  function Calls(uses: seq<i64>): seq<Call> {
    if uses == [] then [] else Calls(uses[..|uses| - 1]) + [Authenticating(GOOD, uses[|uses| - 1])]
  }

  lemma {:induction false} RunAppend(h: History, calls: seq<Call>, c: Call)
    ensures RunCalls(h, calls + [c]) == ApplyCall(RunCalls(h, calls), c)
    decreases |calls|
  {
    hide ApplyCall;
    if calls == [] {
      assert calls + [c] == [c] && [c][1..] == [];
      assert RunCalls(ApplyCall(h, c), []) == ApplyCall(h, c);
    } else {
      RunAppend(ApplyCall(h, calls[0]), calls[1..], c);
      assert (calls + [c])[1..] == calls[1..] + [c] && (calls + [c])[0] == calls[0];
    }
  }

  /** Every such list of times authenticates throughout. */
  lemma {:induction false} WindowedUsesSucceed(principalId: PrincipalId, login: i64, uses: seq<i64>)
    requires SumFits(login, SESSION_ABSOLUTE_MS) && Windowed(login, uses)
    ensures RunCalls(Begin(principalId, login), Calls(uses)).uses == uses
    ensures RunCalls(Begin(principalId, login), Calls(uses)).record.revokedAt.None?
    decreases |uses|
  {
    assert HistoryHolds(Begin(principalId, login));
    if uses != [] {
      var n := |uses| - 1;
      WindowedPrefix(login, uses, n);
      hide Windowed, HistoryHolds, RunCalls, InWindow, Begin;
      var h := RunCalls(Begin(principalId, login), Calls(uses[..n]));
      WindowedUsesSucceed(principalId, login, uses[..n]);
      RunsStayInWindows(Begin(principalId, login), Calls(uses[..n]));
      RunAppend(Begin(principalId, login), Calls(uses[..n]), Authenticating(GOOD, uses[n]));
      BeginsAt(principalId, login);
      InsideWindow(h, login, uses, n);
      assert uses == uses[..n] + [uses[n]];
    }
  }

  lemma BeginsAt(principalId: PrincipalId, login: i64)
    requires SumFits(login, SESSION_ABSOLUTE_MS)
    ensures Begin(principalId, login).record.createdAt == login
  {
  }

  lemma WindowedPrefix(login: i64, uses: seq<i64>, n: nat)
    requires Windowed(login, uses) && n <= |uses|
    ensures Windowed(login, uses[..n])
  {
    assert forall k :: 0 <= k < n ==> uses[..n][k] == uses[k];
  }

  lemma InsideWindow(h: History, login: i64, uses: seq<i64>, n: nat)
    requires HistoryHolds(h) && h.record.createdAt == login && h.record.revokedAt.None?
    requires Windowed(login, uses) && n == |uses| - 1 && h.uses == uses[..n]
    ensures InWindow(h.record, uses[n]) && SumFits(h.record.recentAuthAt, RECENT_AUTH_MS)
            && SumFits(uses[n], SESSION_IDLE_MS)
  {
  }

  // ----- The stored session -----

  class BrowserSession {
    var record: SessionRecord
    ghost var history: History

    ghost predicate Valid()
      reads this
    {
      HistoryHolds(history) && history.record == record
    }

    /** The row of a session that has just been created. */
    constructor (principalId: PrincipalId, now: i64)
      requires SumFits(now, SESSION_ABSOLUTE_MS)
      ensures Valid() && history == Begin(principalId, now)
    {
      record := SessionRecord(principalId, now, now, now + SESSION_IDLE_MS, now + SESSION_ABSOLUTE_MS, now, None);
      history := Begin(principalId, now);
    }

    /** `authenticate_browser_session`: the touch moves the idle window, never past the absolute one. */
    method Authenticate(p: Presented, now: i64) returns (r: Result<AuthenticatedOwner, AuthenticationError>)
      requires Valid()
      modifies this
      ensures Valid() && history == ApplyCall(old(history), Authenticating(p, now))
      ensures r.Ok? <==>
              && p.tokenMatches && p.csrfAccepted && p.ownerActive && old(record.revokedAt) == None
              && old(record.createdAt) <= now && old(record.lastUsedAt) <= now
              && now <= old(record.idleExpiresAt) && now <= old(record.absoluteExpiresAt)
              && now + 1_800_000 <= I64_MAX && old(record.recentAuthAt) + 300_000 <= I64_MAX
      ensures r.Ok? ==>
              && history.uses == old(history.uses) + [now] && history.contexts == old(history.contexts) + [r.value]
              && r.value == AuthenticatedOwner(old(record.principalId), old(record.createdAt) + 300_000, now,
                                               record.idleExpiresAt)
              && record == old(record).(lastUsedAt := now,
                                        idleExpiresAt := Min(now + 1_800_000, old(record.createdAt) + 43_200_000))
      ensures r.Err? ==> record == old(record) && history == old(history)
    {
      CallKeepsHistory(history, Authenticating(p, now));
      history := ApplyCall(history, Authenticating(p, now));
      if record.revokedAt.Some? || now < record.createdAt || now < record.lastUsedAt || record.idleExpiresAt < now
         || record.absoluteExpiresAt < now || !p.tokenMatches
      {
        return Err(Rejected);
      }
      if !p.csrfAccepted || !p.ownerActive {
        return Err(Rejected);
      }
      if !SumFits(now, SESSION_IDLE_MS) {
        return Err(Rejected);
      }
      var nextIdle := Min(now + SESSION_IDLE_MS, record.absoluteExpiresAt);
      if !SumFits(record.recentAuthAt, RECENT_AUTH_MS) {
        return Err(Rejected);
      }
      var owner := AuthenticatedOwner(record.principalId, record.recentAuthAt + RECENT_AUTH_MS, now, nextIdle);
      record := record.(lastUsedAt := now, idleExpiresAt := nextIdle);
      return Ok(owner);
    }

    /** `logout_browser_session`. */
    method Logout(owner: AuthenticatedOwner, now: i64) returns (r: Result<(), AuthenticationError>)
      requires Valid()
      modifies this
      ensures Valid() && history == ApplyCall(old(history), LoggingOut(owner, now))
      ensures r.Ok? <==>
              && owner.validFrom <= now && now <= owner.validUntil
              && owner.principalId == old(record.principalId) && old(record.revokedAt) == None
      ensures r.Ok? ==> record == old(record).(revokedAt := Some(now))
      ensures r.Err? ==> record == old(record)
    {
      CallKeepsHistory(history, LoggingOut(owner, now));
      history := ApplyCall(history, LoggingOut(owner, now));
      if !owner.IsValidAt(now) {
        return Err(Rejected);
      }
      if record.principalId != owner.principalId || record.revokedAt.Some? {
        return Err(Rejected);
      }
      record := record.(revokedAt := Some(now));
      return Ok(());
    }
  }

  /** `create_browser_session`: not before the authenticator's own times, and only if both windows fit 64 bits. */
  method CreateBrowserSession(principalId: PrincipalId, createdAt: i64, lastUsedAt: Option<i64>, now: i64)
    returns (r: Result<BrowserSession, AuthenticationError>)
    ensures r.Ok? <==>
            createdAt <= now && (lastUsedAt.Some? ==> lastUsedAt.value <= now) && SumFits(now, SESSION_ABSOLUTE_MS)
    ensures r.Err? ==>
            if createdAt <= now && (lastUsedAt.Some? ==> lastUsedAt.value <= now) then
              r.error == AuthenticationError.Unavailable
            else r.error == Rejected
    ensures r.Ok? ==> fresh(r.value) && r.value.Valid() && r.value.history == Begin(principalId, now)
  {
    if now < createdAt || (lastUsedAt.Some? && now < lastUsedAt.value) {
      return Err(Rejected);
    }
    if !SumFits(now, SESSION_IDLE_MS) || !SumFits(now, SESSION_ABSOLUTE_MS) {
      return Err(AuthenticationError.Unavailable);
    }
    var session := new BrowserSession(principalId, now);
    return Ok(session);
  }
}
