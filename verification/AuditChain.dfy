/** The audit log: records chained by keyed commitments, appended under the audit gate, verified page by page. */
module AuditChain {
  import opened Bytes
  import opened AuditEncoding

  datatype AuditRecord = AuditRecord(input: AuditInput, commitment: Digest)

  datatype AuditHead = AuditHead(sequence: u64, commitment: Digest)

  datatype AuditError = Integrity | Conflict

  /** The rows of the table in key order. */
  ghost predicate Keyed(rows: seq<AuditRecord>) {
    && (forall i :: 0 <= i < |rows| ==> rows[i].input.sequence > 0)
    && (forall i, j :: 0 <= i < j < |rows| ==> rows[i].input.sequence < rows[j].input.sequence)
  }

  /** `audit_head_on`. */
  function Head(rows: seq<AuditRecord>): AuditHead {
    if rows == [] then AuditHead(0, NO_DIGEST)
    else AuditHead(rows[|rows| - 1].input.sequence, rows[|rows| - 1].commitment)
  }

  /** `audit_records_after`: the next rows in key order, at most `limit` of them. */
  function PageAfter(rows: seq<AuditRecord>, after: u64, limit: nat): seq<AuditRecord> {
    if rows == [] then []
    else if rows[0].input.sequence > after then rows[..if |rows| <= limit then |rows| else limit]
    else PageAfter(rows[1..], after, limit)
  }

  /** The record follows the head it names and carries its own commitment. */
  ghost predicate Links(mac: bytes -> Digest, head: AuditHead, r: AuditRecord) {
    && r.input.sequence == head.sequence + 1 && r.input.previous == head.commitment
    && Committable(r.input) && r.commitment == mac(Encode(r.input))
  }

  ghost predicate LinkedAt(mac: bytes -> Digest, rows: seq<AuditRecord>, i: nat)
    requires i < |rows|
  {
    Links(mac, Head(rows[..i]), rows[i])
  }

  /** A log without gaps in which every record links to the one before. */
  ghost predicate Chained(mac: bytes -> Digest, rows: seq<AuditRecord>) {
    forall i {:trigger LinkedAt(mac, rows, i)} :: 0 <= i < |rows| ==> LinkedAt(mac, rows, i)
  }

  lemma ChainedPrefix(mac: bytes -> Digest, rows: seq<AuditRecord>, n: nat)
    requires Chained(mac, rows) && n <= |rows|
    ensures Chained(mac, rows[..n])
  {
    hide Links;
    forall i | 0 <= i < n
      ensures LinkedAt(mac, rows[..n], i)
    {
      assert LinkedAt(mac, rows, i) && rows[..n][..i] == rows[..i];
    }
  }

  lemma ChainedAppend(mac: bytes -> Digest, rows: seq<AuditRecord>, r: AuditRecord)
    requires Chained(mac, rows)
    ensures Chained(mac, rows + [r]) <==> Links(mac, Head(rows), r)
  {
    hide Links;
    var next := rows + [r];
    forall i | 0 <= i < |rows|
      ensures LinkedAt(mac, next, i)
    {
      assert LinkedAt(mac, rows, i) && next[..i] == rows[..i];
    }
    assert next[..|rows|] == rows && next[|rows|] == r;
    assert LinkedAt(mac, next, |rows|) <==> Links(mac, Head(rows), r);
  }

  lemma {:induction false} ChainedNumbers(mac: bytes -> Digest, rows: seq<AuditRecord>)
    requires Chained(mac, rows)
    ensures Head(rows).sequence == |rows|
    ensures forall i :: 0 <= i < |rows| ==> rows[i].input.sequence == i + 1
    decreases |rows|
  {
    hide Committable, Encode;
    if rows != [] {
      var n := |rows| - 1;
      ChainedPrefix(mac, rows, n);
      ChainedNumbers(mac, rows[..n]);
      assert LinkedAt(mac, rows, n);
      assert forall i :: 0 <= i < n ==> rows[i] == rows[..n][i];
    }
  }

  // ----- The paged verifier -----

  lemma {:induction false} PageAt(rows: seq<AuditRecord>, n: nat, after: u64, limit: nat)
    requires n <= |rows|
    requires forall i :: 0 <= i < n ==> rows[i].input.sequence <= after
    requires n < |rows| ==> rows[n].input.sequence > after
    ensures PageAfter(rows, after, limit) == rows[n..if |rows| - n <= limit then |rows| else n + limit]
    decreases n
  {
    if n > 0 {
      PageAt(rows[1..], n - 1, after, limit);
    }
  }

  /** What the verifier has established after `n` rows. */
  ghost predicate Verified(mac: bytes -> Digest, rows: seq<AuditRecord>, n: nat, sequence: u64, previous: Digest) {
    n <= |rows| && Chained(mac, rows[..n]) && Head(rows[..n]) == AuditHead(sequence, previous) && sequence == n
  }

  /** `verify_audit_chain`: pages of 1000 from the origin, then the recorded head. */
  method VerifyAuditChain(mac: bytes -> Digest, rows: seq<AuditRecord>) returns (r: Result<AuditHead, AuditError>)
    requires Keyed(rows)
    ensures r.Ok? <==> Chained(mac, rows)
    ensures r.Ok? ==> r.value == Head(rows) && r.value.sequence == |rows|
  {
    hide Links, PageAfter;
    var previous: Digest, sequence: u64 := NO_DIGEST, 0;
    ghost var n := 0;
    var more := true;
    while more
      invariant Verified(mac, rows, n, sequence, previous)
      invariant !more ==> n == |rows|
      decreases |rows| - n, more
    {
      NextRow(mac, rows, n, sequence, previous);
      PageAt(rows, n, sequence, 1000);
      var page := PageAfter(rows, sequence, 1000);
      if page == [] {
        break;
      }
      ghost var start := n;
      for k := 0 to |page|
        invariant n == start + k && Verified(mac, rows, n, sequence, previous)
      {
        var record := page[k];
        assert record == rows[n];
        var good := CheckLink(mac, AuditHead(sequence, previous), record);
        Extend(mac, rows, n, sequence, previous);
        if !good {
          return Err(Integrity);
        }
        sequence, previous := record.input.sequence, record.commitment;
        n := n + 1;
      }
      more := |page| == 1000;
    }
    assert rows[..n] == rows;
    var head := Head(rows);
    if head.sequence != sequence || head.commitment != previous {
      return Err(Conflict);
    }
    return Ok(AuditHead(sequence, previous));
  }

  lemma NextRow(mac: bytes -> Digest, rows: seq<AuditRecord>, n: nat, sequence: u64, previous: Digest)
    requires Keyed(rows) && Verified(mac, rows, n, sequence, previous)
    ensures forall i :: 0 <= i < n ==> rows[i].input.sequence <= sequence
    ensures n < |rows| ==> rows[n].input.sequence > sequence
  {
    ChainedNumbers(mac, rows[..n]);
    assert n > 0 ==> rows[..n][n - 1] == rows[n - 1];
  }

  /**
   * One more row: the log is chained that far exactly when the row links, and then the verifier's state is the new
   * head.
   */
  lemma Extend(mac: bytes -> Digest, rows: seq<AuditRecord>, n: nat, sequence: u64, previous: Digest)
    requires Verified(mac, rows, n, sequence, previous) && n < |rows|
    ensures Chained(mac, rows) ==> Links(mac, AuditHead(sequence, previous), rows[n])
    ensures Links(mac, AuditHead(sequence, previous), rows[n])
            ==> Verified(mac, rows, n + 1, rows[n].input.sequence, rows[n].commitment)
  {
    ChainedAppend(mac, rows[..n], rows[n]);
    assert rows[..n + 1] == rows[..n] + [rows[n]];
    assert Chained(mac, rows) ==> LinkedAt(mac, rows, n);
  }

  method CheckLink(mac: bytes -> Digest, head: AuditHead, r: AuditRecord) returns (good: bool)
    ensures good <==> Links(mac, head, r)
  {
    if r.input.sequence != head.sequence + 1 || r.input.previous != head.commitment {
      return false;
    }
    var expected := Commit(mac, r.input);
    return expected == Some(r.commitment);
  }

  // ----- One head, one log -----

  /** The commitment does not collide between records of the two logs. */
  ghost predicate NoRecordCollisions(mac: bytes -> Digest, a: seq<AuditRecord>, b: seq<AuditRecord>) {
    forall r, s :: r in a && s in b && Committable(r.input) && Committable(s.input) ==>
      NoCollision(mac, Encode(r.input), Encode(s.input))
  }

  lemma PrefixesDoNotCollide(mac: bytes -> Digest, a: seq<AuditRecord>, b: seq<AuditRecord>, n: nat)
    requires NoRecordCollisions(mac, a, b) && n <= |a| && n <= |b|
    ensures NoRecordCollisions(mac, a[..n], b[..n])
  {
    hide Committable, Encode;
    forall r, s | r in a[..n] && s in b[..n] && Committable(r.input) && Committable(s.input)
      ensures NoCollision(mac, Encode(r.input), Encode(s.input))
    {
      assert r in a && s in b;
    }
  }

  lemma SplitLast<T>(s: seq<T>)
    requires s != []
    ensures s == s[..|s| - 1] + [s[|s| - 1]]
  {
  }

  lemma SameLength(mac: bytes -> Digest, a: seq<AuditRecord>, b: seq<AuditRecord>)
    requires Chained(mac, a) && Chained(mac, b) && Head(a) == Head(b)
    ensures |a| == |b|
  {
    hide Chained;
    ChainedNumbers(mac, a);
    ChainedNumbers(mac, b);
  }

  /** Two logs that verify against the same head are the same log. */
  lemma {:induction false} SameHeadSameLog(mac: bytes -> Digest, a: seq<AuditRecord>, b: seq<AuditRecord>)
    requires Chained(mac, a) && Chained(mac, b) && Head(a) == Head(b) && NoRecordCollisions(mac, a, b)
    ensures a == b
    decreases |a|
  {
    hide Chained, Head, NoRecordCollisions;
    SameLength(mac, a, b);
    if a != [] {
      var n := |a| - 1;
      SameLast(mac, a, b);
      ChainedPrefix(mac, a, n);
      ChainedPrefix(mac, b, n);
      PrefixesDoNotCollide(mac, a, b, n);
      SameHeadSameLog(mac, a[..n], b[..n]);
      SplitLast(a);
      SplitLast(b);
    }
  }

  /** The last records agree, and so do the heads before them. */
  lemma SameLast(mac: bytes -> Digest, a: seq<AuditRecord>, b: seq<AuditRecord>)
    requires Chained(mac, a) && Chained(mac, b) && Head(a) == Head(b) && NoRecordCollisions(mac, a, b) && |a| == |b| > 0
    ensures a[|a| - 1] == b[|a| - 1] && Head(a[..|a| - 1]) == Head(b[..|a| - 1])
  {
    hide Encode, Committable;
    var n := |a| - 1;
    assert LinkedAt(mac, a, n) && LinkedAt(mac, b, n);
    assert a[n] in a && b[n] in b;
    EncodeInjective(a[n].input, b[n].input);
  }

  // ----- Threads under the audit gate -----

  type ThreadId = nat

  /** The durable log, who holds the gate, and the record each thread has built but not yet stored. */
  datatype World = World(log: seq<AuditRecord>, gate: Option<ThreadId>, pending: map<ThreadId, AuditRecord>)

  const EMPTY_WORLD := World([], None, map[])

  datatype Step =
    | Build(thread: ThreadId, event: AuditInput)
    | Store(thread: ThreadId, storageWorks: bool)
    | Abandon(thread: ThreadId)
    | Restart

  /** The event as version 2, numbered and linked after the current head. */
  function Numbered(head: AuditHead, event: AuditInput): AuditInput
    requires head.sequence < U64_MAX
  {
    event.(version := 2, previous := head.commitment, sequence := head.sequence + 1)
  }

  /** `build_audit_outcome` waits for the gate, and lets it go again if the event cannot be committed. */
  function ApplyBuild(mac: bytes -> Digest, w: World, thread: ThreadId, event: AuditInput): World {
    var head := Head(w.log);
    if w.gate.Some? || head.sequence == U64_MAX || !Committable(Numbered(head, event)) then w
    else
      var input := Numbered(head, event);
      w.(gate := Some(thread), pending := w.pending[thread := AuditRecord(input, mac(Encode(input)))])
  }

  /** `require_audit_head` and `insert_audit` in one transaction. */
  predicate Insertable(log: seq<AuditRecord>, r: AuditRecord) {
    var head := Head(log);
    r.input.sequence == head.sequence + 1 && r.input.previous == head.commitment
    && r.input.sequence <= I64_MAX && r.input.recoveryEpoch <= I64_MAX
  }

  function Release(w: World, thread: ThreadId): World {
    w.(gate := if w.gate == Some(thread) then None else w.gate, pending := w.pending - {thread})
  }

  function Apply(mac: bytes -> Digest, w: World, step: Step): World {
    match step
    case Build(thread, event) => ApplyBuild(mac, w, thread, event)
    case Store(thread, storageWorks) =>
      if thread !in w.pending then w
      else if storageWorks && Insertable(w.log, w.pending[thread]) then
        Release(w.(log := w.log + [w.pending[thread]]), thread)
      else Release(w, thread)
    case Abandon(thread) => if thread in w.pending then Release(w, thread) else w
    case Restart => w.(gate := None, pending := map[])
  }

  function RunSteps(mac: bytes -> Digest, w: World, steps: seq<Step>): World
    decreases |steps|
  {
    if steps == [] then w else RunSteps(mac, Apply(mac, w, steps[0]), steps[1..])
  }

  /** The log is chained; the gate is held exactly by the thread with a record pending, which links to the head. */
  ghost predicate Inv(mac: bytes -> Digest, w: World) {
    && Chained(mac, w.log) && Keyed(w.log) && (w.gate.Some? ==> w.gate.value in w.pending)
    && forall t :: t in w.pending ==> w.gate == Some(t) && Links(mac, Head(w.log), w.pending[t])
  }

  lemma StepKeepsInv(mac: bytes -> Digest, w: World, step: Step)
    requires Inv(mac, w)
    ensures Inv(mac, Apply(mac, w, step))
    ensures w.log <= Apply(mac, w, step).log
  {
    hide Chained, Encode, Committable;
    ChainedNumbers(mac, w.log);
    if step.Store? && step.thread in w.pending {
      var r := w.pending[step.thread];
      ChainedAppend(mac, w.log, r);
      ChainedNumbers(mac, w.log + [r]);
    }
  }

  /** In every interleaving the log stays gap-free and linked, and nothing already stored changes. */
  lemma {:induction false} RunsStayChained(mac: bytes -> Digest, w: World, steps: seq<Step>)
    requires Inv(mac, w)
    ensures Inv(mac, RunSteps(mac, w, steps)) && w.log <= RunSteps(mac, w, steps).log
    decreases |steps|
  {
    if steps != [] {
      StepKeepsInv(mac, w, steps[0]);
      RunsStayChained(mac, Apply(mac, w, steps[0]), steps[1..]);
    }
  }

  /** The gate makes the head check succeed: a built record is stored unless storage fails or a number overflows. */
  lemma BuiltRecordsStore(mac: bytes -> Digest, steps: seq<Step>, thread: ThreadId)
    requires thread in RunSteps(mac, EMPTY_WORLD, steps).pending
    ensures var w := RunSteps(mac, EMPTY_WORLD, steps);
            var r := w.pending[thread];
            var stored := Apply(mac, w, Store(thread, true)).log == w.log + [r];
            stored <==> r.input.sequence <= I64_MAX && r.input.recoveryEpoch <= I64_MAX
  {
    assert Inv(mac, EMPTY_WORLD);
    RunsStayChained(mac, EMPTY_WORLD, steps);
  }

  /** The store's own check: it inserts nothing but the next record after the head, and nothing if storage fails. */
  lemma StoreIff(mac: bytes -> Digest, w: World, thread: ThreadId, storageWorks: bool)
    requires thread in w.pending
    ensures var r := w.pending[thread].input;
            Apply(mac, w, Store(thread, storageWorks)).log
            == if storageWorks && r.sequence == Head(w.log).sequence + 1 && r.previous == Head(w.log).commitment
                  && r.sequence <= I64_MAX && r.recoveryEpoch <= I64_MAX then w.log + [w.pending[thread]]
               else w.log
  {
  }

  /** A run is its steps one after the other. */
  lemma {:induction false} RunAppend(mac: bytes -> Digest, w: World, steps: seq<Step>, step: Step)
    ensures RunSteps(mac, w, steps + [step]) == Apply(mac, RunSteps(mac, w, steps), step)
    decreases |steps|
  {
    hide Apply;
    if steps == [] {
      assert steps + [step] == [step];
    } else {
      RunAppend(mac, Apply(mac, w, steps[0]), steps[1..], step);
      assert (steps + [step])[1..] == steps[1..] + [step];
    }
  }

  /** The verifier accepts the log of every reachable world. */
  method VerifyAfterRun(mac: bytes -> Digest, steps: seq<Step>) returns (r: Result<AuditHead, AuditError>)
    ensures r == Ok(Head(RunSteps(mac, EMPTY_WORLD, steps).log))
  {
    assert Inv(mac, EMPTY_WORLD);
    RunsStayChained(mac, EMPTY_WORLD, steps);
    r := VerifyAuditChain(mac, RunSteps(mac, EMPTY_WORLD, steps).log);
  }

  /** With the gate free, a build leaves exactly one pending record: the event, numbered and linked after the head. */
  lemma BuildLeavesPending(mac: bytes -> Digest, w: World, thread: ThreadId, event: AuditInput)
    requires Inv(mac, w) && w.gate.None? && |w.log| < U64_MAX
    requires Committable(event.(version := 2))
    ensures var v := Apply(mac, w, Build(thread, event));
            && v.log == w.log && v.gate == Some(thread) && v.pending.Keys == {thread}
            && v.pending[thread].input
               == event.(version := 2, previous := Head(w.log).commitment, sequence := |w.log| + 1)
  {
    ChainedNumbers(mac, w.log);
    assert w.pending == map[];
  }

  /**
   * However its holder ends, stored, refused, abandoned or with the whole process, the gate is free again: the next
   * thread's event is numbered after whatever the log now holds.
   */
  lemma NextBuildGoesThrough(mac: bytes -> Digest, steps: seq<Step>, holder: ThreadId, end: Step, next: ThreadId,
                             event: AuditInput)
    requires holder in RunSteps(mac, EMPTY_WORLD, steps).pending
    requires end == Abandon(holder) || end == Restart || end == Store(holder, true) || end == Store(holder, false)
    requires |RunSteps(mac, EMPTY_WORLD, steps).log| < U64_MAX - 1 && Committable(event.(version := 2))
    ensures var w := Apply(mac, RunSteps(mac, EMPTY_WORLD, steps), end);
            var v := Apply(mac, w, Build(next, event));
            && w.gate == None && w.pending == map[]
            && v.log == w.log && v.gate == Some(next) && v.pending.Keys == {next}
            && v.pending[next].input
               == event.(version := 2, previous := Head(w.log).commitment, sequence := |w.log| + 1)
  {
    assert Inv(mac, EMPTY_WORLD);
    RunsStayChained(mac, EMPTY_WORLD, steps);
    var u := RunSteps(mac, EMPTY_WORLD, steps);
    StepKeepsInv(mac, u, end);
    hide Chained, Encode, Committable, RunSteps, Links;
    assert u.gate == Some(holder);
    BuildLeavesPending(mac, Apply(mac, u, end), next, event);
  }
}
