/** The logical record stream of a backup: appended record by record, decoded with a moving cursor. */
module LogicalStream {
  import opened Bytes
  import opened GraphCommitment
  import opened AuditChain
  import opened Portable
  import RecordFraming

  const MAX_LOGICAL_STREAM_BYTES: nat := 256 * 1024 * 1024

  datatype LogicalKeys = LogicalKeys(blindIndex: bytes, audit: bytes, tokenVerifier: bytes)

  datatype Logical =
    | KeysRecord(keys: LogicalKeys)
    | NamespaceRecord(namespace: Namespace<bytes>)
    | SecretRecord(secret: Secret<bytes>)
    | VersionRecord(version: SecretVersion<bytes>)
    | TombstoneRecord(tombstone: Tombstone)
    | PrincipalRecord(principal: Principal)
    | AuthenticatorRecord(authenticator: Authenticator)
    | ServiceRecord(service: ServiceIdentity<bytes>)
    | CredentialRecord(credential: Credential)
    | AuthorizationRecord(state: AuthorizationState)
    | PolicyRecord(policy: PortablePolicy<bytes>)
    | GrantRecord(grant: GrantRow)
    | BindingRecord(binding: BindingRow)
    | AuditLogRecord(audit: AuditRecord)

  function KindOf(r: Logical): u16 {
    match r
    case KeysRecord(_) => 1
    case NamespaceRecord(_) => 10
    case SecretRecord(_) => 11
    case VersionRecord(_) => 12
    case TombstoneRecord(_) => 13
    case PrincipalRecord(_) => 20
    case AuthenticatorRecord(_) => 21
    case ServiceRecord(_) => 22
    case CredentialRecord(_) => 23
    case AuthorizationRecord(_) => 30
    case PolicyRecord(_) => 31
    case GrantRecord(_) => 32
    case BindingRecord(_) => 33
    case AuditLogRecord(_) => 40
  }

  /** The payload text of a record, and its parser by record kind. */
  datatype Codec = Codec(render: Logical -> bytes, parse: (u16, bytes) -> Option<Logical>)

  ghost predicate LawfulCodec(c: Codec) {
    && (forall r: Logical :: c.parse(KindOf(r), c.render(r)) == Some(r))
    && (forall k: u16, b: bytes :: c.parse(k, b).Some? ==> KindOf(c.parse(k, b).value) == k)
  }

  // ----- Writing -----

  /** One record: kind, the critical flag, length and payload. */
  function Framed(kind: u16, payload: bytes): bytes
    requires |payload| < 0x1_0000_0000
  {
    U16(kind) + U16(1) + U32(|payload|) + payload
  }

  ghost predicate Printable(c: Codec, rs: seq<Logical>) {
    forall i :: 0 <= i < |rs| ==> |c.render(rs[i])| < 0x1_0000_0000
  }

  function StreamOf(c: Codec, rs: seq<Logical>): bytes
    requires Printable(c, rs)
  {
    if rs == [] then [] else Framed(KindOf(rs[0]), c.render(rs[0])) + StreamOf(c, rs[1..])
  }

  lemma {:induction false} StreamAppend(c: Codec, rs: seq<Logical>, r: Logical)
    requires Printable(c, rs + [r])
    ensures Printable(c, rs) && |c.render(r)| < 0x1_0000_0000
    ensures StreamOf(c, rs + [r]) == StreamOf(c, rs) + Framed(KindOf(r), c.render(r))
    decreases |rs|
  {
    hide Framed, KindOf;
    PrintableAppend(c, rs, r);
    if rs == [] {
      assert rs + [r] == [r] && StreamOf(c, [r]) == Framed(KindOf(r), c.render(r)) + [];
    } else {
      assert (rs + [r])[1..] == rs[1..] + [r] && (rs + [r])[0] == rs[0];
      StreamAppend(c, rs[1..], r);
    }
  }

  lemma PrintableAppend(c: Codec, rs: seq<Logical>, r: Logical)
    requires Printable(c, rs + [r])
    ensures Printable(c, rs) && |c.render(r)| < 0x1_0000_0000
  {
    assert (rs + [r])[|rs|] == r;
    assert forall i :: 0 <= i < |rs| ==> (rs + [r])[i] == rs[i];
  }

  /** `append_record`. */
  method AppendRecord(c: Codec, output: bytes, r: Logical) returns (result: Option<bytes>)
    ensures result.Some? <==> |output| + 8 + |c.render(r)| <= MAX_LOGICAL_STREAM_BYTES
    ensures result.Some? ==> |c.render(r)| < 0x1_0000_0000 && result.value == output + Framed(KindOf(r), c.render(r))
  {
    var payload := c.render(r);
    if |payload| >= 0x1_0000_0000 {
      return None;
    }
    if |output| + 8 + |payload| > MAX_LOGICAL_STREAM_BYTES {
      return None;
    }
    return Some(output + Framed(KindOf(r), payload));
  }

  /** The stream fits the limit the writer and the restoring reader share. */
  ghost predicate StreamFits(c: Codec, rs: seq<Logical>) {
    Printable(c, rs) && |StreamOf(c, rs)| <= MAX_LOGICAL_STREAM_BYTES
  }

  /** The loop of `encode_logical_snapshot`: every record, in order. */
  method AppendAll(c: Codec, rs: seq<Logical>) returns (result: Option<bytes>)
    ensures result.Some? <==> StreamFits(c, rs)
    ensures result.Some? ==> result.value == StreamOf(c, rs)
  {
    var output := [];
    for i := 0 to |rs|
      invariant Printable(c, rs[..i]) && output == StreamOf(c, rs[..i]) && |output| <= MAX_LOGICAL_STREAM_BYTES
    {
      assert rs[..i + 1] == rs[..i] + [rs[i]];
      var next := AppendRecord(c, output, rs[i]);
      if next.None? {
        if StreamFits(c, rs) {
          PrefixFits(c, rs, i + 1);
          StreamAppend(c, rs[..i], rs[i]);
        }
        return None;
      }
      assert Printable(c, rs[..i + 1]);
      StreamAppend(c, rs[..i], rs[i]);
      output := next.value;
    }
    assert rs[..|rs|] == rs;
    return Some(output);
  }

  lemma {:induction false} PrefixFits(c: Codec, rs: seq<Logical>, n: nat)
    requires StreamFits(c, rs) && n <= |rs|
    ensures StreamFits(c, rs[..n])
    decreases |rs|
  {
    if n < |rs| {
      var short := rs[..|rs| - 1];
      assert rs == short + [rs[|rs| - 1]];
      StreamAppend(c, short, rs[|rs| - 1]);
      PrefixFits(c, short, n);
      assert short[..n] == rs[..n];
    } else {
      assert rs[..n] == rs;
    }
  }

  // ----- Reading -----

  /** `DecodedLogical`. */
  datatype Decoded = Decoded(keys: Option<LogicalKeys>, namespaces: seq<Namespace<bytes>>, secrets: seq<Secret<bytes>>,
                             versions: seq<SecretVersion<bytes>>, tombstones: seq<Tombstone>,
                             principals: seq<Principal>, authenticators: seq<Authenticator>,
                             services: seq<ServiceIdentity<bytes>>, credentials: seq<Credential>,
                             authorization: Option<AuthorizationState>, policies: seq<PortablePolicy<bytes>>,
                             grants: seq<GrantRow>, bindings: seq<BindingRow>, audit: seq<AuditRecord>, records: nat)

  const NOTHING: Decoded := Decoded(None, [], [], [], [], [], [], [], [], None, [], [], [], [], 0)

  /** One record into its place. */
  function Push(d: Decoded, r: Logical): Decoded {
    var e := match r
      case KeysRecord(x) => d.(keys := Some(x))
      case NamespaceRecord(x) => d.(namespaces := d.namespaces + [x])
      case SecretRecord(x) => d.(secrets := d.secrets + [x])
      case VersionRecord(x) => d.(versions := d.versions + [x])
      case TombstoneRecord(x) => d.(tombstones := d.tombstones + [x])
      case PrincipalRecord(x) => d.(principals := d.principals + [x])
      case AuthenticatorRecord(x) => d.(authenticators := d.authenticators + [x])
      case ServiceRecord(x) => d.(services := d.services + [x])
      case CredentialRecord(x) => d.(credentials := d.credentials + [x])
      case AuthorizationRecord(x) => d.(authorization := Some(x))
      case PolicyRecord(x) => d.(policies := d.policies + [x])
      case GrantRecord(x) => d.(grants := d.grants + [x])
      case BindingRecord(x) => d.(bindings := d.bindings + [x])
      case AuditLogRecord(x) => d.(audit := d.audit + [x]);
    e.(records := d.records + 1)
  }

  function Collected(rs: seq<Logical>): Decoded {
    if rs == [] then NOTHING else Push(Collected(rs[..|rs| - 1]), rs[|rs| - 1])
  }

  lemma CollectedAppend(rs: seq<Logical>, r: Logical)
    ensures Collected(rs + [r]) == Push(Collected(rs), r)
  {
    assert (rs + [r])[..|rs|] == rs;
  }

  /** The keys come first and once; the authorization state comes at most once. */
  ghost predicate WellShaped(rs: seq<Logical>) {
    && (forall i :: 0 <= i < |rs| && rs[i].KeysRecord? ==> i == 0)
    && (forall i, j :: 0 <= i < j < |rs| ==> !(rs[i].AuthorizationRecord? && rs[j].AuthorizationRecord?))
  }

  ghost predicate HasAuthorization(rs: seq<Logical>) {
    exists i :: 0 <= i < |rs| && rs[i].AuthorizationRecord?
  }

  /** The record lists the stream decoder accepts. */
  ghost predicate Acceptable(rs: seq<Logical>, expected: nat) {
    WellShaped(rs) && |rs| == expected && rs != [] && rs[0].KeysRecord? && HasAuthorization(rs)
  }

  lemma {:induction false} CollectedFlags(rs: seq<Logical>)
    ensures Collected(rs).records == |rs|
    ensures WellShaped(rs) ==> (Collected(rs).keys.Some? <==> rs != [] && rs[0].KeysRecord?)
    ensures Collected(rs).authorization.Some? <==> HasAuthorization(rs)
  {
    if rs != [] {
      var n := |rs| - 1;
      CollectedFlags(rs[..n]);
      assert rs == rs[..n] + [rs[n]];
      assert HasAuthorization(rs) <==> HasAuthorization(rs[..n]) || rs[n].AuthorizationRecord?;
      if WellShaped(rs) && n > 0 {
        assert rs[..n][0] == rs[0];
      }
    }
  }

  lemma ShapeStep(rs: seq<Logical>, r: Logical)
    requires WellShaped(rs)
    ensures WellShaped(rs + [r]) <==> (r.KeysRecord? ==> rs == []) && (r.AuthorizationRecord? ==> !HasAuthorization(rs))
  {
    var next := rs + [r];
    assert next[|rs|] == r && forall i :: 0 <= i < |rs| ==> next[i] == rs[i];
  }

  lemma ShapePrefix(rs: seq<Logical>, rest: seq<Logical>)
    requires WellShaped(rs + rest)
    ensures WellShaped(rs)
  {
    assert forall i :: 0 <= i < |rs| ==> (rs + rest)[i] == rs[i];
  }

  /** The record at the front of a buffer, and how many bytes it takes. */
  function First(c: Codec, t: bytes): (r: Option<(Logical, nat)>)
    ensures r.Some? ==> 8 <= r.value.1 <= |t|
  {
    if |t| < 8 || RecordFraming.HeadFlags(t) != 1 || |t| < 8 + RecordFraming.HeadLength(t) then None
    else
      match c.parse(ReadU16(t[0..2]), t[8..8 + RecordFraming.HeadLength(t)])
      case None => None
      case Some(record) => Some((record, 8 + RecordFraming.HeadLength(t)))
  }

  /** Every record of the stream, in order, by the whole-buffer parse. */
  function Parsed(c: Codec, b: bytes): Option<seq<Logical>> {
    if b == [] then Some([])
    else
      match First(c, b)
      case None => None
      case Some(first) =>
        match Parsed(c, b[first.1..])
        case None => None
        case Some(rest) => Some([first.0] + rest)
  }

  lemma FramedHead(kind: u16, payload: bytes, rest: bytes)
    requires |payload| < 0x1_0000_0000
    ensures var b := Framed(kind, payload) + rest;
            && |b| >= 8 + |payload| && ReadU16(b[0..2]) == kind && RecordFraming.HeadFlags(b) == 1
            && RecordFraming.HeadLength(b) == |payload| && b[8..8 + |payload|] == payload && b[8 + |payload|..] == rest
  {
    var b := Framed(kind, payload) + rest;
    assert b[0..2] == U16(kind) && b[2..4] == U16(1) && b[4..8] == U32(|payload|);
    ReadU16Of(kind);
    ReadU16Of(1);
    ReadU32Of(|payload|);
  }

  /** Reading back what was written gives the records. */
  lemma {:induction false} ParsedOfStream(c: Codec, rs: seq<Logical>)
    requires LawfulCodec(c) && Printable(c, rs)
    ensures Parsed(c, StreamOf(c, rs)) == Some(rs)
  {
    if rs != [] {
      FramedHead(KindOf(rs[0]), c.render(rs[0]), StreamOf(c, rs[1..]));
      ParsedOfStream(c, rs[1..]);
      assert [rs[0]] + rs[1..] == rs;
    }
  }

  /** Where both accept, the stream decoder and the record counter count the same records. */
  lemma {:induction false} SameRecordsAsSplit(c: Codec, b: bytes)
    requires Parsed(c, b).Some? && RecordFraming.Split(b).Some?
    ensures |Parsed(c, b).value| == |RecordFraming.Split(b).value|
    decreases |b|
  {
    if b != [] {
      SameRecordsAsSplit(c, b[8 + RecordFraming.HeadLength(b)..]);
    }
  }

  lemma DecoderAndCounterAgree(c: Codec, b: bytes, limit: nat, n: nat)
    requires Parsed(c, b).Some? && RecordFraming.Finish(RecordFraming.Feed(RecordFraming.START, b, limit)) == Ok(n)
    ensures |Parsed(c, b).value| == n
  {
    hide Parsed, RecordFraming.Feed, RecordFraming.Split;
    RecordFraming.FeedIsSplit(b, 0, limit);
    SameRecordsAsSplit(c, b);
  }

  /** What is left of the parse once `rs` has been read. */
  ghost predicate Resumes(c: Codec, b: bytes, cursor: nat, rs: seq<Logical>) {
    && cursor <= |b|
    && Parsed(c, b) == match Parsed(c, b[cursor..])
                       case None => None
                       case Some(rest) => Some(rs + rest)
  }

  lemma ResumeStep(c: Codec, b: bytes, cursor: nat, rs: seq<Logical>)
    requires Resumes(c, b, cursor, rs) && cursor < |b|
    ensures Parsed(c, b).Some? ==> First(c, b[cursor..]).Some?
    ensures First(c, b[cursor..]).Some? ==>
            var first := First(c, b[cursor..]).value;
            Resumes(c, b, cursor + first.1, rs + [first.0])
  {
    hide First;
    if First(c, b[cursor..]).Some? {
      var first := First(c, b[cursor..]).value;
      assert b[cursor..][first.1..] == b[cursor + first.1..];
      var rest := Parsed(c, b[cursor + first.1..]);
      if rest.Some? {
        assert rs + ([first.0] + rest.value) == rs + [first.0] + rest.value;
      }
    }
  }

  /** `decode_logical_stream`. */
  method DecodeLogicalStream(c: Codec, b: bytes, expected: nat) returns (r: Option<Decoded>)
    ensures r.Some? <==> Parsed(c, b).Some? && Acceptable(Parsed(c, b).value, expected)
    ensures r.Some? ==> r.value == Collected(Parsed(c, b).value)
  {
    hide Parsed, Push, Collected, WellShaped, HasAuthorization, RecordFraming.HeadFlags, RecordFraming.HeadLength;
    var decoded := NOTHING;
    var cursor := 0;
    ghost var rs: seq<Logical> := [];
    StartOfParse(c, b);
    while cursor < |b|
      invariant Resumes(c, b, cursor, rs) && WellShaped(rs) && decoded == Collected(rs)
      decreases |b| - cursor
    {
      ResumeStep(c, b, cursor, rs);
      CollectedFlags(rs);
      var tail := b[cursor..];
      if |tail| < 8 || RecordFraming.HeadFlags(tail) != 1 {
        return None;
      }
      var n := 8 + RecordFraming.HeadLength(tail);
      if |tail| < n {
        return None;
      }
      var record := c.parse(ReadU16(tail[0..2]), tail[8..n]);
      if record.None? {
        return None;
      }
      ShapeStep(rs, record.value);
      ShapeOfRest(c, b, cursor + n, rs + [record.value]);
      if record.value.KeysRecord? && (decoded.keys.Some? || decoded.records != 0) {
        return None;
      }
      if record.value.AuthorizationRecord? && decoded.authorization.Some? {
        return None;
      }
      CollectedAppend(rs, record.value);
      decoded := Push(decoded, record.value);
      rs := rs + [record.value];
      cursor := cursor + n;
    }
    EndOfParse(c, b, cursor, rs);
    CollectedFlags(rs);
    if decoded.records != expected || decoded.keys.None? || decoded.authorization.None? {
      return None;
    }
    return Some(decoded);
  }

  lemma StartOfParse(c: Codec, b: bytes)
    ensures Resumes(c, b, 0, []) && WellShaped([]) && Collected([]) == NOTHING
  {
    assert b[0..] == b;
    if Parsed(c, b).Some? {
      assert [] + Parsed(c, b).value == Parsed(c, b).value;
    }
  }

  lemma EndOfParse(c: Codec, b: bytes, cursor: nat, rs: seq<Logical>)
    requires Resumes(c, b, cursor, rs) && cursor == |b|
    ensures Parsed(c, b) == Some(rs)
  {
    assert b[cursor..] == [] && rs + [] == rs;
  }

  lemma ShapeOfRest(c: Codec, b: bytes, cursor: nat, rs: seq<Logical>)
    requires Resumes(c, b, cursor, rs)
    ensures Parsed(c, b).Some? && WellShaped(Parsed(c, b).value) ==> WellShaped(rs)
  {
    if Parsed(c, b).Some? && WellShaped(Parsed(c, b).value) {
      ShapePrefix(rs, Parsed(c, b[cursor..]).value);
    }
  }

  // ----- The stream inside an archive -----

  function AsRecord(c: Codec, r: Logical): RecordFraming.Record {
    RecordFraming.Record(KindOf(r), 1, c.render(r))
  }

  function AsRecords(c: Codec, rs: seq<Logical>): (r: seq<RecordFraming.Record>)
    ensures |r| == |rs| && forall i :: 0 <= i < |rs| ==> r[i] == AsRecord(c, rs[i])
  {
    seq(|rs|, i requires 0 <= i < |rs| => AsRecord(c, rs[i]))
  }

  ghost predicate RecordsBounded(c: Codec, rs: seq<Logical>) {
    forall i :: 0 <= i < |rs| ==> |c.render(rs[i])| <= RecordFraming.MAX_LOGICAL_RECORD_BYTES
  }

  lemma {:induction false} StreamIsFramed(c: Codec, rs: seq<Logical>)
    requires RecordsBounded(c, rs)
    ensures Printable(c, rs) && RecordFraming.AllBounded(AsRecords(c, rs))
    ensures StreamOf(c, rs) == RecordFraming.PrintAll(AsRecords(c, rs))
  {
    if rs != [] {
      StreamIsFramed(c, rs[1..]);
      assert AsRecords(c, rs)[1..] == AsRecords(c, rs[1..]);
    }
  }

  /**
   * The archive's counter accepts a backup's stream exactly when its records are bounded and few enough, and counts
   * them.
   */
  lemma CounterCountsStream(c: Codec, rs: seq<Logical>, limit: nat)
    requires Printable(c, rs)
    ensures var counted := RecordFraming.Finish(RecordFraming.Feed(RecordFraming.START, StreamOf(c, rs), limit));
            && (counted.Ok? <==> RecordsBounded(c, rs) && |rs| <= limit)
            && (counted.Ok? ==> counted.value == |rs|)
  {
    hide RecordFraming.Feed, RecordFraming.PrintAll, StreamOf, RecordFraming.Finish;
    var counted := RecordFraming.Finish(RecordFraming.Feed(RecordFraming.START, StreamOf(c, rs), limit));
    if RecordsBounded(c, rs) {
      StreamIsFramed(c, rs);
      RecordFraming.CounterAcceptsExactlyRecords(StreamOf(c, rs), limit, |rs|);
    }
    if counted.Ok? {
      RecordFraming.FeedIsSplit(StreamOf(c, rs), 0, limit);
      SplitOfStream(c, rs);
    }
  }

  /** A written stream splits into bounded records only if it was made of them. */
  lemma {:induction false} SplitOfStream(c: Codec, rs: seq<Logical>)
    requires Printable(c, rs) && RecordFraming.Split(StreamOf(c, rs)).Some?
    ensures RecordsBounded(c, rs) && |RecordFraming.Split(StreamOf(c, rs)).value| == |rs|
  {
    if rs != [] {
      FramedHead(KindOf(rs[0]), c.render(rs[0]), StreamOf(c, rs[1..]));
      SplitOfStream(c, rs[1..]);
      assert forall i :: 1 <= i < |rs| ==> rs[i] == rs[1..][i - 1];
    }
  }
}
