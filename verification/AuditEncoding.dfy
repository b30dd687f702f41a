/** The canonical bytes an audit event is committed under. */
module AuditEncoding {
  import opened Bytes
  import opened Text

  datatype AuditInput = AuditInput(version: byte, previous: Digest, sequence: u64, eventId: Id, installationId: Id,
                                   recoveryEpoch: u64, occurredAt: i64, requestId: Id, actor: Option<Id>,
                                   credentialKind: Option<bytes>, credentialId: Option<Id>, action: bytes,
                                   targetKind: bytes, target: Option<Id>, outcome: bytes)

  /** `bounded_audit_text`: non-empty ASCII of a bounded length. */
  predicate BoundedText(s: bytes, max: nat): (ok: bool)
    ensures ok <==> 1 <= |s| && |s| <= max && forall c :: c in s ==> 0 <= c <= 127
  {
    assert forall i :: 0 <= i < |s| ==> s[i] in s;
    0 < |s| <= max && forall i :: 0 <= i < |s| ==> s[i] < 128
  }

  /** The inputs `audit_commitment` accepts. */
  predicate Committable(x: AuditInput) {
    && BoundedText(x.action, 64) && BoundedText(x.targetKind, 32) && BoundedText(x.outcome, 16)
    && (x.version == 1 || x.version == 2)
    && (x.version == 1 ==> x.credentialKind.None? && x.credentialId.None?)
    && (x.credentialKind.Some? <==> x.credentialId.Some?)
    && (x.credentialKind.Some? ==> BoundedText(x.credentialKind.value, 16))
  }

  /** The label and the version, each ended by a zero byte. */
  function Label(version: byte): (r: bytes)
    ensures |r| == 25 && r[23] == if version == 1 then 49 else 50
  {
    Ascii("SMCV-AUDIT-COMMITMENT") + [0] + Ascii(if version == 1 then "v1" else "v2") + [0]
  }

  /** The fields of fixed width. */
  function Fixed(x: AuditInput): (r: bytes)
    ensures |r| == 129
  {
    Label(x.version) + x.previous + U64(x.sequence) + x.eventId + x.installationId + U64(x.recoveryEpoch)
    + I64(x.occurredAt) + x.requestId
  }

  /** `update_optional_id`. */
  function OptionalId(x: Option<Id>): bytes {
    match x
    case None => [0]
    case Some(id) => [1] + id
  }

  function Prefixed(s: bytes): bytes
    requires |s| < 0x1_0000
  {
    U16(|s|) + s
  }

  /** Version 2 only: the credential's kind and identity, or their absence. */
  function Credential(x: AuditInput): bytes
    requires Committable(x)
  {
    if x.version == 1 then []
    else if x.credentialKind.Some? then [1] + Prefixed(x.credentialKind.value) + OptionalId(x.credentialId)
    else [0]
  }

  function Encode(x: AuditInput): bytes
    requires Committable(x)
  {
    Fixed(x) + OptionalId(x.actor) + Credential(x) + Prefixed(x.action) + Prefixed(x.targetKind) + OptionalId(x.target)
    + Prefixed(x.outcome)
  }

  /** `audit_commitment`: checks the input, then feeds the keyed hash field by field. */
  method Commit(mac: bytes -> Digest, x: AuditInput) returns (r: Option<Digest>)
    ensures r == if Committable(x) then Some(mac(Encode(x))) else None
  {
    if !BoundedText(x.action, 64) || !BoundedText(x.targetKind, 32) || !BoundedText(x.outcome, 16) {
      return None;
    }
    if !(x.version == 1 || x.version == 2)
       || (x.version == 1 && (x.credentialKind.Some? || x.credentialId.Some?))
       || x.credentialKind.Some? != x.credentialId.Some?
    {
      return None;
    }
    if x.credentialKind.Some? && !BoundedText(x.credentialKind.value, 16) {
      return None;
    }
    hide Fixed, OptionalId, Prefixed;
    var fed := Fixed(x);
    fed := fed + OptionalId(x.actor);
    if x.version == 2 {
      if x.credentialKind.Some? {
        ghost var before := fed;
        fed := fed + [1];
        fed := fed + Prefixed(x.credentialKind.value);
        fed := fed + OptionalId(x.credentialId);
        assert fed == before + Credential(x);
      } else {
        fed := fed + [0];
      }
    }
    assert fed == Fixed(x) + OptionalId(x.actor) + Credential(x);
    fed := fed + Prefixed(x.action);
    fed := fed + Prefixed(x.targetKind);
    fed := fed + OptionalId(x.target);
    fed := fed + Prefixed(x.outcome);
    return Some(mac(fed));
  }

  // ----- Unique decoding: every field says where it ends -----

  lemma SameWidth(a: bytes, b: bytes, r: bytes, s: bytes)
    requires |a| == |b| && a + r == b + s
    ensures a == b && r == s
  {
    assert (a + r)[..|a|] == a && (b + s)[..|a|] == b;
    assert (a + r)[|a|..] == r && (b + s)[|a|..] == s;
  }

  lemma Nested(a: bytes, b: bytes, c: bytes, d: bytes, e: bytes, f: bytes, g: bytes)
    ensures a + b + c + d + e + f + g == a + (b + (c + (d + (e + (f + g)))))
  {
  }

  lemma SameOptionalId(x: Option<Id>, y: Option<Id>, r: bytes, s: bytes)
    requires OptionalId(x) + r == OptionalId(y) + s
    ensures x == y && r == s
  {
    assert (OptionalId(x) + r)[0] == if x.Some? then 1 else 0;
    assert (OptionalId(y) + s)[0] == if y.Some? then 1 else 0;
    SameWidth(OptionalId(x), OptionalId(y), r, s);
    if x.Some? {
      assert OptionalId(x)[1..] == x.value && OptionalId(y)[1..] == y.value;
    }
  }

  lemma SameText(x: bytes, y: bytes, r: bytes, s: bytes)
    requires |x| < 0x1_0000 && |y| < 0x1_0000 && Prefixed(x) + r == Prefixed(y) + s
    ensures x == y && r == s
  {
    assert Prefixed(x) + r == U16(|x|) + (x + r) && Prefixed(y) + s == U16(|y|) + (y + s);
    SameWidth(U16(|x|), U16(|y|), x + r, y + s);
    ReadU16Of(|x|);
    ReadU16Of(|y|);
    SameWidth(x, y, r, s);
  }

  lemma Regroup(h: byte, a: bytes, b: bytes, r: bytes)
    ensures [h] + a + b + r == [h] + (a + (b + r))
  {
  }

  lemma CredentialPresence(x: AuditInput, r: bytes)
    requires Committable(x) && x.version == 2
    ensures (Credential(x) + r)[0] == if x.credentialKind.Some? then 1 else 0
  {
  }

  /** Both credentials are present. */
  lemma SamePresentCredential(x: AuditInput, y: AuditInput, r: bytes, s: bytes)
    requires Committable(x) && Committable(y) && x.version == y.version == 2 && Credential(x) + r == Credential(y) + s
    requires x.credentialKind.Some? && y.credentialKind.Some?
    ensures x.credentialKind == y.credentialKind && x.credentialId == y.credentialId && r == s
  {
    hide Prefixed, OptionalId;
    var kx, ky := x.credentialKind.value, y.credentialKind.value;
    var tx, ty := OptionalId(x.credentialId), OptionalId(y.credentialId);
    Regroup(1, Prefixed(kx), tx, r);
    Regroup(1, Prefixed(ky), ty, s);
    SameWidth([1], [1], Prefixed(kx) + (tx + r), Prefixed(ky) + (ty + s));
    SameText(kx, ky, tx + r, ty + s);
    SameOptionalId(x.credentialId, y.credentialId, r, s);
  }

  lemma SameCredential(x: AuditInput, y: AuditInput, r: bytes, s: bytes)
    requires Committable(x) && Committable(y) && x.version == y.version && Credential(x) + r == Credential(y) + s
    ensures x.credentialKind == y.credentialKind && x.credentialId == y.credentialId && r == s
  {
    hide Prefixed, OptionalId, BoundedText;
    if x.version == 1 {
      assert Credential(x) + r == r && Credential(y) + s == s;
    } else {
      CredentialPresence(x, r);
      CredentialPresence(y, s);
      if x.credentialKind.Some? {
        SamePresentCredential(x, y, r, s);
      } else {
        SameWidth([0], [0], r, s);
      }
    }
  }

  lemma FixedPieces(x: AuditInput)
    ensures var f := Fixed(x);
            && f[23] == (if x.version == 1 then 49 else 50) && f[25..57] == x.previous && f[57..65] == U64(x.sequence)
            && f[65..81] == x.eventId && f[81..97] == x.installationId && f[97..105] == U64(x.recoveryEpoch)
            && f[105..113] == I64(x.occurredAt) && f[113..129] == x.requestId
  {
  }

  lemma SameFixed(x: AuditInput, y: AuditInput)
    requires Fixed(x) == Fixed(y) && (x.version == 1 || x.version == 2) && (y.version == 1 || y.version == 2)
    ensures x.version == y.version && x.previous == y.previous && x.sequence == y.sequence && x.eventId == y.eventId
    ensures x.installationId == y.installationId && x.recoveryEpoch == y.recoveryEpoch && x.occurredAt == y.occurredAt
    ensures x.requestId == y.requestId
  {
    hide Fixed;
    FixedPieces(x);
    FixedPieces(y);
    ReadU64Of(x.sequence);
    ReadU64Of(y.sequence);
    ReadU64Of(x.recoveryEpoch);
    ReadU64Of(y.recoveryEpoch);
    ReadI64Of(x.occurredAt);
    ReadI64Of(y.occurredAt);
  }

  /** Two accepted inputs with the same bytes are the same event. */
  lemma EncodeInjective(x: AuditInput, y: AuditInput)
    requires Committable(x) && Committable(y) && Encode(x) == Encode(y)
    ensures x == y
  {
    hide Fixed, OptionalId, Prefixed, Credential;
    Nested(Fixed(x), OptionalId(x.actor), Credential(x), Prefixed(x.action), Prefixed(x.targetKind),
           OptionalId(x.target), Prefixed(x.outcome));
    Nested(Fixed(y), OptionalId(y.actor), Credential(y), Prefixed(y.action), Prefixed(y.targetKind),
           OptionalId(y.target), Prefixed(y.outcome));
    var x4, y4 := OptionalId(x.target) + Prefixed(x.outcome), OptionalId(y.target) + Prefixed(y.outcome);
    var x3, y3 := Prefixed(x.targetKind) + x4, Prefixed(y.targetKind) + y4;
    var x2, y2 := Prefixed(x.action) + x3, Prefixed(y.action) + y3;
    var x1, y1 := Credential(x) + x2, Credential(y) + y2;
    SameWidth(Fixed(x), Fixed(y), OptionalId(x.actor) + x1, OptionalId(y.actor) + y1);
    SameFixed(x, y);
    SameOptionalId(x.actor, y.actor, x1, y1);
    SameCredential(x, y, x2, y2);
    SameText(x.action, y.action, x3, y3);
    SameText(x.targetKind, y.targetKind, x4, y4);
    SameOptionalId(x.target, y.target, Prefixed(x.outcome), Prefixed(y.outcome));
    assert Prefixed(x.outcome) + [] == Prefixed(y.outcome) + [];
    SameText(x.outcome, y.outcome, [], []);
  }
}
