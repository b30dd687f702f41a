/** What a row's commitment determines: which rows a verified commitment leaves possible. */
module RowCommitments {
  import opened Bytes
  import opened Text
  import opened Access
  import opened Forest
  import opened Portable

  /** The keyed hash of an installation's rows. */
  function StateMac(p: Primitives, i: Installation): bytes -> Digest {
    x => p.stateMac(i.keys.audit, x)
  }

  // ----- What an envelope is bound to -----

  /** The ten contexts of five rows: what each row's record, and its data key, is sealed under. */
  function Contexts<M>(i: Installation, n: Namespace<M>, s: Secret<M>, v: SecretVersion<M>, x: ServiceIdentity<M>,
                       q: PortablePolicy<M>): seq<RecordContext>
  {
    [ContextOf(i, NamespaceSlot(n)), WrappedContextOf(i, NamespaceSlot(n)), ContextOf(i, SecretSlot(s)),
     WrappedContextOf(i, SecretSlot(s)), ContextOf(i, VersionSlot(v)), WrappedContextOf(i, VersionSlot(v)),
     ContextOf(i, ServiceSlot(x)), WrappedContextOf(i, ServiceSlot(x)), ContextOf(i, PolicySlot(q)),
     WrappedContextOf(i, PolicySlot(q))]
  }

  /** Whatever the rows, no two of these are alike: no envelope stands for another kind of row, nor for its own key. */
  lemma ContextsSeparate<M>(i: Installation, n: Namespace<M>, s: Secret<M>, v: SecretVersion<M>, x: ServiceIdentity<M>,
                            q: PortablePolicy<M>, j: int, k: int)
    requires 0 <= j < k < 10
    ensures Contexts(i, n, s, v, x, q)[j] != Contexts(i, n, s, v, x, q)[k]
  {
  }

  /** Each names the vault, the installation, the kind of record or key, the row and its version. */
  lemma ContextsName<M>(i: Installation, n: Namespace<M>, s: Secret<M>, v: SecretVersion<M>, x: ServiceIdentity<M>,
                        q: PortablePolicy<M>)
    ensures var c := Contexts(i, n, s, v, x, q);
            && (forall k :: 0 <= k < 10 ==> c[k].vaultId == i.vaultId && c[k].installationId == i.installationId)
            && c[0].kind == NamespaceMetadata && c[1].kind == WrappedNamespaceMetadataKey
            && c[2].kind == SecretMetadata && c[3].kind == WrappedMetadataKey
            && c[4].kind == SecretPayload && c[5].kind == WrappedDataKey
            && c[6].kind == ServiceIdentityMetadata && c[7].kind == WrappedServiceIdentityMetadataKey
            && c[8].kind == PolicyMetadata && c[9].kind == WrappedPolicyMetadataKey
            && c[0].objectId == c[1].objectId == n.namespaceId.uuid && c[0].version == c[1].version == n.metadataVersion
            && c[2].objectId == c[3].objectId == s.secretId.uuid && c[2].version == c[3].version == s.metadataVersion
            && c[4].objectId == c[5].objectId == v.secretId.uuid && c[4].version == c[5].version == v.version
            && c[6].objectId == c[7].objectId == x.principalId.uuid && c[6].version == c[7].version == x.metadataVersion
            && c[8].objectId == c[9].objectId == q.policyId.uuid && c[8].version == c[9].version == q.metadataVersion
  {
  }

  // ----- Namespaces and secrets -----

  lemma LifecycleCodes(a: Lifecycle, b: Lifecycle)
    ensures LifecycleCode(a) == LifecycleCode(b) ==> a == b
  {
  }

  lemma NamespacePieces<M>(i: Installation, n: Namespace<M>)
    ensures var s := NamespaceState(i, n);
            && |s| == 131 && s[17..33] == i.vaultId && s[33..49] == i.installationId && s[49..65] == n.namespaceId.uuid
            && s[65..82] == OptionalId(n.parent) && s[82..114] == n.nameIndex && s[114] == LifecycleCode(n.state)
            && s[115..123] == U64(n.revision) && s[123..] == U64(n.metadataVersion)
  {
    hide LifecycleCode, U64;
  }

  lemma OptionalIdInjective(a: Option<NamespaceId>, b: Option<NamespaceId>)
    requires OptionalId(a) == OptionalId(b)
    ensures a == b
  {
    assert OptionalId(a)[0] == (if a.Some? then 1 else 0) && OptionalId(b)[0] == (if b.Some? then 1 else 0);
    assert OptionalId(a)[1..] == (if a.Some? then a.value.uuid else ZERO_ID);
    assert OptionalId(b)[1..] == (if b.Some? then b.value.uuid else ZERO_ID);
  }

  /**
   * A namespace's commitment determines the vault and installation it belongs to and every field but the metadata,
   * whose ciphertext authenticates itself, and the times.
   */
  lemma NamespaceDetermined<M, N>(p: Primitives, i: Installation, n: Namespace<M>, j: Installation, m: Namespace<N>)
    requires i.keys.audit == j.keys.audit && NamespaceCommitment(p, i, n) == NamespaceCommitment(p, j, m)
    requires NoCollision(StateMac(p, i), NamespaceState(i, n), NamespaceState(j, m))
    ensures i.vaultId == j.vaultId && i.installationId == j.installationId
    ensures n.namespaceId == m.namespaceId && n.parent == m.parent && n.nameIndex == m.nameIndex && n.state == m.state
    ensures n.revision == m.revision && n.metadataVersion == m.metadataVersion
  {
    hide NamespaceState, OptionalId, U64;
    assert NamespaceState(i, n) == NamespaceState(j, m);
    NamespacePieces(i, n);
    NamespacePieces(j, m);
    OptionalIdInjective(n.parent, m.parent);
    LifecycleCodes(n.state, m.state);
    ReadU64Of(n.revision);
    ReadU64Of(m.revision);
    ReadU64Of(n.metadataVersion);
    ReadU64Of(m.metadataVersion);
  }

  lemma SecretPieces<M>(i: Installation, n: Secret<M>, t: Schedule)
    ensures var s := SecretState(i, n, t);
            && |s| == 160 && s[21..37] == i.vaultId && s[37..53] == i.installationId && s[53..69] == n.secretId.uuid
            && s[69..85] == n.namespaceId.uuid && s[85..117] == n.nameIndex && s[117] == LifecycleCode(n.state)
            && s[118..126] == U64(n.currentVersion) && s[126..134] == U64(n.revision)
            && s[134..142] == U64(n.metadataVersion) && s[142..151] == OptionalTimestamp(t.expiresAt)
            && s[151..] == OptionalTimestamp(t.rotationDueAt)
  {
    hide LifecycleCode, U64, I64;
  }

  lemma OptionalTimestampInjective(a: Option<i64>, b: Option<i64>)
    requires OptionalTimestamp(a) == OptionalTimestamp(b)
    ensures a == b
  {
    assert OptionalTimestamp(a)[0] == if a.Some? then 1 else 0;
    assert OptionalTimestamp(b)[0] == if b.Some? then 1 else 0;
    if a.Some? && b.Some? {
      assert OptionalTimestamp(a)[1..] == I64(a.value) && OptionalTimestamp(b)[1..] == I64(b.value);
      ReadI64Of(a.value);
      ReadI64Of(b.value);
    }
  }

  /** A secret's determines all that too, and the schedule of its current version. */
  lemma SecretDetermined<M, N>(p: Primitives, i: Installation, n: Secret<M>, s: Schedule, j: Installation, m: Secret<N>,
                               t: Schedule)
    requires i.keys.audit == j.keys.audit && SecretCommitment(p, i, n, s) == SecretCommitment(p, j, m, t)
    requires NoCollision(StateMac(p, i), SecretState(i, n, s), SecretState(j, m, t))
    ensures i.vaultId == j.vaultId && i.installationId == j.installationId && s == t
    ensures n.secretId == m.secretId && n.namespaceId == m.namespaceId && n.nameIndex == m.nameIndex
    ensures n.state == m.state && n.currentVersion == m.currentVersion && n.revision == m.revision
    ensures n.metadataVersion == m.metadataVersion
  {
    hide SecretState, OptionalTimestamp, U64;
    assert SecretState(i, n, s) == SecretState(j, m, t);
    SecretPieces(i, n, s);
    SecretPieces(j, m, t);
    OptionalTimestampInjective(s.expiresAt, t.expiresAt);
    OptionalTimestampInjective(s.rotationDueAt, t.rotationDueAt);
    LifecycleCodes(n.state, m.state);
    ReadU64Of(n.currentVersion);
    ReadU64Of(m.currentVersion);
    ReadU64Of(n.revision);
    ReadU64Of(m.revision);
    ReadU64Of(n.metadataVersion);
    ReadU64Of(m.metadataVersion);
  }

  // ----- Principals, credentials and authenticators -----

  lemma PrincipalFieldsProper(r: Principal)
    requires ZeroFree(r.state)
    ensures Fields(PrincipalFields(r))
  {
    hide Ascii, UuidText, Decimal;
    DecimalZeroFree(r.revision);
  }

  /** A principal's commitment determines every field but the times. */
  lemma PrincipalDetermined(p: Primitives, i: Installation, a: Principal, b: Principal)
    requires ZeroFree(a.state) && ZeroFree(b.state) && PrincipalCommitment(p, i, a) == PrincipalCommitment(p, i, b)
    requires NoCollision(StateMac(p, i), Join(PrincipalFields(a)), Join(PrincipalFields(b)))
    ensures a.principalId == b.principalId && a.kind == b.kind && a.state == b.state && a.revision == b.revision
  {
    hide Join, Decimal, UuidText;
    var f, g := PrincipalFields(a), PrincipalFields(b);
    PrincipalFieldsProper(a);
    PrincipalFieldsProper(b);
    JoinInjective(f, g);
    assert f[1] == g[1] && f[2] == g[2] && f[3] == g[3] && f[4] == g[4];
    UuidTextInjective(a.principalId.uuid, b.principalId.uuid);
    DecimalInjective(a.revision, b.revision);
    assert |KindName(a.kind)| == if a.kind == Owner then 5 else 7;
    assert |KindName(b.kind)| == if b.kind == Owner then 5 else 7;
  }

  lemma TimestampTextZeroFree(t: Option<i64>)
    ensures ZeroFree(TimestampText(t))
  {
    hide Decimal;
    if t.Some? {
      DecimalZeroFree(t.value);
    }
  }

  lemma TimestampTextInjective(s: Option<i64>, t: Option<i64>)
    requires TimestampText(s) == TimestampText(t)
    ensures s == t
  {
    hide Decimal;
    var a, b := TimestampText(s), TimestampText(t);
    assert a[0] == (if s.Some? then 'S' as int else 'N' as int) && b[0] == (if t.Some? then 'S' as int else 'N' as int);
    if s.Some? && t.Some? {
      assert a[5..|a| - 1] == Decimal(s.value) && b[5..|b| - 1] == Decimal(t.value);
      DecimalInjective(s.value, t.value);
    }
  }

  lemma CredentialFieldsProper(c: Credential)
    ensures Fields(CredentialFields(c))
  {
    hide Ascii, UuidText, Decimal, Hex, TimestampText;
    DecimalZeroFree(c.createdAt);
    DecimalZeroFree(c.revision);
    TimestampTextZeroFree(c.expiresAt);
    TimestampTextZeroFree(c.lastUsedAt);
    TimestampTextZeroFree(c.revokedAt);
  }

  /** An application credential's determines the whole row. */
  lemma CredentialDetermined(p: Primitives, i: Installation, a: Credential, b: Credential)
    requires CredentialCommitment(p, i, a) == a.commitment == b.commitment == CredentialCommitment(p, i, b)
    requires NoCollision(StateMac(p, i), Join(CredentialFields(a)), Join(CredentialFields(b)))
    ensures a == b
  {
    hide Join, Decimal, UuidText, Hex, TimestampText, Ascii;
    var f, g := CredentialFields(a), CredentialFields(b);
    CredentialFieldsProper(a);
    CredentialFieldsProper(b);
    JoinInjective(f, g);
    assert f[1] == g[1] && f[2] == g[2] && f[3] == g[3] && f[4] == g[4] && f[5] == g[5] && f[6] == g[6] && f[7] == g[7]
           && f[8] == g[8] && f[9] == g[9];
    UuidTextInjective(a.credentialId, b.credentialId);
    UuidTextInjective(a.principalId.uuid, b.principalId.uuid);
    HexInjective(a.lookupId, b.lookupId);
    HexInjective(a.verifier, b.verifier);
    DecimalInjective(a.createdAt, b.createdAt);
    DecimalInjective(a.revision, b.revision);
    TimestampTextInjective(a.expiresAt, b.expiresAt);
    TimestampTextInjective(a.lastUsedAt, b.lastUsedAt);
    TimestampTextInjective(a.revokedAt, b.revokedAt);
  }

  /** An absent field reads like an empty one. */
  function OrEmpty(b: Option<bytes>): bytes {
    if b.Some? then b.value else []
  }

  ghost predicate TextFree(a: Authenticator) {
    ZeroFree(a.state) && ZeroFree(OrEmpty(a.passwordPhc))
  }

  lemma AuthenticatorFieldsProper(a: Authenticator)
    requires TextFree(a)
    ensures Fields(AuthenticatorFields(a))
  {
    hide Ascii, UuidText, Decimal, Hex, TimestampText;
    DecimalZeroFree(a.createdAt);
    TimestampTextZeroFree(a.lastUsedAt);
    TimestampTextZeroFree(a.revokedAt);
  }

  lemma OptionalHexInjective(a: Option<bytes>, b: Option<bytes>)
    requires OptionalHex(a) == OptionalHex(b)
    ensures OrEmpty(a) == OrEmpty(b)
  {
    HexInjective(OrEmpty(a), OrEmpty(b));
  }

  lemma AuthenticatorNames(a: AuthenticatorKind, b: AuthenticatorKind)
    requires AuthenticatorName(a) == AuthenticatorName(b)
    ensures a == b
  {
    assert AuthenticatorName(Password)[0] == 'p' as int && AuthenticatorName(Password)[4] == 'w' as int;
    assert AuthenticatorName(Passkey)[4] == 'k' as int && AuthenticatorName(Recovery)[0] == 'r' as int;
  }

  /** Two authenticators have the same text exactly when they agree in everything, absent and empty taken as one. */
  lemma AuthenticatorTextIff(a: Authenticator, b: Authenticator)
    requires TextFree(a) && TextFree(b)
    ensures AuthenticatorText(a) == AuthenticatorText(b) <==>
            && a.authenticatorId == b.authenticatorId && a.principalId == b.principalId && a.kind == b.kind
            && OrEmpty(a.lookup) == OrEmpty(b.lookup) && OrEmpty(a.data) == OrEmpty(b.data)
            && OrEmpty(a.passwordPhc) == OrEmpty(b.passwordPhc) && a.state == b.state && a.createdAt == b.createdAt
            && a.lastUsedAt == b.lastUsedAt && a.revokedAt == b.revokedAt
  {
    hide Join, Decimal, UuidText, TimestampText, Ascii, AuthenticatorName;
    var f, g := AuthenticatorFields(a), AuthenticatorFields(b);
    if AuthenticatorText(a) == AuthenticatorText(b) {
      hide Hex, OptionalHex;
      AuthenticatorFieldsProper(a);
      AuthenticatorFieldsProper(b);
      JoinInjective(f, g);
      assert f[1] == g[1] && f[2] == g[2] && f[3] == g[3] && f[4] == g[4] && f[5] == g[5] && f[6] == g[6]
             && f[7] == g[7] && f[8] == g[8] && f[9] == g[9] && f[10] == g[10];
      UuidTextInjective(a.authenticatorId, b.authenticatorId);
      UuidTextInjective(a.principalId.uuid, b.principalId.uuid);
      AuthenticatorNames(a.kind, b.kind);
      OptionalHexInjective(a.lookup, b.lookup);
      OptionalHexInjective(a.data, b.data);
      DecimalInjective(a.createdAt, b.createdAt);
      TimestampTextInjective(a.lastUsedAt, b.lastUsedAt);
      TimestampTextInjective(a.revokedAt, b.revokedAt);
    }
  }

  /** `validate_authenticator`: a passkey has its lookup and data, a password or recovery key its hash, and no more. */
  predicate Stored(a: Authenticator) {
    if a.kind == Passkey then a.lookup.Some? && a.data.Some? && a.passwordPhc.None?
    else a.lookup.None? && a.data.None? && a.passwordPhc.Some?
  }

  /** So an authenticator's commitment determines the whole row, for rows of the form the store admits. */
  lemma AuthenticatorDetermined(p: Primitives, i: Installation, a: Authenticator, b: Authenticator)
    requires AuthenticatorCommitment(p, i, a) == Some(a.commitment)
    requires AuthenticatorCommitment(p, i, b) == Some(b.commitment) && a.commitment == b.commitment
    requires TextFree(a) && TextFree(b) && Stored(a) && Stored(b)
    requires NoCollision(StateMac(p, i), AuthenticatorText(a), AuthenticatorText(b))
    ensures a == b
  {
    hide AuthenticatorText;
    AuthenticatorTextIff(a, b);
  }

  /** Without that form it does not: an absent lookup and an empty one have one commitment. */
  lemma AbsentLooksEmpty(p: Primitives, i: Installation, a: Authenticator)
    requires a.lookup == None
    ensures AuthenticatorCommitment(p, i, a.(lookup := Some([]))) == AuthenticatorCommitment(p, i, a)
  {
    assert AuthenticatorFields(a.(lookup := Some([]))) == AuthenticatorFields(a);
  }
}
