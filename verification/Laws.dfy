/** The laws the theorems assume of library code are laws that some library keeps: a witness for each. */
module Laws {
  import opened Bytes
  import opened Forest
  import opened Access
  import opened GraphCommitment
  import opened AuditChain
  import Header
  import Archive
  import opened Portable
  import opened LogicalStream
  import KekRotation

  // ----- The archive's primitives -----

  const TAG: bytes := [0, 0, 0, 0, 0, 0, 0, 0, 0, 0, 0, 0, 0, 0, 0, 0]

  function SealFrame(key: bytes, nonce: bytes, aad: bytes, plain: bytes): bytes {
    plain + TAG
  }

  function NoHash(b: bytes): Digest {
    NO_DIGEST
  }

  function Slow(text: bytes, salt: bytes, cost: Header.Argon2Parameters): bytes {
    NO_DIGEST
  }

  function Mac(key: bytes, text: bytes): bytes {
    NO_DIGEST
  }

  /** Two's complement. */
  function Unsigned(x: i64): u64 {
    if x >= 0 then x else x + 0x1_0000_0000_0000_0000
  }

  function Signed(x: u64): i64 {
    if x <= I64_MAX then x else x - 0x1_0000_0000_0000_0000
  }

  function PrintMetadata(m: Archive.ArchiveMetadata): (r: bytes)
    ensures |r| == 56
  {
    m.logicalVaultId + m.sourceInstallationId + U64(m.sourceRecoveryEpoch) + U32(m.sourceSchemaVersion)
    + U32(m.securitySemanticsVersion) + U64(Unsigned(m.createdAt))
  }

  function ParseMetadata(b: bytes): Option<Archive.ArchiveMetadata> {
    if |b| != 56 then None
    else Some(Archive.ArchiveMetadata(b[..16], b[16..32], ReadU64(b[32..40]), ReadU32(b[40..44]), ReadU32(b[44..48]),
                                      Signed(ReadU64(b[48..56]))))
  }

  lemma MetadataRoundTrip(m: Archive.ArchiveMetadata)
    ensures ParseMetadata(PrintMetadata(m)) == Some(m)
  {
    hide U64, U32, Unsigned;
    var b := PrintMetadata(m);
    assert b[..16] == m.logicalVaultId && b[16..32] == m.sourceInstallationId
           && b[32..40] == U64(m.sourceRecoveryEpoch);
    assert b[40..44] == U32(m.sourceSchemaVersion) && b[44..48] == U32(m.securitySemanticsVersion);
    assert b[48..56] == U64(Unsigned(m.createdAt));
    ReadU64Of(m.sourceRecoveryEpoch);
    ReadU32Of(m.sourceSchemaVersion);
    ReadU32Of(m.securitySemanticsVersion);
    ReadU64Of(Unsigned(m.createdAt));
    SignedOf(m.createdAt);
  }

  lemma SignedOf(x: i64)
    ensures Signed(Unsigned(x)) == x
  {
  }

  function PrintFinal(m: Archive.FinalManifest): (r: bytes)
    ensures |r| == 56
  {
    U64(m.recordCount) + U64(m.logicalBytes) + m.logicalDigest + U64(m.dataFrames)
  }

  function ParseFinal(b: bytes): Option<Archive.FinalManifest> {
    if |b| != 56 then None
    else Some(Archive.FinalManifest(ReadU64(b[..8]), ReadU64(b[8..16]), b[16..48], ReadU64(b[48..56])))
  }

  lemma FinalRoundTrip(m: Archive.FinalManifest)
    ensures ParseFinal(PrintFinal(m)) == Some(m)
  {
    hide U64;
    var b := PrintFinal(m);
    assert b[..8] == U64(m.recordCount) && b[8..16] == U64(m.logicalBytes) && b[16..48] == m.logicalDigest;
    assert b[48..56] == U64(m.dataFrames);
    ReadU64Of(m.recordCount);
    ReadU64Of(m.logicalBytes);
    ReadU64Of(m.dataFrames);
  }

  const ARCHIVE: Archive.Primitives :=
    Archive.Primitives(SealFrame, NoHash, Slow, Mac, PrintMetadata, ParseMetadata, PrintFinal, ParseFinal)

  /** Some primitives keep the archive's laws, with manifests of 56 bytes. */
  lemma ArchiveIsLawful()
    ensures Archive.Lawful(ARCHIVE) && forall m :: |ARCHIVE.printMetadata(m)| == 56
  {
    hide ParseMetadata, ParseFinal;
    forall m: Archive.ArchiveMetadata
      ensures ParseMetadata(PrintMetadata(m)) == Some(m)
    {
      MetadataRoundTrip(m);
    }
    forall m: Archive.FinalManifest
      ensures ParseFinal(PrintFinal(m)) == Some(m)
    {
      FinalRoundTrip(m);
    }
  }

  // ----- Wrapping and text -----

  function KeepSealed(key: Key, x: RecordContext, nonce: bytes, plain: bytes): bytes {
    plain
  }

  function KeepOpen(key: Key, x: RecordContext, nonce: bytes, sealed: bytes): Option<bytes> {
    Some(sealed)
  }

  function Same(b: bytes): bytes {
    b
  }

  function Back(b: bytes): Option<bytes> {
    Some(b)
  }

  function NoMac(key: Key, text: bytes): Digest {
    NO_DIGEST
  }

  const VAULT: Portable.Primitives :=
    Portable.Primitives(KeepSealed, KeepOpen, NoMac, NoMac, NoHash, Same, Back, (b: bytes) => true, (a: Action) => true)

  lemma VaultIsLawful()
    ensures Portable.Lawful(VAULT)
  {
  }

  const CIPHER: KekRotation.Cipher :=
    KekRotation.Cipher((k: KekRotation.Key, x: KekRotation.Context, n: bytes, p: bytes) => p,
                       (k: KekRotation.Key, x: KekRotation.Context, n: bytes, c: bytes) => Some(c))

  lemma CipherIsLawful()
    ensures KekRotation.Lawful(CIPHER)
  {
  }

  // ----- A codec for logical records -----

  /** A field of a record. */
  datatype Field = Absent | Text(text: bytes) | Number(number: int)

  function OptionalText(x: Option<bytes>): Field {
    if x.None? then Absent else Text(x.value)
  }

  function OptionalNumber(x: Option<i64>): Field {
    if x.None? then Absent else Number(x.value)
  }

  function Flag(x: bool): Field {
    Number(if x then 1 else 0)
  }

  function Ones(n: nat): bytes {
    seq(n, _ => 1)
  }

  function FieldBytes(f: Field): bytes {
    match f
    case Absent => []
    case Text(t) => [1] + t
    case Number(n) => if n >= 0 then [2] + Ones(n) else [3] + Ones(-n)
  }

  lemma FieldInjective(f: Field, g: Field)
    requires FieldBytes(f) == FieldBytes(g)
    ensures f == g
  {
    var a, b := FieldBytes(f), FieldBytes(g);
    assert |a| == |b| && (a != [] ==> a[0] == b[0]);
    assert f.Number? ==> |a| == 1 + if f.number >= 0 then f.number else -f.number;
    assert g.Number? ==> |b| == 1 + if g.number >= 0 then g.number else -g.number;
    if f.Text? && g.Text? {
      assert f.text == FieldBytes(f)[1..] && g.text == FieldBytes(g)[1..];
    }
  }

  /** A byte string with its end marked: every byte behind a one, then a zero. */
  function Marked(b: bytes): bytes {
    if b == [] then [0] else [1, b[0]] + Marked(b[1..])
  }

  lemma {:induction false} MarkedPrefix(a: bytes, x: bytes, b: bytes, y: bytes)
    requires Marked(a) + x == Marked(b) + y
    ensures a == b && x == y
    decreases |a|
  {
    var s, t := Marked(a) + x, Marked(b) + y;
    assert s[0] == (if a == [] then 0 else 1) && t[0] == (if b == [] then 0 else 1);
    if a == [] {
      assert s[1..] == x && t[1..] == y;
    } else {
      assert s[1] == a[0] && t[1] == b[0];
      assert s[2..] == Marked(a[1..]) + x && t[2..] == Marked(b[1..]) + y;
      MarkedPrefix(a[1..], x, b[1..], y);
      assert a == [a[0]] + a[1..] && b == [b[0]] + b[1..];
    }
  }

  function Packed(fields: seq<Field>): bytes {
    if fields == [] then [] else Marked(FieldBytes(fields[0])) + Packed(fields[1..])
  }

  lemma MarkedNotEmpty(b: bytes)
    ensures Marked(b) != []
  {
  }

  lemma {:induction false} PackedInjective(a: seq<Field>, b: seq<Field>)
    requires Packed(a) == Packed(b)
    ensures a == b
    decreases |a|
  {
    hide Marked, FieldBytes;
    if a != [] && b != [] {
      MarkedPrefix(FieldBytes(a[0]), Packed(a[1..]), FieldBytes(b[0]), Packed(b[1..]));
      FieldInjective(a[0], b[0]);
      PackedInjective(a[1..], b[1..]);
      assert a == [a[0]] + a[1..] && b == [b[0]] + b[1..];
    } else if a != [] {
      MarkedNotEmpty(FieldBytes(a[0]));
    } else if b != [] {
      MarkedNotEmpty(FieldBytes(b[0]));
    }
  }

  // ----- The fields of each kind of record -----

  function LifecycleField(x: Lifecycle): Field {
    Number(match x case Active => 0 case Archived => 1 case Deleted => 2 case Purged => 3)
  }

  function ParentField(x: Option<NamespaceId>): Field {
    if x.None? then Absent else Text(x.value.uuid)
  }

  function AuthorField(x: Option<PrincipalId>): Field {
    if x.None? then Absent else Text(x.value.uuid)
  }

  function IdField(x: Option<Id>): Field {
    if x.None? then Absent else Text(x.value)
  }

  function NamespaceFields(n: Namespace<bytes>): seq<Field> {
    [Text(n.namespaceId.uuid), ParentField(n.parent), Text(n.nameIndex), Number(n.metadataVersion), Text(n.metadata),
     LifecycleField(n.state), Number(n.revision), Text(n.commitment), Number(n.createdAt), Number(n.updatedAt)]
  }

  function SecretFields(s: Secret<bytes>): seq<Field> {
    [Text(s.secretId.uuid), Text(s.namespaceId.uuid), Text(s.nameIndex), Number(s.metadataVersion), Text(s.metadata),
     LifecycleField(s.state), Number(s.currentVersion), Number(s.revision), Text(s.commitment), Number(s.createdAt),
     Number(s.updatedAt), OptionalNumber(s.deletedAt)]
  }

  function VersionFields(v: SecretVersion<bytes>): seq<Field> {
    [Text(v.secretId.uuid), Number(v.version), Text(v.payload), OptionalNumber(v.schedule.expiresAt),
     OptionalNumber(v.schedule.rotationDueAt), AuthorField(v.createdBy), Number(v.createdAt)]
  }

  function TombstoneFields(t: Tombstone): seq<Field> {
    [Text(t.secretId.uuid), Text(t.namespaceId.uuid), Text(t.nameIndex), Number(t.lastVersion), Number(t.purgedAt),
     Number(t.retentionCutoff)]
  }

  function PrincipalFields(r: Principal): seq<Field> {
    [Text(r.principalId.uuid), Flag(r.kind == Owner), Text(r.state), Number(r.revision), Text(r.commitment),
     Number(r.createdAt), Number(r.updatedAt)]
  }

  function AuthenticatorFields(a: Authenticator): seq<Field> {
    [Text(a.authenticatorId), Text(a.principalId.uuid),
     Number(match a.kind case Password => 0 case Passkey => 1 case Recovery => 2),
     OptionalText(a.lookup), OptionalText(a.data), OptionalText(a.passwordPhc), Text(a.state), Number(a.createdAt),
     OptionalNumber(a.lastUsedAt), OptionalNumber(a.revokedAt), Text(a.commitment)]
  }

  function ServiceFields(s: ServiceIdentity<bytes>): seq<Field> {
    [Text(s.principalId.uuid), Number(s.metadataVersion), Text(s.metadata)]
  }

  function CredentialFields(c: Portable.Credential): seq<Field> {
    [Text(c.credentialId), Text(c.principalId.uuid), Text(c.lookupId), Text(c.verifier), Number(c.createdAt),
     OptionalNumber(c.expiresAt), OptionalNumber(c.lastUsedAt), OptionalNumber(c.revokedAt), Number(c.revision),
     Text(c.commitment)]
  }

  function PolicyFields(p: PortablePolicy<bytes>): seq<Field> {
    [Text(p.policyId.uuid), Number(p.revision), Flag(p.active), Number(p.metadataVersion), Text(p.metadata),
     Text(p.commitment), Number(p.createdAt), Number(p.updatedAt)]
  }

  function TargetFields(r: Resource): seq<Field> {
    match r
    case NamespaceResource(n) => [Number(0), Text(n.uuid)]
    case SecretResource(s) => [Number(1), Text(s.uuid)]
  }

  function GrantFields(g: GrantRow): seq<Field> {
    TargetFields(g.target)
    + [Text(g.grantId), Text(g.policyId.uuid), Text(g.action.name), Flag(g.includeDescendants), Text(g.createdBy.uuid),
       Number(g.createdAt), Text(g.commitment)]
  }

  function BindingFields(b: BindingRow): seq<Field> {
    [Text(b.principalId.uuid), Text(b.policyId.uuid), Text(b.createdBy.uuid), Number(b.createdAt), Text(b.commitment)]
  }

  function AuditFields(r: AuditRecord): seq<Field> {
    var x := r.input;
    [Number(x.version), Text(x.previous), Number(x.sequence), Text(x.eventId), Text(x.installationId),
     Number(x.recoveryEpoch), Number(x.occurredAt), Text(x.requestId), IdField(x.actor), OptionalText(x.credentialKind),
     IdField(x.credentialId), Text(x.action), Text(x.targetKind), IdField(x.target), Text(x.outcome),
       Text(r.commitment)]
  }

  function Fields(r: Logical): seq<Field> {
    match r
    case KeysRecord(k) => [Text(k.blindIndex), Text(k.audit), Text(k.tokenVerifier)]
    case NamespaceRecord(n) => NamespaceFields(n)
    case SecretRecord(s) => SecretFields(s)
    case VersionRecord(v) => VersionFields(v)
    case TombstoneRecord(t) => TombstoneFields(t)
    case PrincipalRecord(p) => PrincipalFields(p)
    case AuthenticatorRecord(a) => AuthenticatorFields(a)
    case ServiceRecord(s) => ServiceFields(s)
    case CredentialRecord(c) => CredentialFields(c)
    case AuthorizationRecord(a) => [Number(a.revision), Text(a.commitment)]
    case PolicyRecord(p) => PolicyFields(p)
    case GrantRecord(g) => GrantFields(g)
    case BindingRecord(b) => BindingFields(b)
    case AuditLogRecord(a) => AuditFields(a)
  }

  lemma SameNamespace(a: Namespace<bytes>, b: Namespace<bytes>)
    requires NamespaceFields(a) == NamespaceFields(b)
    ensures a == b
  {
    var f, g := NamespaceFields(a), NamespaceFields(b);
    assert f[0] == g[0] && f[1] == g[1] && f[2] == g[2] && f[3] == g[3] && f[4] == g[4] && f[5] == g[5] && f[6] == g[6];
    assert f[7] == g[7] && f[8] == g[8] && f[9] == g[9];
  }

  lemma SameSecret(a: Secret<bytes>, b: Secret<bytes>)
    requires SecretFields(a) == SecretFields(b)
    ensures a == b
  {
    var f, g := SecretFields(a), SecretFields(b);
    assert f[0] == g[0] && f[1] == g[1] && f[2] == g[2] && f[3] == g[3] && f[4] == g[4] && f[5] == g[5] && f[6] == g[6];
    assert f[7] == g[7] && f[8] == g[8] && f[9] == g[9] && f[10] == g[10] && f[11] == g[11];
  }

  lemma SameVersion(a: SecretVersion<bytes>, b: SecretVersion<bytes>)
    requires VersionFields(a) == VersionFields(b)
    ensures a == b
  {
    var f, g := VersionFields(a), VersionFields(b);
    assert f[0] == g[0] && f[1] == g[1] && f[2] == g[2] && f[3] == g[3] && f[4] == g[4] && f[5] == g[5] && f[6] == g[6];
  }

  lemma SameTombstone(a: Tombstone, b: Tombstone)
    requires TombstoneFields(a) == TombstoneFields(b)
    ensures a == b
  {
    var f, g := TombstoneFields(a), TombstoneFields(b);
    assert f[0] == g[0] && f[1] == g[1] && f[2] == g[2] && f[3] == g[3] && f[4] == g[4] && f[5] == g[5];
  }

  lemma SamePrincipal(a: Principal, b: Principal)
    requires PrincipalFields(a) == PrincipalFields(b)
    ensures a == b
  {
    var f, g := PrincipalFields(a), PrincipalFields(b);
    assert f[0] == g[0] && f[1] == g[1] && f[2] == g[2] && f[3] == g[3] && f[4] == g[4] && f[5] == g[5] && f[6] == g[6];
  }

  lemma SameAuthenticator(a: Authenticator, b: Authenticator)
    requires AuthenticatorFields(a) == AuthenticatorFields(b)
    ensures a == b
  {
    var f, g := AuthenticatorFields(a), AuthenticatorFields(b);
    assert f[0] == g[0] && f[1] == g[1] && f[2] == g[2] && f[3] == g[3] && f[4] == g[4] && f[5] == g[5] && f[6] == g[6];
    assert f[7] == g[7] && f[8] == g[8] && f[9] == g[9] && f[10] == g[10];
  }

  lemma SameService(a: ServiceIdentity<bytes>, b: ServiceIdentity<bytes>)
    requires ServiceFields(a) == ServiceFields(b)
    ensures a == b
  {
    var f, g := ServiceFields(a), ServiceFields(b);
    assert f[0] == g[0] && f[1] == g[1] && f[2] == g[2];
  }

  lemma SameCredential(a: Portable.Credential, b: Portable.Credential)
    requires CredentialFields(a) == CredentialFields(b)
    ensures a == b
  {
    var f, g := CredentialFields(a), CredentialFields(b);
    assert f[0] == g[0] && f[1] == g[1] && f[2] == g[2] && f[3] == g[3] && f[4] == g[4] && f[5] == g[5] && f[6] == g[6];
    assert f[7] == g[7] && f[8] == g[8] && f[9] == g[9];
  }

  lemma SamePolicy(a: PortablePolicy<bytes>, b: PortablePolicy<bytes>)
    requires PolicyFields(a) == PolicyFields(b)
    ensures a == b
  {
    var f, g := PolicyFields(a), PolicyFields(b);
    assert f[0] == g[0] && f[1] == g[1] && f[2] == g[2] && f[3] == g[3] && f[4] == g[4] && f[5] == g[5] && f[6] == g[6];
    assert f[7] == g[7];
  }

  lemma SameGrant(a: GrantRow, b: GrantRow)
    requires GrantFields(a) == GrantFields(b)
    ensures a == b
  {
    var f, g := GrantFields(a), GrantFields(b);
    assert f[0] == g[0] && f[1] == g[1] && f[2] == g[2] && f[3] == g[3] && f[4] == g[4] && f[5] == g[5] && f[6] == g[6];
    assert f[7] == g[7] && f[8] == g[8];
  }

  lemma SameBinding(a: BindingRow, b: BindingRow)
    requires BindingFields(a) == BindingFields(b)
    ensures a == b
  {
    var f, g := BindingFields(a), BindingFields(b);
    assert f[0] == g[0] && f[1] == g[1] && f[2] == g[2] && f[3] == g[3] && f[4] == g[4];
  }

  lemma SameAudit(a: AuditRecord, b: AuditRecord)
    requires AuditFields(a) == AuditFields(b)
    ensures a == b
  {
    var f, g := AuditFields(a), AuditFields(b);
    assert f[0] == g[0] && f[1] == g[1] && f[2] == g[2] && f[3] == g[3] && f[4] == g[4] && f[5] == g[5] && f[6] == g[6];
    assert f[7] == g[7] && f[8] == g[8] && f[9] == g[9] && f[10] == g[10] && f[11] == g[11] && f[12] == g[12];
    assert f[13] == g[13] && f[14] == g[14] && f[15] == g[15];
  }

  /** Records of one kind with the same fields are the same record. */
  lemma SameFields(a: Logical, b: Logical)
    requires KindOf(a) == KindOf(b) && Fields(a) == Fields(b)
    ensures a == b
  {
    hide NamespaceFields, SecretFields, VersionFields, TombstoneFields, PrincipalFields, AuthenticatorFields;
    hide ServiceFields;
    hide CredentialFields, PolicyFields, GrantFields, BindingFields, AuditFields;
    match a
    case KeysRecord(k) =>
      assert Fields(a)[0] == Fields(b)[0] && Fields(a)[1] == Fields(b)[1] && Fields(a)[2] == Fields(b)[2];
    case NamespaceRecord(n) => SameNamespace(n, b.namespace);
    case SecretRecord(s) => SameSecret(s, b.secret);
    case VersionRecord(v) => SameVersion(v, b.version);
    case TombstoneRecord(t) => SameTombstone(t, b.tombstone);
    case PrincipalRecord(p) => SamePrincipal(p, b.principal);
    case AuthenticatorRecord(x) => SameAuthenticator(x, b.authenticator);
    case ServiceRecord(s) => SameService(s, b.service);
    case CredentialRecord(c) => SameCredential(c, b.credential);
    case AuthorizationRecord(s) => assert Fields(a)[0] == Fields(b)[0] && Fields(a)[1] == Fields(b)[1];
    case PolicyRecord(p) => SamePolicy(p, b.policy);
    case GrantRecord(g) => SameGrant(g, b.grant);
    case BindingRecord(x) => SameBinding(x, b.binding);
    case AuditLogRecord(r) => SameAudit(r, b.audit);
  }

  function Render(r: Logical): bytes {
    Packed(Fields(r))
  }

  ghost predicate Renders(kind: u16, text: bytes, r: Logical) {
    KindOf(r) == kind && Render(r) == text
  }

  ghost function ParseRecord(kind: u16, text: bytes): Option<Logical> {
    if r :| Renders(kind, text, r) then Some(r) else None
  }

  ghost function RecordCodec(): Codec {
    Codec(Render, ParseRecord)
  }

  /** Some codec keeps the law of logical records. */
  lemma CodecIsLawful()
    ensures LawfulCodec(RecordCodec())
  {
    hide KindOf, Fields, Packed;
    forall r: Logical
      ensures ParseRecord(KindOf(r), Render(r)) == Some(r)
    {
      assert Renders(KindOf(r), Render(r), r);
      var found := ParseRecord(KindOf(r), Render(r)).value;
      PackedInjective(Fields(found), Fields(r));
      SameFields(found, r);
    }
  }
}
