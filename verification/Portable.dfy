/** The rows a backup carries, their protection and their commitments. */
module Portable {
  import opened Bytes
  import opened Text
  import opened Forest
  import opened Access
  import opened GraphCommitment
  import opened AuditChain

  type Key = Digest

  // ----- Rows; `M` is an encrypted envelope in a database and text in a backup -----

  datatype Lifecycle = Active | Archived | Deleted | Purged

  datatype Namespace<+M> = Namespace(namespaceId: NamespaceId, parent: Option<NamespaceId>, nameIndex: Digest,
                                     metadataVersion: u64, metadata: M, state: Lifecycle, revision: u64,
                                     commitment: Digest, createdAt: i64, updatedAt: i64)

  datatype Secret<+M> = Secret(secretId: SecretId, namespaceId: NamespaceId, nameIndex: Digest, metadataVersion: u64,
                               metadata: M, state: Lifecycle, currentVersion: u64, revision: u64, commitment: Digest,
                               createdAt: i64, updatedAt: i64, deletedAt: Option<i64>)

  datatype Schedule = Schedule(expiresAt: Option<i64>, rotationDueAt: Option<i64>)

  datatype SecretVersion<+M> = SecretVersion(secretId: SecretId, version: u64, payload: M, schedule: Schedule,
                                             createdBy: Option<PrincipalId>, createdAt: i64)

  datatype Tombstone = Tombstone(secretId: SecretId, namespaceId: NamespaceId, nameIndex: Digest, lastVersion: u64,
                                 purgedAt: i64, retentionCutoff: i64)

  datatype PrincipalKind = Owner | Service

  datatype Principal = Principal(principalId: PrincipalId, kind: PrincipalKind, state: bytes, revision: u64,
                                 commitment: Digest, createdAt: i64, updatedAt: i64)

  datatype AuthenticatorKind = Password | Passkey | Recovery

  datatype Authenticator = Authenticator(authenticatorId: Id, principalId: PrincipalId, kind: AuthenticatorKind,
                                         lookup: Option<bytes>, data: Option<bytes>, passwordPhc: Option<bytes>,
                                         state: bytes, createdAt: i64, lastUsedAt: Option<i64>, revokedAt: Option<i64>,
                                         commitment: Digest)

  datatype ServiceIdentity<+M> = ServiceIdentity(principalId: PrincipalId, metadataVersion: u64, metadata: M)

  datatype Credential = Credential(credentialId: Id, principalId: PrincipalId, lookupId: bytes, verifier: Digest,
                                   createdAt: i64, expiresAt: Option<i64>, lastUsedAt: Option<i64>,
                                   revokedAt: Option<i64>, revision: u64, commitment: Digest)

  datatype PortablePolicy<+M> = PortablePolicy(policyId: PolicyId, revision: u64, active: bool, metadataVersion: u64,
                                               metadata: M, commitment: Digest, createdAt: i64, updatedAt: i64)

  datatype AuthorizationState = AuthorizationState(revision: u64, commitment: Digest)

  datatype Snapshot<+M> = Snapshot(namespaces: seq<Namespace<M>>, secrets: seq<Secret<M>>,
                                   versions: seq<SecretVersion<M>>, tombstones: seq<Tombstone>,
                                   principals: seq<Principal>, authenticators: seq<Authenticator>,
                                   services: seq<ServiceIdentity<M>>, credentials: seq<Credential>,
                                   authorization: AuthorizationState, policies: seq<PortablePolicy<M>>,
                                   grants: seq<GrantRow>, bindings: seq<BindingRow>, audit: seq<AuditRecord>)

  // ----- Protection -----

  datatype ObjectKind =
    | NamespaceMetadata | WrappedNamespaceMetadataKey
    | SecretMetadata | WrappedMetadataKey
    | SecretPayload | WrappedDataKey
    | ServiceIdentityMetadata | WrappedServiceIdentityMetadataKey
    | PolicyMetadata | WrappedPolicyMetadataKey

  datatype RecordContext = RecordContext(vaultId: Id, installationId: Id, kind: ObjectKind, objectId: Id, version: u64)

  /** Keyed primitives and the text codecs of a backup. */
  datatype Primitives = Primitives(seal: (Key, RecordContext, bytes, bytes) -> bytes,
                                   open: (Key, RecordContext, bytes, bytes) -> Option<bytes>,
                                   stateMac: (Key, bytes) -> Digest, auditMac: (Key, bytes) -> Digest,
                                   sha: bytes -> Digest, toText: bytes -> bytes, fromText: bytes -> Option<bytes>,
                                   validPhc: bytes -> bool, serviceGrantable: Action -> bool)

  ghost predicate Lawful(p: Primitives) {
    && (forall k: Key, x: RecordContext, n: bytes, m: bytes :: p.open(k, x, n, p.seal(k, x, n, m)) == Some(m))
    && (forall m: bytes :: p.fromText(p.toText(m)) == Some(m))
  }

  datatype VaultKeys = VaultKeys(blindIndex: Key, audit: Key, tokenVerifier: Key)

  /** An installation: its identities, its key ring and the vault keys it shares with its restored copies. */
  datatype InstallationState = InstallationState(vaultId: Id, installationId: Id, ring: map<u32, Key>, active: u32,
                                                 keys: VaultKeys)

  type Installation = i: InstallationState | i.active in i.ring
    witness InstallationState(ZERO_ID, ZERO_ID, map[0 := NO_DIGEST], 0, VaultKeys(NO_DIGEST, NO_DIGEST, NO_DIGEST))

  /** What an envelope protects: a record kind with its wrapping kind, and the object's identity and version. */
  datatype Slot = Slot(kind: ObjectKind, wrappedKind: ObjectKind, objectId: Id, version: u64)

  function ContextOf(i: Installation, s: Slot): RecordContext {
    RecordContext(i.vaultId, i.installationId, s.kind, s.objectId, s.version)
  }

  function WrappedContextOf(i: Installation, s: Slot): RecordContext {
    RecordContext(i.vaultId, i.installationId, s.wrappedKind, s.objectId, s.version)
  }

  datatype Draw = Draw(dataKey: Key, nonce: bytes, wrapNonce: bytes)

  /** `encrypt_record`: under a fresh data key, itself wrapped by the active key. */
  function EncryptRecord(p: Primitives, i: Installation, s: Slot, plaintext: bytes, draw: Draw): Envelope
  {
    Envelope(draw.nonce, p.seal(draw.dataKey, ContextOf(i, s), draw.nonce, plaintext), draw.wrapNonce,
             p.seal(i.ring[i.active], WrappedContextOf(i, s), draw.wrapNonce, draw.dataKey), i.active)
  }

  /** `decrypt_record`. */
  function DecryptRecord(p: Primitives, i: Installation, s: Slot, e: Envelope): Option<bytes> {
    if e.kekVersion !in i.ring then None
    else
      match p.open(i.ring[e.kekVersion], WrappedContextOf(i, s), e.dekNonce, e.wrappedDek)
      case None => None
      case Some(dataKey) => if |dataKey| != 32 then None else p.open(dataKey, ContextOf(i, s), e.nonce, e.ciphertext)
  }

  lemma DecryptOfEncrypted(p: Primitives, i: Installation, s: Slot, plaintext: bytes, draw: Draw)
    requires Lawful(p)
    ensures DecryptRecord(p, i, s, EncryptRecord(p, i, s, plaintext, draw)) == Some(plaintext)
  {
  }

  function NamespaceSlot<M>(n: Namespace<M>): Slot {
    Slot(NamespaceMetadata, WrappedNamespaceMetadataKey, n.namespaceId.uuid, n.metadataVersion)
  }

  function SecretSlot<M>(s: Secret<M>): Slot {
    Slot(SecretMetadata, WrappedMetadataKey, s.secretId.uuid, s.metadataVersion)
  }

  function VersionSlot<M>(v: SecretVersion<M>): Slot {
    Slot(SecretPayload, WrappedDataKey, v.secretId.uuid, v.version)
  }

  function ServiceSlot<M>(s: ServiceIdentity<M>): Slot {
    Slot(ServiceIdentityMetadata, WrappedServiceIdentityMetadataKey, s.principalId.uuid, s.metadataVersion)
  }

  function PolicySlot<M>(q: PortablePolicy<M>): Slot {
    Slot(PolicyMetadata, WrappedPolicyMetadataKey, q.policyId.uuid, q.metadataVersion)
  }

  // ----- Commitments -----

  function LifecycleCode(s: Lifecycle): byte {
    match s
    case Active => 1
    case Archived => 2
    case Deleted => 3
    case Purged => 4
  }

  const ZERO_ID: Id := [0, 0, 0, 0, 0, 0, 0, 0, 0, 0, 0, 0, 0, 0, 0, 0]

  function OptionalId(parent: Option<NamespaceId>): bytes {
    if parent.Some? then [1] + parent.value.uuid else [0] + ZERO_ID
  }

  function NamespaceState<M>(i: Installation, n: Namespace<M>): bytes {
    Ascii("SMCV-NS-STATE") + [0] + Ascii("v1") + [0] + i.vaultId + i.installationId + n.namespaceId.uuid
    + OptionalId(n.parent) + n.nameIndex + [LifecycleCode(n.state)] + U64(n.revision) + U64(n.metadataVersion)
  }

  /** `namespace_state_commitment`: bound to the installation. */
  function NamespaceCommitment<M>(p: Primitives, i: Installation, n: Namespace<M>): Digest {
    p.stateMac(i.keys.audit, NamespaceState(i, n))
  }

  function OptionalTimestamp(t: Option<i64>): bytes {
    if t.Some? then [1] + I64(t.value) else [0, 0, 0, 0, 0, 0, 0, 0, 0]
  }

  function SecretState<M>(i: Installation, s: Secret<M>, schedule: Schedule): bytes {
    Ascii("SMCV-SECRET-STATE") + [0] + Ascii("v1") + [0] + i.vaultId + i.installationId + s.secretId.uuid
    + s.namespaceId.uuid + s.nameIndex + [LifecycleCode(s.state)] + U64(s.currentVersion) + U64(s.revision)
    + U64(s.metadataVersion) + OptionalTimestamp(schedule.expiresAt) + OptionalTimestamp(schedule.rotationDueAt)
  }

  /** `secret_state_commitment`: bound to the installation and to the current version's schedule. */
  function SecretCommitment<M>(p: Primitives, i: Installation, s: Secret<M>, schedule: Schedule): Digest {
    p.stateMac(i.keys.audit, SecretState(i, s, schedule))
  }

  function KindName(k: PrincipalKind): bytes {
    if k == Owner then Ascii("owner") else Ascii("service")
  }

  function PrincipalFields(r: Principal): seq<bytes> {
    [Ascii("principal"), UuidText(r.principalId.uuid), KindName(r.kind), r.state, Decimal(r.revision)]
  }

  /** `principal_commitment`: not bound to the installation. */
  function PrincipalCommitment(p: Primitives, i: Installation, r: Principal): Digest {
    p.stateMac(i.keys.audit, Join(PrincipalFields(r)))
  }

  function AuthenticatorName(k: AuthenticatorKind): bytes {
    match k
    case Password => Ascii("password")
    case Passkey => Ascii("passkey")
    case Recovery => Ascii("recovery")
  }

  /** An optional timestamp as debug text. */
  function TimestampText(t: Option<i64>): bytes {
    if t.Some? then Ascii("Some(") + Decimal(t.value) + Ascii(")") else Ascii("None")
  }

  function OptionalHex(b: Option<bytes>): bytes {
    if b.Some? then Hex(b.value) else []
  }

  function AuthenticatorFields(a: Authenticator): seq<bytes> {
    [Ascii("authenticator"), UuidText(a.authenticatorId), UuidText(a.principalId.uuid), AuthenticatorName(a.kind),
     OptionalHex(a.lookup), OptionalHex(a.data), if a.passwordPhc.Some? then a.passwordPhc.value else [], a.state,
     Decimal(a.createdAt), TimestampText(a.lastUsedAt), TimestampText(a.revokedAt)]
  }

  function AuthenticatorText(a: Authenticator): bytes {
    Join(AuthenticatorFields(a))
  }

  const MAX_STATE_BYTES: nat := 4096

  /** `authenticator_commitment`: the one state that can outgrow the commitment's input limit. */
  function AuthenticatorCommitment(p: Primitives, i: Installation, a: Authenticator): Option<Digest> {
    if |AuthenticatorText(a)| > MAX_STATE_BYTES then None else Some(p.stateMac(i.keys.audit, AuthenticatorText(a)))
  }

  function CredentialFields(c: Credential): seq<bytes> {
    [Ascii("application-credential"), UuidText(c.credentialId), UuidText(c.principalId.uuid), Hex(c.lookupId),
     Hex(c.verifier), Decimal(c.createdAt), TimestampText(c.expiresAt), TimestampText(c.lastUsedAt),
     TimestampText(c.revokedAt), Decimal(c.revision)]
  }

  /** `application_credential_commitment`: not bound to the installation. */
  function CredentialCommitment(p: Primitives, i: Installation, c: Credential): Digest {
    p.stateMac(i.keys.audit, Join(CredentialFields(c)))
  }

  /** What the authorization graph sees of an installation: nothing but its audit key. */
  function VaultOf(p: Primitives, audit: Key): Vault {
    Vault(x => p.stateMac(audit, x), p.sha, p.serviceGrantable)
  }

  /** The audit log's keyed hash. */
  function AuditMac(p: Primitives, audit: Key): bytes -> Digest {
    x => p.auditMac(audit, x)
  }

  function RowOfPolicy(q: PortablePolicy<Envelope>): (r: PolicyRow)
    ensures r.policyId == q.policyId && r.revision == q.revision && r.createdAt == q.createdAt
    ensures r.updatedAt == q.updatedAt
  {
    PolicyRow(q.policyId, q.revision, q.active, q.metadataVersion, q.metadata, q.createdAt, q.updatedAt, q.commitment)
  }

  function PolicyRows(qs: seq<PortablePolicy<Envelope>>): (r: seq<PolicyRow>)
    ensures |r| == |qs| && forall k :: 0 <= k < |qs| ==> r[k] == RowOfPolicy(qs[k])
  {
    seq(|qs|, k requires 0 <= k < |qs| => RowOfPolicy(qs[k]))
  }

  function GraphOf(s: Snapshot<Envelope>): Rows {
    Rows(PolicyRows(s.policies), s.grants, s.bindings)
  }
}
