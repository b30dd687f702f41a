/** Backup then restore preserves meaning, and every restored row verifies under the new installation. */
module RestoreTheorems {
  import opened Bytes
  import opened Text
  import opened Access
  import opened GraphCommitment
  import opened GraphStore
  import opened AuditChain
  import opened Portable
  import opened LogicalStream
  import opened LogicalRecords
  import opened Restore

  // ----- Verification, as a restore checks it -----

  ghost predicate NamespaceVerifies(p: Primitives, i: Installation, n: Namespace<Envelope>) {
    n.commitment == NamespaceCommitment(p, i, n) && DecryptRecord(p, i, NamespaceSlot(n), n.metadata).Some?
  }

  ghost predicate SecretVerifies(p: Primitives, i: Installation, versions: seq<SecretVersion<Envelope>>,
                                 n: Secret<Envelope>)
  {
    var schedule := ScheduleOf(versions, n.secretId, n.currentVersion);
    schedule.Some? && n.commitment == SecretCommitment(p, i, n, schedule.value)
    && DecryptRecord(p, i, SecretSlot(n), n.metadata).Some?
  }

  /** What a restore recomputes and decrypts of the vault's rows. */
  ghost predicate SecretRowsVerify(p: Primitives, i: Installation, s: Snapshot<Envelope>) {
    && (forall k :: 0 <= k < |s.namespaces| ==> NamespaceVerifies(p, i, s.namespaces[k]))
    && (forall k :: 0 <= k < |s.secrets| ==> SecretVerifies(p, i, s.versions, s.secrets[k]))
    && (forall k :: 0 <= k < |s.versions| ==>
          DecryptRecord(p, i, VersionSlot(s.versions[k]), s.versions[k].payload).Some?)
  }

  /** Those rows, and the service and policy metadata, which a restore does not decrypt again. */
  ghost predicate VaultRowsVerify(p: Primitives, i: Installation, s: Snapshot<Envelope>) {
    && SecretRowsVerify(p, i, s)
    && (forall k :: 0 <= k < |s.services| ==>
          DecryptRecord(p, i, ServiceSlot(s.services[k]), s.services[k].metadata).Some?)
    && (forall k :: 0 <= k < |s.policies| ==>
          DecryptRecord(p, i, PolicySlot(s.policies[k]), s.policies[k].metadata).Some?)
  }

  ghost predicate IdentityRowsVerify(p: Primitives, i: Installation, s: Snapshot<Envelope>) {
    && (forall k :: 0 <= k < |s.principals| ==>
          PrincipalCommitment(p, i, s.principals[k]) == s.principals[k].commitment)
    && (forall k :: 0 <= k < |s.authenticators| ==>
          AuthenticatorCommitment(p, i, s.authenticators[k]) == Some(s.authenticators[k].commitment))
    && (forall k :: 0 <= k < |s.credentials| ==>
          CredentialCommitment(p, i, s.credentials[k]) == s.credentials[k].commitment)
  }

  /** A vault that has had no owner yet: no graph, and its commitment still blank. */
  ghost predicate BlankGraph(s: Snapshot<Envelope>) {
    s.policies == [] && s.grants == [] && s.bindings == [] && s.authorization == AuthorizationState(1, NO_DIGEST)
  }

  ghost predicate GraphVerifiesOn(p: Primitives, i: Installation, s: Snapshot<Envelope>) {
    || BlankGraph(s)
    || (StateVerifies(VaultOf(p, i.keys.audit), GraphOf(s), s.authorization.revision, s.authorization.commitment)
        && Count(GraphOf(s)) <= MAX_AUTHORIZATION_RECORDS)
  }

  /** `verify_restored_snapshot`, relationships aside. */
  ghost predicate ChecksOut(p: Primitives, i: Installation, s: Snapshot<Envelope>) {
    && SecretRowsVerify(p, i, s) && IdentityRowsVerify(p, i, s) && GraphVerifiesOn(p, i, s)
    && Chained(AuditMac(p, i.keys.audit), s.audit)
  }

  ghost predicate VerifiesOn(p: Primitives, i: Installation, s: Snapshot<Envelope>) {
    && VaultRowsVerify(p, i, s) && IdentityRowsVerify(p, i, s) && GraphVerifiesOn(p, i, s)
    && Chained(AuditMac(p, i.keys.audit), s.audit)
  }

  // ----- The same meaning -----

  ghost predicate SameNamespace(p: Primitives, a: Installation, n: Namespace<Envelope>, b: Installation,
                                m: Namespace<Envelope>) {
    && m == n.(metadata := m.metadata, commitment := m.commitment)
    && DecryptRecord(p, b, NamespaceSlot(m), m.metadata) == DecryptRecord(p, a, NamespaceSlot(n), n.metadata)
  }

  ghost predicate SameSecret(p: Primitives, a: Installation, n: Secret<Envelope>, b: Installation,
                             m: Secret<Envelope>) {
    && m == n.(metadata := m.metadata, commitment := m.commitment)
    && DecryptRecord(p, b, SecretSlot(m), m.metadata) == DecryptRecord(p, a, SecretSlot(n), n.metadata)
  }

  ghost predicate SameVersion(p: Primitives, a: Installation, n: SecretVersion<Envelope>, b: Installation,
                              m: SecretVersion<Envelope>) {
    && m == n.(payload := m.payload)
    && DecryptRecord(p, b, VersionSlot(m), m.payload) == DecryptRecord(p, a, VersionSlot(n), n.payload)
  }

  ghost predicate SameService(p: Primitives, a: Installation, n: ServiceIdentity<Envelope>, b: Installation,
                              m: ServiceIdentity<Envelope>) {
    && m == n.(metadata := m.metadata)
    && DecryptRecord(p, b, ServiceSlot(m), m.metadata) == DecryptRecord(p, a, ServiceSlot(n), n.metadata)
  }

  ghost predicate SamePolicy(p: Primitives, a: Installation, n: PortablePolicy<Envelope>, b: Installation,
                             m: PortablePolicy<Envelope>) {
    && m == n.(metadata := m.metadata, commitment := m.commitment)
    && DecryptRecord(p, b, PolicySlot(m), m.metadata) == DecryptRecord(p, a, PolicySlot(n), n.metadata)
  }

  /** An active passkey comes back revoked; every other authenticator comes back as it was. */
  ghost predicate SameAuthenticator(a: Authenticator, b: Authenticator, now: i64) {
    if a.kind == Passkey && a.state == Ascii("active") then
      b == a.(state := Ascii("revoked"), revokedAt := Some(now), commitment := b.commitment)
    else b == a
  }

  /** Preserved as it was, or revoked if it was live. */
  ghost predicate SameCredential(a: Credential, b: Credential, mode: CredentialRestoreMode, now: i64) {
    if mode == Revoke && a.revokedAt.None? then RevokedNow(a, b, now) else b == a
  }

  ghost predicate SameMeaning(p: Primitives, a: Installation, s: Snapshot<Envelope>, b: Installation,
                              t: Snapshot<Envelope>, mode: CredentialRestoreMode, now: i64) {
    && |t.namespaces| == |s.namespaces| && |t.secrets| == |s.secrets| && |t.versions| == |s.versions|
    && |t.services| == |s.services| && |t.policies| == |s.policies|
    && |t.authenticators| == |s.authenticators| && |t.credentials| == |s.credentials|
    && (forall k :: 0 <= k < |s.namespaces| ==> SameNamespace(p, a, s.namespaces[k], b, t.namespaces[k]))
    && (forall k :: 0 <= k < |s.secrets| ==> SameSecret(p, a, s.secrets[k], b, t.secrets[k]))
    && (forall k :: 0 <= k < |s.versions| ==> SameVersion(p, a, s.versions[k], b, t.versions[k]))
    && (forall k :: 0 <= k < |s.services| ==> SameService(p, a, s.services[k], b, t.services[k]))
    && (forall k :: 0 <= k < |s.policies| ==> SamePolicy(p, a, s.policies[k], b, t.policies[k]))
    && (forall k :: 0 <= k < |s.authenticators| ==> SameAuthenticator(s.authenticators[k], t.authenticators[k], now))
    && (forall k :: 0 <= k < |s.credentials| ==> SameCredential(s.credentials[k], t.credentials[k], mode, now))
    && t.tombstones == s.tombstones && t.principals == s.principals && t.grants == s.grants && t.bindings == s.bindings
    && t.audit == s.audit && t.authorization.revision == s.authorization.revision
  }

  /** The source snapshot, its text, and what the destination made of it. */
  ghost predicate Carried(p: Primitives, a: Installation, s: Snapshot<Envelope>, text: Snapshot<bytes>, b: Installation,
                          t: Snapshot<Envelope>, keys: LogicalKeys, mode: CredentialRestoreMode, now: i64) {
    Lawful(p) && IsText(p, a, s, text) && Transformed(p, b, DecodedOf(keys, text), mode, now, t) && b.keys == a.keys
  }

  lemma TextCarries(p: Primitives, a: Installation, slot: Slot, e: Envelope, text: bytes)
    requires Lawful(p) && OpenText(p, a, slot, e) == Some(text)
    ensures p.fromText(text) == DecryptRecord(p, a, slot, e) && DecryptRecord(p, a, slot, e).Some?
  {
  }

  lemma VaultMeaningKept(p: Primitives, a: Installation, s: Snapshot<Envelope>, text: Snapshot<bytes>, b: Installation,
                         t: Snapshot<Envelope>, keys: LogicalKeys, mode: CredentialRestoreMode, now: i64)
    requires Carried(p, a, s, text, b, t, keys, mode, now)
    ensures |t.namespaces| == |s.namespaces| && |t.secrets| == |s.secrets| && |t.versions| == |s.versions|
    ensures forall k :: 0 <= k < |s.namespaces| ==> SameNamespace(p, a, s.namespaces[k], b, t.namespaces[k])
    ensures forall k :: 0 <= k < |s.secrets| ==> SameSecret(p, a, s.secrets[k], b, t.secrets[k])
    ensures forall k :: 0 <= k < |s.versions| ==> SameVersion(p, a, s.versions[k], b, t.versions[k])
  {
    hide DecryptRecord, OpenText, NamespaceCommitment, SecretCommitment, PolicyCommitment, ScheduleOf, CommitmentOf;
    hide Items, Lawful;
    forall k | 0 <= k < |s.namespaces| ensures SameNamespace(p, a, s.namespaces[k], b, t.namespaces[k]) {
      TextCarries(p, a, NamespaceSlot(s.namespaces[k]), s.namespaces[k].metadata, text.namespaces[k].metadata);
      assert NamespaceRestored(p, b, text.namespaces[k], t.namespaces[k]);
    }
    forall k | 0 <= k < |s.secrets| ensures SameSecret(p, a, s.secrets[k], b, t.secrets[k]) {
      TextCarries(p, a, SecretSlot(s.secrets[k]), s.secrets[k].metadata, text.secrets[k].metadata);
      assert SecretRestored(p, b, text.versions, text.secrets[k], t.secrets[k]);
    }
    forall k | 0 <= k < |s.versions| ensures SameVersion(p, a, s.versions[k], b, t.versions[k]) {
      TextCarries(p, a, VersionSlot(s.versions[k]), s.versions[k].payload, text.versions[k].payload);
      assert VersionRestored(p, b, text.versions[k], t.versions[k]);
    }
  }

  lemma AuthenticatorKept(p: Primitives, b: Installation, x: Authenticator, y: Authenticator, now: i64)
    requires RestoreAuthenticator(p, b, x, now) == Some(y)
    ensures SameAuthenticator(x, y, now)
  {
    hide AuthenticatorText;
    StateNames();
  }

  lemma CredentialKept(p: Primitives, b: Installation, x: Credential, y: Credential, mode: CredentialRestoreMode,
                       now: i64)
    requires RestoreCredential(p, b, x, mode, now) == Some(y)
    ensures SameCredential(x, y, mode, now)
  {
    hide CredentialCommitment;
  }

  lemma MeaningKept(p: Primitives, a: Installation, s: Snapshot<Envelope>, text: Snapshot<bytes>, b: Installation,
                    t: Snapshot<Envelope>, keys: LogicalKeys, mode: CredentialRestoreMode, now: i64)
    requires Carried(p, a, s, text, b, t, keys, mode, now)
    ensures SameMeaning(p, a, s, b, t, mode, now)
  {
    hide DecryptRecord, OpenText, NamespaceCommitment, SecretCommitment, PolicyCommitment, ScheduleOf, CommitmentOf;
    hide Items, Lawful;
    hide SameNamespace, SameSecret, SameVersion, NamespaceRestored, SecretRestored, VersionRestored;
    hide SameAuthenticator, SameCredential, RestoreAuthenticator, RestoreCredential;
    VaultMeaningKept(p, a, s, text, b, t, keys, mode, now);
    forall k | 0 <= k < |s.authenticators| ensures SameAuthenticator(s.authenticators[k], t.authenticators[k], now) {
      AuthenticatorKept(p, b, s.authenticators[k], t.authenticators[k], now);
    }
    forall k | 0 <= k < |s.credentials| ensures SameCredential(s.credentials[k], t.credentials[k], mode, now) {
      CredentialKept(p, b, s.credentials[k], t.credentials[k], mode, now);
    }
    forall k | 0 <= k < |s.services| ensures SameService(p, a, s.services[k], b, t.services[k]) {
      TextCarries(p, a, ServiceSlot(s.services[k]), s.services[k].metadata, text.services[k].metadata);
      assert ServiceRestored(p, b, text.services[k], t.services[k]);
    }
    forall k | 0 <= k < |s.policies| ensures SamePolicy(p, a, s.policies[k], b, t.policies[k]) {
      TextCarries(p, a, PolicySlot(s.policies[k]), s.policies[k].metadata, text.policies[k].metadata);
      assert PolicyRestored(p, b, text.policies[k], t.policies[k]);
    }
  }

  // ----- Everything verifies again -----

  /** Schedules depend on identities and versions only. */
  lemma {:induction false} SameSchedule<M,
      N>(v: seq<SecretVersion<M>>, w: seq<SecretVersion<N>>, secretId: SecretId, version: u64)
    requires |v| == |w|
    requires forall k :: 0 <= k < |v| ==>
             v[k].secretId == w[k].secretId && v[k].version == w[k].version && v[k].schedule == w[k].schedule
    ensures ScheduleOf(v, secretId, version) == ScheduleOf(w, secretId, version)
    decreases |v|
  {
    if v != [] {
      SameSchedule(v[..|v| - 1], w[..|w| - 1], secretId, version);
    }
  }

  lemma VaultRowsVerifyAgain(p: Primitives, a: Installation, s: Snapshot<Envelope>, text: Snapshot<bytes>,
                             b: Installation, t: Snapshot<Envelope>, keys: LogicalKeys, mode: CredentialRestoreMode,
                             now: i64)
    requires Carried(p, a, s, text, b, t, keys, mode, now)
    ensures VaultRowsVerify(p, b, t)
  {
    hide DecryptRecord, OpenText, NamespaceCommitment, SecretCommitment, PolicyCommitment, ScheduleOf, CommitmentOf;
    hide Items, Lawful, IsText;
    forall k | 0 <= k < |t.namespaces| ensures NamespaceVerifies(p, b, t.namespaces[k]) {
      assert NamespaceRestored(p, b, text.namespaces[k], t.namespaces[k]);
    }
    forall k | 0 <= k < |t.versions|
      ensures DecryptRecord(p, b, VersionSlot(t.versions[k]), t.versions[k].payload).Some?
      ensures SameVersionRow(t.versions[k], text.versions[k])
    {
      assert VersionRestored(p, b, text.versions[k], t.versions[k]);
    }
    forall k | 0 <= k < |t.secrets| ensures SecretVerifies(p, b, t.versions, t.secrets[k]) {
      assert SecretRestored(p, b, text.versions, text.secrets[k], t.secrets[k]);
      SameSchedule(t.versions, text.versions, t.secrets[k].secretId, t.secrets[k].currentVersion);
    }
    forall k | 0 <= k < |t.services|
      ensures DecryptRecord(p, b, ServiceSlot(t.services[k]), t.services[k].metadata).Some?
    {
      assert ServiceRestored(p, b, text.services[k], t.services[k]);
    }
    forall k | 0 <= k < |t.policies|
      ensures DecryptRecord(p, b, PolicySlot(t.policies[k]), t.policies[k].metadata).Some?
    {
      assert PolicyRestored(p, b, text.policies[k], t.policies[k]);
    }
  }

  ghost predicate SameVersionRow(v: SecretVersion<Envelope>, w: SecretVersion<bytes>) {
    v.secretId == w.secretId && v.version == w.version && v.schedule == w.schedule
  }

  lemma TextIgnoresCommitment(a: Authenticator, c: Digest)
    ensures AuthenticatorText(a.(commitment := c)) == AuthenticatorText(a)
  {
  }

  lemma AuthenticatorVerifiesAgain(p: Primitives, a: Installation, x: Authenticator, b: Installation, y: Authenticator,
                                   now: i64)
    requires a.keys == b.keys && AuthenticatorCommitment(p, a, x) == Some(x.commitment)
             && RestoreAuthenticator(p, b, x, now) == Some(y)
    ensures AuthenticatorCommitment(p, b, y) == Some(y.commitment)
  {
    hide AuthenticatorText;
    if LivePasskey(x) {
      TextIgnoresCommitment(RevokedPasskey(x, now), y.commitment);
    }
  }

  lemma CredentialVerifiesAgain(p: Primitives, a: Installation, x: Credential, b: Installation, y: Credential,
                                mode: CredentialRestoreMode, now: i64)
    requires a.keys == b.keys && CredentialCommitment(p, a, x) == x.commitment
             && RestoreCredential(p, b, x, mode, now) == Some(y)
    ensures CredentialCommitment(p, b, y) == y.commitment
  {
    hide CredentialCommitment;
    CredentialKeyOnly(p, a, b, x);
    if ToRevoke(x, mode) {
      CredentialIgnoresCommitment(p, b, x.(revokedAt := Some(now), revision := x.revision + 1), y.commitment);
    }
  }

  lemma CredentialIgnoresCommitment(p: Primitives, i: Installation, c: Credential, d: Digest)
    ensures CredentialCommitment(p, i, c.(commitment := d)) == CredentialCommitment(p, i, c)
  {
  }

  /** The commitment depends on the installation through its audit key only. */
  lemma CredentialKeyOnly(p: Primitives, a: Installation, b: Installation, c: Credential)
    requires a.keys == b.keys
    ensures CredentialCommitment(p, a, c) == CredentialCommitment(p, b, c)
  {
  }

  lemma IdentityRowsVerifyAgain(p: Primitives, a: Installation, s: Snapshot<Envelope>, text: Snapshot<bytes>,
                                b: Installation, t: Snapshot<Envelope>, keys: LogicalKeys, mode: CredentialRestoreMode,
                                now: i64)
    requires Carried(p, a, s, text, b, t, keys, mode, now) && IdentityRowsVerify(p, a, s)
    ensures IdentityRowsVerify(p, b, t)
  {
    hide AuthenticatorCommitment, CredentialCommitment, RestoreAuthenticator, RestoreCredential, Lawful;
    hide NamespaceRestored, SecretRestored, VersionRestored, ServiceRestored, PolicyRestored, CommitmentOf, Items;
    hide OpenText;
    forall k | 0 <= k < |t.authenticators|
      ensures AuthenticatorCommitment(p, b, t.authenticators[k]) == Some(t.authenticators[k].commitment)
    {
      AuthenticatorVerifiesAgain(p, a, s.authenticators[k], b, t.authenticators[k], now);
    }
    forall k | 0 <= k < |t.credentials|
      ensures CredentialCommitment(p, b, t.credentials[k]) == t.credentials[k].commitment
    {
      CredentialVerifiesAgain(p, a, s.credentials[k], b, t.credentials[k], mode, now);
    }
    forall k | 0 <= k < |t.principals|
      ensures PrincipalCommitment(p, b, t.principals[k]) == t.principals[k].commitment
    {
      assert PrincipalCommitment(p, a, s.principals[k]) == s.principals[k].commitment;
    }
  }

  lemma GraphVerifiesAgain(p: Primitives, a: Installation, s: Snapshot<Envelope>, text: Snapshot<bytes>,
                           b: Installation, t: Snapshot<Envelope>, keys: LogicalKeys, mode: CredentialRestoreMode,
                           now: i64)
    requires Carried(p, a, s, text, b, t, keys, mode, now)
    requires GraphVerifiesOn(p, a, s)
    ensures StateVerifies(VaultOf(p, b.keys.audit), GraphOf(t), t.authorization.revision, t.authorization.commitment)
    ensures Count(GraphOf(t)) <= MAX_AUTHORIZATION_RECORDS
  {
    hide PolicyCommitment, GrantVerifies, BindingVerifies, CommitmentOf, Items, Lawful, DecryptRecord, OpenText;
    hide NamespaceRestored, SecretRestored, VersionRestored, ServiceRestored, RestoreAuthenticator, RestoreCredential;
    hide VaultOf;
    forall k | 0 <= k < |GraphOf(t).policies| ensures PolicyVerifies(VaultOf(p, b.keys.audit), GraphOf(t).policies[k]) {
      assert PolicyRestored(p, b, text.policies[k], t.policies[k]);
      assert GraphOf(t).policies[k] == RowOfPolicy(t.policies[k]);
    }
    assert GraphOf(t).grants == GraphOf(s).grants && GraphOf(t).bindings == GraphOf(s).bindings;
  }

  /** Every commitment, recomputed or carried over, verifies under the destination. */
  lemma RestoredVerifies(p: Primitives, a: Installation, s: Snapshot<Envelope>, text: Snapshot<bytes>, b: Installation,
                         t: Snapshot<Envelope>, keys: LogicalKeys, mode: CredentialRestoreMode, now: i64)
    requires Carried(p, a, s, text, b, t, keys, mode, now) && VerifiesOn(p, a, s)
    ensures VerifiesOn(p, b, t)
  {
    VaultRowsVerifyAgain(p, a, s, text, b, t, keys, mode, now);
    IdentityRowsVerifyAgain(p, a, s, text, b, t, keys, mode, now);
    GraphVerifiesAgain(p, a, s, text, b, t, keys, mode, now);
    assert t.audit == s.audit;
  }

  // ----- When a restore goes through -----

  /**
   * What the source must meet beyond verifying: password hashes of the current form, room for the longer text of a
   * revoked passkey, and credential revisions that can still be increased when they are to be revoked.
   */
  ghost predicate Restorable(p: Primitives, s: Snapshot<Envelope>, mode: CredentialRestoreMode, now: i64) {
    && (forall k :: 0 <= k < |s.authenticators| ==> AuthenticatorRestorable(p, s.authenticators[k], now))
    && (forall k :: 0 <= k < |s.credentials| ==>
          mode == Preserve || s.credentials[k].revokedAt.Some? || s.credentials[k].revision < U64_MAX)
  }

  ghost predicate AuthenticatorRestorable(p: Primitives, a: Authenticator, now: i64) {
    && (a.kind != Passkey ==> a.passwordPhc.Some? && p.validPhc(a.passwordPhc.value))
    && (a.kind == Passkey && a.state == Ascii("active") ==>
          |AuthenticatorText(a.(state := Ascii("revoked"), revokedAt := Some(now)))| <= MAX_STATE_BYTES)
  }

  /** Of a verifying source, these conditions decide the transformation. */
  lemma TransformableIff(p: Primitives, a: Installation, s: Snapshot<Envelope>, text: Snapshot<bytes>, b: Installation,
                         keys: LogicalKeys, mode: CredentialRestoreMode, now: i64)
    requires Lawful(p) && IsText(p, a, s, text) && VaultRowsVerify(p, a, s)
    ensures Transformable(p, b, DecodedOf(keys, text), mode, now) <==> Restorable(p, s, mode, now)
  {
    hide DecryptRecord, OpenText, ScheduleOf, AuthenticatorText, Lawful;
    StateNames();
    forall k | 0 <= k < |s.namespaces| ensures p.fromText(text.namespaces[k].metadata).Some? {
      TextCarries(p, a, NamespaceSlot(s.namespaces[k]), s.namespaces[k].metadata, text.namespaces[k].metadata);
    }
    forall k | 0 <= k < |s.versions| ensures p.fromText(text.versions[k].payload).Some? {
      TextCarries(p, a, VersionSlot(s.versions[k]), s.versions[k].payload, text.versions[k].payload);
    }
    forall k | 0 <= k < |s.secrets|
      ensures p.fromText(text.secrets[k].metadata).Some?
      ensures ScheduleOf(text.versions, text.secrets[k].secretId, text.secrets[k].currentVersion).Some?
    {
      TextCarries(p, a, SecretSlot(s.secrets[k]), s.secrets[k].metadata, text.secrets[k].metadata);
      SameSchedule(s.versions, text.versions, s.secrets[k].secretId, s.secrets[k].currentVersion);
    }
    forall k | 0 <= k < |s.services| ensures p.fromText(text.services[k].metadata).Some? {
      TextCarries(p, a, ServiceSlot(s.services[k]), s.services[k].metadata, text.services[k].metadata);
    }
    forall k | 0 <= k < |s.policies| ensures p.fromText(text.policies[k].metadata).Some? {
      TextCarries(p, a, PolicySlot(s.policies[k]), s.policies[k].metadata, text.policies[k].metadata);
    }
    assert forall k :: 0 <= k < |s.authenticators| ==>
        (RestoreAuthenticator(p, b, s.authenticators[k], now).Some? <==>
           AuthenticatorRestorable(p, s.authenticators[k], now));
  }

  function KeyTexts(p: Primitives, keys: VaultKeys): LogicalKeys {
    LogicalKeys(p.toText(keys.blindIndex), p.toText(keys.audit), p.toText(keys.tokenVerifier))
  }

  /** `encode_logical_snapshot`. */
  method EncodeLogicalSnapshot(p: Primitives, c: Codec, i: Installation, s: Snapshot<Envelope>)
    returns (r: Option<(bytes, nat)>, ghost text: Snapshot<bytes>)
    ensures AllOpen(p, i, s) ==> IsText(p, i, s, text)
    ensures r.Some? <==> AllOpen(p, i, s) && StreamFits(c, RecordsOf(KeyTexts(p, i.keys), text))
    ensures r.Some? ==>
            r.value == (StreamOf(c, RecordsOf(KeyTexts(p, i.keys), text)), |RecordsOf(KeyTexts(p, i.keys), text)|)
  {
    hide RecordsOf, StreamOf;
    var texts := OpenSnapshot(p, i, s);
    if texts.None? {
      text := Snapshot([], [], [], [], [], [], [], [], AuthorizationState(0, NO_DIGEST), [], [], [], []);
      return None, text;
    }
    text := texts.value;
    var records := RecordsOf(KeyTexts(p, i.keys), texts.value);
    var stream := AppendAll(c, records);
    if stream.None? {
      return None, text;
    }
    return Some((stream.value, |records|)), text;
  }

  /** `decode_vault_keys`. */
  function DecodeKeys(p: Primitives, keys: LogicalKeys): Option<VaultKeys> {
    match (p.fromText(keys.blindIndex), p.fromText(keys.audit), p.fromText(keys.tokenVerifier))
    case (Some(x), Some(y), Some(z)) => if |x| == 32 && |y| == 32 && |z| == 32 then Some(VaultKeys(x, y, z)) else None
    case _ => None
  }

  function Adopt(i: Installation, keys: VaultKeys): Installation {
    i.(keys := keys)
  }

  datatype Restored = Restored(installation: Installation, snapshot: Snapshot<Envelope>, revoked: nat, disabled: nat)

  /**
   * `restore_backup_file` from the verified stream on, up to the import: a fresh installation takes over the vault
   * keys.
   */
  method RestoreStream(p: Primitives, c: Codec, stream: bytes, expected: nat, blank: Installation,
                       mode: CredentialRestoreMode, now: i64, tape: (nat, nat) -> Draw) returns (r: Option<Restored>)
    requires Lawful(p)
    ensures r.Some? <==>
            && Parsed(c, stream).Some? && Acceptable(Parsed(c, stream).value, expected)
            && var d := Collected(Parsed(c, stream).value);
            && d.keys.Some? && DecodeKeys(p, d.keys.value).Some?
            && Transformable(p, Adopt(blank, DecodeKeys(p, d.keys.value).value), d, mode, now)
    ensures r.Some? ==>
            var d := Collected(Parsed(c, stream).value);
            && r.value.installation == Adopt(blank, DecodeKeys(p, d.keys.value).value)
            && Transformed(p, r.value.installation, d, mode, now, r.value.snapshot)
            && CredentialsRestored(d.credentials, r.value.snapshot.credentials, mode, now, r.value.revoked)
            && PasskeysRestored(d.authenticators, r.value.snapshot.authenticators, now, r.value.disabled)
  {
    hide Parsed, Collected, Transformable, Transformed, CredentialsRestored, PasskeysRestored, Acceptable;
    var decoded := DecodeLogicalStream(c, stream, expected);
    if decoded.None? || decoded.value.keys.None? {
      return None;
    }
    var keys := DecodeKeys(p, decoded.value.keys.value);
    if keys.None? {
      return None;
    }
    var destination := Adopt(blank, keys.value);
    var t, revoked, disabled := Transform(p, destination, decoded.value, mode, now, tape);
    if t.None? {
      return None;
    }
    return Some(Restored(destination, t.value, revoked, disabled));
  }

  lemma KeysCarried(p: Primitives, keys: VaultKeys)
    requires Lawful(p)
    ensures DecodeKeys(p, KeyTexts(p, keys)) == Some(keys)
  {
  }

  lemma VerifyingSourceOpens(p: Primitives, i: Installation, s: Snapshot<Envelope>)
    requires VaultRowsVerify(p, i, s)
    ensures AllOpen(p, i, s)
  {
    hide DecryptRecord, NamespaceCommitment, SecretCommitment, ScheduleOf;
  }

  /** In revoke mode no restored credential is live. */
  lemma NoneLive(p: Primitives, a: Installation, s: Snapshot<Envelope>, b: Installation, t: Snapshot<Envelope>,
                 now: i64)
    requires SameMeaning(p, a, s, b, t, Revoke, now)
    ensures forall k :: 0 <= k < |t.credentials| ==> t.credentials[k].revokedAt.Some?
  {
    hide SameNamespace, SameSecret, SameVersion, SameService, SamePolicy, SameAuthenticator;
    forall k | 0 <= k < |t.credentials| ensures t.credentials[k].revokedAt.Some? {
      assert SameCredential(s.credentials[k], t.credentials[k], Revoke, now);
    }
  }

  /**
   * Backup then restore of a verifying source into a fresh installation: it goes through exactly when the stream fits
   * its limit and the source is restorable, and then the meaning is the same, everything verifies again, and the
   * reported counts are the credentials revoked and the passkeys disabled.
   */
  method BackupThenRestore(p: Primitives, c: Codec, a: Installation, s: Snapshot<Envelope>, blank: Installation,
                           mode: CredentialRestoreMode, now: i64, tape: (nat, nat) -> Draw)
    returns (r: Option<Restored>, ghost text: Snapshot<bytes>)
    requires Lawful(p) && LawfulCodec(c) && VerifiesOn(p, a, s)
    ensures IsText(p, a, s, text)
    ensures r.Some? <==> StreamFits(c, RecordsOf(KeyTexts(p, a.keys), text)) && Restorable(p, s, mode, now)
    ensures r.Some? ==> r.value.installation == Adopt(blank, a.keys)
    ensures r.Some? ==> SameMeaning(p, a, s, r.value.installation, r.value.snapshot, mode, now)
    ensures r.Some? ==> VerifiesOn(p, r.value.installation, r.value.snapshot)
    ensures r.Some? ==> CredentialsRestored(s.credentials, r.value.snapshot.credentials, mode, now, r.value.revoked)
    ensures r.Some? ==> PasskeysRestored(s.authenticators, r.value.snapshot.authenticators, now, r.value.disabled)
    ensures r.Some? && mode == Revoke ==>
            forall k :: 0 <= k < |r.value.snapshot.credentials| ==> r.value.snapshot.credentials[k].revokedAt.Some?
  {
    VerifyingSourceOpens(p, a, s);
    hide RecordsOf, StreamOf, Parsed, Collected, Transformable, Transformed, Acceptable, SameMeaning;
    hide CredentialsRestored, PasskeysRestored;
    hide VerifiesOn, IsText;
    hide Restorable, AllOpen, DecodeKeys, KeyTexts, Lawful, LawfulCodec;
    var stream;
    stream, text := EncodeLogicalSnapshot(p, c, a, s);
    if stream.None? {
      return None, text;
    }
    ghost var keys := KeyTexts(p, a.keys);
    StreamRoundTrip(c, keys, text);
    KeysCarried(p, a.keys);
    SourceTransformable(p, a, s, text, Adopt(blank, a.keys), keys, mode, now);
    r := RestoreStream(p, c, stream.value.0, stream.value.1, blank, mode, now, tape);
    if r.Some? {
      TransformedMeaning(p, a, s, text, r.value.installation, r.value.snapshot, keys, mode, now);
    }
  }

  /** The written stream is accepted and collected into the backup's rows. */
  lemma StreamRoundTrip(c: Codec, keys: LogicalKeys, text: Snapshot<bytes>)
    requires LawfulCodec(c) && StreamFits(c, RecordsOf(keys, text))
    ensures Parsed(c, StreamOf(c, RecordsOf(keys, text))) == Some(RecordsOf(keys, text))
    ensures Acceptable(RecordsOf(keys, text), |RecordsOf(keys, text)|)
    ensures Collected(RecordsOf(keys, text)) == DecodedOf(keys, text)
  {
    hide RecordsOf, StreamOf, Parsed, Collected, Acceptable, LawfulCodec;
    ParsedOfStream(c, RecordsOf(keys, text));
    SnapshotAcceptable(keys, text);
    CollectedOfSnapshot(keys, text);
  }

  lemma SourceTransformable(p: Primitives, a: Installation, s: Snapshot<Envelope>, text: Snapshot<bytes>,
                            b: Installation, keys: LogicalKeys, mode: CredentialRestoreMode, now: i64)
    requires Lawful(p) && IsText(p, a, s, text) && VerifiesOn(p, a, s)
    ensures Transformable(p, b, DecodedOf(keys, text), mode, now) <==> Restorable(p, s, mode, now)
  {
    hide VaultRowsVerify, IdentityRowsVerify, Transformable, Restorable, IsText, Lawful;
    TransformableIff(p, a, s, text, b, keys, mode, now);
  }

  lemma TransformedMeaning(p: Primitives, a: Installation, s: Snapshot<Envelope>, text: Snapshot<bytes>,
                           b: Installation, t: Snapshot<Envelope>, keys: LogicalKeys, mode: CredentialRestoreMode,
                           now: i64)
    requires Lawful(p) && IsText(p, a, s, text) && Transformed(p, b, DecodedOf(keys, text), mode, now, t)
             && b.keys == a.keys
    requires VerifiesOn(p, a, s)
    ensures SameMeaning(p, a, s, b, t, mode, now) && VerifiesOn(p, b, t)
    ensures text.credentials == s.credentials && text.authenticators == s.authenticators
    ensures mode == Revoke ==> forall k :: 0 <= k < |t.credentials| ==> t.credentials[k].revokedAt.Some?
  {
    assert text.credentials == s.credentials && text.authenticators == s.authenticators;
    hide IsText, Transformed, VerifiesOn, SameMeaning, Lawful;
    MeaningKept(p, a, s, text, b, t, keys, mode, now);
    RestoredVerifies(p, a, s, text, b, t, keys, mode, now);
    if mode == Revoke {
      NoneLive(p, a, s, b, t, now);
    }
  }
}
