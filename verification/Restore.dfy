/**
 * Backup and restore of a vault's rows: opened under the source, carried as text, sealed again under the destination.
 */
module Restore {
  import opened Bytes
  import opened Text
  import opened Access
  import opened GraphCommitment
  import opened Portable
  import opened LogicalStream

  // ----- Opening rows for a backup -----

  function OpenText(p: Primitives, i: Installation, s: Slot, e: Envelope): Option<bytes> {
    match DecryptRecord(p, i, s, e)
    case None => None
    case Some(m) => Some(p.toText(m))
  }

  function NamespaceText(n: Namespace<Envelope>, text: bytes): Namespace<bytes> {
    Namespace(n.namespaceId, n.parent, n.nameIndex, n.metadataVersion, text, n.state, n.revision, n.commitment,
              n.createdAt, n.updatedAt)
  }

  function SecretText(s: Secret<Envelope>, text: bytes): Secret<bytes> {
    Secret(s.secretId, s.namespaceId, s.nameIndex, s.metadataVersion, text, s.state, s.currentVersion, s.revision,
           s.commitment, s.createdAt, s.updatedAt, s.deletedAt)
  }

  function VersionText(v: SecretVersion<Envelope>, text: bytes): SecretVersion<bytes> {
    SecretVersion(v.secretId, v.version, text, v.schedule, v.createdBy, v.createdAt)
  }

  function ServiceText(s: ServiceIdentity<Envelope>, text: bytes): ServiceIdentity<bytes> {
    ServiceIdentity(s.principalId, s.metadataVersion, text)
  }

  function PolicyText(q: PortablePolicy<Envelope>, text: bytes): PortablePolicy<bytes> {
    PortablePolicy(q.policyId, q.revision, q.active, q.metadataVersion, text, q.commitment, q.createdAt, q.updatedAt)
  }

  /** Opens each row with `open` and rebuilds it with its text. */
  method OpenRows<T, U>(open: T -> Option<bytes>, build: (T, bytes) -> U, rows: seq<T>) returns (r: Option<seq<U>>)
    ensures r.Some? <==> forall k :: 0 <= k < |rows| ==> open(rows[k]).Some?
    ensures r.Some? ==>
            |r.value| == |rows| && forall k :: 0 <= k < |rows| ==> r.value[k] == build(rows[k], open(rows[k]).value)
  {
    var texts: seq<U> := [];
    for i := 0 to |rows|
      invariant |texts| == i && forall k :: 0 <= k < i ==>
                open(rows[k]).Some? && texts[k] == build(rows[k], open(rows[k]).value)
    {
      var text := open(rows[i]);
      if text.None? {
        return None;
      }
      texts := texts + [build(rows[i], text.value)];
    }
    return Some(texts);
  }

  /** Every protected row opens under the installation. */
  ghost predicate AllOpen(p: Primitives, i: Installation, s: Snapshot<Envelope>) {
    && (forall k :: 0 <= k < |s.namespaces| ==>
          DecryptRecord(p, i, NamespaceSlot(s.namespaces[k]), s.namespaces[k].metadata).Some?)
    && (forall k :: 0 <= k < |s.secrets| ==> DecryptRecord(p, i, SecretSlot(s.secrets[k]), s.secrets[k].metadata).Some?)
    && (forall k :: 0 <= k < |s.versions| ==>
          DecryptRecord(p, i, VersionSlot(s.versions[k]), s.versions[k].payload).Some?)
    && (forall k :: 0 <= k < |s.services| ==>
          DecryptRecord(p, i, ServiceSlot(s.services[k]), s.services[k].metadata).Some?)
    && (forall k :: 0 <= k < |s.policies| ==>
          DecryptRecord(p, i, PolicySlot(s.policies[k]), s.policies[k].metadata).Some?)
  }

  /** The backup's rows: the same, with text for what was encrypted. */
  ghost predicate IsText(p: Primitives, i: Installation, s: Snapshot<Envelope>, t: Snapshot<bytes>) {
    && |t.namespaces| == |s.namespaces| && |t.secrets| == |s.secrets| && |t.versions| == |s.versions|
    && |t.services| == |s.services| && |t.policies| == |s.policies|
    && (forall k :: 0 <= k < |s.namespaces| ==>
          OpenText(p, i, NamespaceSlot(s.namespaces[k]), s.namespaces[k].metadata) == Some(t.namespaces[k].metadata)
          && t.namespaces[k] == NamespaceText(s.namespaces[k], t.namespaces[k].metadata))
    && (forall k :: 0 <= k < |s.secrets| ==>
          OpenText(p, i, SecretSlot(s.secrets[k]), s.secrets[k].metadata) == Some(t.secrets[k].metadata)
          && t.secrets[k] == SecretText(s.secrets[k], t.secrets[k].metadata))
    && (forall k :: 0 <= k < |s.versions| ==>
          OpenText(p, i, VersionSlot(s.versions[k]), s.versions[k].payload) == Some(t.versions[k].payload)
          && t.versions[k] == VersionText(s.versions[k], t.versions[k].payload))
    && (forall k :: 0 <= k < |s.services| ==>
          OpenText(p, i, ServiceSlot(s.services[k]), s.services[k].metadata) == Some(t.services[k].metadata)
          && t.services[k] == ServiceText(s.services[k], t.services[k].metadata))
    && (forall k :: 0 <= k < |s.policies| ==>
          OpenText(p, i, PolicySlot(s.policies[k]), s.policies[k].metadata) == Some(t.policies[k].metadata)
          && t.policies[k] == PolicyText(s.policies[k], t.policies[k].metadata))
    && t.tombstones == s.tombstones && t.principals == s.principals && t.authenticators == s.authenticators
    && t.credentials == s.credentials && t.authorization == s.authorization && t.grants == s.grants
    && t.bindings == s.bindings && t.audit == s.audit
  }

  method OpenSnapshot(p: Primitives, i: Installation, s: Snapshot<Envelope>) returns (r: Option<Snapshot<bytes>>)
    ensures r.Some? <==> AllOpen(p, i, s)
    ensures r.Some? ==> IsText(p, i, s, r.value)
  {
    hide DecryptRecord;
    var namespaces := OpenRows((n: Namespace<Envelope>) => OpenText(p, i, NamespaceSlot(n), n.metadata), NamespaceText,
                               s.namespaces);
    var secrets := OpenRows((n: Secret<Envelope>) => OpenText(p, i, SecretSlot(n), n.metadata), SecretText, s.secrets);
    var versions := OpenRows((n: SecretVersion<Envelope>) => OpenText(p, i, VersionSlot(n), n.payload), VersionText,
                             s.versions);
    var services := OpenRows((n: ServiceIdentity<Envelope>) => OpenText(p, i, ServiceSlot(n), n.metadata), ServiceText,
                             s.services);
    var policies := OpenRows((n: PortablePolicy<Envelope>) => OpenText(p, i, PolicySlot(n), n.metadata), PolicyText,
                             s.policies);
    if namespaces.None? || secrets.None? || versions.None? || services.None? || policies.None? {
      return None;
    }
    return Some(Snapshot(namespaces.value, secrets.value, versions.value, s.tombstones, s.principals, s.authenticators,
                         services.value, s.credentials, s.authorization, policies.value, s.grants, s.bindings,
                           s.audit));
  }

  // ----- Sealing rows again -----

  datatype CredentialRestoreMode = Preserve | Revoke

  function Sealed(p: Primitives, i: Installation, s: Slot, text: bytes, draw: Draw): Option<Envelope>
  {
    match p.fromText(text)
    case None => None
    case Some(m) => Some(EncryptRecord(p, i, s, m, draw))
  }

  function SealNamespace(p: Primitives, i: Installation, n: Namespace<bytes>, draw: Draw): Option<Namespace<Envelope>>
  {
    match Sealed(p, i, NamespaceSlot(n), n.metadata, draw)
    case None => None
    case Some(e) => Some(Namespace(n.namespaceId, n.parent, n.nameIndex, n.metadataVersion, e, n.state, n.revision,
                                   NamespaceCommitment(p, i, n), n.createdAt, n.updatedAt))
  }

  /** The schedule of a secret's version: the last row listed for it. */
  function ScheduleOf<M>(versions: seq<SecretVersion<M>>, secretId: SecretId, version: u64): Option<Schedule> {
    if versions == [] then None
    else
      var last := versions[|versions| - 1];
      if last.secretId == secretId && last.version == version then Some(last.schedule)
      else ScheduleOf(versions[..|versions| - 1], secretId, version)
  }

  /** A schedule is found exactly if the version has a row, and it is that of the last such row. */
  lemma {:induction false} ScheduleFound<M>(versions: seq<SecretVersion<M>>, secretId: SecretId, version: u64)
    ensures (forall k :: 0 <= k < |versions| ==> versions[k].secretId != secretId || versions[k].version != version)
            <==> ScheduleOf(versions, secretId, version) == None
    ensures forall k :: 0 <= k < |versions| && versions[k].secretId == secretId && versions[k].version == version
              && (forall j :: k < j < |versions| ==> versions[j].secretId != secretId || versions[j].version != version)
              ==> ScheduleOf(versions, secretId, version) == Some(versions[k].schedule)
    decreases |versions|
  {
    if versions != [] {
      var n := |versions| - 1;
      ScheduleFound(versions[..n], secretId, version);
      assert forall k :: 0 <= k < n ==> versions[..n][k] == versions[k];
    }
  }

  function SealSecret(p: Primitives, i: Installation, versions: seq<SecretVersion<bytes>>, s: Secret<bytes>,
                      draw: Draw): Option<Secret<Envelope>>
  {
    match Sealed(p, i, SecretSlot(s), s.metadata, draw)
    case None => None
    case Some(e) =>
      match ScheduleOf(versions, s.secretId, s.currentVersion)
      case None => None
      case Some(schedule) =>
        Some(Secret(s.secretId, s.namespaceId, s.nameIndex, s.metadataVersion, e, s.state, s.currentVersion, s.revision,
                    SecretCommitment(p, i, s, schedule), s.createdAt, s.updatedAt, s.deletedAt))
  }

  function SealVersion(p: Primitives, i: Installation, v: SecretVersion<bytes>,
                       draw: Draw): Option<SecretVersion<Envelope>>
  {
    match Sealed(p, i, VersionSlot(v), v.payload, draw)
    case None => None
    case Some(e) => Some(SecretVersion(v.secretId, v.version, e, v.schedule, v.createdBy, v.createdAt))
  }

  function SealService(p: Primitives, i: Installation, s: ServiceIdentity<bytes>,
                       draw: Draw): Option<ServiceIdentity<Envelope>>
  {
    match Sealed(p, i, ServiceSlot(s), s.metadata, draw)
    case None => None
    case Some(e) => Some(ServiceIdentity(s.principalId, s.metadataVersion, e))
  }

  function SealPortablePolicy(p: Primitives, i: Installation, q: PortablePolicy<bytes>,
                              draw: Draw): Option<PortablePolicy<Envelope>>
  {
    match Sealed(p, i, PolicySlot(q), q.metadata, draw)
    case None => None
    case Some(e) =>
      var row := PortablePolicy(q.policyId, q.revision, q.active, q.metadataVersion, e, q.commitment, q.createdAt,
                                q.updatedAt);
      Some(row.(commitment := PolicyCommitment(VaultOf(p, i.keys.audit), RowOfPolicy(row))))
  }

  predicate NeedsPhc(a: Authenticator) {
    a.kind == Password || a.kind == Recovery
  }

  predicate LivePasskey(a: Authenticator) {
    a.kind == Passkey && a.state == ACTIVE
  }

  const ACTIVE: bytes := [97, 99, 116, 105, 118, 101]
  const REVOKED: bytes := [114, 101, 118, 111, 107, 101, 100]

  function RevokedPasskey(a: Authenticator, now: i64): Authenticator {
    a.(state := REVOKED, revokedAt := Some(now))
  }

  /** Password hashes must have the current form; active passkeys, bound to the source's origin, are revoked. */
  function RestoreAuthenticator(p: Primitives, i: Installation, a: Authenticator, now: i64): Option<Authenticator> {
    if NeedsPhc(a) && !(a.passwordPhc.Some? && p.validPhc(a.passwordPhc.value)) then None
    else if LivePasskey(a) then
      match AuthenticatorCommitment(p, i, RevokedPasskey(a, now))
      case None => None
      case Some(c) => Some(RevokedPasskey(a, now).(commitment := c))
    else Some(a)
  }

  predicate ToRevoke(c: Credential, mode: CredentialRestoreMode) {
    mode == Revoke && c.revokedAt.None?
  }

  function RestoreCredential(p: Primitives, i: Installation, c: Credential, mode: CredentialRestoreMode,
                             now: i64): Option<Credential> {
    if !ToRevoke(c, mode) then Some(c)
    else if c.revision == U64_MAX then None
    else
      var r := c.(revokedAt := Some(now), revision := c.revision + 1);
      Some(r.(commitment := CredentialCommitment(p, i, r)))
  }

  /** A loop that seals each row with fresh randomness. */
  method SealRows<T(!new), U(!new)>(seal: (T, Draw) -> Option<U>, ghost possible: T -> bool,
                                    ghost good: (T, U) -> bool, rows: seq<T>, tape: nat -> Draw)
    returns (r: Option<seq<U>>)
    requires forall x, d :: seal(x, d).Some? <==> possible(x)
    requires forall x, d :: seal(x, d).Some? ==> good(x, seal(x, d).value)
    ensures r.Some? <==> forall k :: 0 <= k < |rows| ==> possible(rows[k])
    ensures r.Some? ==> |r.value| == |rows| && forall k :: 0 <= k < |rows| ==> good(rows[k], r.value[k])
  {
    var out: seq<U> := [];
    for i := 0 to |rows|
      invariant |out| == i && forall k :: 0 <= k < i ==> possible(rows[k]) && good(rows[k], out[k])
    {
      var row := seal(rows[i], tape(i));
      if row.None? {
        return None;
      }
      out := out + [row.value];
    }
    return Some(out);
  }

  /** How many rows a loop counts. */
  ghost function Counted<T>(test: T -> bool, rows: seq<T>): nat {
    if rows == [] then 0 else Counted(test, rows[..|rows| - 1]) + if test(rows[|rows| - 1]) then 1 else 0
  }

  /** A loop that changes rows one by one and counts those that pass a test. */
  method ChangeRows<T>(change: T -> Option<T>, test: T -> bool, rows: seq<T>) returns (r: Option<seq<T>>, count: nat)
    ensures r.Some? <==> forall k :: 0 <= k < |rows| ==> change(rows[k]).Some?
    ensures r.Some? ==> |r.value| == |rows| && forall k :: 0 <= k < |rows| ==> change(rows[k]) == Some(r.value[k])
    ensures r.Some? ==> count == Counted(test, rows)
  {
    var out: seq<T> := [];
    count := 0;
    for i := 0 to |rows|
      invariant |out| == i && forall k :: 0 <= k < i ==> change(rows[k]) == Some(out[k])
      invariant count == Counted(test, rows[..i])
    {
      var row := change(rows[i]);
      if row.None? {
        return None, count;
      }
      out := out + [row.value];
      assert rows[..i + 1][..i] == rows[..i];
      count := count + if test(rows[i]) then 1 else 0;
    }
    assert rows[..|rows|] == rows;
    return Some(out), count;
  }

  lemma {:induction false} CountedIsSize<T>(test: T -> bool, rows: seq<T>, counted: set<nat>)
    requires forall k: nat :: k in counted <==> k < |rows| && test(rows[k])
    ensures Counted(test, rows) == |counted|
    decreases |rows|
  {
    if rows == [] {
      assert counted == {};
    } else {
      var n := |rows| - 1;
      CountedIsSize(test, rows[..n], counted - {n});
      assert counted == (counted - {n}) + if test(rows[n]) then {n} else {};
    }
  }

  // ----- What becomes of credentials and passkeys, row by row -----

  /** The positions of the credentials that are not revoked. */
  ghost function LiveCredentials(cs: seq<Credential>): set<nat> {
    set k: nat | k < |cs| && cs[k].revokedAt.None?
  }

  /** The positions of the passkeys in use. */
  ghost function ActivePasskeys(authenticators: seq<Authenticator>): set<nat> {
    set k: nat | k < |authenticators| && authenticators[k].kind == Passkey
                 && authenticators[k].state == Ascii("active")
  }

  /** Revoked now, one revision later, under a commitment of its own. */
  ghost predicate RevokedNow(c: Credential, d: Credential, now: i64) {
    c.revision < U64_MAX && d == c.(revokedAt := Some(now), revision := c.revision + 1, commitment := d.commitment)
  }

  /** Preserving keeps every credential and counts none; revoking revokes and counts exactly the live ones. */
  ghost predicate CredentialsRestored(cs: seq<Credential>, ds: seq<Credential>, mode: CredentialRestoreMode, now: i64,
                                      revoked: nat)
  {
    if mode == Preserve then ds == cs && revoked == 0
    else
      && |ds| == |cs| && revoked == |LiveCredentials(cs)|
      && forall k :: 0 <= k < |cs| ==> if cs[k].revokedAt.Some? then ds[k] == cs[k] else RevokedNow(cs[k], ds[k], now)
  }

  /** An active passkey is revoked now, under a commitment of its own; any other authenticator stays as it was. */
  ghost predicate PasskeyRestored(a: Authenticator, b: Authenticator, now: i64) {
    if a.kind == Passkey && a.state == Ascii("active") then
      b == a.(state := Ascii("revoked"), revokedAt := Some(now), commitment := b.commitment)
    else b == a
  }

  /** Exactly the active passkeys are revoked and counted; every other authenticator stays as it was. */
  ghost predicate PasskeysRestored(before: seq<Authenticator>, after: seq<Authenticator>, now: i64, disabled: nat) {
    && |after| == |before| && disabled == |ActivePasskeys(before)|
    && forall k :: 0 <= k < |before| ==> PasskeyRestored(before[k], after[k], now)
  }

  lemma CredentialChanged(p: Primitives, i: Installation, c: Credential, d: Credential, mode: CredentialRestoreMode,
                          now: i64)
    requires RestoreCredential(p, i, c, mode, now) == Some(d)
    ensures if mode == Preserve || c.revokedAt.Some? then d == c else RevokedNow(c, d, now)
  {
    hide CredentialCommitment;
  }

  lemma CredentialsChanged(p: Primitives, i: Installation, cs: seq<Credential>, ds: seq<Credential>,
                           test: Credential -> bool, mode: CredentialRestoreMode, now: i64)
    requires forall c :: test(c) == ToRevoke(c, mode)
    requires |ds| == |cs| && forall k :: 0 <= k < |cs| ==> RestoreCredential(p, i, cs[k], mode, now) == Some(ds[k])
    ensures CredentialsRestored(cs, ds, mode, now, Counted(test, cs))
  {
    forall k | 0 <= k < |cs|
      ensures if mode == Preserve || cs[k].revokedAt.Some? then ds[k] == cs[k] else RevokedNow(cs[k], ds[k], now)
    {
      CredentialChanged(p, i, cs[k], ds[k], mode, now);
    }
    CredentialsCounted(cs, test, mode);
    hide RestoreCredential, Counted, LiveCredentials, RevokedNow;
  }

  lemma CredentialsCounted(cs: seq<Credential>, test: Credential -> bool, mode: CredentialRestoreMode)
    requires forall c :: test(c) == ToRevoke(c, mode)
    ensures Counted(test, cs) == if mode == Preserve then 0 else |LiveCredentials(cs)|
  {
    hide Counted;
    CountedIsSize(test, cs, if mode == Preserve then {} else LiveCredentials(cs));
  }

  lemma PasskeyChanged(p: Primitives, i: Installation, a: Authenticator, b: Authenticator, now: i64)
    requires RestoreAuthenticator(p, i, a, now) == Some(b)
    ensures PasskeyRestored(a, b, now)
  {
    StateNames();
    hide AuthenticatorCommitment;
  }

  lemma PasskeysChanged(p: Primitives, i: Installation, before: seq<Authenticator>, after: seq<Authenticator>, now: i64)
    requires |after| == |before|
    requires forall k :: 0 <= k < |before| ==> RestoreAuthenticator(p, i, before[k], now) == Some(after[k])
    ensures PasskeysRestored(before, after, now, Counted(LivePasskey, before))
  {
    hide RestoreAuthenticator, Counted, ActivePasskeys, PasskeyRestored;
    forall k | 0 <= k < |before| ensures PasskeyRestored(before[k], after[k], now) {
      PasskeyChanged(p, i, before[k], after[k], now);
    }
    PasskeysCounted(before);
  }

  lemma PasskeysCounted(before: seq<Authenticator>)
    ensures Counted(LivePasskey, before) == |ActivePasskeys(before)|
  {
    StateNames();
    hide Counted;
    CountedIsSize(LivePasskey, before, ActivePasskeys(before));
  }

  lemma StateNames()
    ensures ACTIVE == Ascii("active") && REVOKED == Ascii("revoked")
  {
  }

  // ----- The transformation -----

  /** The rows `transform_logical_snapshot` can restore. */
  ghost predicate Transformable(p: Primitives, i: Installation, d: Decoded, mode: CredentialRestoreMode, now: i64) {
    && (forall k :: 0 <= k < |d.namespaces| ==> p.fromText(d.namespaces[k].metadata).Some?)
    && (forall k :: 0 <= k < |d.secrets| ==>
          p.fromText(d.secrets[k].metadata).Some?
          && ScheduleOf(d.versions, d.secrets[k].secretId, d.secrets[k].currentVersion).Some?)
    && (forall k :: 0 <= k < |d.versions| ==> p.fromText(d.versions[k].payload).Some?)
    && (forall k :: 0 <= k < |d.services| ==> p.fromText(d.services[k].metadata).Some?)
    && (forall k :: 0 <= k < |d.policies| ==> p.fromText(d.policies[k].metadata).Some?)
    && (forall k :: 0 <= k < |d.authenticators| ==> RestoreAuthenticator(p, i, d.authenticators[k], now).Some?)
    && (forall k :: 0 <= k < |d.credentials| ==> RestoreCredential(p, i, d.credentials[k], mode, now).Some?)
    && d.authorization.Some?
  }

  /** The restored row: the same fields, its plaintext under the destination, its commitment recomputed there. */
  ghost predicate NamespaceRestored(p: Primitives, i: Installation, n: Namespace<bytes>, m: Namespace<Envelope>) {
    && m == Namespace(n.namespaceId, n.parent, n.nameIndex, n.metadataVersion, m.metadata, n.state, n.revision,
                      NamespaceCommitment(p, i, m), n.createdAt, n.updatedAt)
    && p.fromText(n.metadata).Some? && DecryptRecord(p, i, NamespaceSlot(m), m.metadata) == p.fromText(n.metadata)
  }

  ghost predicate SecretRestored(p: Primitives, i: Installation, versions: seq<SecretVersion<bytes>>, n: Secret<bytes>,
                                 m: Secret<Envelope>) {
    && ScheduleOf(versions, n.secretId, n.currentVersion).Some?
    && m == Secret(n.secretId, n.namespaceId, n.nameIndex, n.metadataVersion, m.metadata, n.state, n.currentVersion,
                   n.revision, SecretCommitment(p, i, m, ScheduleOf(versions, n.secretId, n.currentVersion).value),
                   n.createdAt, n.updatedAt, n.deletedAt)
    && p.fromText(n.metadata).Some? && DecryptRecord(p, i, SecretSlot(m), m.metadata) == p.fromText(n.metadata)
  }

  ghost predicate VersionRestored(p: Primitives, i: Installation, n: SecretVersion<bytes>, m: SecretVersion<Envelope>) {
    && m == SecretVersion(n.secretId, n.version, m.payload, n.schedule, n.createdBy, n.createdAt)
    && p.fromText(n.payload).Some? && DecryptRecord(p, i, VersionSlot(m), m.payload) == p.fromText(n.payload)
  }

  ghost predicate ServiceRestored(p: Primitives, i: Installation, n: ServiceIdentity<bytes>,
                                  m: ServiceIdentity<Envelope>) {
    && m == ServiceIdentity(n.principalId, n.metadataVersion, m.metadata)
    && p.fromText(n.metadata).Some? && DecryptRecord(p, i, ServiceSlot(m), m.metadata) == p.fromText(n.metadata)
  }

  ghost predicate PolicyRestored(p: Primitives, i: Installation, n: PortablePolicy<bytes>,
                                 m: PortablePolicy<Envelope>) {
    && m == PortablePolicy(n.policyId, n.revision, n.active, n.metadataVersion, m.metadata,
                           PolicyCommitment(VaultOf(p, i.keys.audit), RowOfPolicy(m)), n.createdAt, n.updatedAt)
    && p.fromText(n.metadata).Some? && DecryptRecord(p, i, PolicySlot(m), m.metadata) == p.fromText(n.metadata)
  }

  lemma SealedNamespace(p: Primitives, i: Installation, n: Namespace<bytes>, d: Draw)
    requires Lawful(p) && SealNamespace(p, i, n, d).Some?
    ensures NamespaceRestored(p, i, n, SealNamespace(p, i, n, d).value)
  {
    var m := p.fromText(n.metadata).value;
    hide EncryptRecord, DecryptRecord;
    DecryptOfEncrypted(p, i, NamespaceSlot(n), m, d);
  }

  lemma SealedSecret(p: Primitives, i: Installation, versions: seq<SecretVersion<bytes>>, n: Secret<bytes>, d: Draw)
    requires Lawful(p) && SealSecret(p, i, versions, n, d).Some?
    ensures SecretRestored(p, i, versions, n, SealSecret(p, i, versions, n, d).value)
  {
    var m := p.fromText(n.metadata).value;
    hide EncryptRecord, DecryptRecord;
    DecryptOfEncrypted(p, i, SecretSlot(n), m, d);
  }

  lemma SealedVersion(p: Primitives, i: Installation, n: SecretVersion<bytes>, d: Draw)
    requires Lawful(p) && SealVersion(p, i, n, d).Some?
    ensures VersionRestored(p, i, n, SealVersion(p, i, n, d).value)
  {
    var m := p.fromText(n.payload).value;
    hide EncryptRecord, DecryptRecord;
    DecryptOfEncrypted(p, i, VersionSlot(n), m, d);
  }

  lemma SealedService(p: Primitives, i: Installation, n: ServiceIdentity<bytes>, d: Draw)
    requires Lawful(p) && SealService(p, i, n, d).Some?
    ensures ServiceRestored(p, i, n, SealService(p, i, n, d).value)
  {
    var m := p.fromText(n.metadata).value;
    hide EncryptRecord, DecryptRecord;
    DecryptOfEncrypted(p, i, ServiceSlot(n), m, d);
  }

  lemma SealedPolicy(p: Primitives, i: Installation, n: PortablePolicy<bytes>, d: Draw)
    requires Lawful(p) && SealPortablePolicy(p, i, n, d).Some?
    ensures PolicyRestored(p, i, n, SealPortablePolicy(p, i, n, d).value)
  {
    var m := p.fromText(n.metadata).value;
    hide EncryptRecord, DecryptRecord;
    DecryptOfEncrypted(p, i, PolicySlot(n), m, d);
    var r := SealPortablePolicy(p, i, n, d).value;
    assert PolicyFields(VaultOf(p, i.keys.audit), RowOfPolicy(r))
           == PolicyFields(VaultOf(p, i.keys.audit), RowOfPolicy(r.(commitment := n.commitment)));
  }

  method RestoreNamespaces(p: Primitives, i: Installation, rows: seq<Namespace<bytes>>, tape: nat -> Draw)
    returns (r: Option<seq<Namespace<Envelope>>>)
    requires Lawful(p)
    ensures r.Some? <==> forall k :: 0 <= k < |rows| ==> p.fromText(rows[k].metadata).Some?
    ensures r.Some? ==>
            |r.value| == |rows| && forall k :: 0 <= k < |rows| ==> NamespaceRestored(p, i, rows[k], r.value[k])
  {
    hide NamespaceRestored;
    forall n, d | SealNamespace(p, i, n, d).Some?
      ensures NamespaceRestored(p, i, n, SealNamespace(p, i, n, d).value)
    {
      SealedNamespace(p, i, n, d);
    }
    r := SealRows((n, d) => SealNamespace(p, i, n, d), (n: Namespace<bytes>) => p.fromText(n.metadata).Some?,
                  (n, m) => NamespaceRestored(p, i, n, m), rows, tape);
  }

  method RestoreSecrets(p: Primitives, i: Installation, versions: seq<SecretVersion<bytes>>, rows: seq<Secret<bytes>>,
                        tape: nat -> Draw)
    returns (r: Option<seq<Secret<Envelope>>>)
    requires Lawful(p)
    ensures r.Some? <==> forall k :: 0 <= k < |rows| ==>
              p.fromText(rows[k].metadata).Some? && ScheduleOf(versions, rows[k].secretId, rows[k].currentVersion).Some?
    ensures r.Some? ==>
            |r.value| == |rows| && forall k :: 0 <= k < |rows| ==> SecretRestored(p, i, versions, rows[k], r.value[k])
  {
    hide SecretRestored, ScheduleOf;
    forall n, d | SealSecret(p, i, versions, n, d).Some?
      ensures SecretRestored(p, i, versions, n, SealSecret(p, i, versions, n, d).value)
    {
      SealedSecret(p, i, versions, n, d);
    }
    r := SealRows((n, d) => SealSecret(p, i, versions, n, d),
                  (n: Secret<bytes>) => p.fromText(n.metadata).Some?
                  && ScheduleOf(versions, n.secretId, n.currentVersion).Some?,
                  (n, m) => SecretRestored(p, i, versions, n, m), rows, tape);
  }

  method RestoreVersions(p: Primitives, i: Installation, rows: seq<SecretVersion<bytes>>, tape: nat -> Draw)
    returns (r: Option<seq<SecretVersion<Envelope>>>)
    requires Lawful(p)
    ensures r.Some? <==> forall k :: 0 <= k < |rows| ==> p.fromText(rows[k].payload).Some?
    ensures r.Some? ==>
            |r.value| == |rows| && forall k :: 0 <= k < |rows| ==> VersionRestored(p, i, rows[k], r.value[k])
  {
    hide VersionRestored;
    forall n, d | SealVersion(p, i, n, d).Some?
      ensures VersionRestored(p, i, n, SealVersion(p, i, n, d).value)
    {
      SealedVersion(p, i, n, d);
    }
    r := SealRows((n, d) => SealVersion(p, i, n, d), (n: SecretVersion<bytes>) => p.fromText(n.payload).Some?,
                  (n, m) => VersionRestored(p, i, n, m), rows, tape);
  }

  method RestoreServices(p: Primitives, i: Installation, rows: seq<ServiceIdentity<bytes>>, tape: nat -> Draw)
    returns (r: Option<seq<ServiceIdentity<Envelope>>>)
    requires Lawful(p)
    ensures r.Some? <==> forall k :: 0 <= k < |rows| ==> p.fromText(rows[k].metadata).Some?
    ensures r.Some? ==>
            |r.value| == |rows| && forall k :: 0 <= k < |rows| ==> ServiceRestored(p, i, rows[k], r.value[k])
  {
    hide ServiceRestored;
    forall n, d | SealService(p, i, n, d).Some?
      ensures ServiceRestored(p, i, n, SealService(p, i, n, d).value)
    {
      SealedService(p, i, n, d);
    }
    r := SealRows((n, d) => SealService(p, i, n, d), (n: ServiceIdentity<bytes>) => p.fromText(n.metadata).Some?,
                  (n, m) => ServiceRestored(p, i, n, m), rows, tape);
  }

  method RestorePolicies(p: Primitives, i: Installation, rows: seq<PortablePolicy<bytes>>, tape: nat -> Draw)
    returns (r: Option<seq<PortablePolicy<Envelope>>>)
    requires Lawful(p)
    ensures r.Some? <==> forall k :: 0 <= k < |rows| ==> p.fromText(rows[k].metadata).Some?
    ensures r.Some? ==> |r.value| == |rows| && forall k :: 0 <= k < |rows| ==> PolicyRestored(p, i, rows[k], r.value[k])
  {
    hide PolicyRestored, PolicyCommitment;
    forall n, d | SealPortablePolicy(p, i, n, d).Some?
      ensures PolicyRestored(p, i, n, SealPortablePolicy(p, i, n, d).value)
    {
      SealedPolicy(p, i, n, d);
    }
    r := SealRows((n, d) => SealPortablePolicy(p, i, n, d), (n: PortablePolicy<bytes>) => p.fromText(n.metadata).Some?,
                  (n, m) => PolicyRestored(p, i, n, m), rows, tape);
  }

  /** Row for row, the restored snapshot comes from the decoded one. */
  ghost predicate Transformed(p: Primitives, i: Installation, d: Decoded, mode: CredentialRestoreMode, now: i64,
                              t: Snapshot<Envelope>) {
    && |t.namespaces| == |d.namespaces| && |t.secrets| == |d.secrets| && |t.versions| == |d.versions|
    && |t.services| == |d.services| && |t.policies| == |d.policies|
    && |t.authenticators| == |d.authenticators| && |t.credentials| == |d.credentials|
    && (forall k :: 0 <= k < |d.namespaces| ==> NamespaceRestored(p, i, d.namespaces[k], t.namespaces[k]))
    && (forall k :: 0 <= k < |d.secrets| ==> SecretRestored(p, i, d.versions, d.secrets[k], t.secrets[k]))
    && (forall k :: 0 <= k < |d.versions| ==> VersionRestored(p, i, d.versions[k], t.versions[k]))
    && (forall k :: 0 <= k < |d.services| ==> ServiceRestored(p, i, d.services[k], t.services[k]))
    && (forall k :: 0 <= k < |d.policies| ==> PolicyRestored(p, i, d.policies[k], t.policies[k]))
    && (forall k :: 0 <= k < |d.authenticators| ==>
          RestoreAuthenticator(p, i, d.authenticators[k], now) == Some(t.authenticators[k]))
    && (forall k :: 0 <= k < |d.credentials| ==>
          RestoreCredential(p, i, d.credentials[k], mode, now) == Some(t.credentials[k]))
    && t.tombstones == d.tombstones && t.principals == d.principals && t.grants == d.grants && t.bindings == d.bindings
    && t.audit == d.audit
    && d.authorization.Some? && t.authorization.revision == d.authorization.value.revision
    && t.authorization.commitment == CommitmentOf(VaultOf(p, i.keys.audit), Items(GraphOf(t)), t.authorization.revision)
  }

  /** `transform_logical_snapshot`: the restored rows, the credentials it revoked and the passkeys it disabled. */
  method Transform(p: Primitives, i: Installation, d: Decoded, mode: CredentialRestoreMode, now: i64,
                   tape: (nat, nat) -> Draw)
    returns (r: Option<Snapshot<Envelope>>, revoked: nat, disabled: nat)
    requires Lawful(p)
    ensures r.Some? <==> Transformable(p, i, d, mode, now)
    ensures r.Some? ==> Transformed(p, i, d, mode, now, r.value)
    ensures r.Some? ==>
            && CredentialsRestored(d.credentials, r.value.credentials, mode, now, revoked)
            && PasskeysRestored(d.authenticators, r.value.authenticators, now, disabled)
  {
    hide CredentialsRestored, PasskeysRestored;
    hide NamespaceRestored, SecretRestored, VersionRestored, ServiceRestored, PolicyRestored, RestoreAuthenticator;
    hide RestoreCredential;
    hide ScheduleOf, CommitmentOf, Counted, Items, ToRevoke, LivePasskey, Lawful;
    revoked, disabled := 0, 0;
    var namespaces := RestoreNamespaces(p, i, d.namespaces, (k: nat) => tape(0, k));
    var secrets := RestoreSecrets(p, i, d.versions, d.secrets, (k: nat) => tape(1, k));
    var versions := RestoreVersions(p, i, d.versions, (k: nat) => tape(2, k));
    var services := RestoreServices(p, i, d.services, (k: nat) => tape(3, k));
    var policies := RestorePolicies(p, i, d.policies, (k: nat) => tape(4, k));
    var authenticators, credentials;
    authenticators, disabled := ChangeRows(a => RestoreAuthenticator(p, i, a, now), LivePasskey, d.authenticators);
    var revokes := (c: Credential) => ToRevoke(c, mode);
    credentials, revoked := ChangeRows(c => RestoreCredential(p, i, c, mode, now), revokes, d.credentials);
    if namespaces.None? || secrets.None? || versions.None? || services.None? || policies.None? || authenticators.None?
       || credentials.None? || d.authorization.None?
    {
      return None, revoked, disabled;
    }
    CredentialsChanged(p, i, d.credentials, credentials.value, revokes, mode, now);
    PasskeysChanged(p, i, d.authenticators, authenticators.value, now);
    var graph := Rows(PolicyRows(policies.value), d.grants, d.bindings);
    var commitment := PortableCommitment(VaultOf(p, i.keys.audit), graph, d.authorization.value.revision);
    var restored := Snapshot(namespaces.value, secrets.value, versions.value, d.tombstones, d.principals,
                             authenticators.value, services.value, credentials.value,
                             AuthorizationState(d.authorization.value.revision, commitment), policies.value, d.grants,
                             d.bindings, d.audit);
    return Some(restored), revoked, disabled;
  }
}
