/** The records of a whole snapshot, in the order a backup writes them, and their collection back into rows. */
module LogicalRecords {
  import opened Bytes
  import opened Sorting
  import opened GraphCommitment
  import opened AuditChain
  import opened Portable
  import opened LogicalStream

  function AsKeys(r: Logical): Option<LogicalKeys> { if r.KeysRecord? then Some(r.keys) else None }
  function AsNamespace(r: Logical): Option<Namespace<bytes>> { if r.NamespaceRecord? then Some(r.namespace) else None }
  function AsSecret(r: Logical): Option<Secret<bytes>> { if r.SecretRecord? then Some(r.secret) else None }
  function AsVersion(r: Logical): Option<SecretVersion<bytes>> { if r.VersionRecord? then Some(r.version) else None }
  function AsTombstone(r: Logical): Option<Tombstone> { if r.TombstoneRecord? then Some(r.tombstone) else None }
  function AsPrincipal(r: Logical): Option<Principal> { if r.PrincipalRecord? then Some(r.principal) else None }
  function AsAuthenticator(r: Logical): Option<Authenticator> {
    if r.AuthenticatorRecord? then Some(r.authenticator) else None
  }
  function AsService(r: Logical): Option<ServiceIdentity<bytes>> { if r.ServiceRecord? then Some(r.service) else None }
  function AsCredential(r: Logical): Option<Credential> { if r.CredentialRecord? then Some(r.credential) else None }
  function AsAuthorization(r: Logical): Option<AuthorizationState> {
    if r.AuthorizationRecord? then Some(r.state) else None
  }
  function AsPolicy(r: Logical): Option<PortablePolicy<bytes>> { if r.PolicyRecord? then Some(r.policy) else None }
  function AsGrant(r: Logical): Option<GrantRow> { if r.GrantRecord? then Some(r.grant) else None }
  function AsBinding(r: Logical): Option<BindingRow> { if r.BindingRecord? then Some(r.binding) else None }
  function AsAudit(r: Logical): Option<AuditRecord> { if r.AuditLogRecord? then Some(r.audit) else None }

  function Found<T>(f: Logical -> Option<T>, r: Logical): seq<T> {
    if f(r).Some? then [f(r).value] else []
  }

  /** The rows a selector finds, in order. */
  function Selected<T>(f: Logical -> Option<T>, rs: seq<Logical>): seq<T> {
    if rs == [] then [] else Selected(f, rs[..|rs| - 1]) + Found(f, rs[|rs| - 1])
  }

  function LastOf<T>(s: seq<T>): Option<T> {
    if s == [] then None else Some(s[|s| - 1])
  }

  lemma PushFields(d: Decoded, r: Logical)
    ensures var e := Push(d, r);
            && e.namespaces == d.namespaces + Found(AsNamespace, r) && e.secrets == d.secrets + Found(AsSecret, r)
            && e.versions == d.versions + Found(AsVersion, r) && e.tombstones == d.tombstones + Found(AsTombstone, r)
            && e.principals == d.principals + Found(AsPrincipal, r)
            && e.authenticators == d.authenticators + Found(AsAuthenticator, r)
            && e.services == d.services + Found(AsService, r) && e.credentials == d.credentials + Found(AsCredential, r)
            && e.policies == d.policies + Found(AsPolicy, r) && e.grants == d.grants + Found(AsGrant, r)
            && e.bindings == d.bindings + Found(AsBinding, r) && e.audit == d.audit + Found(AsAudit, r)
            && e.keys == (if AsKeys(r).Some? then AsKeys(r) else d.keys)
            && e.authorization == (if AsAuthorization(r).Some? then AsAuthorization(r) else d.authorization)
            && e.records == d.records + 1
  {
  }

  lemma LastFound<T>(f: Logical -> Option<T>, rs: seq<Logical>)
    requires rs != []
    ensures LastOf(Selected(f, rs)) == if f(rs[|rs| - 1]).Some? then f(rs[|rs| - 1])
            else LastOf(Selected(f, rs[..|rs| - 1]))
  {
  }

  /** Collecting is selecting by kind. */
  lemma {:induction false} CollectedIsSelected(rs: seq<Logical>)
    ensures Collected(rs) == Decoded(LastOf(Selected(AsKeys, rs)), Selected(AsNamespace, rs), Selected(AsSecret, rs),
                                     Selected(AsVersion, rs), Selected(AsTombstone, rs), Selected(AsPrincipal, rs),
                                     Selected(AsAuthenticator, rs), Selected(AsService, rs), Selected(AsCredential, rs),
                                     LastOf(Selected(AsAuthorization, rs)), Selected(AsPolicy, rs),
                                       Selected(AsGrant, rs),
                                     Selected(AsBinding, rs), Selected(AsAudit, rs), |rs|)
  {
    hide Push, Found, LastOf, AsKeys, AsAuthorization;
    if rs == [] {
      assert Selected(AsKeys, rs) == [] && Selected(AsAuthorization, rs) == [];
      EmptyLast();
    } else {
      var n := |rs| - 1;
      CollectedIsSelected(rs[..n]);
      PushFields(Collected(rs[..n]), rs[n]);
      LastFound(AsKeys, rs);
      LastFound(AsAuthorization, rs);
    }
  }

  lemma EmptyLast()
    ensures LastOf<LogicalKeys>([]) == None && LastOf<AuthorizationState>([]) == None
  {
  }

  lemma {:induction false} SelectedSplit<T>(f: Logical -> Option<T>, a: seq<Logical>, b: seq<Logical>)
    ensures Selected(f, a + b) == Selected(f, a) + Selected(f, b)
    decreases |b|
  {
    if b == [] {
      assert a + b == a;
    } else {
      var n := |b| - 1;
      SelectedSplit(f, a, b[..n]);
      assert (a + b)[..|a + b| - 1] == a + b[..n];
      assert (a + b)[|a + b| - 1] == b[n];
    }
  }

  /** A selector of another kind finds nothing in a part. */
  lemma {:induction false} SelectedNone<T>(f: Logical -> Option<T>, rs: seq<Logical>)
    requires forall i :: 0 <= i < |rs| ==> f(rs[i]).None?
    ensures Selected(f, rs) == []
    decreases |rs|
  {
    if rs != [] {
      SelectedNone(f, rs[..|rs| - 1]);
    }
  }

  /** A selector finds every row of its own part. */
  lemma {:induction false} SelectedAll<T>(f: Logical -> Option<T>, build: T -> Logical, rows: seq<T>)
    requires forall x :: f(build(x)) == Some(x)
    ensures Selected(f, Map(build, rows)) == rows
    decreases |rows|
  {
    if rows != [] {
      var n := |rows| - 1;
      SelectedAll(f, build, rows[..n]);
      assert Map(build, rows)[..n] == Map(build, rows[..n]);
      assert rows == rows[..n] + [rows[n]];
    }
  }

  function Flat(parts: seq<seq<Logical>>): seq<Logical> {
    if parts == [] then [] else parts[0] + Flat(parts[1..])
  }

  /** All records of one part have one kind. */
  ghost predicate OfKind(part: seq<Logical>, kind: u16) {
    forall i :: 0 <= i < |part| ==> KindOf(part[i]) == kind
  }

  /** The parts, one kind each. */
  ghost predicate OneKindEach(parts: seq<seq<Logical>>, kinds: seq<u16>) {
    |parts| == |kinds| && forall k :: 0 <= k < |parts| ==> OfKind(parts[k], kinds[k])
  }

  /** What a selector of kind `kinds[j]` finds is in part `j`. */
  lemma {:induction false} SelectedPart<T>(f: Logical -> Option<T>, parts: seq<seq<Logical>>, kinds: seq<u16>, j: nat)
    requires OneKindEach(parts, kinds) && j < |parts|
    requires forall r: Logical :: f(r).Some? ==> KindOf(r) == kinds[j]
    requires forall k :: 0 <= k < |kinds| && k != j ==> kinds[k] != kinds[j]
    ensures Selected(f, Flat(parts)) == Selected(f, parts[j])
    decreases |parts|
  {
    SelectedSplit(f, parts[0], Flat(parts[1..]));
    if j == 0 {
      SelectedAbsent(f, parts[1..], kinds[1..], kinds[0]);
    } else {
      assert OfKind(parts[0], kinds[0]);
      SelectedNone(f, parts[0]);
      SelectedPart(f, parts[1..], kinds[1..], j - 1);
    }
  }

  lemma {:induction false} SelectedAbsent<T>(f: Logical -> Option<T>, parts: seq<seq<Logical>>, kinds: seq<u16>,
                                             kind: u16)
    requires OneKindEach(parts, kinds) && (forall k :: 0 <= k < |kinds| ==> kinds[k] != kind)
    requires forall r: Logical :: f(r).Some? ==> KindOf(r) == kind
    ensures Selected(f, Flat(parts)) == []
    decreases |parts|
  {
    if parts != [] {
      SelectedSplit(f, parts[0], Flat(parts[1..]));
      assert OfKind(parts[0], kinds[0]);
      SelectedNone(f, parts[0]);
      SelectedAbsent(f, parts[1..], kinds[1..], kind);
    }
  }

  // ----- The order of `encode_logical_snapshot` -----

  const KINDS: seq<u16> := [1, 10, 11, 12, 13, 20, 21, 22, 23, 30, 31, 32, 33, 40]

  function Parts(keys: LogicalKeys, s: Snapshot<bytes>): seq<seq<Logical>> {
    [[KeysRecord(keys)],
     Map(x => NamespaceRecord(x), s.namespaces), Map(x => SecretRecord(x), s.secrets),
       Map(x => VersionRecord(x), s.versions),
     Map(x => TombstoneRecord(x), s.tombstones), Map(x => PrincipalRecord(x), s.principals),
     Map(x => AuthenticatorRecord(x), s.authenticators), Map(x => ServiceRecord(x), s.services),
     Map(x => CredentialRecord(x), s.credentials), [AuthorizationRecord(s.authorization)],
     Map(x => PolicyRecord(x), s.policies), Map(x => GrantRecord(x), s.grants), Map(x => BindingRecord(x), s.bindings),
     Map(x => AuditLogRecord(x), s.audit)]
  }

  function RecordsOf(keys: LogicalKeys, s: Snapshot<bytes>): seq<Logical> {
    Flat(Parts(keys, s))
  }

  lemma PartsSorted(keys: LogicalKeys, s: Snapshot<bytes>)
    ensures OneKindEach(Parts(keys, s), KINDS)
  {
  }

  /** What the stream decoder makes of a snapshot. */
  function DecodedOf(keys: LogicalKeys, s: Snapshot<bytes>): Decoded {
    Decoded(Some(keys), s.namespaces, s.secrets, s.versions, s.tombstones, s.principals, s.authenticators, s.services,
            s.credentials, Some(s.authorization), s.policies, s.grants, s.bindings, s.audit, |RecordsOf(keys, s)|)
  }

  /** The rows of part `j` are found again by their selector. */
  lemma PartFound<T>(keys: LogicalKeys, s: Snapshot<bytes>, f: Logical -> Option<T>, build: T -> Logical, rows: seq<T>,
                     j: nat)
    requires j < 14 && Parts(keys, s)[j] == Map(build, rows)
    requires (forall x :: f(build(x)) == Some(x)) && forall r: Logical :: f(r).Some? ==> KindOf(r) == KINDS[j]
    ensures Selected(f, RecordsOf(keys, s)) == rows
  {
    PartsSorted(keys, s);
    hide Selected, Map, OneKindEach, Flat, Parts;
    SelectedPart(f, Parts(keys, s), KINDS, j);
    SelectedAll(f, build, rows);
  }

  lemma VaultRowsSelected(keys: LogicalKeys, s: Snapshot<bytes>)
    ensures var rs := RecordsOf(keys, s);
            && Selected(AsKeys, rs) == [keys] && Selected(AsNamespace, rs) == s.namespaces
            && Selected(AsSecret, rs) == s.secrets
            && Selected(AsVersion, rs) == s.versions && Selected(AsTombstone, rs) == s.tombstones
  {
    hide Selected, RecordsOf;
    assert Parts(keys, s)[0] == Map(x => KeysRecord(x), [keys]);
    PartFound(keys, s, AsKeys, x => KeysRecord(x), [keys], 0);
    PartFound(keys, s, AsNamespace, x => NamespaceRecord(x), s.namespaces, 1);
    PartFound(keys, s, AsSecret, x => SecretRecord(x), s.secrets, 2);
    PartFound(keys, s, AsVersion, x => VersionRecord(x), s.versions, 3);
    PartFound(keys, s, AsTombstone, x => TombstoneRecord(x), s.tombstones, 4);
  }

  lemma IdentityRowsSelected(keys: LogicalKeys, s: Snapshot<bytes>)
    ensures var rs := RecordsOf(keys, s);
            && Selected(AsPrincipal, rs) == s.principals && Selected(AsAuthenticator, rs) == s.authenticators
            && Selected(AsService, rs) == s.services && Selected(AsCredential, rs) == s.credentials
  {
    hide Selected, RecordsOf;
    PartFound(keys, s, AsPrincipal, x => PrincipalRecord(x), s.principals, 5);
    PartFound(keys, s, AsAuthenticator, x => AuthenticatorRecord(x), s.authenticators, 6);
    PartFound(keys, s, AsService, x => ServiceRecord(x), s.services, 7);
    PartFound(keys, s, AsCredential, x => CredentialRecord(x), s.credentials, 8);
  }

  lemma GraphRowsSelected(keys: LogicalKeys, s: Snapshot<bytes>)
    ensures var rs := RecordsOf(keys, s);
            && Selected(AsAuthorization, rs) == [s.authorization] && Selected(AsPolicy, rs) == s.policies
            && Selected(AsGrant, rs) == s.grants && Selected(AsBinding, rs) == s.bindings
            && Selected(AsAudit, rs) == s.audit
  {
    hide Selected, RecordsOf;
    assert Parts(keys, s)[9] == Map(x => AuthorizationRecord(x), [s.authorization]);
    PartFound(keys, s, AsAuthorization, x => AuthorizationRecord(x), [s.authorization], 9);
    PartFound(keys, s, AsPolicy, x => PolicyRecord(x), s.policies, 10);
    PartFound(keys, s, AsGrant, x => GrantRecord(x), s.grants, 11);
    PartFound(keys, s, AsBinding, x => BindingRecord(x), s.bindings, 12);
    PartFound(keys, s, AsAudit, x => AuditLogRecord(x), s.audit, 13);
  }

  /** Collecting a snapshot's records gives the snapshot. */
  lemma CollectedOfSnapshot(keys: LogicalKeys, s: Snapshot<bytes>)
    ensures Collected(RecordsOf(keys, s)) == DecodedOf(keys, s)
  {
    hide Selected, RecordsOf;
    CollectedIsSelected(RecordsOf(keys, s));
    VaultRowsSelected(keys, s);
    IdentityRowsSelected(keys, s);
    GraphRowsSelected(keys, s);
  }

  lemma {:induction false} SelectedCounts<T>(f: Logical -> Option<T>, rs: seq<Logical>, i: nat, j: nat)
    requires i < j < |rs| && f(rs[i]).Some? && f(rs[j]).Some?
    ensures |Selected(f, rs)| >= 2
    decreases |rs|
  {
    var n := |rs| - 1;
    if j < n {
      SelectedCounts(f, rs[..n], i, j);
    } else {
      SelectedSome(f, rs[..n], i);
    }
  }

  lemma {:induction false} SelectedSome<T>(f: Logical -> Option<T>, rs: seq<Logical>, i: nat)
    requires i < |rs| && f(rs[i]).Some?
    ensures |Selected(f, rs)| >= 1
    decreases |rs|
  {
    if i < |rs| - 1 {
      SelectedSome(f, rs[..|rs| - 1], i);
    }
  }

  /** The stream decoder accepts a snapshot's records. */
  lemma SnapshotAcceptable(keys: LogicalKeys, s: Snapshot<bytes>)
    ensures Acceptable(RecordsOf(keys, s), |RecordsOf(keys, s)|)
  {
    var rs := RecordsOf(keys, s);
    assert rs[0] == KeysRecord(keys);
    hide Selected, RecordsOf, Collected;
    VaultRowsSelected(keys, s);
    GraphRowsSelected(keys, s);
    forall i | 0 <= i < |rs| && rs[i].KeysRecord?
      ensures i == 0
    {
      if i > 0 {
        SelectedCounts(AsKeys, rs, 0, i);
      }
    }
    forall i, j | 0 <= i < j < |rs|
      ensures !(rs[i].AuthorizationRecord? && rs[j].AuthorizationRecord?)
    {
      if rs[i].AuthorizationRecord? && rs[j].AuthorizationRecord? {
        SelectedCounts(AsAuthorization, rs, i, j);
      }
    }
    if !HasAuthorization(rs) {
      SelectedNone(AsAuthorization, rs);
    }
  }
}
