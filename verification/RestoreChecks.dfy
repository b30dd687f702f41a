/** `verify_restored_snapshot` as written: sets, maps and loops, against what they stand for. */
module RestoreChecks {
  import opened Bytes
  import opened Forest
  import opened Access
  import opened GraphCommitment
  import GraphStore
  import opened AuditChain
  import opened Portable
  import opened Restore
  import opened RestoreTheorems
  import opened RestoreRelations

  // ----- Sets and maps of identities -----

  /** Collects a list into a set; the sizes agree exactly when nothing repeats. */
  method CollectIds<T(==, !new)>(s: seq<T>) returns (ids: set<T>)
    ensures forall x :: x in ids <==> x in s
    ensures |ids| == |s| <==> Distinct(s)
  {
    ids := {};
    for i := 0 to |s|
      invariant forall x :: x in ids <==> x in s[..i]
      invariant |ids| <= i && (|ids| == i <==> Distinct(s[..i]))
    {
      assert s[..i + 1] == s[..i] + [s[i]];
      DistinctStep(s, i);
      ids := ids + {s[i]};
    }
    assert s[..|s|] == s;
  }

  lemma DistinctStep<T(!new)>(s: seq<T>, i: nat)
    requires i < |s|
    ensures Distinct(s[..i + 1]) <==> Distinct(s[..i]) && s[i] !in s[..i]
  {
    var t := s[..i + 1];
    assert t[i] == s[i] && forall k :: 0 <= k < i ==> t[k] == s[..i][k];
    if s[i] in s[..i] {
      var k :| 0 <= k < i && s[..i][k] == s[i];
      assert t[k] == t[i];
    }
  }

  type Kinds = map<PrincipalId, PrincipalKind>

  /** The map holds each principal's kind. */
  ghost predicate Tells(kinds: Kinds, h: Shape) {
    forall id, kind :: (id in kinds && kinds[id] == kind) <==> HasKind(h, id, kind)
  }

  /** The map has the first `i` principals, each with its kind unless an identity repeats. */
  ghost predicate Holds(kinds: Kinds, h: Shape, i: nat)
    requires i <= |h.principals|
  {
    && (forall id :: id in kinds <==> id in PrincipalIds(h)[..i])
    && |kinds| <= i && (|kinds| == i <==> Distinct(PrincipalIds(h)[..i]))
    && (|kinds| == i ==> forall k :: 0 <= k < i ==> Is(kinds, h.principals[k].principalId, h.principals[k].kind))
  }

  predicate Is(kinds: Kinds, id: PrincipalId, kind: PrincipalKind) {
    id in kinds && kinds[id] == kind
  }

  /** Collects the kinds of principals; unless some identity repeats, the map tells each kind. */
  method CollectKinds(h: Shape) returns (kinds: Kinds)
    ensures |kinds| == |h.principals| <==> Distinct(PrincipalIds(h))
    ensures Distinct(PrincipalIds(h)) ==> Tells(kinds, h)
  {
    hide Distinct, Holds, Tells;
    kinds := map[];
    HoldsNone(h);
    for i := 0 to |h.principals|
      invariant Holds(kinds, h, i)
    {
      HoldsNext(kinds, h, i);
      kinds := kinds[h.principals[i].principalId := h.principals[i].kind];
    }
    HoldsAll(kinds, h);
  }

  lemma HoldsNone(h: Shape)
    ensures Holds(map[], h, 0)
  {
  }

  lemma HoldsNext(kinds: Kinds, h: Shape, i: nat)
    requires i < |h.principals| && Holds(kinds, h, i)
    ensures Holds(kinds[h.principals[i].principalId := h.principals[i].kind], h, i + 1)
  {
    hide Distinct;
    var ids := PrincipalIds(h);
    assert ids[..i + 1] == ids[..i] + [ids[i]];
    DistinctStep(ids, i);
    SizeStep(kinds, ids[i], h.principals[i].kind);
    if ids[i] !in kinds {
      forall k | 0 <= k < i ensures h.principals[k].principalId != ids[i] {
        assert ids[..i][k] == h.principals[k].principalId;
      }
    }
  }

  lemma HoldsAll(kinds: Kinds, h: Shape)
    requires Holds(kinds, h, |h.principals|)
    ensures |kinds| == |h.principals| <==> Distinct(PrincipalIds(h))
    ensures Distinct(PrincipalIds(h)) ==> Tells(kinds, h)
  {
    hide Distinct;
    var ids := PrincipalIds(h);
    assert ids[..|ids|] == ids;
    if Distinct(ids) {
      forall id, kind ensures (id in kinds && kinds[id] == kind) <==> HasKind(h, id, kind) {
        if id in kinds && kinds[id] == kind {
          var k :| 0 <= k < |ids| && ids[k] == id;
          assert h.principals[k] == PrincipalRef(id, kind);
        }
      }
    }
  }

  lemma SizeStep(m: Kinds, id: PrincipalId, kind: PrincipalKind)
    ensures |m[id := kind]| == if id in m then |m| else |m| + 1
  {
    assert m[id := kind].Keys == m.Keys + {id};
  }

  // ----- The hierarchy -----

  method CheckHierarchy(h: Shape) returns (ok: bool)
    ensures ok <==> HierarchyHolds(h)
  {
    var store, ids := StoreOf(h.namespaces), NamespaceIds(h);
    for i := 0 to |ids|
      invariant forall k :: 0 <= k < i ==> ids[k] in store && Rooted(store, ids[k])
    {
      if ids[i] !in store {
        return false;
      }
      var ancestors := Walk(store, ids[i], 32);
      var unique := CollectIds(ancestors);
      var root := ancestors[|ancestors| - 1];
      if |ancestors| > 33 || |ancestors| != |unique| || root !in store || store[root].parent.Some? {
        assert !Rooted(store, ids[i]);
        return false;
      }
    }
    return true;
  }

  // ----- Versions -----

  type Versions = map<SecretId, set<u64>>

  ghost predicate Groups(groups: Versions, versions: seq<VersionRef>) {
    && (forall x :: x in groups ==> groups[x] != {})
    && (forall x, n :: (x in groups && n in groups[x]) <==> VersionRef(x, n) in versions)
  }

  method GroupVersions(versions: seq<VersionRef>) returns (groups: Versions)
    ensures Groups(groups, versions)
  {
    groups := map[];
    for i := 0 to |versions|
      invariant Groups(groups, versions[..i])
    {
      var v := versions[i];
      assert versions[..i + 1] == versions[..i] + [v];
      groups := groups[v.secretId := (if v.secretId in groups then groups[v.secretId] else {}) + {v.version}];
    }
    assert versions[..|versions|] == versions;
  }

  function UpTo(n: u64): (r: set<u64>)
    ensures |r| == n
    ensures forall x :: x in r <==> 1 <= x <= n
  {
    if n == 0 then {} else UpTo(n - 1) + {n}
  }

  /** The right number of versions, with 1 to the current one among them, leaves no other. */
  lemma CountedVersions(actual: set<u64>, n: u64)
    ensures |actual| == n && UpTo(n) <= actual <==> actual == UpTo(n)
  {
    if |actual| == n && UpTo(n) <= actual {
      assert |actual - UpTo(n)| == 0;
    }
  }

  /** The range test of one secret. */
  method HasAll(actual: set<u64>, n: u64) returns (ok: bool)
    ensures ok <==> UpTo(n) <= actual
  {
    var version := 0;
    while version < n
      invariant version <= n && forall x :: 1 <= x <= version ==> x in actual
    {
      version := version + 1;
      if version !in actual {
        assert version in UpTo(n);
        return false;
      }
    }
    return true;
  }

  method CheckSecret(h: Shape, groups: Versions, x: VersionRef) returns (ok: bool)
    requires Groups(groups, h.versions)
    ensures ok <==> VersionsComplete(h, x)
  {
    var actual := if x.secretId in groups then groups[x.secretId] else {};
    var all := HasAll(actual, x.version);
    ok := |actual| == x.version && all;
    CountedVersions(actual, x.version);
    assert forall n: u64 :: n in actual <==> VersionRef(x.secretId, n) in h.versions;
  }

  method CheckVersions(h: Shape, secretIds: set<SecretId>) returns (ok: bool)
    requires forall x :: x in secretIds <==> x in SecretIds(h)
    ensures ok <==> VersionsHold(h)
  {
    var groups := GroupVersions(h.versions);
    for i := 0 to |h.secrets|
      invariant forall k :: 0 <= k < i ==> VersionsComplete(h, h.secrets[k])
    {
      var complete := CheckSecret(h, groups, h.secrets[i]);
      if !complete {
        return false;
      }
    }
    GroupedSecrets(h, groups);
    return groups.Keys <= secretIds && forall t | t in h.tombstones :: t.secretId !in secretIds;
  }

  lemma GroupedSecrets(h: Shape, groups: Versions)
    requires Groups(groups, h.versions)
    ensures forall x :: x in groups <==> exists n :: VersionRef(x, n) in h.versions
  {
    forall x | x in groups ensures exists n :: VersionRef(x, n) in h.versions {
      var n :| n in groups[x];
      assert VersionRef(x, n) in h.versions;
    }
  }

  // ----- References -----

  /** A loop that looks every identity up. */
  method AllHaveKind(h: Shape, kinds: Kinds, ids: seq<PrincipalId>, kind: PrincipalKind) returns (ok: bool)
    requires Tells(kinds, h)
    ensures ok <==> forall id :: id in ids ==> HasKind(h, id, kind)
  {
    for i := 0 to |ids|
      invariant forall k :: 0 <= k < i ==> HasKind(h, ids[k], kind)
    {
      if ids[i] !in kinds || kinds[ids[i]] != kind {
        assert !HasKind(h, ids[i], kind);
        return false;
      }
    }
    return true;
  }

  method CheckGrants(h: Shape, kinds: Kinds, namespaceIds: set<NamespaceId>, secretIds: set<SecretId>)
    returns (ok: bool)
    requires Tells(kinds, h)
    requires forall x :: x in namespaceIds <==> x in NamespaceIds(h)
    requires forall x :: x in secretIds <==> x in SecretIds(h)
    ensures ok <==> forall g :: g in h.grants ==> TargetExists(h, g.target) && HasKind(h, g.createdBy, Owner)
  {
    for i := 0 to |h.grants|
      invariant forall k :: 0 <= k < i ==>
                TargetExists(h, h.grants[k].target) && HasKind(h, h.grants[k].createdBy, Owner)
    {
      var g := h.grants[i];
      var targetExists := match g.target
        case NamespaceResource(n) => n in namespaceIds
        case SecretResource(x) => x in secretIds;
      assert targetExists <==> TargetExists(h, g.target);
      assert Is(kinds, g.createdBy, Owner) <==> HasKind(h, g.createdBy, Owner);
      if !targetExists || !Is(kinds, g.createdBy, Owner) {
        return false;
      }
    }
    return true;
  }

  method CheckBindings(h: Shape, kinds: Kinds) returns (ok: bool)
    requires Tells(kinds, h)
    ensures ok <==> forall b :: b in h.bindings ==> HasKind(h, b.principalId, Service) && HasKind(h, b.createdBy, Owner)
  {
    for i := 0 to |h.bindings|
      invariant forall k :: 0 <= k < i ==>
                HasKind(h, h.bindings[k].principalId, Service) && HasKind(h, h.bindings[k].createdBy, Owner)
    {
      var b := h.bindings[i];
      assert Is(kinds, b.principalId, Service) <==> HasKind(h, b.principalId, Service);
      assert Is(kinds, b.createdBy, Owner) <==> HasKind(h, b.createdBy, Owner);
      if !Is(kinds, b.principalId, Service) || !Is(kinds, b.createdBy, Owner) {
        return false;
      }
    }
    return true;
  }

  method CheckReferences(h: Shape, kinds: Kinds, namespaceIds: set<NamespaceId>, secretIds: set<SecretId>)
    returns (ok: bool)
    requires Tells(kinds, h)
    requires forall x :: x in namespaceIds <==> x in NamespaceIds(h)
    requires forall x :: x in secretIds <==> x in SecretIds(h)
    ensures ok <==> ReferencesHold(h)
  {
    hide HasKind, TargetExists, Tells;
    ok := AllHaveKind(h, kinds, h.authenticators, Owner);
    if ok {
      ok := AllHaveKind(h, kinds, h.services, Service);
    }
    if ok {
      ok := AllHaveKind(h, kinds, h.credentials, Service);
    }
    if ok {
      ok := CheckGrants(h, kinds, namespaceIds, secretIds);
    }
    if ok {
      ok := CheckBindings(h, kinds);
    }
  }

  /** `verify_restored_relationships`. */
  method CheckRelations(h: Shape) returns (ok: bool)
    ensures ok <==> RelationsHold(h)
  {
    hide HierarchyHolds, VersionsHold, ReferencesHold, Distinct, Tells;
    var namespaceIds := CollectIds(NamespaceIds(h));
    var secretIds := CollectIds(SecretIds(h));
    var kinds := CollectKinds(h);
    if |namespaceIds| != |h.namespaces| || |secretIds| != |h.secrets| || |kinds| != |h.principals| {
      return false;
    }
    ok := CheckHierarchy(h);
    if ok {
      ok := CheckVersions(h, secretIds);
    }
    if ok {
      ok := CheckReferences(h, kinds, namespaceIds, secretIds);
    }
  }

  // ----- Commitments and ciphertexts -----

  /** A loop that stops at the first row that fails. */
  method AllPass<T>(rows: seq<T>, passes: T -> bool) returns (ok: bool)
    ensures ok <==> forall k :: 0 <= k < |rows| ==> passes(rows[k])
  {
    for i := 0 to |rows|
      invariant forall k :: 0 <= k < i ==> passes(rows[k])
    {
      if !passes(rows[i]) {
        return false;
      }
    }
    return true;
  }

  method CheckSecretRows(p: Primitives, i: Installation, s: Snapshot<Envelope>) returns (ok: bool)
    ensures ok <==> SecretRowsVerify(p, i, s)
  {
    hide DecryptRecord, NamespaceCommitment, SecretCommitment, ScheduleOf;
    ok := AllPass(s.namespaces, (n: Namespace<Envelope>) =>
      NamespaceCommitment(p, i, n) == n.commitment && DecryptRecord(p, i, NamespaceSlot(n), n.metadata).Some?);
    if ok {
      ok := AllPass(s.secrets, (n: Secret<Envelope>) =>
        match ScheduleOf(s.versions, n.secretId, n.currentVersion)
        case None => false
        case Some(t) =>
          SecretCommitment(p, i, n, t) == n.commitment && DecryptRecord(p, i, SecretSlot(n), n.metadata).Some?);
    }
    if ok {
      ok := AllPass(s.versions, (v: SecretVersion<Envelope>) => DecryptRecord(p, i, VersionSlot(v), v.payload).Some?);
    }
  }

  method CheckIdentityRows(p: Primitives, i: Installation, s: Snapshot<Envelope>) returns (ok: bool)
    ensures ok <==> IdentityRowsVerify(p, i, s)
  {
    hide PrincipalCommitment, AuthenticatorCommitment, CredentialCommitment;
    ok := AllPass(s.principals, (r: Principal) => PrincipalCommitment(p, i, r) == r.commitment);
    if ok {
      ok := AllPass(s.authenticators, (a: Authenticator) => AuthenticatorCommitment(p, i, a) == Some(a.commitment));
    }
    if ok {
      ok := AllPass(s.credentials, (c: Credential) => CredentialCommitment(p, i, c) == c.commitment);
    }
  }

  method CheckGraph(p: Primitives, i: Installation, s: Snapshot<Envelope>) returns (ok: bool)
    ensures ok <==> GraphVerifiesOn(p, i, s)
  {
    hide GraphStore.StateVerifies, GraphOf, VaultOf;
    if s.policies == [] && s.grants == [] && s.bindings == [] && s.authorization.revision == 1
       && s.authorization.commitment == NO_DIGEST
    {
      return true;
    }
    var verified := GraphStore.VerifySnapshot(VaultOf(p, i.keys.audit), GraphOf(s), s.authorization.revision,
                                              s.authorization.commitment);
    return verified.Ok?;
  }

  /** The audit log, row by row in its own order. */
  method CheckAudit(mac: bytes -> Digest, rows: seq<AuditRecord>) returns (ok: bool)
    ensures ok <==> Chained(mac, rows)
  {
    hide Links;
    var head := AuditHead(0, NO_DIGEST);
    for i := 0 to |rows|
      invariant head == Head(rows[..i]) && Chained(mac, rows[..i])
    {
      var good := CheckLink(mac, head, rows[i]);
      ChainedAppend(mac, rows[..i], rows[i]);
      assert rows[..i + 1] == rows[..i] + [rows[i]];
      if !good {
        if Chained(mac, rows) {
          ChainedPrefix(mac, rows, i + 1);
        }
        return false;
      }
      head := AuditHead(rows[i].input.sequence, rows[i].commitment);
    }
    assert rows[..|rows|] == rows;
    return true;
  }

  /** `verify_restored_snapshot`. */
  method VerifyRestored(p: Primitives, i: Installation, s: Snapshot<Envelope>) returns (ok: bool)
    ensures ok <==> RelationsHold(ShapeOf(s)) && ChecksOut(p, i, s)
    ensures ok <==> RowsRelated(s) && ChecksOut(p, i, s)
  {
    RelationsAreRows(s);
    hide RelationsHold, RowsRelated, ShapeOf, SecretRowsVerify, IdentityRowsVerify, GraphVerifiesOn, Chained, AuditMac;
    ok := CheckRelations(ShapeOf(s));
    if ok {
      ok := CheckSecretRows(p, i, s);
    }
    if ok {
      ok := CheckIdentityRows(p, i, s);
    }
    if ok {
      ok := CheckGraph(p, i, s);
    }
    if ok {
      ok := CheckAudit(AuditMac(p, i.keys.audit), s.audit);
    }
  }
}
