/** The relationships a restore insists on, and what they say about the source. */
module RestoreRelations {
  import opened Bytes
  import opened Text
  import opened Forest
  import opened Access
  import opened GraphCommitment
  import opened Portable
  import opened Restore
  import opened RestoreTheorems
  import MoveTheorems

  // ----- Identities and references, without the data -----

  datatype NamespaceRef = NamespaceRef(namespaceId: NamespaceId, parent: Option<NamespaceId>, name: bytes, active: bool,
                                       revision: u64)
  datatype VersionRef = VersionRef(secretId: SecretId, version: u64)
  datatype PrincipalRef = PrincipalRef(principalId: PrincipalId, kind: PrincipalKind)

  datatype Shape = Shape(namespaces: seq<NamespaceRef>, secrets: seq<VersionRef>, versions: seq<VersionRef>,
                         tombstones: seq<Tombstone>, principals: seq<PrincipalRef>, authenticators: seq<PrincipalId>,
                         services: seq<PrincipalId>, credentials: seq<PrincipalId>, grants: seq<GrantRow>,
                         bindings: seq<BindingRow>)

  function ShapeOf<M>(s: Snapshot<M>): Shape {
    Shape(seq(|s.namespaces|, k requires 0 <= k < |s.namespaces| =>
                NamespaceRef(s.namespaces[k].namespaceId, s.namespaces[k].parent, s.namespaces[k].nameIndex,
                             s.namespaces[k].state == Active, s.namespaces[k].revision)),
          seq(|s.secrets|,
              k requires 0 <= k < |s.secrets| => VersionRef(s.secrets[k].secretId, s.secrets[k].currentVersion)),
          seq(|s.versions|,
              k requires 0 <= k < |s.versions| => VersionRef(s.versions[k].secretId, s.versions[k].version)),
          s.tombstones,
          seq(|s.principals|,
              k requires 0 <= k < |s.principals| => PrincipalRef(s.principals[k].principalId, s.principals[k].kind)),
          seq(|s.authenticators|, k requires 0 <= k < |s.authenticators| => s.authenticators[k].principalId),
          seq(|s.services|, k requires 0 <= k < |s.services| => s.services[k].principalId),
          seq(|s.credentials|, k requires 0 <= k < |s.credentials| => s.credentials[k].principalId),
          s.grants, s.bindings)
  }

  function StoreOf(ns: seq<NamespaceRef>): Store {
    if ns == [] then map[]
    else
      var last := ns[|ns| - 1];
      StoreOf(ns[..|ns| - 1])[last.namespaceId := Row(last.parent, last.name, last.active, last.revision)]
  }

  /** The bounded ancestor walk ends at a root and repeats nothing. */
  ghost predicate Rooted(s: Store, id: NamespaceId)
    requires id in s
  {
    var w := Walk(s, id, 32);
    && |w| <= 33 && (forall i, j :: 0 <= i < j < |w| ==> w[i] != w[j])
    && w[|w| - 1] in s && s[w[|w| - 1]].parent.None?
  }

  function NamespaceIds(h: Shape): seq<NamespaceId> {
    seq(|h.namespaces|, k requires 0 <= k < |h.namespaces| => h.namespaces[k].namespaceId)
  }

  function SecretIds(h: Shape): seq<SecretId> {
    seq(|h.secrets|, k requires 0 <= k < |h.secrets| => h.secrets[k].secretId)
  }

  function PrincipalIds(h: Shape): seq<PrincipalId> {
    seq(|h.principals|, k requires 0 <= k < |h.principals| => h.principals[k].principalId)
  }

  ghost predicate Distinct<T(!new)>(s: seq<T>) {
    forall i, j :: 0 <= i < j < |s| ==> s[i] != s[j]
  }

  ghost predicate HasKind(h: Shape, id: PrincipalId, kind: PrincipalKind) {
    PrincipalRef(id, kind) in h.principals
  }

  ghost predicate TargetExists(h: Shape, r: Resource) {
    match r
    case NamespaceResource(n) => n in NamespaceIds(h)
    case SecretResource(x) => x in SecretIds(h)
  }

  ghost predicate HierarchyHolds(h: Shape) {
    forall id :: id in NamespaceIds(h) ==> id in StoreOf(h.namespaces) && Rooted(StoreOf(h.namespaces), id)
  }

  /** A secret has exactly the versions 1 to its current one. */
  ghost predicate VersionsComplete(h: Shape, x: VersionRef) {
    forall n: u64 :: VersionRef(x.secretId, n) in h.versions <==> 1 <= n <= x.version
  }

  ghost predicate VersionsHold(h: Shape) {
    && (forall x :: x in h.secrets ==> VersionsComplete(h, x))
    && (forall v :: v in h.versions ==> v.secretId in SecretIds(h))
    && (forall t :: t in h.tombstones ==> t.secretId !in SecretIds(h))
  }

  ghost predicate ReferencesHold(h: Shape) {
    && (forall id :: id in h.authenticators ==> HasKind(h, id, Owner))
    && (forall id :: id in h.services ==> HasKind(h, id, Service))
    && (forall id :: id in h.credentials ==> HasKind(h, id, Service))
    && (forall g :: g in h.grants ==> TargetExists(h, g.target) && HasKind(h, g.createdBy, Owner))
    && (forall b :: b in h.bindings ==> HasKind(h, b.principalId, Service) && HasKind(h, b.createdBy, Owner))
  }

  /** `verify_restored_relationships`. */
  ghost predicate RelationsHold(h: Shape) {
    && Distinct(NamespaceIds(h)) && Distinct(SecretIds(h)) && Distinct(PrincipalIds(h))
    && HierarchyHolds(h) && VersionsHold(h) && ReferencesHold(h)
  }

  /** A restored snapshot has the source's identities and references, so it passes exactly when the source would. */
  lemma ShapePreserved(p: Primitives, a: Installation, s: Snapshot<Envelope>, b: Installation, t: Snapshot<Envelope>,
                       mode: CredentialRestoreMode, now: i64)
    requires SameMeaning(p, a, s, b, t, mode, now)
    ensures ShapeOf(t) == ShapeOf(s)
    ensures RelationsHold(ShapeOf(t)) <==> RelationsHold(ShapeOf(s))
  {
    hide DecryptRecord, RelationsHold;
    assert forall k :: 0 <= k < |s.namespaces| ==> SameNamespace(p, a, s.namespaces[k], b, t.namespaces[k]);
    assert forall k :: 0 <= k < |s.secrets| ==> SameSecret(p, a, s.secrets[k], b, t.secrets[k]);
    assert forall k :: 0 <= k < |s.versions| ==> SameVersion(p, a, s.versions[k], b, t.versions[k]);
    assert forall k :: 0 <= k < |s.services| ==> SameService(p, a, s.services[k], b, t.services[k]);
    assert forall k :: 0 <= k < |s.authenticators| ==> SameAuthenticator(s.authenticators[k], t.authenticators[k], now);
    assert forall k :: 0 <= k < |s.credentials| ==> SameCredential(s.credentials[k], t.credentials[k], mode, now);
  }

  /** In a forest, the hierarchy check passes exactly for namespaces of depth at most 33. */
  lemma RootedIff(s: Store, d: DepthMap, id: NamespaceId)
    requires Depths(s, d) && id in s
    ensures Rooted(s, id) <==> d[id] <= 33
  {
    WalkIsChain(s, d, id, 32);
    ChainDepths(s, d, id);
    var w, c := Walk(s, id, 32), Chain(s, d, id);
    var last := w[|w| - 1];
    assert last == c[|w| - 1];
    assert Forest.Fits(s, d, last);
    if d[id] <= 33 {
      assert d[last] == 1;
      RootHasNoParent(s, d, last);
    } else {
      assert d[last] == d[id] - 32 > 1;
    }
  }

  lemma RootHasNoParent(s: Store, d: DepthMap, id: NamespaceId)
    requires Depths(s, d) && id in s && d[id] == 1
    ensures s[id].parent.None?
  {
    assert Forest.Fits(s, d, id);
    if s[id].parent.Some? {
      var above := Chain(s, d, s[id].parent.value);
    }
  }

  lemma {:induction false} StoreHasIds(ns: seq<NamespaceRef>, id: NamespaceId)
    ensures id in StoreOf(ns) <==> exists k :: 0 <= k < |ns| && ns[k].namespaceId == id
    decreases |ns|
  {
    if ns != [] {
      var n := |ns| - 1;
      StoreHasIds(ns[..n], id);
      assert forall k :: 0 <= k < n ==> ns[..n][k] == ns[k];
    }
  }

  /** A backup's hierarchy is accepted exactly when no namespace of it is deeper than 33. */
  lemma HierarchyIff(h: Shape, d: DepthMap)
    requires Depths(StoreOf(h.namespaces), d)
    ensures HierarchyHolds(h) <==> forall id :: id in d ==> d[id] <= 33
  {
    hide Rooted, Depths;
    var s := StoreOf(h.namespaces);
    assert d.Keys == s.Keys by { DepthsCover(s, d); }
    forall id: NamespaceId
      ensures id in NamespaceIds(h) <==> id in s
      ensures id in s ==> (Rooted(s, id) <==> d[id] <= 33)
    {
      StoreHasIds(h.namespaces, id);
      if k :| 0 <= k < |h.namespaces| && h.namespaces[k].namespaceId == id {
        assert NamespaceIds(h)[k] == id;
      }
      if id in s {
        RootedIff(s, d, id);
      }
    }
  }

  /** A walk that ends at a root goes no further. */
  lemma {:induction false} EndedWalk(s: Store, id: NamespaceId, n: nat)
    requires id in s && Walk(s, id, n)[|Walk(s, id, n)| - 1] in s
    requires s[Walk(s, id, n)[|Walk(s, id, n)| - 1]].parent.None?
    ensures Walk(s, id, n + 1) == Walk(s, id, n)
    decreases n
  {
    if s[id].parent.Some? && n > 0 && s[id].parent.value in s {
      EndedWalk(s, s[id].parent.value, n - 1);
    }
  }

  lemma WalkFits(s: Store, id: NamespaceId)
    requires id in s && Rooted(s, id)
    ensures match s[id].parent
            case None => |Walk(s, id, 32)| == 1
            case Some(q) => q in s && |Walk(s, id, 32)| == |Walk(s, q, 32)| + 1
  {
    if s[id].parent.Some? {
      assert Walk(s, id, 32) == [id] + Walk(s, s[id].parent.value, 31);
      EndedWalk(s, s[id].parent.value, 31);
    }
  }

  /** If every walk is rooted, the walks' lengths are depths. */
  lemma WalksAreDepths(s: Store) returns (d: DepthMap)
    requires forall id :: id in s ==> Rooted(s, id)
    ensures Depths(s, d) && forall id :: id in d ==> d[id] <= 33
  {
    d := map id | id in s :: |Walk(s, id, 32)|;
    hide Walk, Rooted;
    forall id | id in s
      ensures Forest.Fits(s, d, id)
    {
      WalkFits(s, id);
    }
  }

  /** The hierarchy is accepted exactly when the parent links form a forest no deeper than 33. */
  lemma ForestIff(h: Shape)
    ensures HierarchyHolds(h) <==>
            exists d :: Depths(StoreOf(h.namespaces), d) && forall id :: id in d ==> d[id] <= 33
  {
    hide Rooted, Depths;
    var s := StoreOf(h.namespaces);
    if HierarchyHolds(h) {
      forall id | id in s
        ensures Rooted(s, id)
      {
        StoreHasIds(h.namespaces, id);
        var k :| 0 <= k < |h.namespaces| && h.namespaces[k].namespaceId == id;
        assert NamespaceIds(h)[k] == id;
      }
      var d := WalksAreDepths(s);
    }
    if d :| Depths(s, d) && forall id :: id in d ==> d[id] <= 33 {
      HierarchyIff(h, d);
    }
  }

  // ----- The relationships, row by row -----

  /** Depths that agree with the rows' parents, none over 33. */
  ghost predicate RowDepths<M>(ns: seq<Namespace<M>>, d: DepthMap) {
    forall k :: 0 <= k < |ns| ==>
      && ns[k].namespaceId in d && d[ns[k].namespaceId] <= 33
      && match ns[k].parent
         case None => d[ns[k].namespaceId] == 1
         case Some(q) => q in d && HasRow(ns, q) && d[ns[k].namespaceId] == d[q] + 1
  }

  ghost predicate HasRow<M>(ns: seq<Namespace<M>>, id: NamespaceId) {
    exists k :: 0 <= k < |ns| && ns[k].namespaceId == id
  }

  ghost predicate HasSecret<M>(s: Snapshot<M>, id: SecretId) {
    exists k :: 0 <= k < |s.secrets| && s.secrets[k].secretId == id
  }

  ghost predicate HasVersion<M>(s: Snapshot<M>, id: SecretId, n: u64) {
    exists k :: 0 <= k < |s.versions| && s.versions[k].secretId == id && s.versions[k].version == n
  }

  ghost predicate HasVersions<M>(s: Snapshot<M>, id: SecretId, current: u64) {
    forall n: u64 :: HasVersion(s, id, n) <==> 1 <= n <= current
  }

  ghost predicate HasPrincipal<M>(s: Snapshot<M>, id: PrincipalId, kind: PrincipalKind) {
    exists k :: 0 <= k < |s.principals| && s.principals[k].principalId == id && s.principals[k].kind == kind
  }

  ghost predicate DistinctRows<M>(s: Snapshot<M>) {
    && (forall i, j :: 0 <= i < j < |s.namespaces| ==> s.namespaces[i].namespaceId != s.namespaces[j].namespaceId)
    && (forall i, j :: 0 <= i < j < |s.secrets| ==> s.secrets[i].secretId != s.secrets[j].secretId)
    && (forall i, j :: 0 <= i < j < |s.principals| ==> s.principals[i].principalId != s.principals[j].principalId)
  }

  /** Every secret has exactly the versions 1 to its current one; no other version, and no tombstone of a secret. */
  ghost predicate VersionRows<M>(s: Snapshot<M>) {
    && (forall k :: 0 <= k < |s.secrets| ==> HasVersions(s, s.secrets[k].secretId, s.secrets[k].currentVersion))
    && (forall k :: 0 <= k < |s.versions| ==> HasSecret(s, s.versions[k].secretId))
    && (forall k :: 0 <= k < |s.tombstones| ==> !HasSecret(s, s.tombstones[k].secretId))
  }

  /** Authenticators are the owner's, identities and credentials a service's; grants and bindings name what exists. */
  ghost predicate ReferenceRows<M>(s: Snapshot<M>) {
    && (forall k :: 0 <= k < |s.authenticators| ==> HasPrincipal(s, s.authenticators[k].principalId, Owner))
    && (forall k :: 0 <= k < |s.services| ==> HasPrincipal(s, s.services[k].principalId, Service))
    && (forall k :: 0 <= k < |s.credentials| ==> HasPrincipal(s, s.credentials[k].principalId, Service))
    && (forall k :: 0 <= k < |s.grants| ==>
          && HasPrincipal(s, s.grants[k].createdBy, Owner)
          && match s.grants[k].target
             case NamespaceResource(n) => HasRow(s.namespaces, n)
             case SecretResource(x) => HasSecret(s, x))
    && (forall k :: 0 <= k < |s.bindings| ==>
          HasPrincipal(s, s.bindings[k].principalId, Service) && HasPrincipal(s, s.bindings[k].createdBy, Owner))
  }

  ghost predicate RowsRelated<M>(s: Snapshot<M>) {
    DistinctRows(s) && (exists d :: RowDepths(s.namespaces, d)) && VersionRows(s) && ReferenceRows(s)
  }

  /** The relationships of a snapshot's shape are those of its rows. */
  lemma RelationsAreRows<M>(s: Snapshot<M>)
    ensures RelationsHold(ShapeOf(s)) <==> RowsRelated(s)
  {
    DistinctIsRows(s);
    VersionsAreRows(s);
    ReferencesAreRows(s);
    hide ShapeOf, DistinctRows, VersionRows, ReferenceRows, VersionsHold, ReferencesHold, HierarchyHolds, RowDepths;
    hide Distinct;
    if DistinctRows(s) {
      HierarchyIsRows(s);
    }
  }

  lemma DistinctIsRows<M>(s: Snapshot<M>)
    ensures DistinctRows(s) <==>
            Distinct(NamespaceIds(ShapeOf(s))) && Distinct(SecretIds(ShapeOf(s))) && Distinct(PrincipalIds(ShapeOf(s)))
  {
    var h := ShapeOf(s);
    assert forall k :: 0 <= k < |s.namespaces| ==> NamespaceIds(h)[k] == s.namespaces[k].namespaceId;
    assert forall k :: 0 <= k < |s.secrets| ==> SecretIds(h)[k] == s.secrets[k].secretId;
    assert forall k :: 0 <= k < |s.principals| ==> PrincipalIds(h)[k] == s.principals[k].principalId;
  }

  /** What the shape lists is what the rows hold. */
  lemma ShapeHas<M>(s: Snapshot<M>)
    ensures forall id :: id in NamespaceIds(ShapeOf(s)) <==> HasRow(s.namespaces, id)
    ensures forall id :: id in SecretIds(ShapeOf(s)) <==> HasSecret(s, id)
    ensures forall id, n: u64 :: VersionRef(id, n) in ShapeOf(s).versions <==> HasVersion(s, id, n)
    ensures forall id, kind :: HasKind(ShapeOf(s), id, kind) <==> HasPrincipal(s, id, kind)
  {
    var h := ShapeOf(s);
    forall id
      ensures id in NamespaceIds(h) <==> HasRow(s.namespaces, id)
    {
      if k :| 0 <= k < |s.namespaces| && s.namespaces[k].namespaceId == id {
        assert NamespaceIds(h)[k] == id;
      }
    }
    forall id
      ensures id in SecretIds(h) <==> HasSecret(s, id)
    {
      if k :| 0 <= k < |s.secrets| && s.secrets[k].secretId == id {
        assert SecretIds(h)[k] == id;
      }
    }
    forall id, n: u64
      ensures VersionRef(id, n) in h.versions <==> HasVersion(s, id, n)
    {
      if k :| 0 <= k < |s.versions| && s.versions[k].secretId == id && s.versions[k].version == n {
        assert h.versions[k] == VersionRef(id, n);
      }
    }
    forall id, kind
      ensures HasKind(h, id, kind) <==> HasPrincipal(s, id, kind)
    {
      if k :| 0 <= k < |s.principals| && s.principals[k].principalId == id && s.principals[k].kind == kind {
        assert h.principals[k] == PrincipalRef(id, kind);
      }
    }
  }

  lemma VersionsAreRows<M>(s: Snapshot<M>)
    ensures VersionsHold(ShapeOf(s)) <==> VersionRows(s)
  {
    var h := ShapeOf(s);
    ShapeHas(s);
    assert |h.secrets| == |s.secrets| && |h.versions| == |s.versions| && h.tombstones == s.tombstones;
    assert forall k :: 0 <= k < |s.secrets| ==>
             h.secrets[k] == VersionRef(s.secrets[k].secretId, s.secrets[k].currentVersion);
    assert forall k :: 0 <= k < |s.versions| ==>
             h.versions[k] == VersionRef(s.versions[k].secretId, s.versions[k].version);
    hide ShapeOf, SecretIds, HasSecret, HasVersion;
    forall x: VersionRef
      ensures VersionsComplete(h, x) <==> HasVersions(s, x.secretId, x.version)
    {
    }
    hide VersionsComplete, HasVersions;
    assert forall k :: 0 <= k < |s.secrets| ==> h.secrets[k] in h.secrets;
    assert forall k :: 0 <= k < |s.versions| ==> h.versions[k] in h.versions;
    assert forall k :: 0 <= k < |s.tombstones| ==> s.tombstones[k] in h.tombstones;
  }

  lemma ReferencesAreRows<M>(s: Snapshot<M>)
    ensures ReferencesHold(ShapeOf(s)) <==> ReferenceRows(s)
  {
    var h := ShapeOf(s);
    ShapeHas(s);
    assert h.grants == s.grants && h.bindings == s.bindings;
    assert |h.authenticators| == |s.authenticators| && |h.services| == |s.services|;
    assert |h.credentials| == |s.credentials|;
    assert forall k :: 0 <= k < |s.authenticators| ==> h.authenticators[k] == s.authenticators[k].principalId;
    assert forall k :: 0 <= k < |s.services| ==> h.services[k] == s.services[k].principalId;
    assert forall k :: 0 <= k < |s.credentials| ==> h.credentials[k] == s.credentials[k].principalId;
    hide ShapeOf, SecretIds, NamespaceIds, HasSecret, HasRow, HasPrincipal, HasKind;
    assert forall k :: 0 <= k < |s.authenticators| ==> h.authenticators[k] in h.authenticators;
    assert forall k :: 0 <= k < |s.services| ==> h.services[k] in h.services;
    assert forall k :: 0 <= k < |s.credentials| ==> h.credentials[k] in h.credentials;
    assert forall k :: 0 <= k < |s.grants| ==> s.grants[k] in h.grants;
    assert forall k :: 0 <= k < |s.bindings| ==> s.bindings[k] in h.bindings;
  }

  lemma {:induction false} StoreHasRows(ns: seq<NamespaceRef>, k: nat)
    requires k < |ns| && forall i, j :: 0 <= i < j < |ns| ==> ns[i].namespaceId != ns[j].namespaceId
    ensures ns[k].namespaceId in StoreOf(ns)
    ensures StoreOf(ns)[ns[k].namespaceId] == Row(ns[k].parent, ns[k].name, ns[k].active, ns[k].revision)
    decreases |ns|
  {
    var n := |ns| - 1;
    if k < n {
      StoreHasRows(ns[..n], k);
    }
  }

  /** The forest of the shape is the forest of the rows. */
  lemma HierarchyIsRows<M>(s: Snapshot<M>)
    requires DistinctRows(s)
    ensures HierarchyHolds(ShapeOf(s)) <==> exists d :: RowDepths(s.namespaces, d)
  {
    var h := ShapeOf(s);
    hide ShapeOf, HierarchyHolds, StoreOf, DistinctRows, StoresParents, RowDepths, Depths;
    ForestIff(h);
    ShapeStores(s);
    if d :| Depths(StoreOf(h.namespaces), d) && forall id :: id in d ==> d[id] <= 33 {
      DepthsAreRows(s.namespaces, StoreOf(h.namespaces), d);
    }
    if d :| RowDepths(s.namespaces, d) {
      var e := RowsAreDepths(s.namespaces, StoreOf(h.namespaces), d);
    }
  }

  lemma ShapeStores<M>(s: Snapshot<M>)
    requires DistinctRows(s)
    ensures StoresParents(s.namespaces, StoreOf(ShapeOf(s).namespaces))
  {
    var ns := ShapeOf(s).namespaces;
    assert |ns| == |s.namespaces| && forall k :: 0 <= k < |ns| ==>
             ns[k].namespaceId == s.namespaces[k].namespaceId && ns[k].parent == s.namespaces[k].parent;
    assert forall i, j :: 0 <= i < j < |ns| ==> ns[i].namespaceId != ns[j].namespaceId;
    hide ShapeOf, StoreOf, DistinctRows;
    forall id
      ensures id in StoreOf(ns) <==> HasRow(s.namespaces, id)
    {
      StoreHasIds(ns, id);
    }
    forall k | 0 <= k < |s.namespaces|
      ensures s.namespaces[k].namespaceId in StoreOf(ns)
      ensures StoreOf(ns)[s.namespaces[k].namespaceId].parent == s.namespaces[k].parent
    {
      StoreHasRows(ns, k);
    }
  }

  /** The store holds exactly these rows' parents. */
  ghost predicate StoresParents<M>(ns: seq<Namespace<M>>, store: Store) {
    && (forall id :: id in store <==> HasRow(ns, id))
    && (forall k :: 0 <= k < |ns| ==> ns[k].namespaceId in store && store[ns[k].namespaceId].parent == ns[k].parent)
  }

  lemma DepthsAreRows<M>(ns: seq<Namespace<M>>, store: Store, d: DepthMap)
    requires StoresParents(ns, store) && Depths(store, d) && forall id :: id in d ==> d[id] <= 33
    ensures RowDepths(ns, d)
  {
    hide HasRow;
    forall k | 0 <= k < |ns|
      ensures Forest.Fits(store, d, ns[k].namespaceId)
    {
    }
  }

  lemma RowsAreDepths<M>(ns: seq<Namespace<M>>, store: Store, d: DepthMap) returns (e: DepthMap)
    requires StoresParents(ns, store) && RowDepths(ns, d)
    ensures Depths(store, e) && forall id :: id in e ==> e[id] <= 33
  {
    assert forall id :: id in store ==> HasRow(ns, id) && id in d;
    e := map id | id in store :: d[id];
    forall id | id in store
      ensures Forest.Fits(store, e, id) && e[id] <= 33
    {
      var k :| 0 <= k < |ns| && ns[k].namespaceId == id;
    }
  }

  lemma DepthsCover(s: Store, d: DepthMap)
    requires Depths(s, d)
    ensures d.Keys == s.Keys
  {
  }

  /** Any table can be listed row by row. */
  lemma Listed(s: Store) returns (ns: seq<NamespaceRef>)
    ensures StoreOf(ns) == s
    decreases |s|
  {
    if s == map[] {
      ns := [];
    } else {
      var id :| id in s;
      var rest := s - {id};
      assert s.Keys == rest.Keys + {id} && |s| == |s.Keys| && |rest| == |rest.Keys|;
      var before := Listed(rest);
      ns := before + [NamespaceRef(id, s[id].parent, s[id].name, s[id].active, s[id].revision)];
      assert ns[..|ns| - 1] == before;
      assert StoreOf(ns) == rest[id := s[id]];
    }
  }

  /** Creates and one move make a vault whose backup is refused for its depth. */
  lemma DeepSourceIsRefused() returns (ops: seq<Op>, h: Shape)
    ensures StoreOf(h.namespaces) == Forest.Run(map[], ops) && !HierarchyHolds(h) && !RelationsHold(h)
  {
    var d: DepthMap, id: NamespaceId;
    ops, d, id := MoveTheorems.DeepNamespaceIsReachable();
    var ns := Listed(Forest.Run(map[], ops));
    h := Shape(ns, [], [], [], [], [], [], [], [], []);
    HierarchyIff(h, d);
    assert d[id] > 33;
  }

  // ----- Revoking a passkey lengthens its committed text -----

  function TotalLength(fields: seq<bytes>): nat {
    if fields == [] then 0 else |fields[0]| + TotalLength(fields[1..])
  }

  lemma {:induction false} JoinLength(fields: seq<bytes>)
    requires fields != []
    ensures |Join(fields)| == TotalLength(fields) + |fields| - 1
    decreases |fields|
  {
    if |fields| > 1 {
      JoinLength(fields[1..]);
    }
  }

  lemma {:induction false} LengthOfChanged(fields: seq<bytes>, i: nat, f: bytes)
    requires i < |fields|
    ensures TotalLength(fields[i := f]) == TotalLength(fields) - |fields[i]| + |f|
    decreases |fields|
  {
    if i > 0 {
      LengthOfChanged(fields[1..], i - 1, f);
      assert fields[i := f][1..] == fields[1..][i - 1 := f];
    } else {
      assert fields[i := f][1..] == fields[1..];
    }
  }

  /** So an active passkey survives a restore exactly when its text leaves room for the revocation mark. */
  lemma PasskeyRestorableIff(p: Primitives, a: Authenticator, now: i64)
    requires a.kind == Passkey && a.state == Ascii("active") && a.revokedAt.None?
    ensures AuthenticatorRestorable(p, a, now) <==> |AuthenticatorText(a)| + 3 + |Decimal(now)| <= MAX_STATE_BYTES
  {
    StateNames();
    hide Join, UuidText, Hex, Decimal;
    var f, r := AuthenticatorFields(a), RevokedPasskey(a, now);
    var g := f[7 := r.state];
    assert AuthenticatorFields(r) == g[10 := TimestampText(r.revokedAt)];
    LengthOfChanged(f, 7, r.state);
    LengthOfChanged(g, 10, TimestampText(r.revokedAt));
    JoinLength(f);
    JoinLength(AuthenticatorFields(r));
    assert AuthenticatorText(a) == Join(f) && AuthenticatorText(r) == Join(AuthenticatorFields(r));
    assert |f[7]| == 6 && |g[10]| == 4;
    assert |TimestampText(r.revokedAt)| == 6 + |Decimal(now)|;
  }

  lemma TotalStep(fields: seq<bytes>, i: nat)
    requires i < |fields|
    ensures TotalLength(fields[i..]) == |fields[i]| + TotalLength(fields[i + 1..])
  {
    assert fields[i..][0] == fields[i] && fields[i..][1..] == fields[i + 1..];
  }

  /** An active passkey of 1988 data bytes. */
  ghost function LongPasskey(): Authenticator {
    Authenticator(ZERO_ID, PrincipalId(ZERO_ID), Passkey, Some([0]), Some(seq(1988, _ => 0)), None, ACTIVE, 0, None,
                  None, NO_DIGEST)
  }

  lemma LongPasskeyFields()
    ensures var f := AuthenticatorFields(LongPasskey());
            && |f[0]| == 13 && |f[1]| == 36 && |f[2]| == 36 && |f[3]| == 7 && |f[4]| == 2 && |f[5]| == 3976
            && |f[6]| == 0 && |f[7]| == 6 && |f[8]| == 1 && |f[9]| == 4 && |f[10]| == 4
  {
    hide UuidText, Hex, Ascii;
  }

  lemma LongPasskeyText()
    ensures |AuthenticatorText(LongPasskey())| == 4095
  {
    hide Join, UuidText, Hex, Ascii, Decimal, OptionalHex, TimestampText, AuthenticatorName;
    var f := AuthenticatorFields(LongPasskey());
    LongPasskeyFields();
    JoinLength(f);
    TotalOfEleven(f);
  }

  lemma TotalOfEleven(f: seq<bytes>)
    requires |f| == 11
    ensures TotalLength(f)
            == |f[0]| + |f[1]| + |f[2]| + |f[3]| + |f[4]| + |f[5]| + |f[6]| + |f[7]| + |f[8]| + |f[9]| + |f[10]|
  {
    hide TotalLength;
    TotalStep(f, 0);
    TotalStep(f, 1);
    TotalStep(f, 2);
    TotalStep(f, 3);
    TotalStep(f, 4);
    TotalStep(f, 5);
    TotalStep(f, 6);
    TotalStep(f, 7);
    TotalStep(f, 8);
    TotalStep(f, 9);
    TotalStep(f, 10);
    assert f[0..] == f && f[11..] == [];
    TotalOfNone();
  }

  lemma TotalOfNone()
    ensures TotalLength([]) == 0
  {
  }

  /** A passkey whose text fits, yet cannot be restored at any time. */
  lemma UnrestorablePasskey(p: Primitives, now: i64)
    ensures LongPasskey().kind == Passkey && LongPasskey().state == Ascii("active")
    ensures |AuthenticatorText(LongPasskey())| <= MAX_STATE_BYTES
    ensures !AuthenticatorRestorable(p, LongPasskey(), now)
  {
    StateNames();
    hide AuthenticatorText;
    LongPasskeyText();
    PasskeyRestorableIff(p, LongPasskey(), now);
  }
}
