/** The authorization store: its verified snapshot and the four mutators, each of which predicts the next commitment. */
module GraphStore {
  import opened Bytes
  import opened Text
  import opened Sorting
  import opened Forest
  import opened Access
  import opened GraphCommitment
  import Gate

  datatype GraphError = Denied | RecentAuthenticationRequired | InvalidInput | Integrity | Unavailable | Conflict

  const MAX_POLICY_LABEL_BYTES: nat := 128

  predicate PolicyVerifies(v: Vault, p: PolicyRow) {
    PolicyCommitment(v, p) == p.commitment
  }

  predicate GrantVerifies(v: Vault, g: GrantRow) {
    ValidForService(v, g) && GrantCommitment(v, g) == g.commitment
  }

  predicate BindingVerifies(v: Vault, b: BindingRow) {
    BindingCommitment(v, b) == b.commitment
  }

  predicate RowsVerify(v: Vault, rows: Rows) {
    && (forall i :: 0 <= i < |rows.policies| ==> PolicyVerifies(v, rows.policies[i]))
    && (forall i :: 0 <= i < |rows.grants| ==> GrantVerifies(v, rows.grants[i]))
    && (forall i :: 0 <= i < |rows.bindings| ==> BindingVerifies(v, rows.bindings[i]))
  }

  /** Every row's commitment, and the graph's, are the ones recomputed from the rows. */
  predicate StateVerifies(v: Vault, rows: Rows, revision: u64, commitment: Digest) {
    RowsVerify(v, rows) && CommitmentOf(v, Items(rows), revision) == commitment
  }

  ghost function Count(rows: Rows): nat {
    |rows.policies| + |rows.grants| + |rows.bindings|
  }

  /** The primary keys and the uniqueness constraint of the schema. */
  ghost predicate UniqueKeys(rows: Rows) {
    && (forall i, j :: 0 <= i < j < |rows.policies| ==> rows.policies[i].policyId != rows.policies[j].policyId)
    && (forall i, j :: 0 <= i < j < |rows.grants| ==>
          rows.grants[i].grantId != rows.grants[j].grantId && !SameRule(rows.grants[i], rows.grants[j]))
    && (forall i, j :: 0 <= i < j < |rows.bindings| ==> !SameBinding(rows.bindings[i], rows.bindings[j]))
  }

  predicate SameRule(a: GrantRow, b: GrantRow) {
    a.policyId == b.policyId && a.action == b.action && a.target == b.target
    && a.includeDescendants == b.includeDescendants
  }

  predicate SameBinding(a: BindingRow, b: BindingRow) {
    a.principalId == b.principalId && a.policyId == b.policyId
  }

  /** `verified_authorization_snapshot`. */
  method VerifySnapshot(v: Vault, rows: Rows, revision: u64, commitment: Digest) returns (r: Result<(), GraphError>)
    ensures r.Ok? <==> Count(rows) <= 10_000 && StateVerifies(v, rows, revision, commitment)
    ensures r.Err? ==> r.error == if Count(rows) > 10_000 then GraphError.Unavailable else Integrity
  {
    hide PolicyCommitment, GrantCommitment, BindingCommitment, CommitmentOf, Items, ListedItems;
    if |rows.policies| + |rows.grants| + |rows.bindings| > MAX_AUTHORIZATION_RECORDS {
      return Err(GraphError.Unavailable);
    }
    for i := 0 to |rows.policies|
      invariant forall j :: 0 <= j < i ==> PolicyVerifies(v, rows.policies[j])
    {
      if PolicyCommitment(v, rows.policies[i]) != rows.policies[i].commitment {
        assert !PolicyVerifies(v, rows.policies[i]);
        return Err(Integrity);
      }
    }
    for i := 0 to |rows.grants|
      invariant forall j :: 0 <= j < i ==> GrantVerifies(v, rows.grants[j])
    {
      if !ValidForService(v, rows.grants[i]) || GrantCommitment(v, rows.grants[i]) != rows.grants[i].commitment {
        assert !GrantVerifies(v, rows.grants[i]);
        return Err(Integrity);
      }
    }
    for i := 0 to |rows.bindings|
      invariant forall j :: 0 <= j < i ==> BindingVerifies(v, rows.bindings[j])
    {
      if BindingCommitment(v, rows.bindings[i]) != rows.bindings[i].commitment {
        assert !BindingVerifies(v, rows.bindings[i]);
        return Err(Integrity);
      }
    }
    var recomputed := ComputeGraphCommitment(v, rows, revision, None, None);
    NothingExcluded(rows);
    return if recomputed == commitment then Ok(()) else Err(Integrity);
  }

  lemma NothingExcluded(rows: Rows)
    ensures ListedItems(rows, None, None) == Items(rows)
    ensures forall x :: ListedItems(rows, None, Some(x)) == Items(rows) + [x]
  {
    WithoutNone(Items(rows));
  }

  // ----- Predicted items are the resulting rows' items -----

  lemma Swapped(v: Vault, a: seq<Item>, x: Item, b: seq<Item>, revision: u64)
    ensures CommitmentOf(v, a + b + [x], revision) == CommitmentOf(v, a + [x] + b, revision)
  {
    hide CommitmentOf;
    AnyItemOrder(v, a + b + [x], a + [x] + b, revision);
  }

  lemma PolicyAdded(v: Vault, rows: Rows, p: PolicyRow, revision: u64)
    ensures CommitmentOf(v, ListedItems(rows, None, Some(PolicyItem(p))), revision)
         == CommitmentOf(v, Items(rows.(policies := rows.policies + [p])), revision)
  {
    hide CommitmentOf;
    NothingExcluded(rows);
    var ps, rest := Map(PolicyItem, rows.policies), Map(GrantItem, rows.grants) + Map(BindingItem, rows.bindings);
    assert Map(PolicyItem, rows.policies + [p]) == ps + [PolicyItem(p)];
    assert Items(rows) == ps + rest;
    assert Items(rows.(policies := rows.policies + [p])) == ps + [PolicyItem(p)] + rest;
    Swapped(v, ps, PolicyItem(p), rest, revision);
  }

  lemma GrantAdded(v: Vault, rows: Rows, g: GrantRow, revision: u64)
    ensures CommitmentOf(v, ListedItems(rows, None, Some(GrantItem(g))), revision)
         == CommitmentOf(v, Items(rows.(grants := rows.grants + [g])), revision)
  {
    hide CommitmentOf;
    NothingExcluded(rows);
    var ps, gs, bs := Map(PolicyItem, rows.policies), Map(GrantItem, rows.grants), Map(BindingItem, rows.bindings);
    assert Map(GrantItem, rows.grants + [g]) == gs + [GrantItem(g)];
    assert Items(rows.(grants := rows.grants + [g])) == ps + gs + [GrantItem(g)] + bs;
    Swapped(v, ps + gs, GrantItem(g), bs, revision);
  }

  lemma BindingAdded(v: Vault, rows: Rows, b: BindingRow, revision: u64)
    ensures CommitmentOf(v, ListedItems(rows, None, Some(BindingItem(b))), revision)
         == CommitmentOf(v, Items(rows.(bindings := rows.bindings + [b])), revision)
  {
    hide CommitmentOf;
    NothingExcluded(rows);
    assert Map(BindingItem, rows.bindings + [b]) == Map(BindingItem, rows.bindings) + [BindingItem(b)];
    assert Items(rows.(bindings := rows.bindings + [b])) == Items(rows) + [BindingItem(b)];
  }

  lemma {:induction false} WithoutAbsent(exclude: Exclusion, items: seq<Item>)
    requires forall i :: 0 <= i < |items| ==> !Excluded(exclude, items[i])
    ensures Without(exclude, items) == items
  {
    if items != [] {
      WithoutAbsent(exclude, items[1..]);
      assert items == [items[0]] + items[1..];
    }
  }

  /** Neither the other policies nor any grant or binding has the excluded key. */
  lemma OthersKept(rows: Rows, i: nat, exclude: Exclusion)
    requires UniqueKeys(rows) && i < |rows.policies| && exclude == Some((80, rows.policies[i].policyId.uuid))
    ensures Without(exclude, Map(PolicyItem, rows.policies[..i])) == Map(PolicyItem, rows.policies[..i])
    ensures Without(exclude, Map(PolicyItem, rows.policies[i + 1..])) == Map(PolicyItem, rows.policies[i + 1..])
    ensures Without(exclude, Map(GrantItem, rows.grants)) == Map(GrantItem, rows.grants)
    ensures Without(exclude, Map(BindingItem, rows.bindings)) == Map(BindingItem, rows.bindings)
  {
    hide Without;
    forall p | p in rows.policies[..i] || p in rows.policies[i + 1..]
      ensures p.policyId != rows.policies[i].policyId
    {
    }
    WithoutAbsent(exclude, Map(PolicyItem, rows.policies[..i]));
    WithoutAbsent(exclude, Map(PolicyItem, rows.policies[i + 1..]));
    WithoutAbsent(exclude, Map(GrantItem, rows.grants));
    WithoutAbsent(exclude, Map(BindingItem, rows.bindings));
  }

  /** Excluding one policy's key drops exactly that policy's item. */
  lemma PolicyDropped(rows: Rows, i: nat, exclude: Exclusion)
    requires UniqueKeys(rows) && i < |rows.policies| && exclude == Some((80, rows.policies[i].policyId.uuid))
    ensures Without(exclude, Items(rows))
            == Map(PolicyItem, rows.policies[..i]) + Map(PolicyItem, rows.policies[i + 1..])
               + Map(GrantItem, rows.grants) + Map(BindingItem, rows.bindings)
  {
    hide Without, Map, UniqueKeys;
    var a, x, b := Map(PolicyItem, rows.policies[..i]), PolicyItem(rows.policies[i]),
                   Map(PolicyItem, rows.policies[i + 1..]);
    var g, c := Map(GrantItem, rows.grants), Map(BindingItem, rows.bindings);
    MapPieces(PolicyItem, rows.policies, i);
    assert Items(rows) == a + [x] + b + g + c;
    WithoutSplit(exclude, a + [x] + b + g, c);
    WithoutSplit(exclude, a + [x] + b, g);
    WithoutSplit(exclude, a + [x], b);
    WithoutSplit(exclude, a, [x]);
    WithoutOne(exclude, x);
    OthersKept(rows, i, exclude);
    assert a + [] == a;
  }

  lemma WithoutOne(exclude: Exclusion, x: Item)
    ensures Without(exclude, [x]) == if Excluded(exclude, x) then [] else [x]
  {
  }

  lemma PolicyReplaced(v: Vault, rows: Rows, i: nat, p: PolicyRow, revision: u64)
    requires UniqueKeys(rows) && i < |rows.policies| && p.policyId == rows.policies[i].policyId
    ensures CommitmentOf(v, ListedItems(rows, Some((80, p.policyId.uuid)), Some(PolicyItem(p))), revision)
         == CommitmentOf(v, Items(rows.(policies := rows.policies[i := p])), revision)
  {
    hide CommitmentOf, Without, Map, UniqueKeys;
    PolicyDropped(rows, i, Some((80, p.policyId.uuid)));
    var next := rows.policies[i := p];
    MapPieces(PolicyItem, next, i);
    assert next[..i] == rows.policies[..i] && next[i + 1..] == rows.policies[i + 1..] && next[i] == p;
    var a, b := Map(PolicyItem, rows.policies[..i]), Map(PolicyItem, rows.policies[i + 1..]);
    var rest := b + Map(GrantItem, rows.grants) + Map(BindingItem, rows.bindings);
    assert ListedItems(rows, Some((80, p.policyId.uuid)), Some(PolicyItem(p))) == a + rest + [PolicyItem(p)];
    assert Items(rows.(policies := next)) == a + [PolicyItem(p)] + rest;
    Swapped(v, a, PolicyItem(p), rest, revision);
  }

  // ----- Sealed rows verify -----

  function SealPolicy(v: Vault, p: PolicyRow): (r: PolicyRow)
    ensures PolicyVerifies(v, r) && r == p.(commitment := r.commitment)
  {
    assert forall c: Digest {:trigger p.(commitment := c)} ::
        PolicyFields(v, p.(commitment := c)) == PolicyFields(v, p);
    p.(commitment := PolicyCommitment(v, p))
  }

  function SealGrant(v: Vault, g: GrantRow): (r: GrantRow)
    ensures GrantCommitment(v, r) == r.commitment && r == g.(commitment := r.commitment)
  {
    assert forall c: Digest {:trigger g.(commitment := c)} :: GrantFields(g.(commitment := c)) == GrantFields(g);
    g.(commitment := GrantCommitment(v, g))
  }

  function SealBinding(v: Vault, b: BindingRow): (r: BindingRow)
    ensures BindingVerifies(v, r) && r == b.(commitment := r.commitment)
  {
    assert forall c: Digest {:trigger b.(commitment := c)} :: BindingFields(b.(commitment := c)) == BindingFields(b);
    b.(commitment := BindingCommitment(v, b))
  }

  // ----- What the mutators ask before they touch the store -----

  /** The owner's session is active and the owner authenticated recently: what every mutator checks first. */
  ghost predicate OwnerMay(sessions: Gate.SessionTable, owner: Gate.OwnerContext, now: i64) {
    Gate.OwnerActive(sessions, owner, now) && now <= owner.recentUntil
  }

  function OwnerRefusal(sessions: Gate.SessionTable, owner: Gate.OwnerContext, now: i64): (r: Option<GraphError>)
    ensures r.None? <==> OwnerMay(sessions, owner, now)
  {
    if !Gate.OwnerActive(sessions, owner, now) then Some(GraphError.Denied)
    else if !Gate.IsRecent(owner, now) then Some(GraphError.RecentAuthenticationRequired)
    else None
  }

  /** `SMCVPL01`, the length, the text: the plaintext of a policy's metadata. */
  function LabelBytes(text: bytes): bytes
    requires |text| < 0x1_0000
  {
    Ascii("SMCVPL01") + U16(|text|) + text
  }

  /** `decode_policy_label`, short of the check that the text is UTF-8. */
  function DecodeLabel(plaintext: bytes): Option<bytes> {
    if |plaintext| < 10 || plaintext[..8] != Ascii("SMCVPL01") then None
    else
      var length := ReadU16(plaintext[8..10]);
      if length == 0 || length > MAX_POLICY_LABEL_BYTES || |plaintext| != 10 + length then None
      else Some(plaintext[10..])
  }

  /** A stored label reads back exactly if it has 1 to 128 bytes, and every label read was stored so. */
  lemma LabelReadsBack(text: bytes, plaintext: bytes)
    ensures |text| < 0x1_0000 ==>
            DecodeLabel(LabelBytes(text)) == if 1 <= |text| <= 128 then Some(text) else None
    ensures DecodeLabel(plaintext) == Some(text) ==> 1 <= |text| <= 128 && plaintext == LabelBytes(text)
  {
    if |text| < 0x1_0000 {
      var whole := LabelBytes(text);
      assert whole[..8] == Ascii("SMCVPL01") && whole[8..10] == U16(|text|) && whole[10..] == text;
      ReadU16Of(|text|);
    }
    if DecodeLabel(plaintext) == Some(text) {
      assert plaintext == plaintext[..8] + plaintext[8..10] + plaintext[10..];
    }
  }

  /** The rule an owner asks for. */
  datatype GrantSpec = GrantSpec(policyId: PolicyId, action: Action, target: Resource, includeDescendants: bool)

  /** The namespace or secret exists, in whatever state. */
  ghost predicate TargetKnown(namespaces: Store, secrets: Secrets, target: Resource) {
    match target
    case NamespaceResource(n) => n in namespaces
    case SecretResource(s) => s in secrets
  }

  datatype PrincipalState = PrincipalState(isService: bool, active: bool)

  /** The commitment that first-owner setup gives the empty graph. */
  function EmptyCommitment(v: Vault): Digest {
    v.mac(Join(GraphFields(1, Ascii("empty"))))
  }

  lemma EmptyGraphVerifies(v: Vault)
    ensures StateVerifies(v, Rows([], [], []), 1, EmptyCommitment(v))
  {
    hide Join, Hex, Sort, Serialize, Ascii, GraphFields;
    assert Items(Rows([], [], [])) == [];
  }

  // ----- The store -----

  class AuthorizationStore {
    var rows: Rows
    var revision: u64
    var commitment: Digest

    ghost predicate Valid()
      reads this
    {
      UniqueKeys(rows)
    }

    /** What a read recomputes agrees with what is stored. */
    ghost predicate Verifies(v: Vault)
      reads this
    {
      StateVerifies(v, rows, revision, commitment)
    }

    /** A store that a mutator may change: it verifies, is within the record limit, and its revision can advance. */
    ghost predicate Open(v: Vault)
      reads this
    {
      Verifies(v) && Count(rows) <= MAX_AUTHORIZATION_RECORDS && revision < I64_MAX
    }

    /** The empty graph as first-owner setup commits it. */
    constructor (v: Vault)
      ensures Valid() && Verifies(v) && rows == Rows([], [], []) && revision == 1
    {
      rows, revision := Rows([], [], []), 1;
      commitment := EmptyCommitment(v);
      new;
      hide EmptyCommitment, StateVerifies;
      EmptyGraphVerifies(v);
    }

    method CreatePolicy(v: Vault, sessions: Gate.SessionTable, owner: Gate.OwnerContext, text: bytes,
                        policyId: PolicyId, encrypt: bytes -> Envelope, now: i64)
      returns (r: Result<PolicyId, GraphError>)
      requires Valid()
      modifies this
      ensures Valid()
      ensures r.Ok? <==> && OwnerMay(sessions, owner, now) && 1 <= |text| <= 128 && old(Open(v))
                         && forall i :: 0 <= i < |old(rows.policies)| ==> old(rows.policies)[i].policyId != policyId
      ensures r.Ok? ==> Verifies(v) && revision == old(revision) + 1
      ensures r.Ok? ==> IsNewPolicy(old(rows), rows, policyId, encrypt(LabelBytes(text)), now)
                        && DecodeLabel(LabelBytes(text)) == Some(text)
      ensures r.Err? ==> unchanged(this)
    {
      hide CommitmentOf, PolicyCommitment, GrantCommitment, BindingCommitment, Items, ListedItems, SealPolicy;
      hide SealGrant, SealBinding, OwnerMay;
      var refusal := OwnerRefusal(sessions, owner, now);
      if refusal.Some? {
        return Err(refusal.value);
      }
      if |text| == 0 || |text| > MAX_POLICY_LABEL_BYTES {
        return Err(GraphError.InvalidInput);
      }
      var checked := VerifySnapshot(v, rows, revision, commitment);
      if checked.Err? {
        return Err(checked.error);
      }
      if revision >= I64_MAX {
        return Err(GraphError.Conflict);
      }
      var row := SealPolicy(v, PolicyRow(policyId, 1, true, 1, encrypt(LabelBytes(text)), now, now, NO_DIGEST));
      var next := revision + 1;
      var predicted := ComputeGraphCommitment(v, rows, next, None, Some(PolicyItem(row)));
      if exists i :: 0 <= i < |rows.policies| && rows.policies[i].policyId == policyId {
        return Err(GraphError.Conflict);
      }
      LabelReadsBack(text, LabelBytes(text));
      PolicyAdded(v, rows, row, next);
      rows := rows.(policies := rows.policies + [row]);
      revision, commitment := next, predicted;
      return Ok(policyId);
    }

    method ArchivePolicy(v: Vault, sessions: Gate.SessionTable, owner: Gate.OwnerContext, policyId: PolicyId,
                         expected: u64, now: i64)
      returns (r: Result<u64, GraphError>)
      requires Valid()
      modifies this
      ensures Valid()
      ensures r.Ok? <==> && OwnerMay(sessions, owner, now) && old(Open(v)) && expected < I64_MAX
                         && exists i :: Archivable(old(rows), i, policyId, expected)
      ensures r.Ok? ==> r.value == expected + 1 && Verifies(v) && revision == old(revision) + 1
      ensures r.Ok? ==> exists i :: Archivable(old(rows), i, policyId, expected) && IsArchived(old(rows), rows, i, now)
      ensures r.Err? ==> unchanged(this)
    {
      hide CommitmentOf, PolicyCommitment, GrantCommitment, BindingCommitment, Items, ListedItems, SealPolicy;
      hide SealGrant, SealBinding, OwnerMay;
      var refusal := OwnerRefusal(sessions, owner, now);
      if refusal.Some? {
        return Err(refusal.value);
      }
      var checked := VerifySnapshot(v, rows, revision, commitment);
      if checked.Err? {
        return Err(checked.error);
      }
      var i := 0;
      while i < |rows.policies| && rows.policies[i].policyId != policyId
        invariant 0 <= i <= |rows.policies|
        invariant forall j :: 0 <= j < i ==> rows.policies[j].policyId != policyId
      {
        i := i + 1;
      }
      if i == |rows.policies| || rows.policies[i].revision != expected || !rows.policies[i].active {
        return Err(GraphError.Denied);
      }
      assert Archivable(rows, i, policyId, expected);
      if expected >= I64_MAX || revision >= I64_MAX {
        return Err(GraphError.Conflict);
      }
      var row := SealPolicy(v, rows.policies[i].(revision := expected + 1, active := false, updatedAt := now));
      var next := revision + 1;
      var predicted := ComputeGraphCommitment(v, rows, next, Some((80, policyId.uuid)), Some(PolicyItem(row)));
      PolicyReplaced(v, rows, i, row, next);
      rows := rows.(policies := rows.policies[i := row]);
      revision, commitment := next, predicted;
      assert IsArchived(old(rows), rows, i, now);
      return Ok(expected + 1);
    }

    method AddPolicyGrant(v: Vault, sessions: Gate.SessionTable, owner: Gate.OwnerContext, namespaces: Store,
                          secrets: Secrets, spec: GrantSpec, grantId: Id, now: i64)
      returns (r: Result<Id, GraphError>)
      requires Valid()
      modifies this
      ensures Valid()
      ensures r.Ok? <==>
              && OwnerMay(sessions, owner, now) && old(Open(v))
              && v.serviceGrantable(spec.action) && (spec.includeDescendants ==> spec.target.NamespaceResource?)
              && TargetKnown(namespaces, secrets, spec.target) && HasActive(old(rows), spec.policyId)
              && NewGrant(old(rows), grantId, spec)
      ensures r.Ok? ==> Verifies(v) && revision == old(revision) + 1
      ensures r.Ok? ==> IsNewGrant(old(rows), rows, grantId, spec, owner.principal, now)
      ensures r.Err? ==> unchanged(this)
    {
      hide CommitmentOf, PolicyCommitment, GrantCommitment, BindingCommitment, Items, ListedItems, SealPolicy;
      hide SealGrant, SealBinding, OwnerMay, UniqueKeys, RowsVerify, IsNewGrant;
      var refusal := OwnerRefusal(sessions, owner, now);
      if refusal.Some? {
        return Err(refusal.value);
      }
      var grant := GrantRow(grantId, spec.policyId, spec.action, spec.target, spec.includeDescendants,
                            owner.principal, now, NO_DIGEST);
      if !ValidForService(v, grant) {
        return Err(GraphError.InvalidInput);
      }
      match spec.target {
        case NamespaceResource(n) =>
          if n !in namespaces {
            return Err(GraphError.Denied);
          }
        case SecretResource(k) =>
          if k !in secrets {
            return Err(GraphError.Denied);
          }
      }
      var checked := VerifySnapshot(v, rows, revision, commitment);
      if checked.Err? {
        return Err(checked.error);
      }
      if forall i :: 0 <= i < |rows.policies| ==>
           rows.policies[i].policyId != spec.policyId || !rows.policies[i].active
      {
        return Err(GraphError.Denied);
      }
      if revision >= I64_MAX {
        return Err(GraphError.Conflict);
      }
      if exists i :: 0 <= i < |rows.grants| && (rows.grants[i].grantId == grantId || SameRule(rows.grants[i], grant)) {
        return Err(GraphError.Conflict);
      }
      var row := SealGrant(v, grant);
      var next := revision + 1;
      var predicted := ComputeGraphCommitment(v, rows, next, None, Some(GrantItem(row)));
      GrantAdded(v, rows, row, next);
      GrantKept(v, rows, row, spec);
      rows := rows.(grants := rows.grants + [row]);
      revision, commitment := next, predicted;
      return Ok(grant.grantId);
    }

    method BindPolicy(v: Vault, sessions: Gate.SessionTable, owner: Gate.OwnerContext,
                      principals: map<PrincipalId, PrincipalState>, service: PrincipalId, policyId: PolicyId, now: i64)
      returns (r: Result<(), GraphError>)
      requires Valid()
      modifies this
      ensures Valid()
      ensures r.Ok? <==>
              && OwnerMay(sessions, owner, now) && old(Open(v))
              && service in principals && principals[service] == PrincipalState(true, true)
              && HasActive(old(rows), policyId) && NewBinding(old(rows), service, policyId)
      ensures r.Ok? ==> IsNewBinding(old(rows), rows, service, policyId, owner.principal, now)
      ensures r.Ok? ==> Verifies(v) && revision == old(revision) + 1
      ensures r.Err? ==> unchanged(this)
    {
      hide CommitmentOf, PolicyCommitment, GrantCommitment, BindingCommitment, Items, ListedItems, SealPolicy;
      hide SealGrant, SealBinding, OwnerMay;
      var refusal := OwnerRefusal(sessions, owner, now);
      if refusal.Some? {
        return Err(refusal.value);
      }
      if service !in principals || !principals[service].isService || !principals[service].active {
        return Err(GraphError.Denied);
      }
      var binding := BindingRow(service, policyId, owner.principal, now, NO_DIGEST);
      var checked := VerifySnapshot(v, rows, revision, commitment);
      if checked.Err? {
        return Err(checked.error);
      }
      if forall i :: 0 <= i < |rows.policies| ==> rows.policies[i].policyId != policyId || !rows.policies[i].active {
        return Err(GraphError.Denied);
      }
      if revision >= I64_MAX || exists i :: 0 <= i < |rows.bindings| && SameBinding(rows.bindings[i], binding) {
        return Err(GraphError.Conflict);
      }
      var row := SealBinding(v, binding);
      var next := revision + 1;
      var predicted := ComputeGraphCommitment(v, rows, next, None, Some(BindingItem(row)));
      BindingAdded(v, rows, row, next);
      rows := rows.(bindings := rows.bindings + [row]);
      revision, commitment := next, predicted;
      return Ok(());
    }
  }

  ghost predicate IsNewPolicy(was: Rows, now: Rows, policyId: PolicyId, metadata: Envelope, at: i64) {
    && now.grants == was.grants && now.bindings == was.bindings
    && |now.policies| == |was.policies| + 1 && now.policies[..|was.policies|] == was.policies
    && var p := now.policies[|was.policies|];
       p == PolicyRow(policyId, 1, true, 1, metadata, at, at, p.commitment)
  }

  ghost predicate Archivable(rows: Rows, i: int, policyId: PolicyId, expected: u64) {
    && 0 <= i < |rows.policies| && rows.policies[i].policyId == policyId
    && rows.policies[i].revision == expected && rows.policies[i].active
  }

  ghost predicate IsArchived(was: Rows, now: Rows, i: int, at: i64)
    requires 0 <= i < |was.policies| && was.policies[i].revision < U64_MAX
  {
    && |now.policies| == |was.policies|
    && var p := was.policies[i];
       var archived := p.(revision := p.revision + 1, active := false, updatedAt := at,
                          commitment := now.policies[i].commitment);
       now == was.(policies := was.policies[i := archived])
  }

  /** Some row is that policy, and active. */
  ghost predicate HasActive(rows: Rows, policyId: PolicyId) {
    exists i :: 0 <= i < |rows.policies| && rows.policies[i].policyId == policyId && rows.policies[i].active
  }

  /** No row has the identifier, and none is the same rule. */
  ghost predicate NewGrant(rows: Rows, grantId: Id, spec: GrantSpec) {
    forall i :: 0 <= i < |rows.grants| ==>
      var g := rows.grants[i];
      g.grantId != grantId && GrantSpec(g.policyId, g.action, g.target, g.includeDescendants) != spec
  }

  /** One grant is added: the rule asked for, by the owner, now. */
  ghost predicate IsNewGrant(was: Rows, now: Rows, grantId: Id, spec: GrantSpec, owner: PrincipalId, at: i64) {
    && now.policies == was.policies && now.bindings == was.bindings
    && |now.grants| == |was.grants| + 1 && now.grants[..|was.grants|] == was.grants
    && var g := now.grants[|was.grants|];
       g == GrantRow(grantId, spec.policyId, spec.action, spec.target, spec.includeDescendants, owner, at, g.commitment)
  }

  /** No row binds the principal to the policy. */
  ghost predicate NewBinding(rows: Rows, service: PrincipalId, policyId: PolicyId) {
    forall i :: 0 <= i < |rows.bindings| ==>
      rows.bindings[i].principalId != service || rows.bindings[i].policyId != policyId
  }

  /** One binding is added: the service to the policy, by the owner, now. */
  ghost predicate IsNewBinding(was: Rows, now: Rows, service: PrincipalId, policyId: PolicyId, owner: PrincipalId,
                               at: i64)
  {
    && now.policies == was.policies && now.grants == was.grants
    && |now.bindings| == |was.bindings| + 1 && now.bindings[..|was.bindings|] == was.bindings
    && var b := now.bindings[|was.bindings|];
       b == BindingRow(service, policyId, owner, at, b.commitment)
  }

  /** Adding a rule no row has keeps the keys unique and every row verified. */
  lemma GrantKept(v: Vault, was: Rows, row: GrantRow, spec: GrantSpec)
    requires UniqueKeys(was) && RowsVerify(v, was) && NewGrant(was, row.grantId, spec) && GrantVerifies(v, row)
    requires spec == GrantSpec(row.policyId, row.action, row.target, row.includeDescendants)
    ensures var now := was.(grants := was.grants + [row]);
            && UniqueKeys(now) && RowsVerify(v, now)
            && IsNewGrant(was, now, row.grantId, spec, row.createdBy, row.createdAt)
  {
    hide PolicyVerifies, GrantVerifies, BindingVerifies;
  }

  // ----- What the rows decide -----

  /** The verified rows as decisions and previews read them. */
  function DecisionGraph(rows: Rows): Graph {
    Graph(Map((p: PolicyRow) => Policy(p.policyId, p.active), rows.policies),
          Map((g: GrantRow) => Grant(g.policyId, g.action, g.target, g.includeDescendants), rows.grants),
          Map((b: BindingRow) => Binding(b.principalId, b.policyId), rows.bindings))
  }

  /** Access that rests on some policy other than this one. */
  ghost predicate AllowedByOthers(s: Store, secrets: Secrets, g: Graph, principal: PrincipalId, action: Action,
                                  r: Resource, policyId: PolicyId)
  {
    exists home, i, q, j ::
      RowsAllow(s, secrets, g, principal, action, r, home, i, q, j) && g.policies[q].policyId != policyId
  }

  /** Once a policy is archived, exactly the access that rests on other policies remains. */
  lemma ArchivedGrantsNothing(was: Rows, now: Rows, k: nat, at: i64, s: Store, secrets: Secrets, principal: PrincipalId,
                              action: Action, r: Resource)
    requires UniqueKeys(was) && k < |was.policies| && was.policies[k].revision < U64_MAX && IsArchived(was, now, k, at)
    ensures Allowed(s, secrets, DecisionGraph(now), principal, action, r)
            <==> AllowedByOthers(s, secrets, DecisionGraph(was), principal, action, r, was.policies[k].policyId)
  {
    AllowedIff(s, secrets, DecisionGraph(now), principal, action, r);
    var before, after := DecisionGraph(was), DecisionGraph(now);
    SamePolicies(was, now, k, at);
    forall home, i, q, j
      ensures RowsAllow(s, secrets, after, principal, action, r, home, i, q, j)
              <==> RowsAllow(s, secrets, before, principal, action, r, home, i, q, j)
                   && before.policies[q].policyId != was.policies[k].policyId
    {
    }
  }

  /** A move's preview then lists exactly what it would list for the other policies. */
  lemma ArchivedDisclosesNothing(was: Rows, now: Rows, k: nat, at: i64, before: seq<NamespaceId>,
                                 after: seq<NamespaceId>, x: Delta)
    requires UniqueKeys(was) && k < |was.policies| && was.policies[k].revision < U64_MAX && IsArchived(was, now, k, at)
    ensures InDelta(DecisionGraph(now), before, after, x)
            <==> exists i, q, j :: RowsDisclose(DecisionGraph(was), before, after, x, i, q, j)
                                   && DecisionGraph(was).policies[q].policyId != was.policies[k].policyId
  {
    SamePolicies(was, now, k, at);
    forall i, q, j
      ensures RowsDisclose(DecisionGraph(now), before, after, x, i, q, j)
              <==> RowsDisclose(DecisionGraph(was), before, after, x, i, q, j)
                   && DecisionGraph(was).policies[q].policyId != was.policies[k].policyId
    {
    }
  }

  /** Archiving keeps every binding, grant and other policy. */
  lemma SamePolicies(was: Rows, now: Rows, k: nat, at: i64)
    requires UniqueKeys(was) && k < |was.policies| && was.policies[k].revision < U64_MAX && IsArchived(was, now, k, at)
    ensures DecisionGraph(now).grants == DecisionGraph(was).grants
    ensures DecisionGraph(now).bindings == DecisionGraph(was).bindings
    ensures |DecisionGraph(now).policies| == |DecisionGraph(was).policies|
    ensures forall q :: 0 <= q < |DecisionGraph(was).policies| ==>
              && DecisionGraph(now).policies[q].policyId == DecisionGraph(was).policies[q].policyId
              && (DecisionGraph(now).policies[q].active <==>
                  && DecisionGraph(was).policies[q].active
                  && DecisionGraph(was).policies[q].policyId != was.policies[k].policyId)
  {
  }
}
