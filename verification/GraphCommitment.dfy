/** The authorization graph: row commitments, and the graph commitment that writes predict and reads recompute. */
module GraphCommitment {
  import opened Bytes
  import opened Text
  import opened Sorting
  import opened Access

  const MAX_AUTHORIZATION_RECORDS: nat := 10_000

  /** The keyed state commitment, the plain hash, and the actions a service may be granted. */
  datatype Vault = Vault(mac: bytes -> Digest, sha: bytes -> Digest, serviceGrantable: Action -> bool)

  datatype Envelope = Envelope(nonce: bytes, ciphertext: bytes, dekNonce: bytes, wrappedDek: bytes, kekVersion: u32)

  datatype PolicyRow = PolicyRow(policyId: PolicyId, revision: u64, active: bool, metadataVersion: u64,
                                 metadata: Envelope, createdAt: i64, updatedAt: i64, commitment: Digest)

  datatype GrantRow = GrantRow(grantId: Id, policyId: PolicyId, action: Action, target: Resource,
                               includeDescendants: bool, createdBy: PrincipalId, createdAt: i64, commitment: Digest)

  datatype BindingRow = BindingRow(principalId: PrincipalId, policyId: PolicyId, createdBy: PrincipalId, createdAt: i64,
                                   commitment: Digest)

  datatype Rows = Rows(policies: seq<PolicyRow>, grants: seq<GrantRow>, bindings: seq<BindingRow>)

  // ----- Row commitments -----

  function EnvelopeBytes(e: Envelope): bytes {
    e.nonce + e.ciphertext + e.dekNonce + e.wrappedDek + U32(e.kekVersion)
  }

  function StateText(active: bool): bytes {
    if active then Ascii("active") else Ascii("archived")
  }

  function PolicyFields(v: Vault, p: PolicyRow): seq<bytes> {
    [Ascii("policy"), UuidText(p.policyId.uuid), Decimal(p.revision), StateText(p.active), Decimal(p.metadataVersion),
     Hex(v.sha(EnvelopeBytes(p.metadata))), Decimal(p.createdAt), Decimal(p.updatedAt)]
  }

  function KindText(r: Resource): bytes {
    if r.NamespaceResource? then Ascii("namespace") else Ascii("secret")
  }

  function ResourceUuid(r: Resource): Id {
    match r
    case NamespaceResource(n) => n.uuid
    case SecretResource(k) => k.uuid
  }

  function GrantFields(g: GrantRow): seq<bytes> {
    [Ascii("grant"), UuidText(g.grantId), UuidText(g.policyId.uuid), g.action.name, KindText(g.target),
     UuidText(ResourceUuid(g.target)), if g.includeDescendants then Ascii("1") else Ascii("0"),
     UuidText(g.createdBy.uuid), Decimal(g.createdAt)]
  }

  function BindingFields(b: BindingRow): seq<bytes> {
    [Ascii("binding"), UuidText(b.principalId.uuid), UuidText(b.policyId.uuid), UuidText(b.createdBy.uuid),
     Decimal(b.createdAt)]
  }

  /** `policy_commitment`. */
  function PolicyCommitment(v: Vault, p: PolicyRow): Digest {
    v.mac(Join(PolicyFields(v, p)))
  }

  /** `grant_commitment`. */
  function GrantCommitment(v: Vault, g: GrantRow): Digest {
    v.mac(Join(GrantFields(g)))
  }

  /** `binding_commitment`. */
  function BindingCommitment(v: Vault, b: BindingRow): Digest {
    v.mac(Join(BindingFields(b)))
  }

  predicate ValidForService(v: Vault, g: GrantRow) {
    v.serviceGrantable(g.action) && (!g.includeDescendants || g.target.NamespaceResource?)
  }

  // ----- Graph items -----

  datatype Item = Item(tag: byte, key: bytes, commitment: Digest)

  function PolicyItem(p: PolicyRow): Item {
    Item(80, p.policyId.uuid, p.commitment)
  }

  function GrantItem(g: GrantRow): Item {
    Item(71, g.grantId, g.commitment)
  }

  function BindingItem(b: BindingRow): Item {
    Item(66, b.principalId.uuid + b.policyId.uuid, b.commitment)
  }

  /** An item's tag, key and commitment: `P`, `G` or `B`; the row's own identity; the row's own commitment. */
  lemma ItemsAreKeyed(p: PolicyRow, g: GrantRow, b: BindingRow)
    ensures PolicyItem(p) == Item('P' as int, p.policyId.uuid, p.commitment)
    ensures GrantItem(g) == Item('G' as int, g.grantId, g.commitment)
    ensures BindingItem(b).tag == 'B' as int && BindingItem(b).commitment == b.commitment
    ensures BindingItem(b).key[..16] == b.principalId.uuid && BindingItem(b).key[16..] == b.policyId.uuid
  {
  }

  function Items(rows: Rows): seq<Item> {
    Map(PolicyItem, rows.policies) + Map(GrantItem, rows.grants) + Map(BindingItem, rows.bindings)
  }

  type Exclusion = Option<(byte, bytes)>

  predicate Excluded(exclude: Exclusion, x: Item) {
    exclude == Some((x.tag, x.key))
  }

  function Without(exclude: Exclusion, items: seq<Item>): (r: seq<Item>)
    ensures |r| <= |items|
  {
    if items == [] then []
    else (if Excluded(exclude, items[0]) then [] else [items[0]]) + Without(exclude, items[1..])
  }

  function ItemBytes(x: Item): bytes {
    [x.tag] + x.key + x.commitment
  }

  /** A length that fits in four bytes; an item never has more than 65. */
  function LengthPrefix(n: nat): bytes {
    if n < 0x1_0000_0000 then U32(n) else []
  }

  /** Each item after its length. */
  function Serialize(items: seq<bytes>): bytes {
    if items == [] then [] else LengthPrefix(|items[0]|) + items[0] + Serialize(items[1..])
  }

  function GraphFields(revision: u64, last: bytes): seq<bytes> {
    [Ascii("authorization-graph"), Ascii("v1"), Ascii("revision"), Decimal(revision), last]
  }

  /** The last field: a fixed word for the empty first revision, otherwise the digest of the sorted items. */
  function GraphDigest(v: Vault, items: seq<Item>, revision: u64): bytes {
    if items == [] && revision == 1 then Ascii("empty")
    else Hex(v.sha(Serialize(Sort(LexLe, Map(ItemBytes, items)))))
  }

  /** The commitment of a listing of items. */
  function CommitmentOf(v: Vault, items: seq<Item>, revision: u64): Digest {
    v.mac(Join(GraphFields(revision, GraphDigest(v, items, revision))))
  }

  // ----- The commitment depends on the multiset of items only -----

  lemma AnyItemOrder(v: Vault, a: seq<Item>, b: seq<Item>, revision: u64)
    requires multiset(a) == multiset(b)
    ensures CommitmentOf(v, a, revision) == CommitmentOf(v, b, revision)
  {
    SameMultisetSameMembers(a, b);
    MapKeepsMultiset(ItemBytes, a, b);
    LexIsTotalOrder();
    SortForgetsOrder(LexLe, Map(ItemBytes, a), Map(ItemBytes, b));
  }

  /** The same rows in any order give the same commitment. */
  lemma AnyRowOrder(v: Vault, a: Rows, b: Rows, revision: u64)
    requires multiset(a.policies) == multiset(b.policies) && multiset(a.grants) == multiset(b.grants)
    requires multiset(a.bindings) == multiset(b.bindings)
    ensures CommitmentOf(v, Items(a), revision) == CommitmentOf(v, Items(b), revision)
  {
    MapKeepsMultiset(PolicyItem, a.policies, b.policies);
    MapKeepsMultiset(GrantItem, a.grants, b.grants);
    MapKeepsMultiset(BindingItem, a.bindings, b.bindings);
    AnyItemOrder(v, Items(a), Items(b), revision);
  }

  // ----- Computing it -----

  lemma {:induction false} WithoutSplit(exclude: Exclusion, a: seq<Item>, b: seq<Item>)
    ensures Without(exclude, a + b) == Without(exclude, a) + Without(exclude, b)
    decreases |a|
  {
    if a == [] {
      assert a + b == b;
    } else {
      WithoutSplit(exclude, a[1..], b);
      assert (a + b)[1..] == a[1..] + b && (a + b)[0] == a[0];
      var head := if Excluded(exclude, a[0]) then [] else [a[0]];
      assert head + (Without(exclude, a[1..]) + Without(exclude, b))
             == head + Without(exclude, a[1..]) + Without(exclude, b);
    }
  }

  /** The loop that lists one kind of row, skipping the excluded key. */
  method List<T>(f: T -> Item, rows: seq<T>, exclude: Exclusion) returns (items: seq<Item>)
    ensures items == Without(exclude, Map(f, rows))
  {
    items := [];
    for i := 0 to |rows|
      invariant items == Without(exclude, Map(f, rows[..i]))
    {
      var x := f(rows[i]);
      WithoutSplit(exclude, Map(f, rows[..i]), [x]);
      assert Map(f, rows[..i + 1]) == Map(f, rows[..i]) + [x];
      if !Excluded(exclude, x) {
        items := items + [x];
      }
    }
    assert rows[..|rows|] == rows;
  }

  lemma {:induction false} SerializeSplit(a: seq<bytes>, b: seq<bytes>)
    ensures Serialize(a + b) == Serialize(a) + Serialize(b)
    decreases |a|
  {
    if a == [] {
      assert a + b == b;
    } else {
      SerializeSplit(a[1..], b);
      assert (a + b)[1..] == a[1..] + b;
    }
  }

  /** The items `graph_commitment` lists. */
  function ListedItems(rows: Rows, exclude: Exclusion, extra: Option<Item>): seq<Item> {
    Without(exclude, Items(rows)) + if extra.Some? then [extra.value] else []
  }

  method ListItems(rows: Rows, exclude: Exclusion, extra: Option<Item>) returns (items: seq<Item>)
    ensures items == ListedItems(rows, exclude, extra)
  {
    hide Without, Map;
    var policies := List(PolicyItem, rows.policies, exclude);
    var grants := List(GrantItem, rows.grants, exclude);
    var bindings := List(BindingItem, rows.bindings, exclude);
    WithoutSplit(exclude, Map(PolicyItem, rows.policies), Map(GrantItem, rows.grants));
    WithoutSplit(exclude, Map(PolicyItem, rows.policies) + Map(GrantItem, rows.grants),
                 Map(BindingItem, rows.bindings));
    items := policies + grants + bindings;
    if extra.Some? {
      items := items + [extra.value];
    }
  }

  /** Feeds the sorted items to the hash one by one. */
  method HashItems(sorted: seq<bytes>) returns (hashed: bytes)
    ensures hashed == Serialize(sorted)
  {
    hashed := [];
    for i := 0 to |sorted|
      invariant hashed == Serialize(sorted[..i])
    {
      SerializeSplit(sorted[..i], [sorted[i]]);
      assert sorted[..i + 1] == sorted[..i] + [sorted[i]];
      assert Serialize([sorted[i]]) == LengthPrefix(|sorted[i]|) + sorted[i];
      hashed := hashed + LengthPrefix(|sorted[i]|) + sorted[i];
    }
    assert sorted[..|sorted|] == sorted;
  }

  /** `graph_commitment`. */
  method ComputeGraphCommitment(v: Vault, rows: Rows, revision: u64, exclude: Exclusion, extra: Option<Item>)
    returns (c: Digest)
    ensures c == CommitmentOf(v, ListedItems(rows, exclude, extra), revision)
  {
    hide ListedItems, Join, Hex, GraphFields;
    var items := ListItems(rows, exclude, extra);
    if items == [] && revision == 1 {
      return v.mac(Join(GraphFields(1, Ascii("empty"))));
    }
    var hashed := HashItems(Sort(LexLe, Map(ItemBytes, items)));
    return v.mac(Join(GraphFields(revision, Hex(v.sha(hashed)))));
  }

  /** `portable_authorization_commitment`: the same commitment with nothing excluded and nothing added. */
  method PortableCommitment(v: Vault, rows: Rows, revision: u64) returns (c: Digest)
    ensures c == CommitmentOf(v, Items(rows), revision)
  {
    c := ComputeGraphCommitment(v, rows, revision, None, None);
    WithoutNone(Items(rows));
    assert ListedItems(rows, None, None) == Items(rows);
  }

  lemma {:induction false} WithoutNone(items: seq<Item>)
    ensures Without(None, items) == items
  {
    if items != [] {
      WithoutNone(items[1..]);
      assert items == [items[0]] + items[1..];
    }
  }
}
