/** Without hash collisions, the stored graph commitment determines the revision and every row. */
module GraphTheorems {
  import opened Bytes
  import opened Text
  import opened Sorting
  import opened GraphCommitment
  import opened GraphStore

  function GraphBytes(items: seq<Item>): bytes {
    Serialize(Sort(LexLe, Map(ItemBytes, items)))
  }

  function GraphText(v: Vault, items: seq<Item>, revision: u64): bytes {
    Join(GraphFields(revision, GraphDigest(v, items, revision)))
  }

  // ----- From the commitment to the multiset of items -----

  lemma {:induction false} SerializeInjective(a: seq<bytes>, b: seq<bytes>)
    requires forall x :: x in a || x in b ==> |x| < 0x1_0000_0000
    requires Serialize(a) == Serialize(b)
    ensures a == b
    decreases |a|
  {
    if a != [] {
      SerializeHead(a);
    }
    if b != [] {
      SerializeHead(b);
    }
    if a != [] {
      ReadU32Of(|a[0]|);
      ReadU32Of(|b[0]|);
      SerializeInjective(a[1..], b[1..]);
      assert a == [a[0]] + a[1..] && b == [b[0]] + b[1..];
    }
  }

  lemma SerializeHead(a: seq<bytes>)
    requires a != [] && |a[0]| < 0x1_0000_0000
    ensures |Serialize(a)| >= 4 + |a[0]|
    ensures Serialize(a)[..4] == U32(|a[0]|) && Serialize(a)[4..4 + |a[0]|] == a[0]
    ensures Serialize(a)[4 + |a[0]|..] == Serialize(a[1..])
  {
  }

  /** The three shapes of item. */
  ghost predicate Proper(x: Item) {
    (x.tag == 80 && |x.key| == 16) || (x.tag == 71 && |x.key| == 16) || (x.tag == 66 && |x.key| == 32)
  }

  ghost predicate AllProper(items: seq<Item>) {
    forall i :: 0 <= i < |items| ==> Proper(items[i])
  }

  lemma ItemBytesInjective(x: Item, y: Item)
    requires Proper(x) && Proper(y) && ItemBytes(x) == ItemBytes(y)
    ensures x == y
  {
    var s := ItemBytes(x);
    assert s[0] == x.tag && s[1..1 + |x.key|] == x.key && s[1 + |x.key|..] == x.commitment;
    assert s[0] == y.tag && s[1..1 + |y.key|] == y.key && s[1 + |y.key|..] == y.commitment;
  }

  lemma GraphFieldsProper(v: Vault, items: seq<Item>, revision: u64)
    ensures Fields(GraphFields(revision, GraphDigest(v, items, revision)))
  {
    hide Hex, Decimal, Ascii, Sort, Serialize;
    DecimalZeroFree(revision);
    assert ZeroFree(GraphDigest(v, items, revision));
  }

  lemma ItemsSeparated(a: seq<Item>, b: seq<Item>)
    requires AllProper(a) && AllProper(b)
    ensures Separates(ItemBytes, a, b)
  {
    hide ItemBytes;
    forall i, j | 0 <= i < |a| && 0 <= j < |b| && ItemBytes(a[i]) == ItemBytes(b[j])
      ensures a[i] == b[j]
    {
      ItemBytesInjective(a[i], b[j]);
    }
  }

  lemma SortedItemsSmall(a: seq<Item>)
    requires AllProper(a)
    ensures forall x :: x in Sort(LexLe, Map(ItemBytes, a)) ==> |x| <= 65
  {
    hide Sort;
    SameMultisetSameMembers(Sort(LexLe, Map(ItemBytes, a)), Map(ItemBytes, a));
  }

  lemma SameBytesSameItems(a: seq<Item>, b: seq<Item>)
    requires AllProper(a) && AllProper(b) && GraphBytes(a) == GraphBytes(b)
    ensures multiset(a) == multiset(b)
  {
    hide Sort, Serialize, ItemBytes, AllProper, Map;
    SortedItemsSmall(a);
    SortedItemsSmall(b);
    SerializeInjective(Sort(LexLe, Map(ItemBytes, a)), Sort(LexLe, Map(ItemBytes, b)));
    ItemsSeparated(a, b);
    MapReflectsMultiset(ItemBytes, a, b);
  }

  /** Equal commitments of two item listings: the same revision and the same multiset of items. */
  lemma CommitmentDeterminesItems(v: Vault, a: seq<Item>, ra: u64, b: seq<Item>, rb: u64)
    requires AllProper(a) && AllProper(b) && CommitmentOf(v, a, ra) == CommitmentOf(v, b, rb)
    requires NoCollision(v.mac, GraphText(v, a, ra), GraphText(v, b, rb))
             && NoCollision(v.sha, GraphBytes(a), GraphBytes(b))
    ensures ra == rb && multiset(a) == multiset(b)
  {
    hide Join, Hex, Decimal, AllProper, GraphBytes;
    var fa, fb := GraphFields(ra, GraphDigest(v, a, ra)), GraphFields(rb, GraphDigest(v, b, rb));
    GraphFieldsProper(v, a, ra);
    GraphFieldsProper(v, b, rb);
    JoinInjective(fa, fb);
    assert fa[3] == fb[3] && fa[4] == fb[4];
    DecimalInjective(ra, rb);
    DigestDeterminesItems(v, a, b, ra);
  }

  lemma DigestDeterminesItems(v: Vault, a: seq<Item>, b: seq<Item>, revision: u64)
    requires AllProper(a) && AllProper(b) && GraphDigest(v, a, revision) == GraphDigest(v, b, revision)
    requires NoCollision(v.sha, GraphBytes(a), GraphBytes(b))
    ensures multiset(a) == multiset(b)
  {
    if revision != 1 || (a != [] && b != []) {
      HexInjective(v.sha(GraphBytes(a)), v.sha(GraphBytes(b)));
      SameBytesSameItems(a, b);
    }
  }

  // ----- From items to rows -----

  /** The lengths the schema fixes. */
  ghost predicate SchemaEnvelope(e: Envelope) {
    |e.nonce| == 24 && |e.dekNonce| == 24 && |e.wrappedDek| == 48
  }

  lemma EnvelopeBytesInjective(d: Envelope, e: Envelope)
    requires SchemaEnvelope(d) && SchemaEnvelope(e) && EnvelopeBytes(d) == EnvelopeBytes(e)
    ensures d == e
  {
    EnvelopePieces(d);
    EnvelopePieces(e);
    ReadU32Of(d.kekVersion);
    ReadU32Of(e.kekVersion);
  }

  lemma EnvelopePieces(e: Envelope)
    requires SchemaEnvelope(e)
    ensures |EnvelopeBytes(e)| == 100 + |e.ciphertext|
    ensures var s, n := EnvelopeBytes(e), |e.ciphertext|;
            && s[..24] == e.nonce && s[24..24 + n] == e.ciphertext && s[24 + n..48 + n] == e.dekNonce
            && s[48 + n..96 + n] == e.wrappedDek && s[96 + n..] == U32(e.kekVersion)
  {
  }

  lemma PolicyFieldsProper(v: Vault, p: PolicyRow)
    ensures Fields(PolicyFields(v, p))
  {
    hide Ascii, UuidText, Decimal, Hex;
    DecimalZeroFree(p.revision);
    DecimalZeroFree(p.metadataVersion);
    DecimalZeroFree(p.createdAt);
    DecimalZeroFree(p.updatedAt);
  }

  /** A policy's commitment determines every field of its row. */
  lemma PolicyDetermined(v: Vault, p: PolicyRow, q: PolicyRow)
    requires PolicyVerifies(v, p) && PolicyVerifies(v, q) && p.commitment == q.commitment
    requires SchemaEnvelope(p.metadata) && SchemaEnvelope(q.metadata)
    requires NoCollision(v.mac, Join(PolicyFields(v, p)), Join(PolicyFields(v, q)))
    requires NoCollision(v.sha, EnvelopeBytes(p.metadata), EnvelopeBytes(q.metadata))
    ensures p == q
  {
    hide Join, Hex, Decimal, UuidText, EnvelopeBytes;
    var a, b := PolicyFields(v, p), PolicyFields(v, q);
    PolicyFieldsProper(v, p);
    PolicyFieldsProper(v, q);
    JoinInjective(a, b);
    assert a[1] == b[1] && a[2] == b[2] && a[3] == b[3] && a[4] == b[4] && a[5] == b[5] && a[6] == b[6] && a[7] == b[7];
    UuidTextInjective(p.policyId.uuid, q.policyId.uuid);
    DecimalInjective(p.revision, q.revision);
    DecimalInjective(p.metadataVersion, q.metadataVersion);
    DecimalInjective(p.createdAt, q.createdAt);
    DecimalInjective(p.updatedAt, q.updatedAt);
    HexInjective(v.sha(EnvelopeBytes(p.metadata)), v.sha(EnvelopeBytes(q.metadata)));
    EnvelopeBytesInjective(p.metadata, q.metadata);
    assert |StateText(true)| == 6 && |StateText(false)| == 8;
  }

  lemma GrantFieldsProper(g: GrantRow)
    requires ZeroFree(g.action.name)
    ensures Fields(GrantFields(g))
  {
    hide Ascii, UuidText, Decimal;
    DecimalZeroFree(g.createdAt);
  }

  /** So does a grant's. */
  lemma GrantDetermined(v: Vault, p: GrantRow, q: GrantRow)
    requires GrantVerifies(v, p) && GrantVerifies(v, q) && p.commitment == q.commitment
    requires ZeroFree(p.action.name) && ZeroFree(q.action.name)
    requires NoCollision(v.mac, Join(GrantFields(p)), Join(GrantFields(q)))
    ensures p == q
  {
    hide Join, Decimal, UuidText;
    var a, b := GrantFields(p), GrantFields(q);
    GrantFieldsProper(p);
    GrantFieldsProper(q);
    JoinInjective(a, b);
    assert a[1] == b[1] && a[2] == b[2] && a[3] == b[3] && a[4] == b[4] && a[5] == b[5] && a[6] == b[6] && a[7] == b[7]
           && a[8] == b[8];
    UuidTextInjective(p.grantId, q.grantId);
    UuidTextInjective(p.policyId.uuid, q.policyId.uuid);
    UuidTextInjective(ResourceUuid(p.target), ResourceUuid(q.target));
    UuidTextInjective(p.createdBy.uuid, q.createdBy.uuid);
    DecimalInjective(p.createdAt, q.createdAt);
    assert |KindText(p.target)| == if p.target.NamespaceResource? then 9 else 6;
    assert |KindText(q.target)| == if q.target.NamespaceResource? then 9 else 6;
    assert Ascii("1")[0] == 49 && Ascii("0")[0] == 48;
  }

  lemma BindingFieldsProper(b: BindingRow)
    ensures Fields(BindingFields(b))
  {
    hide Ascii, UuidText, Decimal;
    DecimalZeroFree(b.createdAt);
  }

  /** And a binding's. */
  lemma BindingDetermined(v: Vault, p: BindingRow, q: BindingRow)
    requires BindingVerifies(v, p) && BindingVerifies(v, q) && p.commitment == q.commitment
    requires NoCollision(v.mac, Join(BindingFields(p)), Join(BindingFields(q)))
    ensures p == q
  {
    hide Join, Decimal, UuidText;
    var a, b := BindingFields(p), BindingFields(q);
    BindingFieldsProper(p);
    BindingFieldsProper(q);
    JoinInjective(a, b);
    assert a[1] == b[1] && a[2] == b[2] && a[3] == b[3] && a[4] == b[4];
    UuidTextInjective(p.principalId.uuid, q.principalId.uuid);
    UuidTextInjective(p.policyId.uuid, q.policyId.uuid);
    UuidTextInjective(p.createdBy.uuid, q.createdBy.uuid);
    DecimalInjective(p.createdAt, q.createdAt);
  }

  /** Rows as the schema and the closed action vocabulary allow them. */
  ghost predicate SchemaRows(rows: Rows) {
    && (forall p :: p in rows.policies ==> SchemaEnvelope(p.metadata))
    && (forall g :: g in rows.grants ==> ZeroFree(g.action.name))
  }

  /** The commitments involved in two states do not collide. */
  ghost predicate NoRowCollisions(v: Vault, a: Rows, b: Rows) {
    && (forall p, q :: p in a.policies && q in b.policies ==>
          NoCollision(v.mac, Join(PolicyFields(v, p)), Join(PolicyFields(v, q)))
          && NoCollision(v.sha, EnvelopeBytes(p.metadata), EnvelopeBytes(q.metadata)))
    && (forall p, q :: p in a.grants && q in b.grants ==>
          NoCollision(v.mac, Join(GrantFields(p)), Join(GrantFields(q))))
    && (forall p, q :: p in a.bindings && q in b.bindings ==>
          NoCollision(v.mac, Join(BindingFields(p)), Join(BindingFields(q))))
  }

  lemma ItemsProper(rows: Rows)
    ensures AllProper(Items(rows))
  {
  }

  /** Tags keep the three kinds of item apart. */
  lemma KindsApart(a: Rows, b: Rows)
    requires multiset(Items(a)) == multiset(Items(b))
    ensures multiset(Map(PolicyItem, a.policies)) == multiset(Map(PolicyItem, b.policies))
    ensures multiset(Map(GrantItem, a.grants)) == multiset(Map(GrantItem, b.grants))
    ensures multiset(Map(BindingItem, a.bindings)) == multiset(Map(BindingItem, b.bindings))
  {
    var pa, ga, ba := Map(PolicyItem, a.policies), Map(GrantItem, a.grants), Map(BindingItem, a.bindings);
    var pb, gb, bb := Map(PolicyItem, b.policies), Map(GrantItem, b.grants), Map(BindingItem, b.bindings);
    Apart(pa, ga, ba);
    Apart(pb, gb, bb);
  }

  ghost predicate Tagged(s: seq<Item>, tag: byte) {
    forall i :: 0 <= i < |s| ==> s[i].tag == tag
  }

  lemma Apart(p: seq<Item>, g: seq<Item>, b: seq<Item>)
    requires Tagged(p, 80) && Tagged(g, 71) && Tagged(b, 66)
    ensures forall x: Item :: multiset(p)[x] == if x.tag == 80 then multiset(p + g + b)[x] else 0
    ensures forall x: Item :: multiset(g)[x] == if x.tag == 71 then multiset(p + g + b)[x] else 0
    ensures forall x: Item :: multiset(b)[x] == if x.tag == 66 then multiset(p + g + b)[x] else 0
  {
    assert multiset(p + g + b) == multiset(p) + multiset(g) + multiset(b);
    assert forall x :: x in multiset(p) <==> x in p;
    assert forall x :: x in multiset(g) <==> x in g;
    assert forall x :: x in multiset(b) <==> x in b;
  }

  /** Two verifying states with the same stored commitment have the same revision and the same rows. */
  lemma CommitmentDeterminesRows(v: Vault, a: Rows, ra: u64, b: Rows, rb: u64, c: Digest)
    requires StateVerifies(v, a, ra, c) && StateVerifies(v, b, rb, c) && SchemaRows(a) && SchemaRows(b)
    requires NoCollision(v.mac, GraphText(v, Items(a), ra), GraphText(v, Items(b), rb))
    requires NoCollision(v.sha, GraphBytes(Items(a)), GraphBytes(Items(b))) && NoRowCollisions(v, a, b)
    ensures ra == rb && multiset(a.policies) == multiset(b.policies)
    ensures multiset(a.grants) == multiset(b.grants) && multiset(a.bindings) == multiset(b.bindings)
  {
    hide CommitmentOf, Items, GraphText, GraphBytes, PolicyFields, GrantFields, BindingFields, EnvelopeBytes, Join;
    ItemsProper(a);
    ItemsProper(b);
    CommitmentDeterminesItems(v, Items(a), ra, Items(b), rb);
    KindsApart(a, b);
    PoliciesSeparated(v, a, b);
    GrantsSeparated(v, a, b);
    BindingsSeparated(v, a, b);
    MapReflectsMultiset(PolicyItem, a.policies, b.policies);
    MapReflectsMultiset(GrantItem, a.grants, b.grants);
    MapReflectsMultiset(BindingItem, a.bindings, b.bindings);
  }

  lemma PoliciesSeparated(v: Vault, a: Rows, b: Rows)
    requires RowsVerify(v, a) && RowsVerify(v, b) && SchemaRows(a) && SchemaRows(b) && NoRowCollisions(v, a, b)
    ensures Separates(PolicyItem, a.policies, b.policies)
  {
    hide PolicyFields, EnvelopeBytes, Join, PolicyVerifies;
    forall i, j | 0 <= i < |a.policies| && 0 <= j < |b.policies|
    && PolicyItem(a.policies[i]) == PolicyItem(b.policies[j])
      ensures a.policies[i] == b.policies[j]
    {
      PolicyDetermined(v, a.policies[i], b.policies[j]);
    }
  }

  lemma GrantsSeparated(v: Vault, a: Rows, b: Rows)
    requires RowsVerify(v, a) && RowsVerify(v, b) && SchemaRows(a) && SchemaRows(b) && NoRowCollisions(v, a, b)
    ensures Separates(GrantItem, a.grants, b.grants)
  {
    hide GrantFields, Join, GrantVerifies;
    forall i, j | 0 <= i < |a.grants| && 0 <= j < |b.grants| && GrantItem(a.grants[i]) == GrantItem(b.grants[j])
      ensures a.grants[i] == b.grants[j]
    {
      GrantDetermined(v, a.grants[i], b.grants[j]);
    }
  }

  lemma BindingsSeparated(v: Vault, a: Rows, b: Rows)
    requires RowsVerify(v, a) && RowsVerify(v, b) && NoRowCollisions(v, a, b)
    ensures Separates(BindingItem, a.bindings, b.bindings)
  {
    hide BindingFields, Join, BindingVerifies;
    forall i, j | 0 <= i < |a.bindings| && 0 <= j < |b.bindings|
    && BindingItem(a.bindings[i]) == BindingItem(b.bindings[j])
      ensures a.bindings[i] == b.bindings[j]
    {
      BindingDetermined(v, a.bindings[i], b.bindings[j]);
    }
  }
}
