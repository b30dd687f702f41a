/** A fresh vault comes through its backup file, so the conditions of the end-to-end theorem can all be met at once. */
module FreshVault {
  import opened Bytes
  import Archive
  import opened Portable
  import opened LogicalStream
  import opened LogicalRecords
  import opened Restore
  import opened RestoreTheorems
  import opened BackupFiles
  import opened Laws

  const ID: Id := [0, 0, 0, 0, 0, 0, 0, 0, 0, 0, 0, 0, 0, 0, 0, 0]

  const KEYS: VaultKeys := VaultKeys(NO_DIGEST, NO_DIGEST, NO_DIGEST)

  const INSTALLATION: Installation := InstallationState(ID, ID, map[1 := NO_DIGEST], 1, KEYS)

  /** No rows at all, and the graph as initialization leaves it. */
  function Empty<M>(): Snapshot<M> {
    Snapshot([], [], [], [], [], [], [], [], AuthorizationState(1, NO_DIGEST), [], [], [], [])
  }

  const MANIFEST: Archive.ArchiveMetadata :=
    Archive.ArchiveMetadata(ID, ID, 0, SCHEMA_VERSION, SECURITY_SEMANTICS_VERSION, 0)

  const RECOVERY: Archive.ArchiveKey := Archive.Recovery(NO_DIGEST)

  lemma FlatStep(parts: seq<seq<Logical>>, i: nat)
    requires i < |parts|
    ensures Flat(parts[i..]) == parts[i] + Flat(parts[i + 1..])
  {
    assert parts[i..][0] == parts[i] && parts[i..][1..] == parts[i + 1..];
  }

  lemma {:induction false} FlatEmpty(parts: seq<seq<Logical>>, i: nat, j: nat)
    requires i <= j <= |parts| && forall k :: i <= k < j ==> parts[k] == []
    ensures Flat(parts[i..]) == Flat(parts[j..])
    decreases j - i
  {
    if i < j {
      FlatStep(parts, i);
      FlatEmpty(parts, i + 1, j);
    }
  }

  lemma FreshRecords()
    ensures RecordsOf(KeyTexts(VAULT, KEYS), Empty())
            == [KeysRecord(KeyTexts(VAULT, KEYS)), AuthorizationRecord(AuthorizationState(1, NO_DIGEST))]
  {
    hide Flat, KeyTexts;
    var parts := Parts(KeyTexts(VAULT, KEYS), Empty());
    assert parts[0..] == parts;
    FlatStep(parts, 0);
    FlatEmpty(parts, 1, 9);
    FlatStep(parts, 9);
    FlatEmpty(parts, 10, 14);
    NothingFlat(parts[14..]);
  }

  lemma NothingFlat(parts: seq<seq<Logical>>)
    ensures parts == [] ==> Flat(parts) == []
  {
  }

  lemma {:induction false} MarkedLength(b: bytes)
    ensures |Marked(b)| == 2 * |b| + 1
  {
    if b != [] {
      MarkedLength(b[1..]);
    }
  }

  lemma PackedOne(a: Field, rest: seq<Field>)
    ensures |Packed([a] + rest)| == 2 * |FieldBytes(a)| + 1 + |Packed(rest)|
  {
    hide FieldBytes, Marked;
    assert ([a] + rest)[1..] == rest;
    MarkedLength(FieldBytes(a));
  }

  /** Three fields, or two. */
  lemma PackedLength(a: Field, b: Field, c: Field)
    ensures |Packed([a, b])| == 2 * (|FieldBytes(a)| + |FieldBytes(b)|) + 2
    ensures |Packed([a, b, c])| == 2 * (|FieldBytes(a)| + |FieldBytes(b)| + |FieldBytes(c)|) + 3
  {
    PackedNone();
    hide FieldBytes, Packed;
    PackedOne(a, [b, c]);
    PackedOne(a, [b]);
    PackedOne(b, [c]);
    PackedOne(b, []);
    PackedOne(c, []);
    assert [a] + [b, c] == [a, b, c] && [a] + [b] == [a, b] && [b] + [c] == [b, c] && [b] + [] == [b]
           && [c] + [] == [c];
  }

  lemma PackedNone()
    ensures Packed([]) == []
  {
  }

  lemma FreshLengths()
    ensures |Render(KeysRecord(KeyTexts(VAULT, KEYS)))| == 201
    ensures |Render(AuthorizationRecord(AuthorizationState(1, NO_DIGEST)))| == 72
  {
    hide Packed;
    var key := Field.Text(NO_DIGEST);
    PackedLength(key, key, key);
    PackedLength(Number(1), key, key);
  }

  lemma StreamOfTwo(c: Codec, a: Logical, b: Logical)
    requires |c.render(a)| < 1000 && |c.render(b)| < 1000
    ensures Printable(c, [a, b]) && |StreamOf(c, [a, b])| == 16 + |c.render(a)| + |c.render(b)|
  {
    assert [a, b][1..] == [b] && [b][1..] == [];
    assert StreamOf(c, [b]) == Framed(KindOf(b), c.render(b)) + [];
  }

  /** The stream of a fresh vault is small, and the archive format admits it. */
  lemma FreshFits()
    ensures var rs := RecordsOf(KeyTexts(VAULT, KEYS), Empty());
            StreamFits(RecordCodec(), rs) && Archivable(ARCHIVE, RecordCodec(), rs, RECOVERY, MANIFEST)
  {
    hide RecordsOf, KeyTexts, Render, StreamOf;
    FreshRecords();
    FreshLengths();
    StreamOfTwo(RecordCodec(), KeysRecord(KeyTexts(VAULT, KEYS)),
                AuthorizationRecord(AuthorizationState(1, NO_DIGEST)));
    ArchiveIsLawful();
  }

  lemma FreshVerifies()
    ensures VerifiesOn(VAULT, INSTALLATION, Empty())
  {
  }

  lemma FreshPasses(mode: CredentialRestoreMode, now: i64)
    requires now >= 0
    ensures Passes(VAULT, Empty(), MANIFEST, mode, now)
  {
  }

  /** All that the end-to-end theorem asks, of one vault, key, manifest and set of primitives. */
  lemma ConditionsAreMet(mode: CredentialRestoreMode, now: i64, text: Snapshot<bytes>)
    requires now >= 0 && IsText(VAULT, INSTALLATION, Empty(), text)
    ensures Archive.Lawful(ARCHIVE) && Lawful(VAULT) && LawfulCodec(RecordCodec())
            && VerifiesOn(VAULT, INSTALLATION, Empty())
    ensures MANIFEST.logicalVaultId == INSTALLATION.vaultId && MANIFEST.sourceSchemaVersion == SCHEMA_VERSION
    ensures StreamFits(RecordCodec(), RecordsOf(KeyTexts(VAULT, KEYS), text))
    ensures Archivable(ARCHIVE, RecordCodec(), RecordsOf(KeyTexts(VAULT, KEYS), text), RECOVERY, MANIFEST)
    ensures Passes(VAULT, Empty(), MANIFEST, mode, now)
  {
    assert text == Empty();
    hide Archive.Lawful, Lawful, LawfulCodec, VerifiesOn, StreamFits, Archivable, Passes, RecordsOf, KeyTexts, IsText;
    ArchiveIsLawful();
    VaultIsLawful();
    CodecIsLawful();
    FreshVerifies();
    FreshFits();
    FreshPasses(mode, now);
  }
}
