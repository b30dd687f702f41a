/** From one vault to another through a file: snapshot, stream, archive, and back. */
module BackupFiles {
  import opened Bytes
  import Header
  import Frames
  import RecordFraming
  import Archive
  import Decoding
  import ArchiveTheorems
  import opened GraphCommitment
  import opened Portable
  import opened LogicalStream
  import opened LogicalRecords
  import opened Restore
  import opened RestoreTheorems
  import opened RestoreRelations
  import opened RestoreChecks

  const SCHEMA_VERSION: u32 := 3
  const SECURITY_SEMANTICS_VERSION: u32 := 1
  const CHUNK_BYTES: u32 := 1024 * 1024
  const MAX_PORTABLE_FILE_BYTES: nat := 8 * 1024 * 1024 * 1024

  /** `ArchiveOptions::default`. */
  const OPTIONS: Archive.ArchiveOptions :=
    Archive.ArchiveOptions(CHUNK_BYTES, Header.MAX_RECORDS, Header.Argon2Parameters(64 * 1024, 3, 1))

  // ----- Writing -----

  /** What a cursor over the stream yields, one full buffer after the other. */
  function Reads(stream: bytes): (r: seq<bytes>)
    ensures |r| <= |stream| && |r| * CHUNK_BYTES < |stream| + CHUNK_BYTES && RecordFraming.Concat(r) == stream
    ensures forall i :: 0 <= i < |r| ==> 0 < |r[i]| <= CHUNK_BYTES
    decreases |stream|
  {
    if stream == [] then []
    else
      var n := if |stream| < CHUNK_BYTES then |stream| else CHUNK_BYTES;
      [stream[..n]] + Reads(stream[n..])
  }

  /** What the archive format asks of a backup's records, key and manifest. */
  ghost predicate Archivable(ap: Archive.Primitives, c: Codec, rs: seq<Logical>, key: Archive.ArchiveKey,
                             m: Archive.ArchiveMetadata) {
    && RecordsBounded(c, rs) && |rs| <= Header.MAX_RECORDS
    && Archive.UsableKey(key) && |ap.printMetadata(m)| <= Frames.MAX_MANIFEST_BYTES
  }

  /** A stream within its limit makes an archive far below the reader's cap, so nothing else can stop the writer. */
  lemma WritableIff(ap: Archive.Primitives, c: Codec, rs: seq<Logical>, key: Archive.ArchiveKey,
                    m: Archive.ArchiveMetadata)
    requires Archive.Lawful(ap) && StreamFits(c, rs)
    ensures var chunks := Reads(StreamOf(c, rs));
            && (Archive.Writable(ap, key, m, chunks, OPTIONS) <==> Archivable(ap, c, rs, key, m))
            && (Archivable(ap, c, rs, key, m) ==>
                  var counted := RecordFraming.Feed(RecordFraming.START, RecordFraming.Concat(chunks),
                                                    OPTIONS.recordLimit);
                  var final := ap.printFinal(Archive.FinalOf(ap, chunks, |rs|));
                  && RecordFraming.Finish(counted) == Ok(|rs|)
                  && 0 < Archive.ArchiveSize(ap, key, m, chunks, final) <= 8_589_934_592)
  {
    hide StreamOf, RecordFraming.Feed, RecordFraming.Finish, Reads, RecordsBounded;
    CounterCountsStream(c, rs, Header.MAX_RECORDS);
  }

  /** What the archive reader makes of a file, and the file's size. */
  datatype Opened = Opened(size: nat, result: Result<(Archive.VerifiedArchive, bytes), Archive.ArchiveError>)

  function Open(ap: Archive.Primitives, log: Frames.Log, file: bytes, key: Archive.ArchiveKey): Opened
    requires |file| <= U64_MAX
  {
    Opened(|file|, Decoding.Decode(ap, log, file, |file|, key))
  }

  /** The file opens as this manifest and the stream of these records. */
  ghost predicate ReadsBack(c: Codec, o: Opened, m: Archive.ArchiveMetadata, rs: seq<Logical>) {
    && StreamFits(c, rs) && 0 < o.size <= 8_589_934_592 && o.result.Ok?
    && var (v, stream) := o.result.value;
       v.metadata == m && v.recordCount == |rs| && stream == StreamOf(c, rs)
  }

  /** `write_and_verify_backup`. */
  method CreateBackup(ap: Archive.Primitives, p: Primitives, c: Codec, log0: Frames.Log, a: Installation,
                      s: Snapshot<Envelope>, key: Archive.ArchiveKey, m: Archive.ArchiveMetadata,
                      rnd: Archive.Randomness)
    returns (r: Option<Archive.VerifiedArchive>, w: Archive.Output, ghost text: Snapshot<bytes>)
    requires Archive.Lawful(ap) && Archive.ProperRandomness(rnd)
    ensures AllOpen(p, a, s) ==> IsText(p, a, s, text)
    ensures var rs := RecordsOf(KeyTexts(p, a.keys), text);
            && (r.Some? <==> AllOpen(p, a, s) && StreamFits(c, rs) && Archivable(ap, c, rs, key, m))
            && (r.Some? ==> r.value.metadata == m && r.value.recordCount == |rs| && |w.out| <= U64_MAX
                            && ReadsBack(c, Open(ap, w.log, w.out, key), m, rs))
  {
    hide RecordsOf, StreamOf, IsText, AllOpen, KeyTexts, Archive.Writable, RecordFraming.Feed, RecordFraming.Finish;
    hide Decoding.Decode;
    hide Archive.Lawful, Archive.ProperRandomness, Archive.ArchiveSize, Archivable;
    w := Archive.Output([], log0);
    var logical;
    logical, text := EncodeLogicalSnapshot(p, c, a, s);
    if logical.None? {
      return None, w, text;
    }
    var chunks := Reads(logical.value.0);
    WritableIff(ap, c, RecordsOf(KeyTexts(p, a.keys), text), key, m);
    var verified;
    verified, w := ArchiveTheorems.WriteAndVerify(ap, log0, chunks, key, m, OPTIONS, rnd);
    if verified.Err? {
      return None, w, text;
    }
    return Some(verified.value), w, text;
  }

  // ----- Reading -----

  /** The destination takes over the vault's identity and keys; its own identity and key ring are fresh. */
  function Destination(blank: Installation, vaultId: Id, keys: VaultKeys): Installation {
    Adopt(blank.(vaultId := vaultId), keys)
  }

  /** Everything up to the transformation goes through, giving `d` to transform in `i`. */
  ghost predicate Loads(p: Primitives, c: Codec, o: Opened, blank: Installation, now: i64, d: Decoded,
                        i: Installation) {
    && now >= 0 && 0 < o.size <= 8_589_934_592 && o.result.Ok?
    && var (v, stream) := o.result.value;
    && |stream| <= MAX_LOGICAL_STREAM_BYTES
    && v.metadata.sourceSchemaVersion == 3
    && v.metadata.securitySemanticsVersion == 1
    && v.metadata.sourceRecoveryEpoch < U64_MAX
    && Parsed(c, stream).Some? && Acceptable(Parsed(c, stream).value, v.recordCount)
    && d == Collected(Parsed(c, stream).value)
    && d.keys.Some? && DecodeKeys(p, d.keys.value).Some?
    && i == Destination(blank, v.metadata.logicalVaultId, DecodeKeys(p, d.keys.value).value)
  }

  /** A restore of the file, with the epoch it starts. */
  ghost predicate Accepted(p: Primitives, c: Codec, o: Opened, blank: Installation, mode: CredentialRestoreMode,
                           now: i64, r: Restored, epoch: u64, d: Decoded) {
    && Loads(p, c, o, blank, now, d, r.installation)
    && Transformable(p, r.installation, d, mode, now) && Transformed(p, r.installation, d, mode, now, r.snapshot)
    && RelationsHold(ShapeOf(r.snapshot)) && ChecksOut(p, r.installation, r.snapshot)
    && CredentialsRestored(d.credentials, r.snapshot.credentials, mode, now, r.revoked)
    && PasskeysRestored(d.authenticators, r.snapshot.authenticators, now, r.disabled)
    && epoch == o.result.value.0.metadata.sourceRecoveryEpoch + 1
  }

  /** If the file loads as transformable rows, what they become does not pass verification. */
  ghost predicate Refused(p: Primitives, c: Codec, o: Opened, blank: Installation, mode: CredentialRestoreMode,
                          now: i64) {
    forall d, i :: Loads(p, c, o, blank, now, d, i) && Transformable(p, i, d, mode, now) ==>
      Unverified(p, i, d, mode, now)
  }

  ghost predicate Unverified(p: Primitives, i: Installation, d: Decoded, mode: CredentialRestoreMode, now: i64) {
    exists t :: Transformed(p, i, d, mode, now, t) && !(RelationsHold(ShapeOf(t)) && ChecksOut(p, i, t))
  }

  /** `restore_backup_file`. */
  method RestoreFile(ap: Archive.Primitives, p: Primitives, c: Codec, log: Frames.Log, file: bytes,
                     key: Archive.ArchiveKey, blank: Installation, mode: CredentialRestoreMode, now: i64,
                     tape: (nat, nat) -> Draw)
    returns (r: Option<(Restored, u64)>)
    requires Lawful(p) && |file| <= U64_MAX
    ensures r.Some? ==> exists d :: Accepted(p, c, Open(ap, log, file, key), blank, mode, now, r.value.0, r.value.1, d)
    ensures r.None? ==> Refused(p, c, Open(ap, log, file, key), blank, mode, now)
  {
    hide Parsed, Collected, Transformable, Transformed, CredentialsRestored, PasskeysRestored, Acceptable;
    hide RelationsHold, ShapeOf, Decoding.Decode;
    hide DecodeKeys;
    hide Lawful, ChecksOut;
    ghost var o := Open(ap, log, file, key);
    if now < 0 || |file| == 0 || |file| > MAX_PORTABLE_FILE_BYTES {
      return None;
    }
    var verified, canonical := Decoding.DecodeArchive(ap, log, file, |file|, key);
    if verified.Err? || |canonical| > MAX_LOGICAL_STREAM_BYTES {
      return None;
    }
    var m := verified.value.metadata;
    if m.sourceSchemaVersion != SCHEMA_VERSION || m.securitySemanticsVersion != SECURITY_SEMANTICS_VERSION {
      return None;
    }
    if m.sourceRecoveryEpoch == U64_MAX {
      return None;
    }
    var restored := RestoreStream(p, c, canonical, verified.value.recordCount, blank.(vaultId := m.logicalVaultId),
                                  mode, now, tape);
    if restored.None? {
      return None;
    }
    ghost var d := Collected(Parsed(c, canonical).value);
    assert Loads(p, c, o, blank, now, d, restored.value.installation);
    var verifies := VerifyRestored(p, restored.value.installation, restored.value.snapshot);
    if !verifies {
      assert Unverified(p, restored.value.installation, d, mode, now);
      return None;
    }
    assert Accepted(p, c, o, blank, mode, now, restored.value, m.sourceRecoveryEpoch + 1, d);
    return Some((restored.value, m.sourceRecoveryEpoch + 1));
  }

  // ----- End to end -----

  /** What a restore asks of the manifest. */
  predicate Supported(m: Archive.ArchiveMetadata) {
    m.securitySemanticsVersion == 1 && m.sourceRecoveryEpoch < U64_MAX
  }

  /** What a restore asks of a verifying source and its manifest. */
  ghost predicate Passes(p: Primitives, s: Snapshot<Envelope>, m: Archive.ArchiveMetadata, mode: CredentialRestoreMode,
                         now: i64) {
    now >= 0 && Supported(m) && Restorable(p, s, mode, now) && RelationsHold(ShapeOf(s))
  }

  /** A file that reads back as the backup of a verifying source. */
  ghost predicate IsBackup(p: Primitives, c: Codec, o: Opened, m: Archive.ArchiveMetadata, a: Installation,
                           s: Snapshot<Envelope>, text: Snapshot<bytes>) {
    && IsText(p, a, s, text) && VerifiesOn(p, a, s) && m.logicalVaultId == a.vaultId
    && m.sourceSchemaVersion == 3
    && ReadsBack(c, o, m, RecordsOf(KeyTexts(p, a.keys), text))
  }

  /** A backup loads as exactly its rows, in a destination with the source's vault identity and keys. */
  lemma BackupLoads(p: Primitives, c: Codec, o: Opened, m: Archive.ArchiveMetadata, a: Installation,
                    s: Snapshot<Envelope>, text: Snapshot<bytes>, blank: Installation, now: i64, d: Decoded,
                    i: Installation)
    requires Lawful(p) && LawfulCodec(c) && IsBackup(p, c, o, m, a, s, text)
    ensures Loads(p, c, o, blank, now, d, i) <==>
            && now >= 0 && Supported(m)
            && d == DecodedOf(KeyTexts(p, a.keys), text) && i == Destination(blank, a.vaultId, a.keys)
  {
    hide RecordsOf, StreamOf, Parsed, Collected, Acceptable, LawfulCodec, Decoding.Decode, KeyTexts, DecodeKeys;
    hide Lawful, IsText, VerifiesOn;
    StreamRoundTrip(c, KeyTexts(p, a.keys), text);
    KeysCarried(p, a.keys);
  }

  /** The restored copy of a verifying source. */
  ghost predicate SameRows(p: Primitives, a: Installation, s: Snapshot<Envelope>, b: Installation,
                           t: Snapshot<Envelope>, mode: CredentialRestoreMode, now: i64)
  {
    && SameMeaning(p, a, s, b, t, mode, now) && VerifiesOn(p, b, t)
    && (mode == Revoke ==> forall k :: 0 <= k < |t.credentials| ==> t.credentials[k].revokedAt.Some?)
  }

  /** A copy in a destination with the source's vault identity and keys, with the counts a report gives. */
  ghost predicate IsCopy(p: Primitives, a: Installation, s: Snapshot<Envelope>, blank: Installation, r: Restored,
                         mode: CredentialRestoreMode, now: i64) {
    && r.installation == Destination(blank, a.vaultId, a.keys)
    && SameRows(p, a, s, r.installation, r.snapshot, mode, now)
    && CredentialsRestored(s.credentials, r.snapshot.credentials, mode, now, r.revoked)
    && PasskeysRestored(s.authenticators, r.snapshot.authenticators, now, r.disabled)
  }

  lemma VerifyingChecksOut(p: Primitives, i: Installation, s: Snapshot<Envelope>)
    requires VerifiesOn(p, i, s)
    ensures ChecksOut(p, i, s)
  {
    hide SecretRowsVerify, IdentityRowsVerify, GraphVerifiesOn;
  }

  /** What was transformed from the backup's rows is a copy of the source, with the source's relationships. */
  lemma TransformedIsCopy(p: Primitives, a: Installation, s: Snapshot<Envelope>, text: Snapshot<bytes>,
                          blank: Installation, t: Snapshot<Envelope>, mode: CredentialRestoreMode, now: i64)
    requires Lawful(p) && IsText(p, a, s, text) && VerifiesOn(p, a, s)
    requires Transformed(p, Destination(blank, a.vaultId, a.keys), DecodedOf(KeyTexts(p, a.keys), text), mode, now, t)
    ensures var d := DecodedOf(KeyTexts(p, a.keys), text);
            d.credentials == s.credentials && d.authenticators == s.authenticators
    ensures SameRows(p, a, s, Destination(blank, a.vaultId, a.keys), t, mode, now)
    ensures RelationsHold(ShapeOf(t)) <==> RelationsHold(ShapeOf(s))
    ensures ChecksOut(p, Destination(blank, a.vaultId, a.keys), t)
  {
    hide Lawful, IsText, VerifiesOn, Transformed, SameMeaning, RelationsHold, ShapeOf, KeyTexts, ChecksOut;
    var i := Destination(blank, a.vaultId, a.keys);
    TransformedMeaning(p, a, s, text, i, t, KeyTexts(p, a.keys), mode, now);
    VerifyingChecksOut(p, i, t);
    ShapePreserved(p, a, s, i, t, mode, now);
  }

  /** A restored backup is a copy of its source, which therefore was restorable. */
  lemma AcceptedIsCopy(p: Primitives, c: Codec, o: Opened, m: Archive.ArchiveMetadata, a: Installation,
                       s: Snapshot<Envelope>, text: Snapshot<bytes>, blank: Installation, mode: CredentialRestoreMode,
                       now: i64, r: Restored, epoch: u64, d: Decoded)
    requires Lawful(p) && LawfulCodec(c) && IsBackup(p, c, o, m, a, s, text)
    requires Accepted(p, c, o, blank, mode, now, r, epoch, d)
    ensures Passes(p, s, m, mode, now)
    ensures IsCopy(p, a, s, blank, r, mode, now) && epoch == m.sourceRecoveryEpoch + 1
  {
    hide Lawful, LawfulCodec, VerifiesOn, IsText, StreamFits, RelationsHold, ShapeOf, Loads, Restorable;
    hide Transformable, ChecksOut, SameRows;
    hide Transformed, CredentialsRestored, PasskeysRestored, RecordsOf, KeyTexts, StreamOf, Decoding.Decode, DecodedOf;
    BackupLoads(p, c, o, m, a, s, text, blank, now, d, r.installation);
    SourceTransformable(p, a, s, text, r.installation, KeyTexts(p, a.keys), mode, now);
    TransformedIsCopy(p, a, s, text, blank, r.snapshot, mode, now);
  }

  /** A refused backup has a reason. */
  lemma RefusedForCause(p: Primitives, c: Codec, o: Opened, m: Archive.ArchiveMetadata, a: Installation,
                        s: Snapshot<Envelope>, text: Snapshot<bytes>, blank: Installation, mode: CredentialRestoreMode,
                        now: i64)
    requires Lawful(p) && LawfulCodec(c) && IsBackup(p, c, o, m, a, s, text)
    requires Refused(p, c, o, blank, mode, now)
    ensures !Passes(p, s, m, mode, now)
  {
    hide Lawful, LawfulCodec, VerifiesOn, IsText, StreamFits, RelationsHold, ShapeOf, Loads, Restorable;
    hide Transformable, ChecksOut, SameRows;
    hide Transformed, CredentialsRestored, PasskeysRestored, RecordsOf, KeyTexts, StreamOf, Decoding.Decode, DecodedOf;
    var keys := KeyTexts(p, a.keys);
    var d, i := DecodedOf(keys, text), Destination(blank, a.vaultId, a.keys);
    BackupLoads(p, c, o, m, a, s, text, blank, now, d, i);
    SourceTransformable(p, a, s, text, i, keys, mode, now);
    if Unverified(p, i, d, mode, now) {
      var t :| Transformed(p, i, d, mode, now, t) && !(RelationsHold(ShapeOf(t)) && ChecksOut(p, i, t));
      TransformedIsCopy(p, a, s, text, blank, t, mode, now);
    }
  }

  /** A backup of a verifying source is restored exactly when the source passes, and then to a copy. */
  lemma RestoredIff(p: Primitives, c: Codec, o: Opened, m: Archive.ArchiveMetadata, a: Installation,
                    s: Snapshot<Envelope>, text: Snapshot<bytes>, blank: Installation, mode: CredentialRestoreMode,
                    now: i64, r: Option<(Restored, u64)>)
    requires Lawful(p) && LawfulCodec(c) && IsBackup(p, c, o, m, a, s, text)
    requires r.Some? ==> exists d :: Accepted(p, c, o, blank, mode, now, r.value.0, r.value.1, d)
    requires r.None? ==> Refused(p, c, o, blank, mode, now)
    ensures r.Some? <==> Passes(p, s, m, mode, now)
    ensures r.Some? ==> IsCopy(p, a, s, blank, r.value.0, mode, now) && r.value.1 == m.sourceRecoveryEpoch + 1
  {
    hide Lawful, LawfulCodec, Accepted, Refused, Passes, IsCopy, IsBackup;
    if r.Some? {
      var d :| Accepted(p, c, o, blank, mode, now, r.value.0, r.value.1, d);
      AcceptedIsCopy(p, c, o, m, a, s, text, blank, mode, now, r.value.0, r.value.1, d);
    } else {
      RefusedForCause(p, c, o, m, a, s, text, blank, mode, now);
    }
  }

  /**
   * A verifying vault comes through its backup file exactly when the stream and its records fit, the key is usable, the
   * versions are the supported ones, and its authenticators, credentials and relationships can be restored. Then the
   * destination is a verifying copy with the same meaning, one recovery epoch later.
   */
  method BackupFileThenRestore(ap: Archive.Primitives, p: Primitives, c: Codec, log0: Frames.Log, a: Installation,
                               s: Snapshot<Envelope>, m: Archive.ArchiveMetadata, key: Archive.ArchiveKey,
                               rnd: Archive.Randomness, blank: Installation, mode: CredentialRestoreMode, now: i64,
                               tape: (nat, nat) -> Draw)
    returns (r: Option<(Restored, u64)>, ghost text: Snapshot<bytes>)
    requires Archive.Lawful(ap) && Archive.ProperRandomness(rnd) && Lawful(p) && LawfulCodec(c) && VerifiesOn(p, a, s)
    requires m.logicalVaultId == a.vaultId && m.sourceSchemaVersion == SCHEMA_VERSION
    ensures IsText(p, a, s, text)
    ensures r.Some? <==>
            && StreamFits(c, RecordsOf(KeyTexts(p, a.keys), text))
            && Archivable(ap, c, RecordsOf(KeyTexts(p, a.keys), text), key, m)
            && Passes(p, s, m, mode, now)
    ensures r.Some? ==> IsCopy(p, a, s, blank, r.value.0, mode, now) && r.value.1 == m.sourceRecoveryEpoch + 1
  {
    assert AllOpen(p, a, s) by { VerifyingSourceOpens(p, a, s); }
    hide Lawful, LawfulCodec, VerifiesOn, IsText, AllOpen, StreamFits, Archivable, Restorable, RelationsHold, ShapeOf;
    hide IsCopy, Loads, ChecksOut;
    hide Transformable, Transformed, CredentialsRestored, PasskeysRestored, RecordsOf, KeyTexts, StreamOf;
    hide Archive.Lawful, Archive.ProperRandomness;
    hide Decoding.Decode;
    hide Accepted, Refused, ReadsBack, Passes, Open;
    var verified, w;
    verified, w, text := CreateBackup(ap, p, c, log0, a, s, key, m, rnd);
    if verified.None? {
      return None, text;
    }
    ghost var o := Open(ap, w.log, w.out, key);
    assert IsBackup(p, c, o, m, a, s, text);
    r := RestoreFile(ap, p, c, w.log, w.out, key, blank, mode, now, tape);
    RestoredIff(p, c, o, m, a, s, text, blank, mode, now, r);
  }
}
