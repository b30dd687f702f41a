/** Writing and decoding a whole archive: `write_archive` and `decode_archive`. */
module Archive {
  import opened Bytes
  import opened Text
  import opened Header
  import opened Frames
  import opened RecordFraming

  datatype ArchiveError =
    | BadHeader(header: HeaderError) | ReadFailed | InvalidKey | Corrupt | OutOfBounds

  datatype ArchiveMetadata = ArchiveMetadata(
    logicalVaultId: Id,
    sourceInstallationId: Id,
    sourceRecoveryEpoch: u64,
    sourceSchemaVersion: u32,
    securitySemanticsVersion: u32,
    createdAt: i64)

  datatype FinalManifest = FinalManifest(recordCount: u64, logicalBytes: u64, logicalDigest: Digest, dataFrames: u64)

  datatype ArchiveKey = Passphrase(text: bytes) | Recovery(key: bytes)

  datatype ArchiveOptions = ArchiveOptions(chunkBytes: u32, recordLimit: u64, argon2: Argon2Parameters)

  datatype ArchiveSummary = ArchiveSummary(archiveId: Id, archiveBytes: u64, recordCount: u64, logicalBytes: u64)

  datatype VerifiedArchive = VerifiedArchive(
    header: PublicHeader,
    metadata: ArchiveMetadata,
    recordCount: u64,
    logicalBytes: u64,
    logicalDigest: Digest)

  /** Library code the archive relies on. */
  datatype Primitives = Primitives(
    enc: Cipher,
    sha256: bytes -> Digest,
    argon2id: (bytes, bytes, Argon2Parameters) -> bytes,
    hmac: (bytes, bytes) -> bytes,
    printMetadata: ArchiveMetadata -> bytes,
    parseMetadata: bytes -> Option<ArchiveMetadata>,
    printFinal: FinalManifest -> bytes,
    parseFinal: bytes -> Option<FinalManifest>)

  /** Ciphertexts carry a tag; JSON parses what it printed, and the final manifest's JSON is small. */
  ghost predicate Lawful(p: Primitives) {
    && Tagged(p.enc)
    && (forall m :: p.parseMetadata(p.printMetadata(m)) == Some(m))
    && (forall m :: p.parseFinal(p.printFinal(m)) == Some(m))
    && (forall m :: |p.printFinal(m)| <= MAX_MANIFEST_BYTES)
  }

  /** Everything `getrandom` supplies to one write. */
  datatype Randomness = Randomness(archiveId: Id, salt: bytes, wrapNonce: bytes, dek: bytes, tape: Tape)

  ghost predicate ProperRandomness(r: Randomness) {
    |r.salt| == MIN_SALT_BYTES && |r.wrapNonce| == WRAP_NONCE_BYTES && |r.dek| == 32 && NonceTape(r.tape)
  }

  predicate ValidOptions(o: ArchiveOptions) {
    && MIN_CHUNK_BYTES <= o.chunkBytes <= MAX_CHUNK_BYTES
    && 1 <= o.recordLimit <= MAX_RECORDS
    && ValidArgon2(o.argon2)
  }

  /** `derive_wrapping_key`: the key material must match the header's mode. */
  function WrappingKey(p: Primitives, key: ArchiveKey, h: PublicHeader): Result<bytes, ArchiveError> {
    match key
    case Passphrase(text) =>
      if h.keyMode.PassphraseArgon2id? && 0 < |text| <= 1024 && h.argon2.Some? then
        Ok(p.argon2id(text, h.salt, h.argon2.value))
      else Err(InvalidKey)
    case Recovery(k) =>
      if h.keyMode.RecoveryKey? then Ok(p.hmac(k, WRAP_LABEL + h.archiveId)) else Err(InvalidKey)
  }

  const WRAP_LABEL: bytes := Ascii("SMCV-BACKUP-WRAP-v1")

  /** Key material of the header's mode whose derivation, spelled out, is this wrapping key. */
  ghost predicate Unlocks(p: Primitives, key: ArchiveKey, h: PublicHeader, wrappingKey: bytes) {
    match key
    case Passphrase(text) =>
      && h.keyMode == PassphraseArgon2id && 1 <= |text| <= 1024
      && h.argon2.Some? && wrappingKey == p.argon2id(text, h.salt, h.argon2.value)
    case Recovery(k) =>
      h.keyMode == RecoveryKey && wrappingKey == p.hmac(k, Ascii("SMCV-BACKUP-WRAP-v1") + h.archiveId)
  }

  /** Derivation yields a wrapping key exactly from key material that unlocks with it; all other is refused alike. */
  lemma UnlocksIff(p: Primitives, key: ArchiveKey, h: PublicHeader, wrappingKey: bytes)
    ensures WrappingKey(p, key, h) == Ok(wrappingKey) <==> Unlocks(p, key, h, wrappingKey)
    ensures WrappingKey(p, key, h).Err? ==> WrappingKey(p, key, h) == Err(InvalidKey)
  {
  }

  // ----- What a write produces -----

  /** The header before its wrapped key is filled in. */
  function DraftHeader(key: ArchiveKey, o: ArchiveOptions, rnd: Randomness): PublicHeader {
    PublicHeader(
      rnd.archiveId,
      if key.Passphrase? then PassphraseArgon2id else RecoveryKey,
      if key.Passphrase? then rnd.salt else [],
      if key.Passphrase? then Some(o.argon2) else None,
      o.chunkBytes, o.recordLimit, rnd.wrapNonce, seq(WRAPPED_DEK_BYTES, _ => 0))
  }

  /** All frames of a prefix of the plaintext frames, in order. */
  function FramesOf(enc: Cipher, dek: bytes, id: Id, tape: Tape, plains: seq<Plain>): bytes
    requires Tagged(enc) && Sealable(plains)
  {
    if plains == [] then [] else
      var n := |plains| - 1;
      FramesOf(enc, dek, id, tape, plains[..n]) + SealBytes(enc, dek, id, n, tape(n), plains[n])
  }

  /** The ideal AEAD's log after sealing those frames. */
  function SealAll(log: Log, enc: Cipher, dek: bytes, id: Id, tape: Tape, plains: seq<Plain>): Log
    requires Sealable(plains)
  {
    if plains == [] then log else
      var n := |plains| - 1;
      SealAll(log, enc, dek, id, tape, plains[..n])[SealQuery(enc, dek, id, n, tape(n), plains[n]) := plains[n].body]
  }

  function DataPlains(chunks: seq<bytes>): (r: seq<Plain>)
    ensures |r| == |chunks|
  {
    seq(|chunks|, i requires 0 <= i < |chunks| => Plain(2, chunks[i]))
  }

  /** The frames of a completed archive: manifest, one data frame per read, final manifest. */
  function CompletePlains(p: Primitives, m: ArchiveMetadata, chunks: seq<bytes>, records: u64): seq<Plain>
    requires |Concat(chunks)| <= U64_MAX && |chunks| <= U64_MAX
  {
    [Plain(1, p.printMetadata(m))] + DataPlains(chunks)
    + [Plain(3, p.printFinal(FinalOf(p, chunks, records)))]
  }

  /** One write, finished or cut short: its header, keys, nonces and the frames it got to. */
  datatype Run = Run(header: PublicHeader, wrappingKey: bytes, dek: bytes, tape: Tape, plains: seq<Plain>)

  ghost predicate ValidRun(enc: Cipher, r: Run) {
    && ValidHeader(r.header) && Sealable(r.plains) && NonceTape(r.tape) && Tagged(enc)
    && r.header.wrappedDek == enc(r.wrappingKey, r.header.wrapNonce, EncodeHeaderPrefix(r.header).value, r.dek)
  }

  function WrapQuery(r: Run): Query
    requires ValidHeader(r.header)
  {
    Query(r.wrappingKey, r.header.wrapNonce, EncodeHeaderPrefix(r.header).value, r.header.wrappedDek)
  }

  ghost function RunBytes(enc: Cipher, r: Run): bytes
    requires ValidRun(enc, r)
  {
    EncodePublicHeader(r.header).value + FramesOf(enc, r.dek, r.header.archiveId, r.tape, r.plains)
  }

  ghost function RunLog(log: Log, enc: Cipher, r: Run): Log
    requires ValidRun(enc, r)
  {
    SealAll(log[WrapQuery(r) := r.dek], enc, r.dek, r.header.archiveId, r.tape, r.plains)
  }

  lemma {:induction false} ConcatAppend(chunks: seq<bytes>, c: bytes)
    ensures Concat(chunks + [c]) == Concat(chunks) + c
  {
    if chunks == [] {
      assert chunks + [c] == [c] && [c][1..] == [];
    } else {
      assert (chunks + [c])[1..] == chunks[1..] + [c];
      ConcatAppend(chunks[1..], c);
    }
  }

  lemma FramesAppend(enc: Cipher, dek: bytes, id: Id, tape: Tape, log: Log, plains: seq<Plain>, plain: Plain)
    requires Tagged(enc) && Sealable(plains) && |plain.body| + AEAD_TAG_BYTES < 0x1_0000_0000 && |plains| < U64_MAX
    ensures FramesOf(enc, dek, id, tape, plains + [plain])
         == FramesOf(enc, dek, id, tape, plains) + SealBytes(enc, dek, id, |plains|, tape(|plains|), plain)
    ensures SealAll(log, enc, dek, id, tape, plains + [plain])
         == SealAll(log, enc, dek, id, tape,
                    plains)[SealQuery(enc, dek, id, |plains|, tape(|plains|), plain) := plain.body]
  {
    assert (plains + [plain])[..|plains|] == plains;
  }

  lemma DataPlainsAppend(chunks: seq<bytes>, i: nat)
    requires i < |chunks|
    ensures DataPlains(chunks[..i + 1]) == DataPlains(chunks[..i]) + [Plain(2, chunks[i])]
    ensures Concat(chunks[..i + 1]) == Concat(chunks[..i]) + chunks[i]
  {
    assert chunks[..i + 1] == chunks[..i] + [chunks[i]];
    ConcatAppend(chunks[..i], chunks[i]);
  }

  function CountFailure(e: CountError): ArchiveError {
    match e
    case Integrity => Corrupt
    case InvalidBound => OutOfBounds
  }

  predicate UsableKey(key: ArchiveKey) {
    key.Passphrase? ==> 16 <= |key.text| <= 1024
  }

  /** The size of a finished archive. */
  function ArchiveSize(p: Primitives, key: ArchiveKey, m: ArchiveMetadata, chunks: seq<bytes>, final: bytes): nat {
    MIN_HEADER_BYTES + (if key.Passphrase? then MIN_SALT_BYTES else 0)
    + (FRAME_HEADER_BYTES + AEAD_TAG_BYTES) * (|chunks| + 2)
    + |p.printMetadata(m)| + |Concat(chunks)| + |final|
  }

  function FinalOf(p: Primitives, chunks: seq<bytes>, records: u64): FinalManifest
    requires |Concat(chunks)| <= U64_MAX && |chunks| <= U64_MAX
  {
    FinalManifest(records, |Concat(chunks)|, p.sha256(Concat(chunks)), |chunks|)
  }

  /** Exactly when a write succeeds, destination I/O aside. */
  ghost predicate Writable(p: Primitives, key: ArchiveKey, m: ArchiveMetadata, chunks: seq<bytes>, o: ArchiveOptions) {
    && 16_384 <= o.chunkBytes <= 4_194_304 && 1 <= o.recordLimit <= 10_000_000
    && 65_536 <= o.argon2.memoryKib <= 262_144 && 1 <= o.argon2.iterations <= 10 && 1 <= o.argon2.lanes <= 4
    && (key.Passphrase? ==> 16 <= |key.text| <= 1024) && |p.printMetadata(m)| <= 65_536
    && var n := Finish(Feed(START, Concat(chunks), o.recordLimit));
    && n.Ok? && n.value <= U64_MAX && |Concat(chunks)| <= U64_MAX && |chunks| <= U64_MAX
    && ArchiveSize(p, key, m, chunks, p.printFinal(FinalOf(p, chunks, n.value))) <= U64_MAX
  }

  /** The kinds a writer emits: manifest first, then data, and nothing after a final manifest. */
  predicate WriterShaped(plains: seq<Plain>) {
    forall j :: 0 <= j < |plains| ==>
      if j == 0 then plains[j].kind == 1
      else plains[j].kind == 2 || (plains[j].kind == 3 && j == |plains| - 1)
  }

  /** A write that has not reached its final manifest. */
  predicate DataShaped(plains: seq<Plain>) {
    forall j :: 0 <= j < |plains| ==> plains[j].kind == if j == 0 then 1 else 2
  }

  /** The destination and the AEAD's log as a write leaves them. */
  datatype Output = Output(out: bytes, log: Log)

  /** An output is exactly what a run has written and sealed. */
  ghost predicate Describes(enc: Cipher, log0: Log, run: Run, w: Output) {
    ValidRun(enc, run) && w.out == RunBytes(enc, run) && w.log == RunLog(log0, enc, run)
  }

  lemma SealSize(enc: Cipher, dek: bytes, id: Id, i: u64, nonce: bytes, plain: Plain)
    requires Tagged(enc) && |nonce| == 24 && |plain.body| + AEAD_TAG_BYTES < 0x1_0000_0000
    ensures |SealBytes(enc, dek, id, i, nonce, plain)| == FRAME_HEADER_BYTES + AEAD_TAG_BYTES + |plain.body|
  {
  }

  lemma DescribesNext(enc: Cipher, log0: Log, run: Run, w: Output, plain: Plain)
    requires Describes(enc, log0, run, w) && |plain.body| + AEAD_TAG_BYTES < 0x1_0000_0000 && |run.plains| < U64_MAX
    ensures var n := |run.plains|;
            var id := run.header.archiveId;
            var piece := SealBytes(enc, run.dek, id, n, run.tape(n), plain);
            var next := Output(w.out + piece, w.log[SealQuery(enc, run.dek, id, n, run.tape(n), plain) := plain.body]);
            && Describes(enc, log0, run.(plains := run.plains + [plain]), next)
            && |piece| == FRAME_HEADER_BYTES + AEAD_TAG_BYTES + |plain.body|
  {
    var n, id := |run.plains|, run.header.archiveId;
    FramesAppend(enc, run.dek, id, run.tape, log0[WrapQuery(run) := run.dek], run.plains, plain);
    SealSize(enc, run.dek, id, n, run.tape(n), plain);
    var next := run.(plains := run.plains + [plain]);
    assert ValidRun(enc, next);
    var piece := SealBytes(enc, run.dek, id, n, run.tape(n), plain);
    assert RunBytes(enc, next) == w.out + piece;
  }

  /** `write_frame`: appends the frame at the next position. */
  method WriteFrame(enc: Cipher, ghost log0: Log, ghost run: Run, w: Output, dek: bytes, id: Id, sequence: u64,
                    nonce: bytes, plain: Plain)
    returns (r: Result<Output, ArchiveError>)
    requires Describes(enc, log0, run, w) && run.dek == dek && run.header.archiveId == id
    requires sequence == |run.plains| < U64_MAX && nonce == run.tape(sequence)
    ensures r.Ok? <==> |plain.body| + AEAD_TAG_BYTES < 0x1_0000_0000
    ensures r.Ok? ==> Describes(enc, log0, run.(plains := run.plains + [plain]), r.value)
    ensures r.Ok? ==> |r.value.out| == |w.out| + FRAME_HEADER_BYTES + AEAD_TAG_BYTES + |plain.body|
    ensures r.Err? ==> r.error == OutOfBounds
  {
    if |plain.body| + AEAD_TAG_BYTES >= 0x1_0000_0000 {
      return Err(OutOfBounds);
    }
    var length := |plain.body| + AEAD_TAG_BYTES;
    var aad := FrameAad(id, sequence, plain.kind, length);
    var ciphertext := enc(dek, nonce, aad, plain.body);
    var piece := U32(length) + U64(sequence) + [plain.kind, 0] + nonce + ciphertext;
    DescribesNext(enc, log0, run, w, plain);
    return Ok(Output(w.out + piece, w.log[Query(dek, nonce, aad, ciphertext) := plain.body]));
  }

  lemma {:induction false} ConcatSplit(chunks: seq<bytes>, i: nat)
    requires i <= |chunks|
    ensures Concat(chunks) == Concat(chunks[..i]) + Concat(chunks[i..])
  {
    if i == 0 {
      assert chunks[..0] == [] && chunks[0..] == chunks;
    } else {
      ConcatSplit(chunks[1..], i - 1);
      assert chunks[..i][1..] == chunks[1..][..i - 1];
      assert chunks[1..][i - 1..] == chunks[i..];
    }
  }

  /** What a prefix of the reads says about the whole stream. */
  lemma PrefixFacts(chunks: seq<bytes>, i: nat, limit: nat)
    requires i < |chunks|
    ensures |Concat(chunks[..i])| + |chunks[i]| <= |Concat(chunks)|
    ensures Feed(START, Concat(chunks[..i]) + chunks[i], limit)
            == Feed(Feed(START, Concat(chunks[..i]), limit), chunks[i], limit)
    ensures Feed(START, Concat(chunks[..i]) + chunks[i], limit).Failed? ==> Feed(START, Concat(chunks), limit).Failed?
  {
    DataPlainsAppend(chunks, i);
    ConcatSplit(chunks, i + 1);
    FeedSplit(START, Concat(chunks[..i]), chunks[i], limit);
    FeedSplit(START, Concat(chunks[..i + 1]), Concat(chunks[i + 1..]), limit);
    var s := Feed(START, Concat(chunks[..i]) + chunks[i], limit);
    if s.Failed? {
      FeedFailed(s, Concat(chunks[i + 1..]), limit);
    }
  }

  /** The opening of `write_archive`: draws the header, wraps the data key and writes the header out. */
  method BeginArchive(p: Primitives, log0: Log, key: ArchiveKey, o: ArchiveOptions, rnd: Randomness)
    returns (w: Output, header: PublicHeader, ghost run: Run)
    requires Lawful(p) && ProperRandomness(rnd) && ValidOptions(o) && UsableKey(key)
    ensures Describes(p.enc, log0, run, w) && run.plains == [] && run.dek == rnd.dek && run.tape == rnd.tape
    ensures run.header == header && header.archiveId == rnd.archiveId
    ensures header.chunkBytes == o.chunkBytes && header.recordLimit == o.recordLimit
    ensures Unlocks(p, key, header, run.wrappingKey)
    ensures key.Passphrase? ==> header.salt == rnd.salt && header.argon2 == Some(o.argon2)
    ensures |w.out| == MIN_HEADER_BYTES + (if key.Passphrase? then MIN_SALT_BYTES else 0)
  {
    var draft := DraftHeader(key, o, rnd);
    var wrappingKey := WrappingKey(p, key, draft).value;
    var prefix := EncodeHeaderPrefix(draft).value;
    header := draft.(wrappedDek := p.enc(wrappingKey, draft.wrapNonce, prefix, rnd.dek));
    assert EncodeHeaderPrefix(header) == Ok(prefix);
    PreambleLayout(header);
    ParametersLayout(header);
    run := Run(header, wrappingKey, rnd.dek, rnd.tape, []);
    w := Output(EncodePublicHeader(header).value,
                log0[Query(wrappingKey, header.wrapNonce, prefix, header.wrappedDek) := rnd.dek]);
    assert w.out + [] == w.out;
  }

  /** The read loop of `write_archive`: counts, hashes and seals one data frame per read. */
  method WriteData(p: Primitives, ghost log0: Log, ghost run0: Run, w0: Output, chunks: seq<bytes>, o: ArchiveOptions,
                   dek: bytes, id: Id, tape: Tape)
    returns (r: Result<(u64, bytes), ArchiveError>, w: Output, ghost run: Run)
    requires Lawful(p) && Describes(p.enc, log0, run0, w0) && |run0.plains| == 1 && DataShaped(run0.plains)
             && |w0.out| <= U64_MAX
    requires run0.dek == dek && run0.header.archiveId == id && run0.tape == tape
    requires o.chunkBytes <= MAX_CHUNK_BYTES
    requires forall i :: 0 <= i < |chunks| ==> 0 < |chunks[i]| <= o.chunkBytes
    ensures Describes(p.enc, log0, run, w) && run == run0.(plains := run.plains) && DataShaped(run.plains)
    ensures r.Ok? ==> r.value.1 == Concat(chunks) && run.plains == run0.plains + DataPlains(chunks)
    ensures r.Ok? ==> Finish(Feed(START, Concat(chunks), o.recordLimit)) == Ok(r.value.0)
    ensures r.Ok? ==> |w.out| == |w0.out| + 54 * |chunks| + |Concat(chunks)| <= U64_MAX
    ensures r.Err? ==> Finish(Feed(START, Concat(chunks), o.recordLimit)).Err?
                       || |w0.out| + 54 * |chunks| + |Concat(chunks)| > U64_MAX
  {
    hide Describes;
    w, run := w0, run0;
    var counter := new RecordCounter(o.recordLimit);
    var hashed: bytes := [];
    var i := 0;
    assert chunks[..0] == [];
    assert run0.plains + DataPlains([]) == run0.plains;
    while i < |chunks|
      invariant 0 <= i <= |chunks|
      invariant fresh(counter) && fresh(counter.header) && counter.Valid() && counter.limit == o.recordLimit
      invariant hashed == Concat(chunks[..i])
      invariant counter.State() == Feed(START, hashed, o.recordLimit)
      invariant run == run0.(plains := run0.plains + DataPlains(chunks[..i]))
      invariant Describes(p.enc, log0, run, w)
      invariant |w.out| == |w0.out| + 54 * i + |hashed| <= U64_MAX
    {
      PrefixFacts(chunks, i, o.recordLimit);
      var counted := counter.Update(chunks[i]);
      if counted.Err? {
        return Err(CountFailure(counted.error)), w, run;
      }
      var frame := WriteFrame(p.enc, log0, run, w, dek, id, i + 1, tape(i + 1), Plain(2, chunks[i]));
      DataPlainsAppend(chunks, i);
      w := frame.value;
      hashed := hashed + chunks[i];
      run := run.(plains := run.plains + [Plain(2, chunks[i])]);
      assert run.plains == run0.plains + DataPlains(chunks[..i + 1]);
      i := i + 1;
      if |w.out| > U64_MAX {
        return Err(OutOfBounds), w, run;
      }
    }
    assert chunks[..i] == chunks;
    var total := counter.Complete();
    if total.Err? {
      return Err(CountFailure(total.error)), w, run;
    }
    return Ok((total.value, hashed)), w, run;
  }

  /**
   * `write_archive` on the successive non-empty reads `chunks` of the logical stream. Whether or not it
   * succeeds, what has been written and sealed is described by `run`; success means a complete run whose
   * records the counter accepted.
   */
  method WriteArchive(p: Primitives, log0: Log, chunks: seq<bytes>, key: ArchiveKey, m: ArchiveMetadata,
                      o: ArchiveOptions, rnd: Randomness)
    returns (r: Result<ArchiveSummary, ArchiveError>, w: Output, ghost run: Option<Run>)
    requires Lawful(p) && ProperRandomness(rnd)
    requires forall i :: 0 <= i < |chunks| ==> 0 < |chunks[i]| <= o.chunkBytes
    ensures run.None? ==> r.Err? && w == Output([], log0)
    ensures run.Some? ==> Describes(p.enc, log0, run.value, w) && run.value.dek == rnd.dek
    ensures run.Some? ==> WriterShaped(run.value.plains)
    ensures run.Some? ==> Unlocks(p, key, run.value.header, run.value.wrappingKey)
    ensures run.Some? && key.Passphrase? ==>
            run.value.header.salt == rnd.salt && run.value.header.argon2 == Some(o.argon2)
    ensures r.Ok? <==> Writable(p, key, m, chunks, o)
    ensures r.Ok? ==> run.Some? && CompleteRun(p, run.value, m, chunks, o)
    ensures r.Ok? ==> r.value.archiveId == rnd.archiveId && r.value.archiveBytes == |w.out|
    ensures r.Ok? ==> Finish(Feed(START, Concat(chunks), o.recordLimit)) == Ok(r.value.recordCount)
    ensures r.Ok? ==> r.value.logicalBytes == |Concat(chunks)|
    ensures r.Ok? ==> |w.out| == ArchiveSize(p, key, m, chunks, p.printFinal(FinalOf(p, chunks, r.value.recordCount)))
  {
    hide Describes;
    w, run := Output([], log0), None;
    if !ValidOptions(o) {
      return Err(OutOfBounds), w, run;
    }
    if key.Passphrase? && !(16 <= |key.text| <= 1024) {
      return Err(InvalidKey), w, run;
    }
    var header;
    ghost var run0;
    w, header, run0 := BeginArchive(p, log0, key, o, rnd);
    run := Some(run0);
    var manifest := p.printMetadata(m);
    if |manifest| > MAX_MANIFEST_BYTES {
      return Err(OutOfBounds), w, run;
    }
    var id := rnd.archiveId;
    var frame := WriteFrame(p.enc, log0, run0, w, rnd.dek, id, 0, rnd.tape(0), Plain(1, manifest));
    w := frame.value;
    ghost var run1 := run0.(plains := [Plain(1, manifest)]);
    assert run0.plains + [Plain(1, manifest)] == run1.plains;
    var counted;
    ghost var run2;
    counted, w, run2 := WriteData(p, log0, run1, w, chunks, o, rnd.dek, id, rnd.tape);
    run := Some(run2);
    if counted.Err? {
      return Err(counted.error), w, run;
    }
    var (records, hashed) := counted.value;
    var final := p.printFinal(FinalManifest(records, |hashed|, p.sha256(hashed), |chunks|));
    var n := |chunks| + 1;
    frame := WriteFrame(p.enc, log0, run2, w, rnd.dek, id, n, rnd.tape(n), Plain(3, final));
    w := frame.value;
    run := Some(run2.(plains := run2.plains + [Plain(3, final)]));
    if |w.out| > U64_MAX {
      return Err(OutOfBounds), w, run;
    }
    return Ok(ArchiveSummary(id, |w.out|, records, |hashed|)), w, run;
  }

  /** A run that reached its final manifest. */
  ghost predicate CompleteRun(p: Primitives, run: Run, m: ArchiveMetadata, chunks: seq<bytes>, o: ArchiveOptions) {
    && run.header.chunkBytes == o.chunkBytes && run.header.recordLimit == o.recordLimit
    && |Concat(chunks)| <= U64_MAX && |chunks| <= U64_MAX
    && var n := Finish(Feed(START, Concat(chunks), o.recordLimit));
       n.Ok? && n.value <= U64_MAX && run.plains == CompletePlains(p, m, chunks, n.value)
  }
}
