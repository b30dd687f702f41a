/** The archive round trip, and the only byte strings the reader accepts. */
module ArchiveTheorems {
  import opened Bytes
  import opened Text
  import opened Header
  import opened Frames
  import opened RecordFraming
  import opened Archive
  import opened Decoding

  // ----- What a log knows of a run -----

  function FrameQuery(enc: Cipher, run: Run, j: nat): Query
    requires Sealable(run.plains) && j < |run.plains|
  {
    SealQuery(enc, run.dek, run.header.archiveId, j, run.tape(j), run.plains[j])
  }

  function FramePiece(enc: Cipher, run: Run, j: nat): bytes
    requires Tagged(enc) && Sealable(run.plains) && j < |run.plains|
  {
    SealBytes(enc, run.dek, run.header.archiveId, j, run.tape(j), run.plains[j])
  }

  /** The log holds the wrapped key and every frame of the run. */
  ghost predicate Knows(log: Log, enc: Cipher, run: Run)
    requires ValidRun(enc, run)
  {
    && WrapQuery(run) in log && log[WrapQuery(run)] == run.dek
    && forall j :: 0 <= j < |run.plains| ==>
         FrameQuery(enc, run, j) in log && log[FrameQuery(enc, run, j)] == run.plains[j].body
  }

  /** Header wrapping and frame sealing never share associated data: one has 43 bytes, the other at least 78. */
  lemma PrefixLength(h: PublicHeader)
    requires ValidHeader(h)
    ensures EncodeHeaderPrefix(h).Ok? && |EncodeHeaderPrefix(h).value| >= 78
  {
    PreambleLayout(h);
    ParametersLayout(h);
  }

  lemma FrameQueriesDiffer(enc: Cipher, run: Run, j: nat, k: nat)
    requires Sealable(run.plains) && j < k < |run.plains|
    ensures FrameQuery(enc, run, j) != FrameQuery(enc, run, k)
  {
    if FrameQuery(enc, run, j) == FrameQuery(enc, run, k) {
      var id := run.header.archiveId;
      FrameAadInjective(id, j, run.plains[j].kind, |run.plains[j].body| + AEAD_TAG_BYTES,
                        id, k, run.plains[k].kind, |run.plains[k].body| + AEAD_TAG_BYTES);
    }
  }

  /** Sealing frames `0..n` leaves each of them in the log and touches no query with other associated data. */
  lemma {:induction false} SealAllHolds(log: Log, enc: Cipher, run: Run, n: nat)
    requires Sealable(run.plains) && n <= |run.plains|
    ensures var after := SealAll(log, enc, run.dek, run.header.archiveId, run.tape, run.plains[..n]);
            && (forall j :: 0 <= j < n ==>
                  FrameQuery(enc, run, j) in after && after[FrameQuery(enc, run, j)] == run.plains[j].body)
            && (forall q :: q in log && |q.aad| != 43 ==> q in after && after[q] == log[q])
            && (forall q :: q in after ==>
                  (exists j :: 0 <= j < n && q == FrameQuery(enc, run, j) && after[q] == run.plains[j].body)
                  || (q in log && after[q] == log[q]))
  {
    if n > 0 {
      SealAllHolds(log, enc, run, n - 1);
      assert run.plains[..n][..n - 1] == run.plains[..n - 1];
      forall j | 0 <= j < n - 1
        ensures FrameQuery(enc, run, j) != FrameQuery(enc, run, n - 1)
      {
        FrameQueriesDiffer(enc, run, j, n - 1);
      }
    }
  }

  /** After a write the log knows its run. */
  lemma RunLogKnows(log0: Log, enc: Cipher, run: Run)
    requires ValidRun(enc, run)
    ensures Knows(RunLog(log0, enc, run), enc, run)
  {
    PrefixLength(run.header);
    SealAllHolds(log0[WrapQuery(run) := run.dek], enc, run, |run.plains|);
    assert run.plains[..|run.plains|] == run.plains;
  }

  // ----- The frames that remain from a position -----

  function FramesFrom(enc: Cipher, run: Run, i: nat): bytes
    requires Tagged(enc) && Sealable(run.plains) && i <= |run.plains|
    decreases |run.plains| - i
  {
    if i == |run.plains| then [] else FramePiece(enc, run, i) + FramesFrom(enc, run, i + 1)
  }

  lemma {:induction false} FramesSplit(enc: Cipher, run: Run, i: nat)
    requires Tagged(enc) && Sealable(run.plains) && i <= |run.plains|
    ensures FramesOf(enc, run.dek, run.header.archiveId, run.tape, run.plains)
         == FramesOf(enc, run.dek, run.header.archiveId, run.tape, run.plains[..i]) + FramesFrom(enc, run, i)
    decreases |run.plains| - i
  {
    hide SealBytes;
    var n := |run.plains|;
    if i == n {
      assert run.plains[..n] == run.plains;
    } else {
      FramesSplit(enc, run, i + 1);
      assert run.plains[..i + 1][..i] == run.plains[..i];
      var before := FramesOf(enc, run.dek, run.header.archiveId, run.tape, run.plains[..i]);
      assert before + FramePiece(enc, run, i) + FramesFrom(enc, run, i + 1)
          == before + (FramePiece(enc, run, i) + FramesFrom(enc, run, i + 1));
    }
  }

  /** A run's file is its header followed by its frames from position 0. */
  lemma RunBytesSplit(enc: Cipher, run: Run)
    requires ValidRun(enc, run)
    ensures RunBytes(enc, run) == EncodePublicHeader(run.header).value + FramesFrom(enc, run, 0)
  {
    FramesSplit(enc, run, 0);
    assert run.plains[..0] == [];
  }

  // ----- Round trip -----

  /** What the reader is promised about a finished archive: sizes within the reader's bounds and the keys it needs. */
  ghost predicate Readable(p: Primitives, log: Log, run: Run, key: ArchiveKey, m: ArchiveMetadata, chunks: seq<bytes>,
                           o: ArchiveOptions) {
    && Lawful(p) && ValidRun(p.enc, run) && Knows(log, p.enc, run) && CompleteRun(p, run, m, chunks, o)
    && Unlocks(p, key, run.header, run.wrappingKey) && |run.dek| == 32
    && |p.printMetadata(m)| <= MAX_MANIFEST_BYTES
    && (forall i :: 0 <= i < |chunks| ==> |chunks[i]| <= o.chunkBytes)
  }

  /** However a file goes on, the reader parses the header it starts with. */
  lemma HeaderReads(h: PublicHeader, rest: bytes, total: u64)
    requires ValidHeader(h) && total <= MAX_ARCHIVE_BYTES
    ensures EncodePublicHeader(h).Ok?
    ensures var e := EncodePublicHeader(h).value;
            && MIN_HEADER_BYTES <= |e| <= MAX_HEADER_BYTES && ReadU16((e + rest)[14..16]) == |e|
            && (e + rest)[..|e|] == e && (e + rest)[|e|..] == rest && ParsePublicHeader(e, total) == Ok(h)
  {
    var e := EncodePublicHeader(h).value;
    EncodedIsLaidOut(e + rest, h, rest);
    ParseOfEncoded(h, [], total);
    assert e + [] == e;
    HeaderSize(h);
    ReadU16Of(|e|);
  }

  /** The header of a finished archive unlocks with the key that wrote it. */
  lemma HeaderUnlocks(p: Primitives, log: Log, run: Run, key: ArchiveKey, rest: bytes, total: u64)
    requires Lawful(p) && ValidRun(p.enc, run) && Knows(log, p.enc, run) && |run.dek| == 32
    requires Unlocks(p, key, run.header, run.wrappingKey) && total <= MAX_ARCHIVE_BYTES
    ensures var e := EncodePublicHeader(run.header).value;
            && DecodeHeader(p, log, e + rest, total, key) == Ok((run.header, run.dek, |e|))
            && (e + rest)[|e|..] == rest
  {
    HeaderReads(run.header, rest, total);
    UnlocksIff(p, key, run.header, run.wrappingKey);
    hide ParsePublicHeader, EncodePublicHeader, ReadU16, WrappingKey, Unlocks;
    PrefixLength(run.header);
  }

  lemma HeaderSize(h: PublicHeader)
    requires ValidHeader(h)
    ensures EncodePublicHeader(h).Ok?
            && |EncodePublicHeader(h).value| == MIN_HEADER_BYTES + |h.salt| <= MAX_HEADER_BYTES
  {
    PreambleLayout(h);
    ParametersLayout(h);
  }

  /** Reading one frame of a known run, at its own position, gives back that frame's plaintext. */
  lemma ReadsOwnFrame(p: Primitives, log: Log, run: Run, j: nat)
    requires Tagged(p.enc) && ValidRun(p.enc, run) && Knows(log, p.enc, run) && j < |run.plains|
    requires |run.plains[j].body| <= if run.plains[j].kind == 2 then run.header.chunkBytes else MAX_MANIFEST_BYTES
    ensures var piece := FramePiece(p.enc, run, j);
            var src := FramesFrom(p.enc, run, j);
            && ReadFrame(log, run.dek, run.header.archiveId, j, run.header.chunkBytes, src)
               == Ok((run.plains[j], |piece|))
            && |piece| <= |src| && src[|piece|..] == FramesFrom(p.enc, run, j + 1)
  {
    hide ReadFrame, SealBytes, SealQuery;
    assert FrameQuery(p.enc, run, j) in log;
    ReadOfSealed(log, p.enc, run.dek, run.header.archiveId, j, run.tape(j), run.plains[j], run.header.chunkBytes,
                 FramesFrom(p.enc, run, j + 1));
  }

  /** What the reader holds after `i` data frames. */
  ghost function After(chunks: seq<bytes>, i: nat, limit: nat): Progress
    requires i <= |chunks|
  {
    Progress(i, Concat(chunks[..i]), Feed(START, Concat(chunks[..i]), limit))
  }

  lemma AfterNone(chunks: seq<bytes>, limit: nat)
    ensures After(chunks, 0, limit) == NOTHING
  {
    assert chunks[..0] == [];
  }

  lemma AfterNext(chunks: seq<bytes>, i: nat, limit: nat)
    requires i < |chunks| && Finish(Feed(START, Concat(chunks), limit)).Ok?
    ensures var got := After(chunks, i, limit);
            var counting := Feed(got.counting, chunks[i], limit);
            && counting.Counting?
            && After(chunks, i + 1, limit) == Progress(i + 1, got.logical + chunks[i], counting)
  {
    PrefixFacts(chunks, i, limit);
    DataPlainsAppend(chunks, i);
  }

  /** From position `i + 1` the reader consumes the rest of a complete run and ends with all of the stream. */
  lemma {:induction false} BodyOfRun(p: Primitives, log: Log, run: Run, key: ArchiveKey, m: ArchiveMetadata,
                                     chunks: seq<bytes>, o: ArchiveOptions, n: u64, i: nat)
    requires Readable(p, log, run, key, m, chunks, o) && i <= |chunks|
    requires Finish(Feed(START, Concat(chunks), o.recordLimit)) == Ok(n)
    requires |FramesFrom(p.enc, run, i + 1)| + i + 1 <= U64_MAX
    ensures DecodeBody(p, log, run.dek, run.header, FramesFrom(p.enc, run, i + 1), i + 1,
                       After(chunks, i, o.recordLimit))
         == Ok((FinalOf(p, chunks, n), After(chunks, |chunks|, o.recordLimit), []))
    decreases |chunks| - i
  {
    hide ReadFrame, Feed, FramePiece, Finish;
    assert run.plains == CompletePlains(p, m, chunks, n);
    ReadsOwnFrame(p, log, run, i + 1);
    if i < |chunks| {
      assert run.plains[i + 1] == Plain(2, chunks[i]);
      AfterNext(chunks, i, o.recordLimit);
      BodyOfRun(p, log, run, key, m, chunks, o, n, i + 1);
    } else {
      assert run.plains[i + 1] == Plain(3, p.printFinal(FinalOf(p, chunks, n)));
    }
  }

  /**
   * Round trip: decoding a finished archive of at most the supported size, with the key that wrote it, delivers
   * exactly the logical stream, however it was chunked, with the same metadata and counts.
   */
  lemma RoundTrip(p: Primitives, log: Log, run: Run, key: ArchiveKey, m: ArchiveMetadata, chunks: seq<bytes>,
                  o: ArchiveOptions)
    requires Readable(p, log, run, key, m, chunks, o)
    requires |RunBytes(p.enc, run)| <= MAX_ARCHIVE_BYTES
    ensures var file := RunBytes(p.enc, run);
            var n := Finish(Feed(START, Concat(chunks), o.recordLimit)).value;
            Decode(p, log, file, |file|, key)
            == Ok((VerifiedArchive(run.header, m, n, |Concat(chunks)|, p.sha256(Concat(chunks))), Concat(chunks)))
  {
    hide ReadFrame, Feed, DecodeHeader, FramePiece;
    var file := RunBytes(p.enc, run);
    var n := Finish(Feed(START, Concat(chunks), o.recordLimit)).value;
    RunBytesSplit(p.enc, run);
    var frames := FramesFrom(p.enc, run, 0);
    HeaderUnlocks(p, log, run, key, frames, |file|);
    assert run.plains == CompletePlains(p, m, chunks, n);
    assert run.plains[0] == Plain(1, p.printMetadata(m));
    ReadsOwnFrame(p, log, run, 0);
    AfterNone(chunks, o.recordLimit);
    BodyOfRun(p, log, run, key, m, chunks, o, n, 0);
    assert chunks[..|chunks|] == chunks;
  }

  /** `write_and_verify_backup`: writes the archive, reopens it and verifies the whole of it with the same key. */
  method WriteAndVerify(p: Primitives, log0: Log, chunks: seq<bytes>, key: ArchiveKey, m: ArchiveMetadata,
                        o: ArchiveOptions, rnd: Randomness)
    returns (r: Result<VerifiedArchive, ArchiveError>, w: Output)
    requires Lawful(p) && ProperRandomness(rnd)
    requires forall i :: 0 <= i < |chunks| ==> 0 < |chunks[i]| <= o.chunkBytes
    ensures r.Ok? <==> Writable(p, key, m, chunks, o) && |w.out| <= MAX_ARCHIVE_BYTES
    ensures r.Ok? ==> r.value.metadata == m && r.value.logicalDigest == p.sha256(Concat(chunks))
    ensures r.Ok? ==> r.value.logicalBytes == |Concat(chunks)|
    ensures r.Ok? ==> Finish(Feed(START, Concat(chunks), o.recordLimit)) == Ok(r.value.recordCount)
    ensures Writable(p, key, m, chunks, o) ==>
            var n := Finish(Feed(START, Concat(chunks), o.recordLimit)).value;
            |w.out| == ArchiveSize(p, key, m, chunks, p.printFinal(FinalOf(p, chunks, n)))
    ensures r.Ok? ==> Decode(p, w.log, w.out, |w.out|, key) == Ok((r.value, Concat(chunks)))
  {
    var written;
    ghost var run;
    written, w, run := WriteArchive(p, log0, chunks, key, m, o, rnd);
    if written.Err? {
      return Err(written.error), w;
    }
    var delivered;
    r, delivered := DecodeArchive(p, w.log, w.out, |w.out|, key);
    if |w.out| <= MAX_ARCHIVE_BYTES {
      RunLogKnows(log0, p.enc, run.value);
      RoundTrip(p, w.log, run.value, key, m, chunks, o);
    }
  }

  // ----- Authenticity -----

  /** The write got as far as its final manifest. */
  predicate Completed(run: Run) {
    WriterShaped(run.plains) && |run.plains| >= 2 && run.plains[|run.plains| - 1].kind == 3
  }

  /** One sealing of the log, explained by one of the runs. */
  ghost predicate ExplainedBy(enc: Cipher, log: Log, q: Query, run: Run)
    requires q in log && ValidRun(enc, run)
  {
    || (q == WrapQuery(run) && log[q] == run.dek)
    || (exists j :: 0 <= j < |run.plains| && q == FrameQuery(enc, run, j) && log[q] == run.plains[j].body)
  }

  /** The log is what these writes sealed and nothing else, each under a data key of its own. */
  ghost predicate World(enc: Cipher, log: Log, runs: seq<Run>) {
    && (forall i :: 0 <= i < |runs| ==> ValidRun(enc, runs[i]) && WriterShaped(runs[i].plains))
    && (forall i, j :: 0 <= i < j < |runs| ==> runs[i].dek != runs[j].dek)
    && (forall q :: q in log ==> exists i :: 0 <= i < |runs| && ExplainedBy(enc, log, q, runs[i]))
  }

  /** A write with a fresh data key, finished or not, extends the world by its run. */
  lemma WriteExtendsWorld(enc: Cipher, log0: Log, runs: seq<Run>, run: Run)
    requires World(enc, log0, runs) && ValidRun(enc, run) && WriterShaped(run.plains)
    requires forall i :: 0 <= i < |runs| ==> runs[i].dek != run.dek
    ensures World(enc, RunLog(log0, enc, run), runs + [run])
  {
    hide FrameQuery, EncodeHeaderPrefix, SealAll;
    var wrapped := log0[WrapQuery(run) := run.dek];
    var log := RunLog(log0, enc, run);
    var all := runs + [run];
    SealAllHolds(wrapped, enc, run, |run.plains|);
    assert run.plains[..|run.plains|] == run.plains;
    assert all[|runs|] == run;
    forall q | q in log
      ensures exists i :: 0 <= i < |all| && ExplainedBy(enc, log, q, all[i])
    {
      if j :| 0 <= j < |run.plains| && q == FrameQuery(enc, run, j) && log[q] == run.plains[j].body {
        assert ExplainedBy(enc, log, q, run);
        assert ExplainedBy(enc, log, q, all[|runs|]);
      } else if q == WrapQuery(run) {
        assert ExplainedBy(enc, log, q, run);
        assert ExplainedBy(enc, log, q, all[|runs|]);
      } else {
        assert q in log0 && log[q] == log0[q];
        var i :| 0 <= i < |runs| && ExplainedBy(enc, log0, q, runs[i]);
        assert ExplainedBy(enc, log, q, all[i]);
      }
    }
  }

  /** A sealing with long associated data is the wrapped key of some run. */
  lemma WhoWrapped(enc: Cipher, log: Log, runs: seq<Run>, q: Query) returns (i: nat)
    requires World(enc, log, runs) && q in log && |q.aad| != 43
    ensures i < |runs| && ValidRun(enc, runs[i]) && q == WrapQuery(runs[i]) && log[q] == runs[i].dek
  {
    hide EncodeHeaderPrefix;
    i :| 0 <= i < |runs| && ExplainedBy(enc, log, q, runs[i]);
  }

  /** A sealing with 43 bytes of associated data is a frame of some run. */
  lemma WhoSealed(enc: Cipher, log: Log, runs: seq<Run>, q: Query) returns (i: nat, j: nat)
    requires World(enc, log, runs) && q in log && |q.aad| == 43
    ensures i < |runs| && j < |runs[i].plains| && q == FrameQuery(enc, runs[i], j) && log[q] == runs[i].plains[j].body
  {
    hide FrameQuery, EncodeHeaderPrefix;
    i :| 0 <= i < |runs| && ExplainedBy(enc, log, q, runs[i]);
    PrefixLength(runs[i].header);
    j :| 0 <= j < |runs[i].plains| && q == FrameQuery(enc, runs[i], j) && log[q] == runs[i].plains[j].body;
  }

  /** A key that opens under a header's associated data was wrapped by a run with that very header. */
  lemma UnlockedByRun(p: Primitives, log: Log, runs: seq<Run>, source: bytes, total: u64, key: ArchiveKey)
    returns (i: nat)
    requires Lawful(p) && World(p.enc, log, runs)
    requires DecodeHeader(p, log, source, total, key).Ok?
    ensures i < |runs|
    ensures var (h, dek, headerLen) := DecodeHeader(p, log, source, total, key).value;
            && h == runs[i].header && dek == runs[i].dek && Unlocks(p, key, h, runs[i].wrappingKey)
            && source[..headerLen] == EncodePublicHeader(runs[i].header).value
  {
    hide ParsePublicHeader, EncodeHeaderPrefix, World, ReadU16;
    var (h, dek, headerLen) := DecodeHeader(p, log, source, total, key).value;
    EncodeOfParsed(source[..headerLen], total);
    assert source[..headerLen][14..16] == source[14..16];
    PrefixLength(h);
    var q := Query(WrappingKey(p, key, h).value, h.wrapNonce, EncodeHeaderPrefix(h).value, h.wrappedDek);
    i := WhoWrapped(p.enc, log, runs, q);
    UnlocksIff(p, key, h, runs[i].wrappingKey);
    PrefixLength(runs[i].header);
    SamePrefixSameHeader(h, runs[i].header, total);
  }

  lemma SamePrefixSameHeader(h: PublicHeader, h': PublicHeader, total: u64)
    requires ValidHeader(h) && ValidHeader(h') && total <= MAX_ARCHIVE_BYTES
    requires EncodeHeaderPrefix(h) == EncodeHeaderPrefix(h') && h.wrappedDek == h'.wrappedDek
    ensures h == h'
  {
    ParseOfEncoded(h, [], total);
    ParseOfEncoded(h', [], total);
  }

  /** A frame that opens at position `k` under a run's data key is that run's frame `k`, byte for byte. */
  lemma OpenedByRun(p: Primitives, log: Log, runs: seq<Run>, i: nat, k: u64, src: bytes)
    requires Lawful(p) && World(p.enc, log, runs) && i < |runs|
    requires ReadFrame(log, runs[i].dek, runs[i].header.archiveId, k, runs[i].header.chunkBytes, src).Ok?
    ensures k < |runs[i].plains|
    ensures var (plain, size) := ReadFrame(log, runs[i].dek, runs[i].header.archiveId, k, runs[i].header.chunkBytes,
                                           src).value;
            plain == runs[i].plains[k] && src[..size] == FramePiece(p.enc, runs[i], k)
  {
    hide ReadFrame, FrameAad;
    var run := runs[i];
    var id := run.header.archiveId;
    var f := AcceptedFrame(log, run.dek, id, k, run.header.chunkBytes, src);
    var q := Query(run.dek, f.nonce, FrameAad(id, k, f.kind, |f.ciphertext|), f.ciphertext);
    var i', j := WhoSealed(p.enc, log, runs, q);
    assert runs[i'].dek == run.dek && i' == i;
    FrameAadInjective(id, k, f.kind, |f.ciphertext|, id, j, run.plains[j].kind, |run.plains[j].body| + AEAD_TAG_BYTES);
  }

  /** If the frame loop finishes, the source held exactly the run's remaining frames up to its final manifest. */
  lemma {:induction false} BodyMatchesRun(p: Primitives, log: Log, runs: seq<Run>, i: nat, src: bytes, k: u64,
                                          got: Progress)
    requires Lawful(p) && World(p.enc, log, runs) && i < |runs| && |src| + k <= U64_MAX && k >= 1
    requires DecodeBody(p, log, runs[i].dek, runs[i].header, src, k, got).Ok?
    ensures var rest := DecodeBody(p, log, runs[i].dek, runs[i].header, src, k, got).value.2;
            Completed(runs[i]) && k < |runs[i].plains| && src == FramesFrom(p.enc, runs[i], k) + rest
    decreases |src|
  {
    hide ReadFrame, Feed, FramePiece, ExplainedBy, EncodeHeaderPrefix;
    var run := runs[i];
    OpenedByRun(p, log, runs, i, k, src);
    var (plain, size) := ReadFrame(log, run.dek, run.header.archiveId, k, run.header.chunkBytes, src).value;
    var rest := DecodeBody(p, log, run.dek, run.header, src, k, got).value.2;
    assert src == src[..size] + src[size..];
    if plain.kind == 2 {
      var next := Progress(got.frames + 1, got.logical + plain.body,
                           Feed(got.counting, plain.body, run.header.recordLimit));
      BodyMatchesRun(p, log, runs, i, src[size..], k + 1, next);
      assert FramePiece(p.enc, run, k) + (FramesFrom(p.enc, run, k + 1) + rest)
          == FramePiece(p.enc, run, k) + FramesFrom(p.enc, run, k + 1) + rest;
    } else {
      assert k == |run.plains| - 1;
      assert FramesFrom(p.enc, run, k + 1) == [];
      assert FramePiece(p.enc, run, k) + [] == FramePiece(p.enc, run, k);
    }
  }

  /** The data a run has sealed from frame `k` on, short of its final manifest. */
  function DataFrom(plains: seq<Plain>, k: nat): bytes
    requires k < |plains|
    decreases |plains| - k
  {
    if k == |plains| - 1 then [] else plains[k].body + DataFrom(plains, k + 1)
  }

  /** What the frame loop hands over is what the run sealed, frame after frame. */
  lemma {:induction false} BodyDeliversRun(p: Primitives, log: Log, runs: seq<Run>, i: nat, src: bytes, k: u64,
                                           got: Progress)
    requires Lawful(p) && World(p.enc, log, runs) && i < |runs| && |src| + k <= U64_MAX && k >= 1
    requires DecodeBody(p, log, runs[i].dek, runs[i].header, src, k, got).Ok?
    ensures k < |runs[i].plains|
    ensures DecodeBody(p, log, runs[i].dek, runs[i].header, src, k, got).value.1.logical
            == got.logical + DataFrom(runs[i].plains, k)
    decreases |src|
  {
    hide ReadFrame, Feed, FramePiece;
    var run := runs[i];
    OpenedByRun(p, log, runs, i, k, src);
    var (plain, size) := ReadFrame(log, run.dek, run.header.archiveId, k, run.header.chunkBytes, src).value;
    if plain.kind == 2 {
      var next := Progress(got.frames + 1, got.logical + plain.body,
                           Feed(got.counting, plain.body, run.header.recordLimit));
      BodyDeliversRun(p, log, runs, i, src[size..], k + 1, next);
      assert got.logical + plain.body + DataFrom(run.plains, k + 1)
             == got.logical + (plain.body + DataFrom(run.plains, k + 1));
    } else {
      assert k == |run.plains| - 1;
      assert got.logical + [] == got.logical;
    }
  }

  /** A file, as read with a key, is the file of this completed run, and the reader delivered the run's data. */
  ghost predicate IsFileOf(p: Primitives, source: bytes, key: ArchiveKey, delivered: bytes, run: Run)
    requires ValidRun(p.enc, run)
  {
    && Completed(run) && source == RunBytes(p.enc, run) && Unlocks(p, key, run.header, run.wrappingKey)
    && delivered == DataFrom(run.plains, 1)
  }

  /**
   * With an ideal AEAD and a fresh data key per write, the reader accepts nothing but the exact file of a completed
   * write, whole and under the key that wrote it, and delivers the data of that write: no header or frame byte
   * reordered, repeated, dropped, cut off, appended or changed, and no file of a write that failed.
   */
  lemma AcceptsOnlyCompletedArchives(p: Primitives, log: Log, runs: seq<Run>, source: bytes, total: u64,
                                     key: ArchiveKey)
    requires Lawful(p) && World(p.enc, log, runs) && |source| <= U64_MAX
    requires Decode(p, log, source, total, key).Ok?
    ensures total == |source|
    ensures exists i :: 0 <= i < |runs| && IsFileOf(p, source, key, Decode(p, log, source, total, key).value.1, runs[i])
  {
    hide ReadFrame, DecodeHeader, DecodeBody, FramePiece, EncodePublicHeader;
    var i := UnlockedByRun(p, log, runs, source, total, key);
    var run := runs[i];
    var (h, dek, headerLen) := DecodeHeader(p, log, source, total, key).value;
    var src := source[headerLen..];
    OpenedByRun(p, log, runs, i, 0, src);
    var (first, size) := ReadFrame(log, dek, h.archiveId, 0, h.chunkBytes, src).value;
    BodyMatchesRun(p, log, runs, i, src[size..], 1, NOTHING);
    BodyDeliversRun(p, log, runs, i, src[size..], 1, NOTHING);
    assert [] + DataFrom(run.plains, 1) == DataFrom(run.plains, 1);
    var rest := DecodeBody(p, log, dek, h, src[size..], 1, NOTHING).value.2;
    assert rest == [];
    assert src == src[..size] + src[size..];
    assert src == FramesFrom(p.enc, run, 0);
    RunBytesSplit(p.enc, run);
    assert source == source[..headerLen] + src;
    assert IsFileOf(p, source, key, Decode(p, log, source, total, key).value.1, run);
  }

  // ----- The key that reads -----

  /** No other write drew this one's archive identifier. */
  predicate OwnIdentifier(runs: seq<Run>, i: nat)
    requires i < |runs|
  {
    forall j :: 0 <= j < |runs| && j != i ==> runs[j].header.archiveId != runs[i].header.archiveId
  }

  /** Key material of the wrong mode, out of bounds, or deriving another key, is refused before any frame is read. */
  lemma WrongKeyIsInvalid(p: Primitives, log: Log, runs: seq<Run>, i: nat, key: ArchiveKey, rest: bytes, total: u64)
    requires Lawful(p) && World(p.enc, log, runs) && i < |runs| && OwnIdentifier(runs, i)
    requires !Unlocks(p, key, runs[i].header, runs[i].wrappingKey) && total <= MAX_ARCHIVE_BYTES
    requires |EncodePublicHeader(runs[i].header).value + rest| <= U64_MAX
    ensures Decode(p, log, EncodePublicHeader(runs[i].header).value + rest, total, key) == Err(InvalidKey)
  {
    var h := runs[i].header;
    assert ValidRun(p.enc, runs[i]);
    hide World, ReadFrame, DecodeBody, Unlocks;
    HeaderReads(h, rest, total);
    hide ParsePublicHeader, EncodeHeaderPrefix, EncodePublicHeader, ReadU16;
    PrefixLength(h);
    var w := WrappingKey(p, key, h);
    if w.Err? {
      UnlocksIff(p, key, h, []);
    } else {
      UnlocksIff(p, key, h, w.value);
      var q := Query(w.value, h.wrapNonce, EncodeHeaderPrefix(h).value, h.wrappedDek);
      if q in log {
        var j := WhoWrapped(p.enc, log, runs, q);
        SamePrefixSameHeader(h, runs[j].header, total);
      }
    }
  }

  lemma FileRefused(p: Primitives, log: Log, runs: seq<Run>, i: nat, key: ArchiveKey, file: bytes, total: u64)
    requires Lawful(p) && World(p.enc, log, runs) && i < |runs| && OwnIdentifier(runs, i)
    requires !Unlocks(p, key, runs[i].header, runs[i].wrappingKey) && total <= MAX_ARCHIVE_BYTES
    requires file == RunBytes(p.enc, runs[i]) && |file| <= U64_MAX
    ensures Decode(p, log, file, total, key) == Err(InvalidKey)
  {
    RunBytesSplit(p.enc, runs[i]);
    hide Decode, FramesFrom, World, RunBytes, Unlocks, EncodePublicHeader;
    WrongKeyIsInvalid(p, log, runs, i, key, FramesFrom(p.enc, runs[i], 0), total);
  }

  /**
   * Key material of one mode that derives the same wrapping key from a header: Argon2id of the passphrase under the
   * header's salt and parameters, or HMAC of a fixed label and the header's identifier under the recovery key.
   */
  ghost predicate DeriveAlike(p: Primitives, h: PublicHeader, a: ArchiveKey, b: ArchiveKey) {
    match a
    case Passphrase(text) =>
      && b.Passphrase? && 1 <= |b.text| <= 1024 && h.argon2.Some?
      && p.argon2id(b.text, h.salt, h.argon2.value) == p.argon2id(text, h.salt, h.argon2.value)
    case Recovery(k) =>
      && b.Recovery?
      && p.hmac(b.key, Ascii("SMCV-BACKUP-WRAP-v1") + h.archiveId)
         == p.hmac(k, Ascii("SMCV-BACKUP-WRAP-v1") + h.archiveId)
  }

  lemma UnlocksAlike(p: Primitives, h: PublicHeader, wrappingKey: bytes, writer: ArchiveKey, reader: ArchiveKey)
    requires Unlocks(p, writer, h, wrappingKey)
    ensures Unlocks(p, reader, h, wrappingKey) <==> DeriveAlike(p, h, writer, reader)
  {
  }

  /** Whoever reads the file of a write, finished or not, has key material that derives what the writer's did. */
  lemma OnlyItsKeyReads(p: Primitives, log: Log, runs: seq<Run>, i: nat, writer: ArchiveKey, reader: ArchiveKey,
                        file: bytes, total: u64)
    requires Lawful(p) && World(p.enc, log, runs) && i < |runs| && OwnIdentifier(runs, i)
    requires Unlocks(p, writer, runs[i].header, runs[i].wrappingKey)
    requires file == RunBytes(p.enc, runs[i]) && |file| <= U64_MAX
    requires Decode(p, log, file, total, reader).Ok?
    ensures DeriveAlike(p, runs[i].header, writer, reader)
  {
    hide ReadFrame, DecodeBody, World, RunBytes, Unlocks, DeriveAlike;
    UnlocksAlike(p, runs[i].header, runs[i].wrappingKey, writer, reader);
    if !Unlocks(p, reader, runs[i].header, runs[i].wrappingKey) {
      FileRefused(p, log, runs, i, reader, file, total);
    }
  }

  /** A finished archive is read whole with exactly the keys that derive what its writer's did; others are refused. */
  lemma ReadIff(p: Primitives, log: Log, runs: seq<Run>, i: nat, writer: ArchiveKey, reader: ArchiveKey,
                m: ArchiveMetadata, chunks: seq<bytes>, o: ArchiveOptions, file: bytes)
    requires World(p.enc, log, runs) && i < |runs| && OwnIdentifier(runs, i)
    requires Readable(p, log, runs[i], writer, m, chunks, o)
    requires file == RunBytes(p.enc, runs[i]) && |file| <= MAX_ARCHIVE_BYTES
    ensures DeriveAlike(p, runs[i].header, writer, reader) ==>
            Decode(p, log, file, |file|, reader).Ok? && Decode(p, log, file, |file|, reader).value.1 == Concat(chunks)
    ensures !DeriveAlike(p, runs[i].header, writer, reader) ==>
            Decode(p, log, file, |file|, reader) == Err(InvalidKey)
  {
    hide Decode, World, RunBytes, CompleteRun, Knows, ValidRun, Unlocks, DeriveAlike, Lawful, Concat, Feed;
    UnlocksAlike(p, runs[i].header, runs[i].wrappingKey, writer, reader);
    if Unlocks(p, reader, runs[i].header, runs[i].wrappingKey) {
      RoundTrip(p, log, runs[i], reader, m, chunks, o);
    } else {
      FileRefused(p, log, runs, i, reader, file, |file|);
    }
  }
}
