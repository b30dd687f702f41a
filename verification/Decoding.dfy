/** `decode_archive`: the reader, what it delivers and the only archives it accepts. */
module Decoding {
  import opened Bytes
  import opened Header
  import opened Frames
  import opened RecordFraming
  import opened Archive

  function FrameFailure(e: FrameError): ArchiveError {
    match e
    case Io => ReadFailed
    case Integrity => Corrupt
    case InvalidBound => OutOfBounds
  }

  /** The header half: bounds, parse, key derivation and unwrapping of the data key. */
  function DecodeHeader(p: Primitives, log: Log, source: bytes, total: u64, key: ArchiveKey)
    : (r: Result<(PublicHeader, bytes, nat), ArchiveError>)
    ensures r.Ok? ==> |r.value.1| == 32 && MIN_HEADER_BYTES <= r.value.2 <= |source|
  {
    if total > MAX_ARCHIVE_BYTES then Err(BadHeader(ArchiveTooLarge))
    else if |source| < 16 then Err(ReadFailed)
    else
      var headerLen := ReadU16(source[14..16]);
      if !(MIN_HEADER_BYTES <= headerLen <= MAX_HEADER_BYTES) then Err(BadHeader(HeaderError.InvalidBound))
      else if |source| < headerLen then Err(ReadFailed)
      else
        match ParsePublicHeader(source[..headerLen], total)
        case Err(e) => Err(BadHeader(e))
        case Ok(h) =>
          var w :- WrappingKey(p, key, h);
          match EncodeHeaderPrefix(h)
          case Err(e) => Err(OutOfBounds)
          case Ok(prefix) =>
            match Open(log, Query(w, h.wrapNonce, prefix, h.wrappedDek))
            case None => Err(InvalidKey)
            case Some(dek) => if |dek| == 32 then Ok((h, dek, headerLen)) else Err(InvalidKey)
  }

  /** What is refused before a key is asked for, in this order: size, truncation, declared length, truncation. */
  lemma HeaderRefusals(p: Primitives, log: Log, source: bytes, total: u64, key: ArchiveKey)
    ensures var r := DecodeHeader(p, log, source, total, key);
            if total > 68_719_476_736 then r == Err(BadHeader(ArchiveTooLarge))
            else if |source| < 16 then r == Err(ReadFailed)
            else
              var declared := ReadU16(source[14..16]);
              && (declared < 126 || declared > 256 ==> r == Err(BadHeader(HeaderError.InvalidBound)))
              && (126 <= declared <= 256 && |source| < declared ==> r == Err(ReadFailed))
  {
    hide ParsePublicHeader, EncodeHeaderPrefix, WrappingKey;
  }

  /** What the frame loop has accumulated. */
  datatype Progress = Progress(frames: nat, logical: bytes, counting: Counting)

  const NOTHING: Progress := Progress(0, [], START)

  /** The frame loop: data frames until the final manifest, whose frame ends the loop. */
  function DecodeBody(p: Primitives, log: Log, dek: bytes, h: PublicHeader, src: bytes, sequence: u64, got: Progress)
    : Result<(FinalManifest, Progress, bytes), ArchiveError>
    requires |src| + sequence <= U64_MAX
    decreases |src|
  {
    match ReadFrame(log, dek, h.archiveId, sequence, h.chunkBytes, src)
    case Err(e) => Err(FrameFailure(e))
    case Ok((plain, size)) =>
      if plain.kind == 2 then
        var counting := Feed(got.counting, plain.body, h.recordLimit);
        if counting.Failed? then Err(CountFailure(counting.error))
        else DecodeBody(p, log, dek, h, src[size..], sequence + 1,
                        Progress(got.frames + 1, got.logical + plain.body, counting))
      else if plain.kind == 3 then
        if |plain.body| > MAX_MANIFEST_BYTES then Err(Corrupt)
        else
          match p.parseFinal(plain.body)
          case None => Err(Corrupt)
          case Some(final) => Ok((final, got, src[size..]))
      else Err(Corrupt)
  }

  /** The closing checks: declared length, nothing left over, and the final manifest agrees with what was read. */
  function Conclude(p: Primitives, h: PublicHeader, m: ArchiveMetadata, final: FinalManifest, got: Progress,
                    rest: bytes, source: bytes, total: u64): Result<VerifiedArchive, ArchiveError>
  {
    if |source| - |rest| != total || rest != [] then Err(Corrupt)
    else
      match Finish(got.counting)
      case Err(e) => Err(CountFailure(e))
      case Ok(n) =>
        if final.recordCount != n || final.logicalBytes != |got.logical|
           || final.logicalDigest != p.sha256(got.logical) || final.dataFrames != got.frames then Err(Corrupt)
        else Ok(VerifiedArchive(h, m, final.recordCount, final.logicalBytes, final.logicalDigest))
  }

  /** `decode_archive`: the verified summary and the bytes handed to the consumer. */
  function Decode(p: Primitives, log: Log, source: bytes, total: u64, key: ArchiveKey)
    : Result<(VerifiedArchive, bytes), ArchiveError>
    requires |source| <= U64_MAX
  {
    var (h, dek, headerLen) :- DecodeHeader(p, log, source, total, key);
    var src := source[headerLen..];
    match ReadFrame(log, dek, h.archiveId, 0, h.chunkBytes, src)
    case Err(e) => Err(FrameFailure(e))
    case Ok((first, size)) =>
      if first.kind != 1 || |first.body| > MAX_MANIFEST_BYTES then Err(Corrupt)
      else
        match p.parseMetadata(first.body)
        case None => Err(Corrupt)
        case Some(m) =>
          var (final, got, rest) :- DecodeBody(p, log, dek, h, src[size..], 1, NOTHING);
          var verified :- Conclude(p, h, m, final, got, rest, source, total);
          Ok((verified, got.logical))
  }

  /** The frame loop as written: a cursor, a sequence number, a frame counter and the record counter. */
  method DecodeFrames(p: Primitives, log: Log, source: bytes, start: nat, dek: bytes, h: PublicHeader,
                      counter: RecordCounter)
    returns (r: Result<FinalManifest, ArchiveError>, at: nat, frames: u64, delivered: bytes)
    requires |source| <= U64_MAX && 1 <= start <= |source|
    requires counter.Valid() && counter.State() == START && counter.limit == h.recordLimit
    modifies counter, counter.header
    ensures var spec := DecodeBody(p, log, dek, h, source[start..], 1, NOTHING);
            && (r.Err? ==> spec == Err(r.error))
            && (r.Ok? ==> counter.Valid() && start <= at <= |source| && |delivered| <= at
                          && spec == Ok((r.value, Progress(frames, delivered, counter.State()), source[at..])))
  {
    hide ReadFrame, Feed;
    at, frames, delivered := start, 0, [];
    var sequence: u64 := 1;
    while true
      invariant start <= at <= |source| && counter.Valid() && frames < sequence <= at && |delivered| <= at
      invariant DecodeBody(p, log, dek, h, source[at..], sequence, Progress(frames, delivered, counter.State()))
             == DecodeBody(p, log, dek, h, source[start..], 1, NOTHING)
      decreases |source| - at
    {
      var frame := ReadFrame(log, dek, h.archiveId, sequence, h.chunkBytes, source[at..]);
      if frame.Err? {
        return Err(FrameFailure(frame.error)), at, frames, delivered;
      }
      var (plain, size) := frame.value;
      assert source[at..][size..] == source[at + size..];
      at := at + size;
      if plain.kind == 2 {
        var counted := counter.Update(plain.body);
        if counted.Err? {
          return Err(CountFailure(counted.error)), at, frames, delivered;
        }
        sequence, frames, delivered := sequence + 1, frames + 1, delivered + plain.body;
      } else if plain.kind == 3 {
        if |plain.body| > MAX_MANIFEST_BYTES {
          return Err(Corrupt), at, frames, delivered;
        }
        var final := p.parseFinal(plain.body);
        if final.None? {
          return Err(Corrupt), at, frames, delivered;
        }
        return Ok(final.value), at, frames, delivered;
      } else {
        return Err(Corrupt), at, frames, delivered;
      }
    }
  }

  /** The reader as written; `delivered` is what the consumer has been handed. */
  method DecodeArchive(p: Primitives, log: Log, source: bytes, total: u64, key: ArchiveKey)
    returns (r: Result<VerifiedArchive, ArchiveError>, delivered: bytes)
    requires |source| <= U64_MAX
    ensures match Decode(p, log, source, total, key)
            case Ok((v, logical)) => r == Ok(v) && delivered == logical
            case Err(e) => r == Err(e)
  {
    hide DecodeHeader, ReadFrame, DecodeBody, Feed;
    delivered := [];
    var unlocked := DecodeHeader(p, log, source, total, key);
    if unlocked.Err? {
      return Err(unlocked.error), delivered;
    }
    var (h, dek, at) := unlocked.value;
    var first := ReadFrame(log, dek, h.archiveId, 0, h.chunkBytes, source[at..]);
    if first.Err? {
      return Err(FrameFailure(first.error)), delivered;
    }
    if first.value.0.kind != 1 || |first.value.0.body| > MAX_MANIFEST_BYTES {
      return Err(Corrupt), delivered;
    }
    var metadata := p.parseMetadata(first.value.0.body);
    if metadata.None? {
      return Err(Corrupt), delivered;
    }
    assert source[at..][first.value.1..] == source[at + first.value.1..];
    var counter := new RecordCounter(h.recordLimit);
    var final, consumed, frames;
    final, consumed, frames, delivered := DecodeFrames(p, log, source, at + first.value.1, dek, h, counter);
    if final.Err? {
      return Err(final.error), delivered;
    }
    if consumed != total || consumed < |source| {
      return Err(Corrupt), delivered;
    }
    var records := counter.Complete();
    if records.Err? {
      return Err(CountFailure(records.error)), delivered;
    }
    if final.value != FinalManifest(records.value, |delivered|, p.sha256(delivered), frames) {
      return Err(Corrupt), delivered;
    }
    return Ok(VerifiedArchive(h, metadata.value, records.value, |delivered|, p.sha256(delivered))), delivered;
  }
}
