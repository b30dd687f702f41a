/** Logical record framing `(kind: u16, flags: u16, length: u32, payload)` and the streaming `RecordCounter`. */
module RecordFraming {
  import opened Bytes

  const MAX_LOGICAL_RECORD_BYTES: u32 := 32 * 1024 * 1024

  datatype CountError = Integrity | InvalidBound

  datatype Record = Record(kind: u16, flags: u16, payload: bytes)

  /** The flag and length bounds of one record. Only the low flag bit may be set. */
  predicate Bounded(r: Record) {
    r.flags <= 1 && |r.payload| <= MAX_LOGICAL_RECORD_BYTES
  }

  function Print(r: Record): bytes
    requires Bounded(r)
  {
    U16(r.kind) + U16(r.flags) + U32(|r.payload|) + r.payload
  }

  predicate AllBounded(rs: seq<Record>) {
    forall i :: 0 <= i < |rs| ==> Bounded(rs[i])
  }

  /** Back-to-back records. */
  function PrintAll(rs: seq<Record>): bytes
    requires AllBounded(rs)
  {
    if rs == [] then [] else Print(rs[0]) + PrintAll(rs[1..])
  }

  // ----- The whole-buffer parse -----

  function HeadLength(b: bytes): u32
    requires |b| >= 8
  {
    ReadU32(b[4..8])
  }

  function HeadFlags(b: bytes): u16
    requires |b| >= 8
  {
    ReadU16(b[2..4])
  }

  /** Reads a whole buffer as back-to-back bounded records. */
  function Split(b: bytes): (r: Option<seq<Record>>)
    ensures r.Some? ==> AllBounded(r.value)
  {
    if b == [] then Some([])
    else if |b| < 8 || HeadFlags(b) > 1 || HeadLength(b) > MAX_LOGICAL_RECORD_BYTES || |b| < 8 + HeadLength(b) then None
    else
      var n := 8 + HeadLength(b);
      match Split(b[n..])
      case None => None
      case Some(rest) => Some([Record(ReadU16(b[0..2]), HeadFlags(b), b[8..n])] + rest)
  }

  lemma HeadOfPrint(r: Record, rest: bytes)
    requires Bounded(r)
    ensures var b := Print(r) + rest;
            && |b| >= 8 + |r.payload|
            && ReadU16(b[0..2]) == r.kind && HeadFlags(b) == r.flags && HeadLength(b) == |r.payload|
            && b[8..8 + |r.payload|] == r.payload
            && b[8 + |r.payload|..] == rest
  {
    var b := Print(r) + rest;
    assert b[0..2] == U16(r.kind);
    assert b[2..4] == U16(r.flags);
    assert b[4..8] == U32(|r.payload|);
  }

  /** Printing then splitting gives the records back. */
  lemma {:induction false} SplitOfPrinted(rs: seq<Record>)
    requires AllBounded(rs)
    ensures Split(PrintAll(rs)) == Some(rs)
  {
    if rs != [] {
      HeadOfPrint(rs[0], PrintAll(rs[1..]));
      SplitOfPrinted(rs[1..]);
      assert [rs[0]] + rs[1..] == rs;
    }
  }

  lemma PrintOfHead(b: bytes, n: nat)
    requires |b| >= 8 && HeadFlags(b) <= 1 && HeadLength(b) <= MAX_LOGICAL_RECORD_BYTES
    requires n == 8 + HeadLength(b) <= |b|
    ensures Print(Record(ReadU16(b[0..2]), HeadFlags(b), b[8..n])) == b[..n]
  {
    SliceJoin(b, 0, 2, 4);
    SliceJoin(b, 0, 4, 8);
    SliceJoin(b, 0, 8, n);
  }

  lemma PrintAllCons(r: Record, rs: seq<Record>)
    requires Bounded(r) && AllBounded(rs)
    ensures AllBounded([r] + rs)
    ensures PrintAll([r] + rs) == Print(r) + PrintAll(rs)
  {
    assert ([r] + rs)[1..] == rs;
  }

  /** The first record of a splittable buffer, printed, is the front of the buffer. */
  lemma SplitHead(b: bytes) returns (first: Record, n: nat)
    requires b != [] && Split(b).Some?
    ensures 8 <= n <= |b| && Bounded(first) && Print(first) == b[..n]
    ensures Split(b[n..]).Some? && Split(b).value == [first] + Split(b[n..]).value
  {
    n := 8 + HeadLength(b);
    first := Record(ReadU16(b[0..2]), HeadFlags(b), b[8..n]);
    PrintOfHead(b, n);
  }

  /** Splitting then printing gives the bytes back. */
  lemma {:induction false} PrintedOfSplit(b: bytes)
    requires Split(b).Some?
    ensures PrintAll(Split(b).value) == b
  {
    if b != [] {
      var first, n := SplitHead(b);
      PrintedOfSplit(b[n..]);
      PrintAllCons(first, Split(b[n..]).value);
    }
  }

  // ----- The streaming counter, one byte at a time -----

  /** What `RecordCounter` remembers between bytes: a partial header, payload still owed, records begun. */
  datatype Counting =
    | Counting(pending: bytes, remaining: nat, records: nat)
    | Failed(error: CountError)

  const START: Counting := Counting([], 0, 0)

  /** A completed eight-byte header: flag and length bounds first, then the record limit. */
  function Begin(h: bytes, records: nat, limit: nat): Counting
    requires |h| == 8
  {
    if HeadFlags(h) > 1 || HeadLength(h) > MAX_LOGICAL_RECORD_BYTES then Failed(Integrity)
    else if records + 1 > limit then Failed(InvalidBound)
    else Counting([], HeadLength(h), records + 1)
  }

  function Step(s: Counting, b: byte, limit: nat): Counting {
    match s
    case Failed(_) => s
    case Counting(pending, remaining, records) =>
      if remaining > 0 then s.(remaining := remaining - 1)
      else if |pending| == 7 then Begin(pending + [b], records, limit)
      else s.(pending := pending + [b])
  }

  function Feed(s: Counting, b: bytes, limit: nat): Counting
    decreases |b|
  {
    if b == [] then s else Feed(Step(s, b[0], limit), b[1..], limit)
  }

  function Finish(s: Counting): Result<nat, CountError> {
    match s
    case Failed(e) => Err(e)
    case Counting(pending, remaining, records) =>
      if pending != [] || remaining != 0 then Err(Integrity) else Ok(records)
  }

  /** Feeding is independent of how the bytes are cut into chunks. */
  lemma {:induction false} FeedSplit(s: Counting, a: bytes, b: bytes, limit: nat)
    ensures Feed(s, a + b, limit) == Feed(Feed(s, a, limit), b, limit)
    decreases |a|
  {
    if a == [] {
      assert a + b == b;
    } else {
      assert (a + b)[1..] == a[1..] + b;
      FeedSplit(Step(s, a[0], limit), a[1..], b, limit);
    }
  }

  function Concat(chunks: seq<bytes>): bytes {
    if chunks == [] then [] else chunks[0] + Concat(chunks[1..])
  }

  function FeedChunks(s: Counting, chunks: seq<bytes>, limit: nat): Counting
    decreases |chunks|
  {
    if chunks == [] then s else FeedChunks(Feed(s, chunks[0], limit), chunks[1..], limit)
  }

  /** Any two chunkings of the same bytes give the same counter state, error included. */
  lemma {:induction false} ChunkInvariant(s: Counting, chunks: seq<bytes>, limit: nat)
    ensures FeedChunks(s, chunks, limit) == Feed(s, Concat(chunks), limit)
    decreases |chunks|
  {
    if chunks != [] {
      FeedSplit(s, chunks[0], Concat(chunks[1..]), limit);
      ChunkInvariant(Feed(s, chunks[0], limit), chunks[1..], limit);
    }
  }

  lemma {:induction false} FeedFailed(s: Counting, b: bytes, limit: nat)
    requires s.Failed?
    ensures Feed(s, b, limit) == s
    decreases |b|
  {
    if b != [] {
      FeedFailed(s, b[1..], limit);
    }
  }

  lemma {:induction false} FeedPayload(s: Counting, b: bytes, limit: nat)
    requires s.Counting? && |b| <= s.remaining
    ensures Feed(s, b, limit) == s.(remaining := s.remaining - |b|)
    decreases |b|
  {
    if b != [] {
      FeedPayload(s.(remaining := s.remaining - 1), b[1..], limit);
    }
  }

  lemma {:induction false} FeedHeader(s: Counting, b: bytes, limit: nat)
    requires s.Counting? && s.remaining == 0 && |s.pending| + |b| <= 8 && |s.pending| < 8
    ensures Feed(s, b, limit) == if |s.pending| + |b| == 8 then Begin(s.pending + b, s.records, limit)
                                 else s.(pending := s.pending + b)
    decreases |b|
  {
    if b == [] {
      assert s.pending + b == s.pending;
    } else if |s.pending| == 7 {
      assert b == [b[0]] && b[1..] == [];
    } else {
      FeedHeader(s.(pending := s.pending + [b[0]]), b[1..], limit);
      assert s.pending + [b[0]] + b[1..] == s.pending + b;
    }
  }

  /** One whole record moves the counter from one record boundary to the next. */
  lemma FeedRecord(b: bytes, k: nat, limit: nat)
    requires |b| >= 8
    ensures var s := Begin(b[..8], k, limit);
            && HeadFlags(b) == HeadFlags(b[..8]) && HeadLength(b) == HeadLength(b[..8])
            && Feed(Counting([], 0, k), b, limit) == Feed(s, b[8..], limit)
            && (s.Counting? && |b| >= 8 + s.remaining ==>
                  Feed(s, b[8..], limit) == Feed(Counting([], 0, k + 1), b[8 + s.remaining..], limit))
            && (s.Counting? && |b| < 8 + s.remaining ==>
                  Feed(s, b[8..], limit) == s.(remaining := 8 + s.remaining - |b|))
  {
    assert b == b[..8] + b[8..];
    FeedSplit(Counting([], 0, k), b[..8], b[8..], limit);
    FeedHeader(Counting([], 0, k), b[..8], limit);
    assert [] + b[..8] == b[..8];
    assert b[..8][2..4] == b[2..4] && b[..8][4..8] == b[4..8];
    var s := Begin(b[..8], k, limit);
    if s.Counting? {
      var tail := b[8..];
      if |b| >= 8 + s.remaining {
        assert tail == tail[..s.remaining] + tail[s.remaining..];
        FeedSplit(s, tail[..s.remaining], tail[s.remaining..], limit);
        FeedPayload(s, tail[..s.remaining], limit);
        assert tail[s.remaining..] == b[8 + s.remaining..];
      } else {
        FeedPayload(s, tail, limit);
      }
    }
  }

  /** The first record of a splittable buffer. */
  lemma SplitFirst(b: bytes)
    requires |b| >= 8
    ensures var n := 8 + HeadLength(b);
            var good := HeadFlags(b) <= 1 && HeadLength(b) <= MAX_LOGICAL_RECORD_BYTES && n <= |b|;
            && (Split(b).Some? <==> good && Split(b[n..]).Some?)
            && (Split(b).Some? ==> |Split(b).value| == 1 + |Split(b[n..]).value|)
  {
  }

  lemma FeedShort(b: bytes, k: nat, limit: nat)
    requires |b| < 8 && k <= limit
    ensures var r := Finish(Feed(Counting([], 0, k), b, limit));
            && (r.Ok? <==> b == []) && (r.Ok? ==> r.value == k)
            && (Split(b).Some? <==> b == []) && (b == [] ==> Split(b) == Some([]))
  {
    FeedHeader(Counting([], 0, k), b, limit);
    assert [] + b == b;
  }

  /** From a record boundary the counter ends with `k + n` exactly when the whole-buffer parse finds `n` records. */
  lemma {:induction false} FeedIsSplit(b: bytes, k: nat, limit: nat)
    requires k <= limit
    ensures var r := Finish(Feed(Counting([], 0, k), b, limit));
            && (r.Ok? <==> Split(b).Some? && k + |Split(b).value| <= limit)
            && (r.Ok? ==> r.value == k + |Split(b).value|)
    decreases |b|
  {
    hide Feed, Split, HeadFlags, HeadLength;
    if |b| < 8 {
      FeedShort(b, k, limit);
    } else {
      FeedRecord(b, k, limit);
      SplitFirst(b);
      var s := Begin(b[..8], k, limit);
      if s.Failed? {
        FeedFailed(s, b[8..], limit);
      } else if |b| >= 8 + s.remaining {
        FeedIsSplit(b[8 + s.remaining..], k + 1, limit);
      }
    }
  }

  /** `finish` returns `n` exactly when the bytes are `n` back-to-back bounded records, at most `limit` of them. */
  lemma CounterAcceptsExactlyRecords(b: bytes, limit: nat, n: nat)
    ensures Finish(Feed(START, b, limit)) == Ok(n) <==>
            n <= limit && exists rs :: AllBounded(rs) && |rs| == n && PrintAll(rs) == b
  {
    hide Feed, Split, PrintAll, Finish;
    FeedIsSplit(b, 0, limit);
    if Split(b).Some? {
      PrintedOfSplit(b);
    }
    if rs :| AllBounded(rs) && |rs| == n && PrintAll(rs) == b {
      SplitOfPrinted(rs);
    }
  }

  // ----- The mutable counter -----

  /** `RecordCounter`: an eight-byte header buffer, how much of it is filled, payload still owed and the count. */
  class RecordCounter {
    const header: array<byte>
    var headerUsed: nat
    var remainingPayload: u32
    var records: u64
    const limit: u64

    ghost predicate Valid()
      reads this, header
    {
      header.Length == 8 && headerUsed < 8 && (headerUsed > 0 ==> remainingPayload == 0)
    }

    /** The bytes of the buffer that belong to the current header, and the two counters. */
    ghost function State(): Counting
      reads this, header
      requires Valid()
    {
      Counting(header[..headerUsed], remainingPayload, records)
    }

    constructor (limit: u64)
      ensures Valid() && fresh(header)
      ensures this.limit == limit && State() == START
    {
      header := new byte[8](_ => 0);
      headerUsed, remainingPayload, records := 0, 0, 0;
      this.limit := limit;
    }

    /** The header half of one turn of `update`: copies bytes in and, at eight, checks and begins a record. */
    method FillHeader(piece: bytes) returns (r: Result<(), CountError>)
      requires Valid() && remainingPayload == 0 && 0 < |piece| <= 8 - headerUsed
      modifies this, header
      ensures var h := old(State()).pending + piece;
              var next := if |h| == 8 then Begin(h, old(records), limit) else old(State()).(pending := h);
              && (r.Ok? ==> Valid() && State() == next)
              && (r.Err? ==> next == Failed(r.error))
    {
      CopyInto(header, headerUsed, piece);
      headerUsed := headerUsed + |piece|;
      if headerUsed == 8 {
        assert header[..] == header[..8];
        var flags := ReadU16(header[..][2..4]);
        var length := ReadU32(header[..][4..8]);
        if flags > 1 || length > MAX_LOGICAL_RECORD_BYTES {
          return Err(Integrity);
        }
        if records == U64_MAX || records + 1 > limit {
          return Err(InvalidBound);
        }
        records := records + 1;
        remainingPayload := length;
        headerUsed := 0;
        assert header[..0] == [];
      }
      return Ok(());
    }

    /** `update`: consumes one chunk of any length, wherever the previous chunk stopped. */
    method Update(chunk: bytes) returns (r: Result<(), CountError>)
      requires Valid()
      modifies this, header
      ensures r.Ok? ==> Valid() && State() == Feed(old(State()), chunk, limit)
      ensures r.Err? ==> Feed(old(State()), chunk, limit) == Failed(r.error)
    {
      hide Begin, Step;
      var at := 0;
      assert chunk[0..] == chunk;
      while at < |chunk|
        invariant 0 <= at <= |chunk|
        invariant Valid()
        invariant Feed(State(), chunk[at..], limit) == Feed(old(State()), chunk, limit)
      {
        if remainingPayload > 0 {
          var consumed := if |chunk| - at < remainingPayload then |chunk| - at else remainingPayload;
          CutPayload(State(), chunk, at, consumed, limit);
          remainingPayload := remainingPayload - consumed;
          at := at + consumed;
        } else {
          var needed := 8 - headerUsed;
          var consumed := if |chunk| - at < needed then |chunk| - at else needed;
          CutHeader(State(), chunk, at, consumed, limit);
          var filled := FillHeader(chunk[at..at + consumed]);
          at := at + consumed;
          if filled.Err? {
            FeedFailed(Failed(filled.error), chunk[at..], limit);
            return filled;
          }
        }
      }
      return Ok(());
    }

    /** `finish`: a count only at a record boundary. */
    method Complete() returns (r: Result<u64, CountError>)
      requires Valid()
      ensures r == Finish(State())
    {
      if headerUsed != 0 || remainingPayload != 0 {
        return Err(Integrity);
      }
      assert header[..0] == [];
      return Ok(records);
    }
  }

  lemma CutPayload(s: Counting, chunk: bytes, at: nat, consumed: nat, limit: nat)
    requires s.Counting? && consumed <= s.remaining && at + consumed <= |chunk|
    ensures Feed(s, chunk[at..], limit)
         == Feed(s.(remaining := s.remaining - consumed), chunk[at + consumed..], limit)
  {
    var tail := chunk[at..];
    assert tail == tail[..consumed] + tail[consumed..];
    assert tail[consumed..] == chunk[at + consumed..];
    FeedSplit(s, tail[..consumed], tail[consumed..], limit);
    FeedPayload(s, tail[..consumed], limit);
  }

  lemma CutHeader(s: Counting, chunk: bytes, at: nat, consumed: nat, limit: nat)
    requires s.Counting? && s.remaining == 0 && |s.pending| < 8
    requires |s.pending| + consumed <= 8 && at + consumed <= |chunk|
    ensures var h := s.pending + chunk[at..at + consumed];
            var next := if |h| == 8 then Begin(h, s.records, limit) else s.(pending := h);
            Feed(s, chunk[at..], limit) == Feed(next, chunk[at + consumed..], limit)
  {
    var tail := chunk[at..];
    assert tail == tail[..consumed] + tail[consumed..];
    assert tail[consumed..] == chunk[at + consumed..] && tail[..consumed] == chunk[at..at + consumed];
    FeedSplit(s, tail[..consumed], tail[consumed..], limit);
    FeedHeader(s, tail[..consumed], limit);
  }

  /** `copy_from_slice` into the middle of the buffer. */
  method CopyInto(a: array<byte>, from: nat, src: bytes)
    requires from + |src| <= a.Length
    modifies a
    ensures a[..from + |src|] == old(a[..from]) + src
  {
    for i := 0 to |src|
      invariant a[..from + i] == old(a[..from]) + src[..i]
    {
      a[from + i] := src[i];
      assert a[..from + i + 1] == a[..from + i] + [src[i]];
    }
  }
}
