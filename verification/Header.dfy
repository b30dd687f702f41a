/** The public archive header: printer, parser and their mutual inverse. */
module Header {
  import opened Bytes

  const MAGIC: bytes := [0x53, 0x4D, 0x43, 0x56, 0x4C, 0x54, 0x30, 0x31]  // "SMCVLT01"
  const FORMAT_VERSION: u16 := 1
  const ALGORITHM_SUITE: u16 := 1
  const MAX_HEADER_BYTES: nat := 256
  const MAX_ARCHIVE_BYTES: nat := 64 * 1024 * 1024 * 1024
  const MIN_CHUNK_BYTES: u32 := 16 * 1024
  const MAX_CHUNK_BYTES: u32 := 4 * 1024 * 1024
  const MAX_RECORDS: u64 := 10_000_000
  const MIN_ARGON2_MEMORY_KIB: u32 := 64 * 1024
  const MAX_ARGON2_MEMORY_KIB: u32 := 256 * 1024
  const MAX_ARGON2_ITERATIONS: u32 := 10
  const MAX_ARGON2_LANES: byte := 4
  const FIXED_HEADER_BYTES: nat := 54
  const WRAP_NONCE_BYTES: nat := 24
  const WRAPPED_DEK_BYTES: nat := 48
  const MIN_HEADER_BYTES: nat := FIXED_HEADER_BYTES + WRAP_NONCE_BYTES + WRAPPED_DEK_BYTES
  const MIN_SALT_BYTES: nat := 16
  const MAX_SALT_BYTES: nat := 32

  datatype KeyMode = PassphraseArgon2id | RecoveryKey

  datatype Argon2Parameters = Argon2Parameters(memoryKib: u32, iterations: u32, lanes: byte)

  datatype PublicHeader = PublicHeader(
    archiveId: Id,
    keyMode: KeyMode,
    salt: bytes,
    argon2: Option<Argon2Parameters>,
    chunkBytes: u32,
    recordLimit: u64,
    wrapNonce: bytes,
    wrappedDek: bytes)

  datatype HeaderError = ArchiveTooLarge | Truncated | BadMagic | Unsupported | InvalidBound | InvalidKdf

  predicate ValidArgon2(p: Argon2Parameters) {
    && MIN_ARGON2_MEMORY_KIB <= p.memoryKib <= MAX_ARGON2_MEMORY_KIB
    && 1 <= p.iterations <= MAX_ARGON2_ITERATIONS
    && 1 <= p.lanes <= MAX_ARGON2_LANES
  }

  /** The headers a version 1 writer may produce. */
  predicate ValidHeader(h: PublicHeader) {
    && MIN_CHUNK_BYTES <= h.chunkBytes <= MAX_CHUNK_BYTES
    && 1 <= h.recordLimit <= MAX_RECORDS
    && |h.wrapNonce| == WRAP_NONCE_BYTES
    && |h.wrappedDek| == WRAPPED_DEK_BYTES
    && match h.keyMode
       case PassphraseArgon2id =>
         && MIN_SALT_BYTES <= |h.salt| <= MAX_SALT_BYTES
         && h.argon2.Some?
         && ValidArgon2(h.argon2.value)
       case RecoveryKey => h.salt == [] && h.argon2.None?
  }

  function ModeByte(m: KeyMode): byte {
    match m
    case PassphraseArgon2id => 1
    case RecoveryKey => 2
  }

  function ParametersOrZero(p: Option<Argon2Parameters>): Argon2Parameters {
    match p
    case Some(v) => v
    case None => Argon2Parameters(0, 0, 0)
  }

  /** Bytes 0 to 16: magic, version, suite, mode, a reserved zero and the header length. */
  function Preamble(h: PublicHeader): bytes
    requires |h.salt| <= 0xFF
  {
    MAGIC + U16(FORMAT_VERSION) + U16(ALGORITHM_SUITE) + [ModeByte(h.keyMode)] + [0]
    + U16(MIN_HEADER_BYTES + |h.salt|)
  }

  /** Bytes 16 to 54: identity, salt length, key-derivation costs and the two bounds. */
  function Parameters(h: PublicHeader): bytes
    requires |h.salt| <= 0xFF
  {
    var p := ParametersOrZero(h.argon2);
    h.archiveId + [|h.salt|] + U32(p.memoryKib) + U32(p.iterations) + [p.lanes]
    + U32(h.chunkBytes) + U64(h.recordLimit)
  }

  /**
   * `encode_header_prefix`: everything before the wrapped key; refuses a salt whose length needs more than one byte.
   */
  function EncodeHeaderPrefix(h: PublicHeader): Result<bytes, HeaderError> {
    if |h.salt| > 0xFF then Err(InvalidBound)
    else Ok(Preamble(h) + Parameters(h) + h.salt + h.wrapNonce)
  }

  function EncodePublicHeader(h: PublicHeader): Result<bytes, HeaderError> {
    var prefix :- EncodeHeaderPrefix(h);
    Ok(prefix + h.wrappedDek)
  }

  /** `parse_public_header`, check by check in source order. */
  function ParsePublicHeader(b: bytes, total: u64): Result<PublicHeader, HeaderError> {
    if total > MAX_ARCHIVE_BYTES then Err(ArchiveTooLarge)
    else if |b| < FIXED_HEADER_BYTES then Err(Truncated)
    else if b[0..8] != MAGIC then Err(BadMagic)
    else if ReadU16(b[8..10]) != FORMAT_VERSION || ReadU16(b[10..12]) != ALGORITHM_SUITE then Err(Unsupported)
    else if b[12] != 1 && b[12] != 2 then Err(Unsupported)
    else if b[13] != 0 then Err(Unsupported)
    else
      var headerLen := ReadU16(b[14..16]);
      if !(MIN_HEADER_BYTES <= headerLen <= MAX_HEADER_BYTES) || |b| < headerLen then Err(InvalidBound)
      else if headerLen != MIN_HEADER_BYTES + b[32] then Err(InvalidBound)
      else ParseBody(b, if b[12] == 1 then PassphraseArgon2id else RecoveryKey, headerLen)
  }

  /** The bounds and key-derivation checks that follow the layout checks. */
  function ParseBody(b: bytes, mode: KeyMode, headerLen: nat): Result<PublicHeader, HeaderError>
    requires FIXED_HEADER_BYTES <= |b|
    requires MIN_HEADER_BYTES <= headerLen <= |b|
    requires headerLen == MIN_HEADER_BYTES + b[32]
  {
    var saltLen := b[32];
    var p := Argon2Parameters(ReadU32(b[33..37]), ReadU32(b[37..41]), b[41]);
    var chunkBytes := ReadU32(b[42..46]);
    var recordLimit := ReadU64(b[46..54]);
    var nonceAt := FIXED_HEADER_BYTES + saltLen;
    if !(MIN_CHUNK_BYTES <= chunkBytes <= MAX_CHUNK_BYTES) || recordLimit == 0 || recordLimit > MAX_RECORDS then
      Err(InvalidBound)
    else if mode.PassphraseArgon2id?
            && (!(MIN_SALT_BYTES <= saltLen <= MAX_SALT_BYTES) || !ValidArgon2(p)) then
      Err(InvalidKdf)
    else if mode.RecoveryKey? && (saltLen != 0 || p != Argon2Parameters(0, 0, 0)) then
      Err(InvalidKdf)
    else
      Ok(PublicHeader(
           b[16..32],
           mode,
           b[FIXED_HEADER_BYTES..nonceAt],
           if mode.PassphraseArgon2id? then Some(p) else None,
           chunkBytes,
           recordLimit,
           b[nonceAt..nonceAt + WRAP_NONCE_BYTES],
           b[nonceAt + WRAP_NONCE_BYTES..headerLen]))
  }

  lemma PreambleLayout(h: PublicHeader)
    requires |h.salt| <= 0xFF
    ensures var e := Preamble(h);
            && |e| == 16
            && e[0..8] == MAGIC && e[8..10] == U16(1) && e[10..12] == U16(1)
            && e[12] == ModeByte(h.keyMode) && e[13] == 0
            && e[14..16] == U16(MIN_HEADER_BYTES + |h.salt|)
  {
  }

  lemma ParametersLayout(h: PublicHeader)
    requires |h.salt| <= 0xFF
    ensures var e := Parameters(h);
            var p := ParametersOrZero(h.argon2);
            && |e| == 38
            && e[0..16] == h.archiveId && e[16] == |h.salt|
            && e[17..21] == U32(p.memoryKib) && e[21..25] == U32(p.iterations) && e[25] == p.lanes
            && e[26..30] == U32(h.chunkBytes) && e[30..38] == U64(h.recordLimit)
  {
  }

  /** A slice of a part is the same slice, shifted, of the whole. */
  lemma Shifted<T>(a: seq<T>, m: seq<T>, c: seq<T>, i: nat, j: nat)
    requires i <= j <= |m|
    ensures (a + m + c)[|a| + i..|a| + j] == m[i..j]
  {
  }

  lemma PreambleSlices(e: bytes, h: PublicHeader, rest: bytes)
    requires |h.salt| <= 0xFF
    requires e == Preamble(h) + rest
    ensures |e| >= 16 && e[0..8] == MAGIC && e[8..10] == U16(1) && e[10..12] == U16(1)
    ensures e[12] == ModeByte(h.keyMode) && e[13] == 0 && e[14..16] == U16(MIN_HEADER_BYTES + |h.salt|)
  {
    PreambleLayout(h);
    assert e == [] + Preamble(h) + rest;
    Shifted([], Preamble(h), rest, 0, 8);
    Shifted([], Preamble(h), rest, 8, 10);
    Shifted([], Preamble(h), rest, 10, 12);
    Shifted([], Preamble(h), rest, 14, 16);
  }

  lemma ParameterSlices(e: bytes, h: PublicHeader, rest: bytes)
    requires |h.salt| <= 0xFF
    requires e == Preamble(h) + Parameters(h) + rest
    ensures var p := ParametersOrZero(h.argon2);
            && |e| >= 54
            && e[16..32] == h.archiveId && e[32] == |h.salt|
            && e[33..37] == U32(p.memoryKib) && e[37..41] == U32(p.iterations) && e[41] == p.lanes
            && e[42..46] == U32(h.chunkBytes) && e[46..54] == U64(h.recordLimit)
  {
    PreambleLayout(h);
    ParametersLayout(h);
    var a, m := Preamble(h), Parameters(h);
    Shifted(a, m, rest, 0, 16);
    Shifted(a, m, rest, 17, 21);
    Shifted(a, m, rest, 21, 25);
    Shifted(a, m, rest, 26, 30);
    Shifted(a, m, rest, 30, 38);
  }

  lemma TailSlices(e: bytes, fixed: bytes, salt: bytes, nonce: bytes, dek: bytes, rest: bytes)
    requires |fixed| == 54 && |nonce| == 24 && |dek| == 48
    requires e == fixed + salt + nonce + dek + rest
    ensures |e| == 126 + |salt| + |rest|
    ensures e[54..54 + |salt|] == salt
    ensures e[54 + |salt|..78 + |salt|] == nonce
    ensures e[78 + |salt|..126 + |salt|] == dek
  {
  }

  lemma Regroup<T>(a: seq<T>, b: seq<T>, c: seq<T>, d: seq<T>, e: seq<T>, f: seq<T>)
    ensures a + b + c + d + e + f == a + b + (c + d + e + f) == a + (b + (c + d + e + f))
  {
  }

  /** Where each field of a printed header lands. */
  ghost predicate LaidOut(e: bytes, h: PublicHeader) {
    var p := ParametersOrZero(h.argon2);
    && |h.salt| <= 0xFF
    && |e| >= MIN_HEADER_BYTES + |h.salt|
    && e[0..8] == MAGIC && e[8..10] == U16(1) && e[10..12] == U16(1)
    && e[12] == ModeByte(h.keyMode) && e[13] == 0
    && e[14..16] == U16(MIN_HEADER_BYTES + |h.salt|)
    && e[16..32] == h.archiveId && e[32] == |h.salt|
    && e[33..37] == U32(p.memoryKib) && e[37..41] == U32(p.iterations) && e[41] == p.lanes
    && e[42..46] == U32(h.chunkBytes) && e[46..54] == U64(h.recordLimit)
    && e[54..54 + |h.salt|] == h.salt
    && e[54 + |h.salt|..78 + |h.salt|] == h.wrapNonce
    && e[78 + |h.salt|..126 + |h.salt|] == h.wrappedDek
  }

  lemma EncodedIsLaidOut(e: bytes, h: PublicHeader, rest: bytes)
    requires ValidHeader(h)
    requires e == EncodePublicHeader(h).value + rest
    ensures LaidOut(e, h)
  {
    var tail := h.salt + h.wrapNonce + h.wrappedDek + rest;
    PreambleLayout(h);
    ParametersLayout(h);
    Regroup(Preamble(h), Parameters(h), h.salt, h.wrapNonce, h.wrappedDek, rest);
    PreambleSlices(e, h, Parameters(h) + tail);
    ParameterSlices(e, h, tail);
    TailSlices(e, Preamble(h) + Parameters(h), h.salt, h.wrapNonce, h.wrappedDek, rest);
  }

  lemma ParseOfLaidOut(e: bytes, h: PublicHeader, total: u64)
    requires ValidHeader(h) && LaidOut(e, h)
    requires total <= MAX_ARCHIVE_BYTES
    ensures ParsePublicHeader(e, total) == Ok(h)
  {
    ReadU64Of(h.recordLimit);
  }

  /** A valid header reparses to itself, whatever follows it in the file. */
  lemma ParseOfEncoded(h: PublicHeader, rest: bytes, total: u64)
    requires ValidHeader(h)
    requires total <= MAX_ARCHIVE_BYTES
    ensures EncodePublicHeader(h).Ok?
    ensures ParsePublicHeader(EncodePublicHeader(h).value + rest, total) == Ok(h)
  {
    EncodedIsLaidOut(EncodePublicHeader(h).value + rest, h, rest);
    ParseOfLaidOut(EncodePublicHeader(h).value + rest, h, total);
  }

  lemma PreambleOfParsed(b: bytes, h: PublicHeader)
    requires |b| >= 16 && |h.salt| <= 0xFF
    requires b[0..8] == MAGIC && b[8..10] == U16(1) && b[10..12] == U16(1)
    requires b[12] == ModeByte(h.keyMode) && b[13] == 0 && b[14..16] == U16(MIN_HEADER_BYTES + |h.salt|)
    ensures Preamble(h) == b[..16]
  {
    SliceJoin(b, 0, 8, 10);
    SliceJoin(b, 0, 10, 12);
    SliceJoin(b, 0, 12, 13);
    SliceJoin(b, 0, 13, 14);
    SliceJoin(b, 0, 14, 16);
  }

  lemma ParametersOfParsed(b: bytes, h: PublicHeader)
    requires |b| >= 54 && |h.salt| <= 0xFF
    requires var p := ParametersOrZero(h.argon2);
             && b[16..32] == h.archiveId && b[32] == |h.salt|
             && b[33..37] == U32(p.memoryKib) && b[37..41] == U32(p.iterations) && b[41] == p.lanes
             && b[42..46] == U32(h.chunkBytes) && b[46..54] == U64(h.recordLimit)
    ensures Parameters(h) == b[16..54]
  {
    SliceJoin(b, 16, 32, 33);
    SliceJoin(b, 16, 33, 37);
    SliceJoin(b, 16, 37, 41);
    SliceJoin(b, 16, 41, 42);
    SliceJoin(b, 16, 42, 46);
    SliceJoin(b, 16, 46, 54);
  }

  /** Every accepted prefix is exactly what the printer writes for the parsed header. */
  lemma EncodeOfParsed(b: bytes, total: u64)
    requires ParsePublicHeader(b, total).Ok?
    ensures var h := ParsePublicHeader(b, total).value;
            var n := MIN_HEADER_BYTES + |h.salt|;
            && ValidHeader(h)
            && n <= |b| && n <= MAX_HEADER_BYTES
            && EncodeHeaderPrefix(h) == Ok(b[..n - WRAPPED_DEK_BYTES])
            && EncodePublicHeader(h) == Ok(b[..n])
            && n == ReadU16(b[14..16])
  {
    var h := ParsePublicHeader(b, total).value;
    var n := MIN_HEADER_BYTES + |h.salt|;
    PreambleOfParsed(b, h);
    ParametersOfParsed(b, h);
    SliceJoin(b, 0, 16, 54);
    SliceJoin(b, 0, 54, 54 + |h.salt|);
    SliceJoin(b, 0, 54 + |h.salt|, 78 + |h.salt|);
    SliceJoin(b, 0, 78 + |h.salt|, n);
  }

  /** Acceptance, said without the parser: the bytes start with the print of a valid header. */
  lemma AcceptsExactlyEncodings(b: bytes, total: u64)
    ensures ParsePublicHeader(b, total).Ok? <==>
            && total <= MAX_ARCHIVE_BYTES
            && exists h :: ValidHeader(h) && EncodePublicHeader(h).Ok? && EncodePublicHeader(h).value <= b
  {
    if ParsePublicHeader(b, total).Ok? {
      EncodeOfParsed(b, total);
    }
    if h :| total <= MAX_ARCHIVE_BYTES && ValidHeader(h) && EncodePublicHeader(h).Ok?
            && EncodePublicHeader(h).value <= b
    {
      var e := EncodePublicHeader(h).value;
      assert b == e + b[|e|..];
      ParseOfEncoded(h, b[|e|..], total);
    }
  }
}
