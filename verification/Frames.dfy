/** Authenticated archive frames over an ideal AEAD. */
module Frames {
  import opened Bytes

  const FRAME_HEADER_BYTES: nat := 38
  const AEAD_TAG_BYTES: nat := 16
  const MAX_MANIFEST_BYTES: nat := 64 * 1024

  datatype FrameError = Io | Integrity | InvalidBound

  // ----- The ideal AEAD -----

  /** What a decryption is asked: a key, a nonce, associated data and a ciphertext. */
  datatype Query = Query(key: bytes, nonce: bytes, aad: bytes, ciphertext: bytes)

  /** Every sealing that has ever happened. */
  type Log = map<Query, bytes>

  /** Nothing else opens, and a plaintext is 16 bytes shorter than its ciphertext. */
  function Open(log: Log, q: Query): Option<bytes> {
    if q in log && |q.ciphertext| == |log[q]| + AEAD_TAG_BYTES then Some(log[q]) else None
  }

  /** The ciphertext a sealing of (key, nonce, aad, plaintext) produces. */
  type Cipher = (bytes, bytes, bytes, bytes) -> bytes

  /** Ciphertexts carry a 16-byte tag. That they decrypt, and that nothing else does, is the log's business. */
  ghost predicate Tagged(enc: Cipher) {
    forall k, n, a, p: bytes :: |enc(k, n, a, p)| == |p| + AEAD_TAG_BYTES
  }

  // ----- One frame -----

  /** A frame before sealing: 1 manifest, 2 data, 3 final. */
  datatype Plain = Plain(kind: byte, body: bytes)

  datatype Frame = Frame(kind: byte, nonce: bytes, ciphertext: bytes)

  const FRAME_LABEL: bytes :=
    [0x53, 0x4D, 0x43, 0x56, 0x2D, 0x46, 0x52, 0x41, 0x4D, 0x45, 0x2D, 0x76, 0x31, 0x00]  // "SMCV-FRAME-v1\0"

  function FrameAad(id: Id, sequence: u64, kind: byte, length: u32): (r: bytes)
    ensures |r| == 43
  {
    FRAME_LABEL + id + U64(sequence) + [kind] + U32(length)
  }

  /** The associated data names its archive, position, kind and length. */
  lemma FrameAadInjective(id: Id, s: u64, k: byte, n: u32, id': Id, s': u64, k': byte, n': u32)
    requires FrameAad(id, s, k, n) == FrameAad(id', s', k', n')
    ensures id == id' && s == s' && k == k' && n == n'
  {
    var a, b := FrameAad(id, s, k, n), FrameAad(id', s', k', n');
    assert a[14..30] == id && b[14..30] == id';
    assert a[30..38] == U64(s) && b[30..38] == U64(s');
    assert a[38] == k && b[38] == k';
    assert a[39..43] == U32(n) && b[39..43] == U32(n');
    ReadU64Of(s);
    ReadU64Of(s');
  }

  function FrameBytes(sequence: u64, f: Frame): bytes
    requires |f.ciphertext| < 0x1_0000_0000
  {
    U32(|f.ciphertext|) + U64(sequence) + [f.kind, 0] + f.nonce + f.ciphertext
  }

  /** `read_frame` on the bytes not yet consumed. */
  function ReadFrame(log: Log, dek: bytes, id: Id, expected: u64, chunkBytes: u32, src: bytes)
    : (r: Result<(Plain, nat), FrameError>)
    ensures r.Ok? ==> FRAME_HEADER_BYTES + AEAD_TAG_BYTES + |r.value.0.body| == r.value.1 <= |src|
  {
    if |src| < FRAME_HEADER_BYTES then Err(Io) else
      var length := ReadU32(src[0..4]);
      var kind := src[12];
      var size := FRAME_HEADER_BYTES + length;
      var maxPlaintext := if kind == 2 then chunkBytes else MAX_MANIFEST_BYTES;
      if ReadU64(src[4..12]) != expected || src[13] != 0 then Err(Integrity)
      else if length < AEAD_TAG_BYTES || length > maxPlaintext + AEAD_TAG_BYTES then Err(InvalidBound)
      else if |src| < size then Err(Io)
      else
        match Open(log, Query(dek, src[14..38], FrameAad(id, expected, kind, length), src[38..size]))
        case None => Err(Integrity)
        case Some(body) => Ok((Plain(kind, body), size))
  }

  lemma FrameFields(sequence: u64, f: Frame, rest: bytes)
    requires |f.ciphertext| < 0x1_0000_0000 && |f.nonce| == 24
    ensures var b := FrameBytes(sequence, f) + rest;
            && |b| == 38 + |f.ciphertext| + |rest|
            && b[0..4] == U32(|f.ciphertext|) && b[4..12] == U64(sequence)
            && b[12] == f.kind && b[13] == 0 && b[14..38] == f.nonce
            && b[38..38 + |f.ciphertext|] == f.ciphertext
            && b[38 + |f.ciphertext|..] == rest
  {
    var c := f.ciphertext;
    var head := U32(|c|) + U64(sequence) + [f.kind, 0];
    assert |head| == 14 && head[0..4] == U32(|c|) && head[4..12] == U64(sequence) && head[12] == f.kind
           && head[13] == 0;
    SliceOf(head, f.nonce, c + rest);
    SliceOf(head + f.nonce, c, rest);
    var b := FrameBytes(sequence, f) + rest;
    assert b == head + f.nonce + (c + rest);
    assert b == head + f.nonce + c + rest;
    assert b[..14] == head;
    assert b[0..4] == head[0..4] && b[4..12] == head[4..12];
  }

  /**
   * Whatever `read_frame` accepts is the print of a frame the ideal AEAD knows under that key and position, and no
   * longer than its kind may be.
   */
  lemma AcceptedFrame(log: Log, dek: bytes, id: Id, expected: u64, chunkBytes: u32, src: bytes) returns (f: Frame)
    requires ReadFrame(log, dek, id, expected, chunkBytes, src).Ok?
    ensures var (plain, size) := ReadFrame(log, dek, id, expected, chunkBytes, src).value;
            && f.kind == plain.kind && |f.nonce| == 24 && |f.ciphertext| < 0x1_0000_0000
            && FrameBytes(expected, f) == src[..size]
            && |plain.body| <= (if plain.kind == 2 then chunkBytes else 65_536)
            && var q := Query(dek, f.nonce, FrameAad(id, expected, f.kind, |f.ciphertext|), f.ciphertext);
               q in log && log[q] == plain.body && |f.ciphertext| == |plain.body| + AEAD_TAG_BYTES
  {
    var (plain, size) := ReadFrame(log, dek, id, expected, chunkBytes, src).value;
    f := Frame(src[12], src[14..38], src[38..size]);
    assert src[0..4] == U32(|f.ciphertext|);
    SliceJoin(src, 0, 4, 12);
    SliceJoin(src, 0, 12, 14);
    assert src[12..14] == [f.kind, 0];
    SliceJoin(src, 0, 14, 38);
    SliceJoin(src, 0, 38, size);
  }

  // ----- A run of frames -----

  /** A random tape of nonces. */
  type Tape = nat -> bytes

  ghost predicate NonceTape(t: Tape) {
    forall i: nat :: |t(i)| == 24
  }

  /** `write_frame`: the frame at position `i`. */
  function Seal(enc: Cipher, dek: bytes, id: Id, i: u64, nonce: bytes, plain: Plain): Frame
    requires |plain.body| + AEAD_TAG_BYTES < 0x1_0000_0000
  {
    var length := |plain.body| + AEAD_TAG_BYTES;
    Frame(plain.kind, nonce, enc(dek, nonce, FrameAad(id, i, plain.kind, length), plain.body))
  }

  /** What sealing that frame adds to the ideal AEAD's log. */
  function SealQuery(enc: Cipher, dek: bytes, id: Id, i: u64, nonce: bytes, plain: Plain): Query
    requires |plain.body| + AEAD_TAG_BYTES < 0x1_0000_0000
  {
    var f := Seal(enc, dek, id, i, nonce, plain);
    Query(dek, nonce, FrameAad(id, i, plain.kind, |plain.body| + AEAD_TAG_BYTES), f.ciphertext)
  }

  predicate Sealable(plains: seq<Plain>) {
    && |plains| <= U64_MAX
    && forall i :: 0 <= i < |plains| ==> |plains[i].body| + AEAD_TAG_BYTES < 0x1_0000_0000
  }

  function SealBytes(enc: Cipher, dek: bytes, id: Id, i: u64, nonce: bytes, plain: Plain): bytes
    requires |plain.body| + AEAD_TAG_BYTES < 0x1_0000_0000
    requires Tagged(enc)
  {
    FrameBytes(i, Seal(enc, dek, id, i, nonce, plain))
  }

  /** A frame written at position `i` reads back there, leaving the rest of the source. */
  lemma ReadOfSealed(log: Log, enc: Cipher, dek: bytes, id: Id, i: u64, nonce: bytes, plain: Plain, chunkBytes: u32,
                     rest: bytes)
    requires Tagged(enc) && |nonce| == 24
    requires |plain.body| <= if plain.kind == 2 then chunkBytes else MAX_MANIFEST_BYTES
    requires chunkBytes + AEAD_TAG_BYTES < 0x1_0000_0000
    requires var q := SealQuery(enc, dek, id, i, nonce, plain); q in log && log[q] == plain.body
    ensures var b := SealBytes(enc, dek, id, i, nonce, plain);
            && |b| == FRAME_HEADER_BYTES + AEAD_TAG_BYTES + |plain.body|
            && ReadFrame(log, dek, id, i, chunkBytes, b + rest) == Ok((plain, |b|))
  {
    var f := Seal(enc, dek, id, i, nonce, plain);
    FrameFields(i, f, rest);
    FrameFields(i, f, []);
    var b := FrameBytes(i, f);
    assert b + [] == b;
    ReadU64Of(i);
    ReadOfFields(log, dek, id, i, chunkBytes, b + rest, f, plain);
  }

  lemma ReadOfFields(log: Log, dek: bytes, id: Id, i: u64, chunkBytes: u32, src: bytes, f: Frame, plain: Plain)
    requires |f.ciphertext| == |plain.body| + AEAD_TAG_BYTES < 0x1_0000_0000 && |f.nonce| == 24 && f.kind == plain.kind
    requires |plain.body| <= if plain.kind == 2 then chunkBytes else MAX_MANIFEST_BYTES
    requires |src| >= 38 + |f.ciphertext|
    requires src[0..4] == U32(|f.ciphertext|) && src[4..12] == U64(i) && src[12] == f.kind && src[13] == 0
    requires src[14..38] == f.nonce && src[38..38 + |f.ciphertext|] == f.ciphertext
    requires var q := Query(dek, f.nonce, FrameAad(id, i, f.kind, |f.ciphertext|), f.ciphertext);
             q in log && log[q] == plain.body
    ensures ReadFrame(log, dek, id, i, chunkBytes, src) == Ok((plain, 38 + |f.ciphertext|))
  {
    ReadU32Of(|f.ciphertext|);
    ReadU64Of(i);
  }
}
