/** Bytes, fixed-width big-endian integers and the two wrappers used throughout the model. */
module Bytes {

  type byte = b: int | 0 <= b < 0x100
  type bytes = seq<byte>

  type u16 = x: int | 0 <= x < 0x1_0000
  type u32 = x: int | 0 <= x < 0x1_0000_0000
  type u64 = x: int | 0 <= x < 0x1_0000_0000_0000_0000
  type i64 = x: int | -0x8000_0000_0000_0000 <= x < 0x8000_0000_0000_0000

  const U64_MAX: int := 0xFFFF_FFFF_FFFF_FFFF
  const I64_MAX: int := 0x7FFF_FFFF_FFFF_FFFF

  /** Sixteen-byte identifiers (UUIDs). */
  type Id = s: bytes | |s| == 16 witness [0, 0, 0, 0, 0, 0, 0, 0, 0, 0, 0, 0, 0, 0, 0, 0]

  /** A 32-byte hash or keyed commitment. */
  type Digest = s: bytes | |s| == 32
    witness [0, 0, 0, 0, 0, 0, 0, 0, 0, 0, 0, 0, 0, 0, 0, 0, 0, 0, 0, 0, 0, 0, 0, 0, 0, 0, 0, 0, 0, 0, 0, 0]

  const NO_DIGEST: Digest := [0, 0, 0, 0, 0, 0, 0, 0, 0, 0, 0, 0, 0, 0, 0, 0, 0, 0, 0, 0, 0, 0, 0, 0, 0, 0, 0, 0, 0, 0,
                              0, 0]

  /** The function does not collide on these two inputs. */
  ghost predicate NoCollision(f: bytes -> Digest, x: bytes, y: bytes) {
    f(x) == f(y) ==> x == y
  }

  datatype Option<+T> = None | Some(value: T)

  datatype Result<+T, +E> = Ok(value: T) | Err(error: E) {
    predicate IsFailure() { Err? }

    function PropagateFailure<U>(): Result<U, E>
      requires Err?
    {
      Err(error)
    }

    function Extract(): T
      requires Ok?
    {
      value
    }
  }

  /** The number two bytes spell, most significant first. */
  function Value16(b: bytes): (v: u16)
    requires |b| == 2
  {
    var b1: int, b0: int := b[0], b[1];
    b1 * 0x100 + b0
  }

  /** The number four bytes spell. */
  function Value32(b: bytes): (v: u32)
    requires |b| == 4
  {
    var b3: int, b2: int, b1: int, b0: int := b[0], b[1], b[2], b[3];
    b3 * 0x100_0000 + b2 * 0x1_0000 + b1 * 0x100 + b0
  }

  lemma SameDigits(hi: int, lo: byte, hi': int, lo': byte)
    requires hi * 0x100 + lo == hi' * 0x100 + lo'
    ensures hi == hi' && lo == lo'
  {
  }

  lemma Value16Injective(a: bytes, b: bytes)
    requires |a| == |b| == 2 && Value16(a) == Value16(b)
    ensures a == b
  {
    SameDigits(a[0], a[1], b[0], b[1]);
  }

  lemma Value32Injective(a: bytes, b: bytes)
    requires |a| == |b| == 4 && Value32(a) == Value32(b)
    ensures a == b
  {
    var a0: int, a1: int, a2: int := a[0], a[1], a[2];
    var b0: int, b1: int, b2: int := b[0], b[1], b[2];
    SameDigits(a0 * 0x1_0000 + a1 * 0x100 + a2, a[3], b0 * 0x1_0000 + b1 * 0x100 + b2, b[3]);
    SameDigits(a0 * 0x100 + a1, a[2], b0 * 0x100 + b1, b[2]);
    SameDigits(a0, a[1], b0, b[1]);
  }

  lemma Unique16(v: u16)
    ensures exists r: bytes :: |r| == 2 && Value16(r) == v
    ensures forall a: bytes, b: bytes :: |a| == |b| == 2 && Value16(a) == v && Value16(b) == v ==> a == b
  {
    assert Value16([v / 0x100, v % 0x100]) == v;
    forall a: bytes, b: bytes | |a| == |b| == 2 && Value16(a) == v && Value16(b) == v
      ensures a == b
    {
      Value16Injective(a, b);
    }
  }

  lemma Unique32(v: u32)
    ensures exists r: bytes :: |r| == 4 && Value32(r) == v
    ensures forall a: bytes, b: bytes :: |a| == |b| == 4 && Value32(a) == v && Value32(b) == v ==> a == b
  {
    var hi, lo := v / 0x1_0000, v % 0x1_0000;
    assert Value32([hi / 0x100, hi % 0x100, lo / 0x100, lo % 0x100]) == v;
    forall a: bytes, b: bytes | |a| == |b| == 4 && Value32(a) == v && Value32(b) == v
      ensures a == b
    {
      Value32Injective(a, b);
    }
  }

  /** `u16::to_be_bytes`: the two bytes that spell `v`. */
  function U16(v: u16): (r: bytes)
    ensures |r| == 2 && Value16(r) == v
  {
    Unique16(v);
    var r: bytes :| |r| == 2 && Value16(r) == v; r
  }

  /** `u32::to_be_bytes`: the four bytes that spell `v`. */
  function U32(v: u32): (r: bytes)
    ensures |r| == 4 && Value32(r) == v
  {
    Unique32(v);
    var r: bytes :| |r| == 4 && Value32(r) == v; r
  }

  /** `u64::to_be_bytes`: two halves. */
  function U64(v: u64): (r: bytes)
    ensures |r| == 8
  {
    U32(v / 0x1_0000_0000) + U32(v % 0x1_0000_0000)
  }

  /** `i64::to_be_bytes`: two's complement. */
  function I64(v: i64): (r: bytes)
    ensures |r| == 8
  {
    U64(if v < 0 then v + 0x1_0000_0000_0000_0000 else v)
  }

  /** `u16::from_be_bytes`, the inverse of `U16`. */
  function ReadU16(b: bytes): (v: u16)
    requires |b| == 2
    ensures U16(v) == b
  {
    Value16Injective(U16(Value16(b)), b);
    Value16(b)
  }

  /** `u32::from_be_bytes`, the inverse of `U32`. */
  function ReadU32(b: bytes): (v: u32)
    requires |b| == 4
    ensures U32(v) == b
  {
    Value32Injective(U32(Value32(b)), b);
    Value32(b)
  }

  /** `u64::from_be_bytes`, the inverse of `U64`. */
  function ReadU64(b: bytes): (v: u64)
    requires |b| == 8
    ensures U64(v) == b
  {
    var hi: int, lo: int := ReadU32(b[..4]), ReadU32(b[4..]);
    assert b == b[..4] + b[4..];
    hi * 0x1_0000_0000 + lo
  }

  function ReadI64(b: bytes): (v: i64)
    requires |b| == 8
    ensures I64(v) == b
  {
    var u := ReadU64(b);
    if u >= 0x8000_0000_0000_0000 then u - 0x1_0000_0000_0000_0000 else u
  }

  lemma ReadU16Of(v: u16)
    ensures ReadU16(U16(v)) == v
  {
  }

  lemma ReadU32Of(v: u32)
    ensures ReadU32(U32(v)) == v
  {
  }

  lemma ReadU64Of(v: u64)
    ensures ReadU64(U64(v)) == v
  {
    assert U64(v)[..4] == U32(v / 0x1_0000_0000) && U64(v)[4..] == U32(v % 0x1_0000_0000);
  }

  lemma ReadI64Of(v: i64)
    ensures ReadI64(I64(v)) == v
  {
    ReadU64Of(if v < 0 then v + 0x1_0000_0000_0000_0000 else v);
  }

  /** Taking the middle piece out of a concatenation. */
  lemma SliceOf<T>(a: seq<T>, m: seq<T>, c: seq<T>)
    ensures (a + m + c)[|a|..|a| + |m|] == m
    ensures (a + m + c)[..|a|] == a
    ensures (a + m + c)[|a| + |m|..] == c
  {
  }

  /** Two adjacent slices join. */
  lemma SliceJoin<T>(s: seq<T>, i: nat, j: nat, k: nat)
    requires i <= j <= k <= |s|
    ensures s[i..j] + s[j..k] == s[i..k]
  {
  }
}
