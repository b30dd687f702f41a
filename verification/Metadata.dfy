/** The metadata codec: a fixed header with length sentinels, then the texts, read back with a moving cursor. */
module Metadata {
  import opened Bytes

  const MAX_NAME_BYTES: nat := 256
  const MAX_DESCRIPTION_BYTES: nat := 4096
  const MAX_USERNAME_BYTES: nat := 256
  const MAX_TAG_BYTES: nat := 64
  const MAX_TAGS: nat := 32

  const NO_DESCRIPTION: u32 := 0xFFFF_FFFF
  const NO_USERNAME: u16 := 0xFFFF

  /** `SMCVMD02`. */
  const MAGIC: bytes := [83, 77, 67, 86, 77, 68, 48, 50]

  datatype Metadata = Metadata(name: bytes, description: Option<bytes>, username: Option<bytes>, tags: seq<bytes>)

  /** Which byte strings are text, and which texts hold no control character. */
  datatype Charset = Charset(isText: bytes -> bool, isPlain: bytes -> bool)

  // ----- What is admitted -----

  predicate TextWithin(cs: Charset, s: bytes, max: nat) {
    |s| <= max && cs.isText(s)
  }

  predicate Label(cs: Charset, s: bytes, max: nat) {
    0 < |s| && TextWithin(cs, s, max) && cs.isPlain(s)
  }

  /** `validate_metadata`, on texts. */
  predicate Admitted(cs: Charset, m: Metadata) {
    && Label(cs, m.name, MAX_NAME_BYTES)
    && (m.description.Some? ==> TextWithin(cs, m.description.value, MAX_DESCRIPTION_BYTES))
    && (m.username.Some? ==> TextWithin(cs, m.username.value, MAX_USERNAME_BYTES) && cs.isPlain(m.username.value))
    && |m.tags| <= MAX_TAGS && (forall i :: 0 <= i < |m.tags| ==> Label(cs, m.tags[i], MAX_TAG_BYTES))
  }

  // ----- Encoding -----

  function DescriptionLength(m: Metadata): u32
    requires m.description.Some? ==> |m.description.value| <= MAX_DESCRIPTION_BYTES
  {
    if m.description.Some? then |m.description.value| else NO_DESCRIPTION
  }

  function UsernameLength(m: Metadata): u16
    requires m.username.Some? ==> |m.username.value| <= MAX_USERNAME_BYTES
  {
    if m.username.Some? then |m.username.value| else NO_USERNAME
  }

  function OrEmpty(s: Option<bytes>): bytes {
    if s.Some? then s.value else []
  }

  function Header(kind: byte, name: u16, description: u32, username: u16, tags: byte): (r: bytes)
    ensures |r| == 18
  {
    MAGIC + [kind] + U16(name) + U32(description) + U16(username) + [tags]
  }

  function TagBytes(tags: seq<bytes>): bytes
    requires forall i :: 0 <= i < |tags| ==> |tags[i]| <= MAX_TAG_BYTES
  {
    if tags == [] then [] else U16(|tags[0]|) + tags[0] + TagBytes(tags[1..])
  }

  function Encode(cs: Charset, m: Metadata, kind: byte): bytes
    requires Admitted(cs, m)
  {
    Header(kind, |m.name|, DescriptionLength(m), UsernameLength(m), |m.tags|)
    + (m.name + (OrEmpty(m.description) + (OrEmpty(m.username) + TagBytes(m.tags))))
  }

  // ----- Decoding -----

  /** A text of a stated length off the front. */
  function ReadText(cs: Charset, t: bytes, length: nat, max: nat, nonempty: bool): Option<(bytes, bytes)> {
    if length > max || (nonempty && length == 0) || |t| < length || !cs.isText(t[..length]) then None
    else Some((t[..length], t[length..]))
  }

  function ReadOptional(cs: Charset, t: bytes, length: Option<nat>, max: nat): Option<(Option<bytes>, bytes)> {
    if length.None? then Some((None, t))
    else
      match ReadText(cs, t, length.value, max, false)
      case None => None
      case Some(r) => Some((Some(r.0), r.1))
  }

  function ReadTag(cs: Charset, t: bytes): Option<(bytes, bytes)> {
    if |t| < 2 then None else ReadText(cs, t[2..], ReadU16(t[..2]), MAX_TAG_BYTES, true)
  }

  function ReadTags(cs: Charset, t: bytes, count: nat): Option<(seq<bytes>, bytes)> {
    if count == 0 then Some(([], t))
    else
      match ReadTag(cs, t)
      case None => None
      case Some(first) =>
        match ReadTags(cs, first.1, count - 1)
        case None => None
        case Some(rest) => Some(([first.0] + rest.0, rest.1))
  }

  function ReadBody(cs: Charset, t: bytes, name: nat, description: Option<nat>, username: Option<nat>,
                    tags: nat): Option<Metadata> {
    match ReadText(cs, t, name, MAX_NAME_BYTES, true)
    case None => None
    case Some(n) =>
      match ReadOptional(cs, n.1, description, MAX_DESCRIPTION_BYTES)
      case None => None
      case Some(d) =>
        match ReadOptional(cs, d.1, username, MAX_USERNAME_BYTES)
        case None => None
        case Some(u) =>
          match ReadTags(cs, u.1, tags)
          case None => None
          case Some(g) =>
            if g.1 != [] || !cs.isPlain(n.0) || (u.0.Some? && !cs.isPlain(u.0.value)) || !AllPlain(cs, g.0) then None
            else Some(Metadata(n.0, d.0, u.0, g.0))
  }

  predicate AllPlain(cs: Charset, tags: seq<bytes>) {
    forall i :: 0 <= i < |tags| ==> cs.isPlain(tags[i])
  }

  function DescriptionOf(raw: u32): Option<nat> {
    if raw == NO_DESCRIPTION then None else Some(raw)
  }

  function UsernameOf(raw: u16): Option<nat> {
    if raw == NO_USERNAME then None else Some(raw)
  }

  /** `decode_metadata`, as a function of the whole buffer. */
  function Decode(cs: Charset, b: bytes, kind: byte): Option<Metadata> {
    if |b| < 18 || b[..8] != MAGIC || b[8] != kind then None
    else
      var description, username := DescriptionOf(ReadU32(b[11..15])), UsernameOf(ReadU16(b[15..17]));
      if (description.Some? && description.value > MAX_DESCRIPTION_BYTES)
         || (username.Some? && username.value > MAX_USERNAME_BYTES)
         || b[17] > MAX_TAGS then None
      else ReadBody(cs, b[18..], ReadU16(b[9..11]), description, username, b[17])
  }

  // ----- Decoding undoes encoding -----

  lemma HeaderPieces(kind: byte, name: u16, description: u32, username: u16, tags: byte, rest: bytes)
    ensures var b := Header(kind, name, description, username, tags) + rest;
            && b[..8] == MAGIC && b[8] == kind && ReadU16(b[9..11]) == name && ReadU32(b[11..15]) == description
            && ReadU16(b[15..17]) == username && b[17] == tags && b[18..] == rest
  {
    var b := Header(kind, name, description, username, tags) + rest;
    assert b[9..11] == U16(name) && b[11..15] == U32(description) && b[15..17] == U16(username);
    ReadU16Of(name);
    ReadU32Of(description);
    ReadU16Of(username);
  }

  lemma ReadTextOf(cs: Charset, s: bytes, rest: bytes, max: nat, nonempty: bool)
    requires TextWithin(cs, s, max) && (nonempty ==> s != [])
    ensures ReadText(cs, s + rest, |s|, max, nonempty) == Some((s, rest))
  {
    assert (s + rest)[..|s|] == s && (s + rest)[|s|..] == rest;
  }

  lemma ReadTagOf(cs: Charset, s: bytes, rest: bytes)
    requires Label(cs, s, MAX_TAG_BYTES)
    ensures ReadTag(cs, U16(|s|) + s + rest) == Some((s, rest))
  {
    var t := U16(|s|) + s + rest;
    assert t[..2] == U16(|s|) && t[2..] == s + rest;
    ReadU16Of(|s|);
    ReadTextOf(cs, s, rest, MAX_TAG_BYTES, true);
  }

  lemma {:induction false} ReadTagsOf(cs: Charset, tags: seq<bytes>, rest: bytes)
    requires forall i :: 0 <= i < |tags| ==> |tags[i]| <= MAX_TAG_BYTES
    requires forall i :: 0 <= i < |tags| ==> Label(cs, tags[i], MAX_TAG_BYTES)
    ensures ReadTags(cs, TagBytes(tags) + rest, |tags|) == Some((tags, rest))
  {
    if tags == [] {
      assert TagBytes(tags) + rest == rest;
    } else {
      assert TagBytes(tags) + rest == U16(|tags[0]|) + tags[0] + (TagBytes(tags[1..]) + rest);
      ReadTagOf(cs, tags[0], TagBytes(tags[1..]) + rest);
      ReadTagsOf(cs, tags[1..], rest);
      assert [tags[0]] + tags[1..] == tags;
    }
  }

  lemma ReadOptionalOf(cs: Charset, s: Option<bytes>, rest: bytes, max: nat)
    requires s.Some? ==> TextWithin(cs, s.value, max)
    ensures ReadOptional(cs, OrEmpty(s) + rest, if s.Some? then Some(|s.value|) else None, max) == Some((s, rest))
  {
    if s.Some? {
      ReadTextOf(cs, s.value, rest, max, false);
    } else {
      assert OrEmpty(s) + rest == rest;
    }
  }

  /** Every admitted input is read back as it was, absent and empty texts told apart. */
  lemma DecodeOfEncoded(cs: Charset, m: Metadata, kind: byte)
    requires Admitted(cs, m)
    ensures Decode(cs, Encode(cs, m, kind), kind) == Some(m)
  {
    hide ReadText, ReadOptional, ReadTags, Header, TagBytes;
    var t3 := TagBytes(m.tags);
    var t2 := OrEmpty(m.username) + t3;
    var t1 := OrEmpty(m.description) + t2;
    HeaderPieces(kind, |m.name|, DescriptionLength(m), UsernameLength(m), |m.tags|, m.name + t1);
    ReadTextOf(cs, m.name, t1, MAX_NAME_BYTES, true);
    ReadOptionalOf(cs, m.description, t2, MAX_DESCRIPTION_BYTES);
    ReadOptionalOf(cs, m.username, t3, MAX_USERNAME_BYTES);
    ReadTagsOf(cs, m.tags, []);
    assert t3 + [] == t3;
  }

  // ----- Encoding undoes decoding -----

  lemma TagReadBack(cs: Charset, t: bytes)
    requires ReadTag(cs, t).Some?
    ensures var r := ReadTag(cs, t).value;
            0 < |r.0| <= MAX_TAG_BYTES && cs.isText(r.0) && t == U16(|r.0|) + r.0 + r.1 && |r.1| < |t|
  {
    var r := ReadTag(cs, t).value;
    assert t == t[..2] + t[2..] && t[2..] == r.0 + r.1;
  }

  /** Non-empty texts of bounded length. */
  ghost predicate Texts(cs: Charset, tags: seq<bytes>) {
    forall i :: 0 <= i < |tags| ==> 0 < |tags[i]| <= MAX_TAG_BYTES && cs.isText(tags[i])
  }

  lemma {:induction false} TagsReadBack(cs: Charset, t: bytes, count: nat)
    requires ReadTags(cs, t, count).Some?
    ensures var r := ReadTags(cs, t, count).value;
            |r.0| == count && Texts(cs, r.0) && t == TagBytes(r.0) + r.1
    decreases count
  {
    hide ReadTag;
    if count > 0 {
      TagReadBack(cs, t);
      var first := ReadTag(cs, t).value;
      TagsReadBack(cs, first.1, count - 1);
      var rest := ReadTags(cs, first.1, count - 1).value;
      TagBytesCons(first.0, rest.0, rest.1);
    }
  }

  lemma TagBytesCons(s: bytes, tags: seq<bytes>, rest: bytes)
    requires |s| <= MAX_TAG_BYTES && forall i :: 0 <= i < |tags| ==> |tags[i]| <= MAX_TAG_BYTES
    ensures TagBytes([s] + tags) + rest == U16(|s|) + s + (TagBytes(tags) + rest)
  {
    assert ([s] + tags)[1..] == tags;
  }

  lemma TextReadBack(cs: Charset, t: bytes, length: nat, max: nat, nonempty: bool)
    requires ReadText(cs, t, length, max, nonempty).Some?
    ensures var r := ReadText(cs, t, length, max, nonempty).value;
            t == r.0 + r.1 && |r.0| == length && TextWithin(cs, r.0, max) && (nonempty ==> r.0 != [])
  {
  }

  lemma OptionalReadBack(cs: Charset, t: bytes, length: Option<nat>, max: nat)
    requires ReadOptional(cs, t, length, max).Some?
    ensures var r := ReadOptional(cs, t, length, max).value;
            && t == OrEmpty(r.0) + r.1 && length == (if r.0.Some? then Some(|r.0.value|) else None)
            && (r.0.Some? ==> TextWithin(cs, r.0.value, max))
  {
  }

  lemma HeaderReadBack(b: bytes)
    requires |b| >= 18 && b[..8] == MAGIC
    ensures b == Header(b[8], ReadU16(b[9..11]), ReadU32(b[11..15]), ReadU16(b[15..17]), b[17]) + b[18..]
  {
    assert b == b[..8] + [b[8]] + b[9..11] + b[11..15] + b[15..17] + [b[17]] + b[18..];
  }

  lemma BodyReadBack(cs: Charset, t: bytes, name: nat, description: Option<nat>, username: Option<nat>, tags: nat)
    requires ReadBody(cs, t, name, description, username, tags).Some? && tags <= MAX_TAGS
    ensures var m := ReadBody(cs, t, name, description, username, tags).value;
            && Admitted(cs, m) && |m.name| == name && |m.tags| == tags
            && description == (if m.description.Some? then Some(|m.description.value|) else None)
            && username == (if m.username.Some? then Some(|m.username.value|) else None)
            && t == m.name + (OrEmpty(m.description) + (OrEmpty(m.username) + TagBytes(m.tags)))
  {
    hide ReadText, ReadOptional, ReadTags, TagBytes;
    var n := ReadText(cs, t, name, MAX_NAME_BYTES, true).value;
    var d := ReadOptional(cs, n.1, description, MAX_DESCRIPTION_BYTES).value;
    var u := ReadOptional(cs, d.1, username, MAX_USERNAME_BYTES).value;
    TextReadBack(cs, t, name, MAX_NAME_BYTES, true);
    OptionalReadBack(cs, n.1, description, MAX_DESCRIPTION_BYTES);
    OptionalReadBack(cs, d.1, username, MAX_USERNAME_BYTES);
    TagsReadBack(cs, u.1, tags);
    var g := ReadTags(cs, u.1, tags).value.0;
    assert TagBytes(g) + [] == TagBytes(g);
    assert forall i :: 0 <= i < |g| ==> Label(cs, g[i], MAX_TAG_BYTES);
  }

  /** Every accepted byte string is the encoding of the admitted input it decodes to. */
  lemma EncodeOfDecoded(cs: Charset, b: bytes, kind: byte)
    requires Decode(cs, b, kind).Some?
    ensures Admitted(cs, Decode(cs, b, kind).value) && Encode(cs, Decode(cs, b, kind).value, kind) == b
  {
    hide ReadBody, Header, TagBytes;
    HeaderReadBack(b);
    BodyReadBack(cs, b[18..], ReadU16(b[9..11]), DescriptionOf(ReadU32(b[11..15])), UsernameOf(ReadU16(b[15..17])),
                 b[17]);
  }

  // ----- The buffers and the cursor -----

  lemma Nested(a: bytes, b: bytes, c: bytes, d: bytes, e: bytes)
    ensures a + b + c + d + e == a + (b + (c + (d + e)))
  {
  }

  /** The loop that appends the tags. */
  method AppendTags(start: bytes, tags: seq<bytes>) returns (encoded: bytes)
    requires forall i :: 0 <= i < |tags| ==> |tags[i]| <= MAX_TAG_BYTES
    ensures encoded == start + TagBytes(tags)
  {
    encoded := start;
    for i := 0 to |tags|
      invariant encoded + TagBytes(tags[i..]) == start + TagBytes(tags)
    {
      ghost var before := encoded;
      encoded := encoded + U16(|tags[i]|);
      encoded := encoded + tags[i];
      assert tags[i..][0] == tags[i] && tags[i..][1..] == tags[i + 1..];
      assert encoded + TagBytes(tags[i + 1..]) == before + TagBytes(tags[i..]);
    }
    assert tags[|tags|..] == [] && encoded == encoded + [];
  }

  /** `validate_metadata`, then `encode_metadata`. */
  method EncodeMetadata(cs: Charset, m: Metadata, kind: byte) returns (r: Option<bytes>)
    ensures r.Some? <==> Admitted(cs, m)
    ensures r.Some? ==> r.value == Encode(cs, m, kind)
  {
    hide Header, TagBytes;
    if !Admitted(cs, m) {
      return None;
    }
    var encoded := Header(kind, |m.name|, DescriptionLength(m), UsernameLength(m), |m.tags|);
    ghost var header := encoded;
    encoded := encoded + m.name;
    if m.description.Some? {
      encoded := encoded + m.description.value;
    }
    assert encoded == header + m.name + OrEmpty(m.description);
    if m.username.Some? {
      encoded := encoded + m.username.value;
    }
    assert encoded == header + m.name + OrEmpty(m.description) + OrEmpty(m.username);
    encoded := AppendTags(encoded, m.tags);
    Nested(header, m.name, OrEmpty(m.description), OrEmpty(m.username), TagBytes(m.tags));
    return Some(encoded);
  }

  /** `read_metadata_string`: a text at the cursor. */
  method ReadString(cs: Charset, b: bytes, cursor: nat, length: nat, max: nat, nonempty: bool)
    returns (r: Option<bytes>, next: nat)
    requires cursor <= |b|
    ensures r.Some? <==> ReadText(cs, b[cursor..], length, max, nonempty).Some?
    ensures r.Some? ==> next <= |b| && ReadText(cs, b[cursor..], length, max, nonempty) == Some((r.value, b[next..]))
  {
    if length > max || (nonempty && length == 0) {
      return None, cursor;
    }
    next := cursor + length;
    if next > |b| {
      return None, cursor;
    }
    var value := b[cursor..next];
    assert value == b[cursor..][..length] && b[cursor..][length..] == b[next..];
    if !cs.isText(value) {
      return None, cursor;
    }
    return Some(value), next;
  }

  method ReadOptionalString(cs: Charset, b: bytes, cursor: nat, length: Option<nat>, max: nat)
    returns (r: Option<Option<bytes>>, next: nat)
    requires cursor <= |b|
    ensures r.Some? <==> ReadOptional(cs, b[cursor..], length, max).Some?
    ensures r.Some? ==> next <= |b| && ReadOptional(cs, b[cursor..], length, max) == Some((r.value, b[next..]))
  {
    if length.None? {
      return Some(None), cursor;
    }
    var s;
    s, next := ReadString(cs, b, cursor, length.value, max, false);
    if s.None? {
      return None, next;
    }
    return Some(s), next;
  }

  /** Tags already read, before what is still to be read. */
  ghost function After(tags: seq<bytes>, rest: Option<(seq<bytes>, bytes)>): Option<(seq<bytes>, bytes)> {
    match rest
    case None => None
    case Some(r) => Some((tags + r.0, r.1))
  }

  lemma AfterNothing(rest: Option<(seq<bytes>, bytes)>)
    ensures After([], rest) == rest
  {
    if rest.Some? {
      assert [] + rest.value.0 == rest.value.0;
    }
  }

  lemma AfterOne(cs: Charset, tags: seq<bytes>, t: bytes, count: nat)
    requires count > 0
    ensures ReadTag(cs, t).None? ==> ReadTags(cs, t, count).None?
    ensures ReadTag(cs, t).Some? ==>
            var first := ReadTag(cs, t).value;
            After(tags, ReadTags(cs, t, count)) == After(tags + [first.0], ReadTags(cs, first.1, count - 1))
  {
    if ReadTag(cs, t).Some? {
      var first := ReadTag(cs, t).value;
      var rest := ReadTags(cs, first.1, count - 1);
      if rest.Some? {
        assert tags + ([first.0] + rest.value.0) == tags + [first.0] + rest.value.0;
      }
    }
  }

  /** The loop over tags. */
  method ReadTagStrings(cs: Charset, b: bytes, start: nat, count: nat) returns (r: Option<seq<bytes>>, cursor: nat)
    requires start <= |b|
    ensures r.Some? <==> ReadTags(cs, b[start..], count).Some?
    ensures r.Some? ==> cursor <= |b| && ReadTags(cs, b[start..], count) == Some((r.value, b[cursor..]))
  {
    hide ReadTags, ReadText;
    var tags := [];
    cursor := start;
    AfterNothing(ReadTags(cs, b[start..], count));
    for i := 0 to count
      invariant cursor <= |b| && ReadTags(cs, b[start..], count) == After(tags, ReadTags(cs, b[cursor..], count - i))
    {
      AfterOne(cs, tags, b[cursor..], count - i);
      if cursor + 2 > |b| {
        return None, cursor;
      }
      var length := ReadU16(b[cursor..cursor + 2]);
      assert b[cursor..][..2] == b[cursor..cursor + 2] && b[cursor..][2..] == b[cursor + 2..];
      var tag, next := ReadString(cs, b, cursor + 2, length, MAX_TAG_BYTES, true);
      if tag.None? {
        return None, cursor;
      }
      tags := tags + [tag.value];
      cursor := next;
    }
    NoMoreTags(cs, b[cursor..]);
    assert tags + [] == tags;
    return Some(tags), cursor;
  }

  lemma NoMoreTags(cs: Charset, t: bytes)
    ensures ReadTags(cs, t, 0) == Some(([], t))
  {
  }

  /** `decode_metadata`. */
  method DecodeMetadata(cs: Charset, b: bytes, kind: byte) returns (r: Option<Metadata>)
    ensures r == Decode(cs, b, kind)
  {
    hide ReadText, ReadOptional, ReadTags;
    if |b| < 18 || b[..8] != MAGIC || b[8] != kind {
      return None;
    }
    var description, username := DescriptionOf(ReadU32(b[11..15])), UsernameOf(ReadU16(b[15..17]));
    var count := b[17];
    if (description.Some? && description.value > MAX_DESCRIPTION_BYTES)
       || (username.Some? && username.value > MAX_USERNAME_BYTES)
       || count > MAX_TAGS
    {
      return None;
    }
    var name, afterName := ReadString(cs, b, 18, ReadU16(b[9..11]), MAX_NAME_BYTES, true);
    if name.None? {
      return None;
    }
    var desc, afterDescription := ReadOptionalString(cs, b, afterName, description, MAX_DESCRIPTION_BYTES);
    if desc.None? {
      return None;
    }
    var user, afterUsername := ReadOptionalString(cs, b, afterDescription, username, MAX_USERNAME_BYTES);
    if user.None? {
      return None;
    }
    var tags, cursor := ReadTagStrings(cs, b, afterUsername, count);
    if tags.None? {
      return None;
    }
    if cursor != |b| || !cs.isPlain(name.value) || (user.value.Some? && !cs.isPlain(user.value.value))
       || !AllPlain(cs, tags.value) {
      return None;
    }
    return Some(Metadata(name.value, desc.value, user.value, tags.value));
  }
}
