/** Text fields of canonical byte strings: decimals, hexadecimal, UUIDs, and fields joined by a zero byte. */
module Text {
  import opened Bytes

  // ----- Decimal -----

  function DecimalNat(n: nat): (r: bytes)
    ensures |r| >= 1 && forall i :: 0 <= i < |r| ==> 48 <= r[i] <= 57
  {
    if n < 10 then [48 + n] else DecimalNat(n / 10) + [48 + n % 10]
  }

  function Decimal(n: int): bytes {
    if n < 0 then [45] + DecimalNat(-n) else DecimalNat(n)
  }

  lemma {:induction false} DecimalNatInjective(m: nat, n: nat)
    requires DecimalNat(m) == DecimalNat(n)
    ensures m == n
    decreases m
  {
    var a, b := DecimalNat(m), DecimalNat(n);
    if m >= 10 && n >= 10 {
      assert a[..|a| - 1] == DecimalNat(m / 10) && b[..|b| - 1] == DecimalNat(n / 10);
      DecimalNatInjective(m / 10, n / 10);
      assert a[|a| - 1] == 48 + m % 10 && b[|b| - 1] == 48 + n % 10;
    }
  }

  lemma DecimalInjective(m: int, n: int)
    requires Decimal(m) == Decimal(n)
    ensures m == n
  {
    var a, b := Decimal(m), Decimal(n);
    assert (a[0] == 45 <==> m < 0) && (b[0] == 45 <==> n < 0);
    if m < 0 && n < 0 {
      assert a[1..] == DecimalNat(-m) && b[1..] == DecimalNat(-n);
      DecimalNatInjective(-m, -n);
    } else if m >= 0 && n >= 0 {
      DecimalNatInjective(m, n);
    }
  }

  // ----- Hexadecimal -----

  function Nibble(n: nat): (r: byte)
    requires n < 16
    ensures r == "0123456789abcdef"[n] as int
  {
    if n < 10 then 48 + n else 87 + n
  }

  function Hex(s: bytes): (r: bytes)
    ensures |r| == 2 * |s| && forall i :: 0 <= i < |r| ==> r[i] != 0
  {
    if s == [] then [] else [Nibble(s[0] / 16), Nibble(s[0] % 16)] + Hex(s[1..])
  }

  lemma {:induction false} HexInjective(a: bytes, b: bytes)
    requires Hex(a) == Hex(b)
    ensures a == b
  {
    if a != [] {
      assert Hex(a)[2..] == Hex(a[1..]) && Hex(b)[2..] == Hex(b[1..]);
      HexInjective(a[1..], b[1..]);
      assert Hex(a)[0] == Nibble(a[0] / 16) && Hex(a)[1] == Nibble(a[0] % 16);
      assert Hex(b)[0] == Nibble(b[0] / 16) && Hex(b)[1] == Nibble(b[0] % 16);
      assert a == [a[0]] + a[1..] && b == [b[0]] + b[1..];
    }
  }

  /** The hyphenated form of a UUID. */
  function UuidText(id: Id): (r: bytes)
    ensures |r| == 36 && forall i :: 0 <= i < |r| ==> r[i] != 0
  {
    Hex(id[..4]) + [45] + Hex(id[4..6]) + [45] + Hex(id[6..8]) + [45] + Hex(id[8..10]) + [45] + Hex(id[10..])
  }

  lemma UuidParts(id: Id)
    ensures UuidText(id)[..8] == Hex(id[..4]) && UuidText(id)[9..13] == Hex(id[4..6])
            && UuidText(id)[14..18] == Hex(id[6..8])
    ensures UuidText(id)[19..23] == Hex(id[8..10]) && UuidText(id)[24..] == Hex(id[10..])
  {
    hide Hex;
  }

  lemma UuidTextInjective(a: Id, b: Id)
    requires UuidText(a) == UuidText(b)
    ensures a == b
  {
    hide Hex, UuidText;
    UuidParts(a);
    UuidParts(b);
    HexInjective(a[..4], b[..4]);
    HexInjective(a[4..6], b[4..6]);
    HexInjective(a[6..8], b[6..8]);
    HexInjective(a[8..10], b[8..10]);
    HexInjective(a[10..], b[10..]);
    assert a == a[..4] + a[4..6] + a[6..8] + a[8..10] + a[10..];
    assert b == b[..4] + b[4..6] + b[6..8] + b[8..10] + b[10..];
  }

  // ----- Fields -----

  ghost predicate ZeroFree(f: bytes) {
    forall i :: 0 <= i < |f| ==> f[i] != 0
  }

  lemma DecimalZeroFree(n: int)
    ensures ZeroFree(Decimal(n))
  {
  }

  /** Fields separated by a zero byte. */
  function Join(fields: seq<bytes>): bytes {
    if |fields| == 0 then []
    else if |fields| == 1 then fields[0]
    else fields[0] + [0] + Join(fields[1..])
  }

  ghost predicate Fields(fields: seq<bytes>) {
    |fields| > 0 && forall i :: 0 <= i < |fields| ==> ZeroFree(fields[i])
  }

  /** The first zero byte ends the first field. */
  lemma SameHead(f: bytes, g: bytes, r: bytes, t: bytes)
    requires ZeroFree(f) && ZeroFree(g)
    requires f + [0] + r == g + [0] + t
    ensures f == g && r == t
  {
    var x, y := f + [0] + r, g + [0] + t;
    assert x[|f|] == 0 && y[|g|] == 0;
    if |f| == |g| {
      assert f == x[..|f|] && g == y[..|f|];
      assert r == x[|f| + 1..] && t == y[|f| + 1..];
    }
  }

  lemma NoHead(f: bytes, g: bytes, t: bytes)
    requires ZeroFree(f)
    ensures f != g + [0] + t
  {
    assert (g + [0] + t)[|g|] == 0;
  }

  lemma {:induction false} JoinInjective(a: seq<bytes>, b: seq<bytes>)
    requires Fields(a) && Fields(b) && Join(a) == Join(b)
    ensures a == b
    decreases |a|
  {
    if |a| > 1 && |b| > 1 {
      SameHead(a[0], b[0], Join(a[1..]), Join(b[1..]));
      JoinInjective(a[1..], b[1..]);
      assert a == [a[0]] + a[1..] && b == [b[0]] + b[1..];
    } else if |a| > 1 {
      NoHead(b[0], a[0], Join(a[1..]));
    } else if |b| > 1 {
      NoHead(a[0], b[0], Join(b[1..]));
    }
  }

  /** ASCII text as bytes. */
  function Ascii(s: string): (r: bytes)
    requires forall i :: 0 <= i < |s| ==> 0 < s[i] as int < 128
    ensures |r| == |s| && forall i :: 0 <= i < |s| ==> r[i] == s[i] as int
    ensures forall i :: 0 <= i < |r| ==> r[i] != 0
  {
    seq(|s|, i requires 0 <= i < |s| => s[i] as int)
  }
}
