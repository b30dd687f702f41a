/** Sorting, deduplication and the byte-lexicographic order. */
module Sorting {
  import opened Bytes

  type Order<!T> = (T, T) -> bool

  ghost predicate TotalOrder<T(!new)>(le: Order<T>) {
    && (forall x, y :: le(x, y) || le(y, x))
    && (forall x, y :: le(x, y) && le(y, x) ==> x == y)
    && (forall x, y, z :: le(x, y) && le(y, z) ==> le(x, z))
  }

  ghost predicate Sorted<T>(le: Order<T>, s: seq<T>) {
    forall i, j :: 0 <= i < j < |s| ==> le(s[i], s[j])
  }

  ghost predicate Strict<T>(le: Order<T>, s: seq<T>) {
    forall i, j :: 0 <= i < j < |s| ==> le(s[i], s[j]) && s[i] != s[j]
  }

  function Insert<T>(le: Order<T>, x: T, s: seq<T>): (r: seq<T>)
    ensures multiset(r) == multiset(s) + multiset{x}
  {
    if s == [] then [x]
    else if le(x, s[0]) then [x] + s
    else
      assert s == [s[0]] + s[1..];
      [s[0]] + Insert(le, x, s[1..])
  }

  /** Any sorting routine; for a total order the result does not depend on which. */
  function Sort<T>(le: Order<T>, s: seq<T>): (r: seq<T>)
    ensures multiset(r) == multiset(s)
  {
    if s == [] then []
    else
      assert s == [s[0]] + s[1..];
      Insert(le, s[0], Sort(le, s[1..]))
  }

  lemma SameMultisetSameMembers<T>(a: seq<T>, b: seq<T>)
    requires multiset(a) == multiset(b)
    ensures |a| == |b|
    ensures forall x :: x in a <==> x in b
  {
    assert |multiset(a)| == |a| && |multiset(b)| == |b|;
    assert forall x :: x in a <==> x in multiset(a);
    assert forall x :: x in b <==> x in multiset(b);
  }

  lemma {:induction false} InsertSorted<T(!new)>(le: Order<T>, x: T, s: seq<T>)
    requires TotalOrder(le) && Sorted(le, s)
    ensures Sorted(le, Insert(le, x, s))
  {
    if s != [] && !le(x, s[0]) {
      assert s == [s[0]] + s[1..];
      InsertSorted(le, x, s[1..]);
      var t := Insert(le, x, s[1..]);
      forall k | 0 <= k < |t|
        ensures le(s[0], t[k])
      {
        assert t[k] in multiset(t);
        if t[k] != x {
          assert t[k] in multiset(s[1..]);
          assert t[k] in s[1..];
        }
      }
    }
  }

  lemma {:induction false} SortSorts<T(!new)>(le: Order<T>, s: seq<T>)
    requires TotalOrder(le)
    ensures Sorted(le, Sort(le, s))
  {
    if s != [] {
      SortSorts(le, s[1..]);
      InsertSorted(le, s[0], Sort(le, s[1..]));
    }
  }

  /** Two sorted listings of one multiset start alike. */
  lemma SameLeast<T(!new)>(le: Order<T>, a: seq<T>, b: seq<T>)
    requires TotalOrder(le) && Sorted(le, a) && Sorted(le, b) && multiset(a) == multiset(b) && a != [] && b != []
    ensures a[0] == b[0]
  {
    SameMultisetSameMembers(a, b);
    assert a[0] in b && b[0] in a;
  }

  lemma SameRest<T>(a: seq<T>, b: seq<T>)
    requires multiset(a) == multiset(b) && a != [] && b != [] && a[0] == b[0]
    ensures multiset(a[1..]) == multiset(b[1..])
  {
    assert a == [a[0]] + a[1..] && b == [b[0]] + b[1..];
    assert multiset(a[1..]) == multiset(a) - multiset{a[0]};
    assert multiset(b[1..]) == multiset(b) - multiset{b[0]};
  }

  /** A multiset has one sorted listing. */
  lemma {:induction false} SortedListingUnique<T(!new)>(le: Order<T>, a: seq<T>, b: seq<T>)
    requires TotalOrder(le) && Sorted(le, a) && Sorted(le, b) && multiset(a) == multiset(b)
    ensures a == b
    decreases |a|
  {
    SameMultisetSameMembers(a, b);
    if a != [] {
      SameLeast(le, a, b);
      SameRest(a, b);
      SortedListingUnique(le, a[1..], b[1..]);
      assert a == [a[0]] + a[1..] && b == [b[0]] + b[1..];
    }
  }

  /** Row order does not matter to a sort. */
  lemma SortForgetsOrder<T(!new)>(le: Order<T>, a: seq<T>, b: seq<T>)
    requires TotalOrder(le) && multiset(a) == multiset(b)
    ensures Sort(le, a) == Sort(le, b)
  {
    SortSorts(le, a);
    SortSorts(le, b);
    SortedListingUnique(le, Sort(le, a), Sort(le, b));
  }

  // ----- Mapped listings -----

  function Map<T, U>(f: T -> U, s: seq<T>): (r: seq<U>)
    ensures |r| == |s| && forall i :: 0 <= i < |s| ==> r[i] == f(s[i])
  {
    seq(|s|, i requires 0 <= i < |s| => f(s[i]))
  }

  /** Leaving out one position takes one copy of its element. */
  lemma LeaveOut<T>(s: seq<T>, i: nat)
    requires i < |s|
    ensures s == s[..i] + [s[i]] + s[i + 1..]
    ensures multiset(s[..i] + s[i + 1..]) == multiset(s) - multiset{s[i]}
  {
    assert s == s[..i] + [s[i]] + s[i + 1..];
    var m, n := multiset(s[..i]), multiset(s[i + 1..]);
    assert multiset(s) == m + multiset{s[i]} + n;
    assert multiset(s[..i] + s[i + 1..]) == m + n;
  }

  /** Two listings of one multiset: the first element of one can be taken out of the other. */
  lemma TakeOut<T>(a: seq<T>, b: seq<T>) returns (i: nat)
    requires multiset(a) == multiset(b) && a != []
    ensures i < |b| && b[i] == a[0] && b == b[..i] + [a[0]] + b[i + 1..]
    ensures multiset(a[1..]) == multiset(b[..i] + b[i + 1..])
  {
    assert a[0] in multiset(b);
    i :| 0 <= i < |b| && b[i] == a[0];
    LeaveOut(a, 0);
    LeaveOut(b, i);
    assert a[..0] + a[1..] == a[1..];
  }

  lemma MapPieces<T, U>(f: T -> U, s: seq<T>, i: nat)
    requires i < |s|
    ensures Map(f, s) == Map(f, s[..i]) + [f(s[i])] + Map(f, s[i + 1..])
    ensures Map(f, s[..i] + s[i + 1..]) == Map(f, s[..i]) + Map(f, s[i + 1..])
  {
  }

  lemma {:induction false} MapKeepsMultiset<T, U>(f: T -> U, a: seq<T>, b: seq<T>)
    requires multiset(a) == multiset(b)
    ensures multiset(Map(f, a)) == multiset(Map(f, b))
    decreases |a|
  {
    hide Map;
    SameMultisetSameMembers(a, b);
    if a != [] {
      var i := TakeOut(a, b);
      MapKeepsMultiset(f, a[1..], b[..i] + b[i + 1..]);
      MapPieces(f, b, i);
      assert Map(f, a) == [f(a[0])] + Map(f, a[1..]);
    }
  }

  ghost predicate Separates<T, U>(f: T -> U, a: seq<T>, b: seq<T>) {
    forall i, j :: 0 <= i < |a| && 0 <= j < |b| && f(a[i]) == f(b[j]) ==> a[i] == b[j]
  }

  lemma SeparatesRest<T, U>(f: T -> U, a: seq<T>, b: seq<T>, i: nat)
    requires Separates(f, a, b) && a != [] && i < |b|
    ensures Separates(f, a[1..], b[..i] + b[i + 1..])
  {
    var b' := b[..i] + b[i + 1..];
    assert forall j :: 0 <= j < |b'| ==> b'[j] == b[if j < i then j else j + 1];
  }

  /** A map that separates the elements of two listings reflects equality of multisets. */
  lemma {:induction false} MapReflectsMultiset<T, U>(f: T -> U, a: seq<T>, b: seq<T>)
    requires Separates(f, a, b) && multiset(Map(f, a)) == multiset(Map(f, b))
    ensures multiset(a) == multiset(b)
    decreases |a|
  {
    SameMultisetSameMembers(Map(f, a), Map(f, b));
    if a != [] {
      var i := TakeOut(Map(f, a), Map(f, b));
      assert b[i] == a[0];
      SeparatesRest(f, a, b, i);
      assert Map(f, a)[1..] == Map(f, a[1..]);
      assert Map(f, b)[..i] + Map(f, b)[i + 1..] == Map(f, b[..i] + b[i + 1..]);
      MapReflectsMultiset(f, a[1..], b[..i] + b[i + 1..]);
      PutBack(a, b, i);
    }
  }

  lemma PutBack<T>(a: seq<T>, b: seq<T>, i: nat)
    requires a != [] && i < |b| && b[i] == a[0] && multiset(a[1..]) == multiset(b[..i] + b[i + 1..])
    ensures multiset(a) == multiset(b)
  {
    assert a == [a[0]] + a[1..];
    assert b == b[..i] + [a[0]] + b[i + 1..];
    assert multiset(b[..i] + b[i + 1..]) == multiset(b[..i]) + multiset(b[i + 1..]);
  }

  /** `Vec::dedup`: drops an element equal to the one kept before it. */
  function Dedup<T(==, !new)>(s: seq<T>): (r: seq<T>)
    ensures forall x :: x in r <==> x in s
    ensures s != [] ==> r != [] && r[0] == s[0]
  {
    if |s| < 2 then s
    else
      assert s == [s[0]] + s[1..];
      if s[0] == s[1] then Dedup(s[1..]) else [s[0]] + Dedup(s[1..])
  }

  lemma {:induction false} DedupStrict<T(!new)>(le: Order<T>, s: seq<T>)
    requires TotalOrder(le) && Sorted(le, s)
    ensures Strict(le, Dedup(s))
  {
    if |s| >= 2 {
      DedupStrict(le, s[1..]);
      var t := Dedup(s[1..]);
      if s[0] != s[1] {
        forall k | 0 <= k < |t|
          ensures le(s[0], t[k]) && s[0] != t[k]
        {
          assert t[k] in s[1..];
        }
      }
    }
  }

  /** A set has one strictly sorted listing. */
  lemma {:induction false} StrictListingUnique<T(!new)>(le: Order<T>, a: seq<T>, b: seq<T>)
    requires TotalOrder(le) && Strict(le, a) && Strict(le, b) && forall x :: x in a <==> x in b
    ensures a == b
    decreases |a|
  {
    assert b != [] ==> b[0] in a;
    if a != [] {
      assert a[0] in b;
      assert a[0] == b[0];
      assert a == [a[0]] + a[1..] && b == [b[0]] + b[1..];
      forall x
        ensures x in a[1..] <==> x in b[1..]
      {
        assert x in a[1..] ==> x in a && x != a[0];
        assert x in b[1..] ==> x in b && x != b[0];
      }
      StrictListingUnique(le, a[1..], b[1..]);
    }
  }

  /** Byte slices compare lexicographically, a proper prefix first. */
  predicate LexLe(a: bytes, b: bytes) {
    a == [] || (b != [] && (a[0] < b[0] || (a[0] == b[0] && LexLe(a[1..], b[1..]))))
  }

  lemma {:induction false} LexTotal(a: bytes, b: bytes)
    ensures LexLe(a, b) || LexLe(b, a)
  {
    if a != [] && b != [] {
      LexTotal(a[1..], b[1..]);
    }
  }

  lemma {:induction false} LexAntisymmetric(a: bytes, b: bytes)
    requires LexLe(a, b) && LexLe(b, a)
    ensures a == b
  {
    if a != [] {
      LexAntisymmetric(a[1..], b[1..]);
      assert a == [a[0]] + a[1..] && b == [b[0]] + b[1..];
    }
  }

  lemma {:induction false} LexTransitive(a: bytes, b: bytes, c: bytes)
    requires LexLe(a, b) && LexLe(b, c)
    ensures LexLe(a, c)
  {
    if a != [] && a[0] == b[0] == c[0] {
      LexTransitive(a[1..], b[1..], c[1..]);
    }
  }

  lemma LexIsTotalOrder()
    ensures TotalOrder(LexLe)
  {
    forall a: bytes, b: bytes
      ensures LexLe(a, b) || LexLe(b, a)
    {
      LexTotal(a, b);
    }
    forall a: bytes, b: bytes | LexLe(a, b) && LexLe(b, a)
      ensures a == b
    {
      LexAntisymmetric(a, b);
    }
    forall a: bytes, b: bytes, c: bytes | LexLe(a, b) && LexLe(b, c)
      ensures LexLe(a, c)
    {
      LexTransitive(a, b, c);
    }
  }
}
