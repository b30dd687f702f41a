/** The namespace hierarchy: parent rows, the bounded ancestor walk, creates and moves. */
module Forest {
  import opened Bytes

  const MAX_NAMESPACE_DEPTH: nat := 32

  datatype NamespaceId = NamespaceId(uuid: Id)

  /** A row's name stands for its blind index, which is recomputed within each parent. */
  datatype Row = Row(parent: Option<NamespaceId>, name: bytes, active: bool, revision: u64)

  type Store = map<NamespaceId, Row>

  datatype VaultError = InvalidInput | NotFound | Conflict | Unavailable

  // ----- The queries, as the recursive SQL walks them -----

  /** The namespace and its ancestors, following at most `steps` parent links. */
  function Walk(s: Store, id: NamespaceId, steps: nat): (r: seq<NamespaceId>)
    requires id in s
    ensures 0 < |r| <= steps + 1 && r[0] == id
    decreases steps
  {
    match s[id].parent
    case Some(p) => if steps > 0 && p in s then [id] + Walk(s, p, steps - 1) else [id]
    case None => [id]
  }

  /** `namespace_ancestors_inclusive`: the walk stops after 32 links, so it returns at most 33 namespaces. */
  function AncestorsInclusive(s: Store, id: NamespaceId): Result<seq<NamespaceId>, VaultError> {
    if id in s then Ok(Walk(s, id, 32)) else Err(NotFound)
  }

  /** `namespace_depth`: a root has depth 1; the count saturates at 33. */
  function NamespaceDepth(s: Store, id: NamespaceId): Result<nat, VaultError> {
    if id in s then Ok(|Walk(s, id, 32)|) else Err(NotFound)
  }

  // ----- The operations -----

  /** The schema's uniqueness: another row of the same parent, or another root, has this name. */
  predicate Taken(s: Store, id: NamespaceId, parent: Option<NamespaceId>, name: bytes) {
    exists x :: x in s && x != id && s[x].parent == parent && s[x].name == name
  }

  /** `create_namespace_with_id`: an active parent of depth below 32, an unused identity and an unused name. */
  function Create(s: Store, id: NamespaceId, parent: Option<NamespaceId>, name: bytes): Result<Store, VaultError> {
    if parent.Some? && (parent.value !in s || !s[parent.value].active) then Err(NotFound)
    else if parent.Some? && NamespaceDepth(s, parent.value).value >= MAX_NAMESPACE_DEPTH then Err(InvalidInput)
    else if id in s || Taken(s, id, parent, name) then Err(Conflict)
    else Ok(s[id := Row(parent, name, true, 1)])
  }

  /**
   * The checks of `move_namespace_core` on a new parent: its depth only, and the namespace must not be among its
   * ancestors.
   */
  function ParentRefusal(s: Store, id: NamespaceId, parent: Option<NamespaceId>): Option<VaultError> {
    match parent
    case None => None
    case Some(p) =>
      if p == id then Some(InvalidInput)
      else if p !in s then Some(NotFound)
      else if !s[p].active || NamespaceDepth(s, p).value >= MAX_NAMESPACE_DEPTH
              || id in AncestorsInclusive(s, p).value then
        Some(InvalidInput)
      else None
  }

  /** `move_namespace_core`. A name that is taken under the new parent surfaces as a failed database write. */
  function Move(s: Store, id: NamespaceId, expected: u64, parent: Option<NamespaceId>): Result<Store, VaultError> {
    if id !in s then Err(NotFound)
    else if s[id].revision != expected || !s[id].active then Err(Conflict)
    else
      match ParentRefusal(s, id, parent)
      case Some(e) => Err(e)
      case None =>
        if expected >= I64_MAX then Err(Conflict)
        else if Taken(s, id, parent, s[id].name) then Err(Unavailable)
        else Ok(s[id := Row(parent, s[id].name, true, expected + 1)])
  }

  // ----- Depths and full chains -----

  type DepthMap = map<NamespaceId, nat>

  /** One namespace's depth agrees with its parent's. */
  ghost predicate Fits(s: Store, d: DepthMap, id: NamespaceId)
    requires d.Keys == s.Keys && id in s
  {
    match s[id].parent
    case None => d[id] == 1
    case Some(p) => p in s && d[id] == d[p] + 1
  }

  /** Depths that agree with the parent links: they exist exactly when the links form a forest. */
  ghost predicate Depths(s: Store, d: DepthMap) {
    d.Keys == s.Keys && forall id {:trigger Fits(s, d, id)} :: id in s ==> Fits(s, d, id)
  }

  ghost predicate IsForest(s: Store) {
    exists d :: Depths(s, d)
  }

  /** The namespace and all its ancestors, up to a root. */
  ghost function Chain(s: Store, d: DepthMap, id: NamespaceId): (r: seq<NamespaceId>)
    requires Depths(s, d) && id in s
    ensures |r| == d[id] >= 1 && r[0] == id
    decreases d[id]
  {
    assert Fits(s, d, id);
    match s[id].parent
    case None => [id]
    case Some(p) => [id] + Chain(s, d, p)
  }

  /** The chain climbs one level at a time, so position tells depth and nothing repeats. */
  lemma {:induction false} ChainDepths(s: Store, d: DepthMap, id: NamespaceId)
    requires Depths(s, d) && id in s
    ensures forall k :: 0 <= k < |Chain(s, d, id)| ==> Chain(s, d, id)[k] in s && d[Chain(s, d, id)[k]] == d[id] - k
    decreases d[id]
  {
    assert Fits(s, d, id);
    match s[id].parent
    case None =>
    case Some(p) => ChainDepths(s, d, p);
  }

  /** The walk is the first part of the chain. */
  lemma {:induction false} WalkIsChain(s: Store, d: DepthMap, id: NamespaceId, steps: nat)
    requires Depths(s, d) && id in s
    ensures Walk(s, id, steps) == if d[id] <= steps + 1 then Chain(s, d, id) else Chain(s, d, id)[..steps + 1]
    decreases steps
  {
    assert Fits(s, d, id);
    match s[id].parent
    case None =>
    case Some(p) =>
      if steps > 0 {
        WalkIsChain(s, d, p, steps - 1);
      }
  }

  /** An ancestor is found by the bounded walk exactly when it is at most 32 levels up. */
  lemma FoundWithin32(s: Store, d: DepthMap, id: NamespaceId, t: NamespaceId)
    requires Depths(s, d) && id in s
    ensures t in Chain(s, d, id) ==> t in s && 1 <= d[t] <= d[id]
    ensures t in Walk(s, id, 32) <==> t in Chain(s, d, id) && d[id] - d[t] <= 32
  {
    WalkIsChain(s, d, id, 32);
    ChainDepths(s, d, id);
    var c := Chain(s, d, id);
    if t in c {
      var k :| 0 <= k < |c| && c[k] == t;
      if k <= 32 {
        assert Walk(s, id, 32)[k] == t;
      }
    }
  }

  /** The ancestor walk visits nothing twice. */
  lemma WalkHasNoRepeats(s: Store, id: NamespaceId, i: nat, j: nat)
    requires IsForest(s) && id in s && i < j < |Walk(s, id, 32)|
    ensures Walk(s, id, 32)[i] != Walk(s, id, 32)[j]
  {
    var d :| Depths(s, d);
    WalkIsChain(s, d, id, 32);
    ChainDepths(s, d, id);
  }

  /** The reported depth is the true one, up to the walk's bound. */
  lemma DepthIsTrue(s: Store, d: DepthMap, id: NamespaceId)
    requires Depths(s, d) && id in s
    ensures NamespaceDepth(s, id) == Ok(if d[id] <= 33 then d[id] else 33)
  {
    WalkIsChain(s, d, id, 32);
  }

  // ----- What creates and moves do to depths and chains -----

  lemma CreateKeepsDepths(s: Store, d: DepthMap, id: NamespaceId, parent: Option<NamespaceId>, name: bytes)
    returns (d': DepthMap)
    requires Depths(s, d) && Create(s, id, parent, name).Ok?
    ensures Depths(Create(s, id, parent, name).value, d')
    ensures d' == d[id := if parent.None? then 1 else d[parent.value] + 1]
    ensures d'[id] <= MAX_NAMESPACE_DEPTH
  {
    d' := d[id := if parent.None? then 1 else d[parent.value] + 1];
    if parent.Some? {
      DepthIsTrue(s, d, parent.value);
    }
    var s' := Create(s, id, parent, name).value;
    forall x | x in s'
      ensures Fits(s', d', x)
    {
      if x != id {
        assert Fits(s, d, x);
      }
    }
  }

  /** `id` or anything below it. */
  ghost predicate InSubtree(s: Store, d: DepthMap, x: NamespaceId, id: NamespaceId)
    requires Depths(s, d)
  {
    x in s && id in Chain(s, d, x)
  }

  /** A move keeps the new parent outside the moved subtree: the bounded ancestor check misses nothing. */
  lemma MoveAvoidsSubtree(s: Store, d: DepthMap, id: NamespaceId, expected: u64, p: NamespaceId)
    requires Depths(s, d) && Move(s, id, expected, Some(p)).Ok?
    ensures p in s && !InSubtree(s, d, p, id) && d[p] < MAX_NAMESPACE_DEPTH
  {
    DepthIsTrue(s, d, p);
    FoundWithin32(s, d, p, id);
  }

  /** How far a move shifts the moved namespace. */
  ghost function Shift(d: DepthMap, id: NamespaceId, parent: Option<NamespaceId>): int
    requires id in d && (parent.Some? ==> parent.value in d)
  {
    var from: int := d[id];
    if parent.None? then 1 - from else d[parent.value] + 1 - from
  }

  ghost function MovedDepths(s: Store, d: DepthMap, id: NamespaceId, parent: Option<NamespaceId>): DepthMap
    requires Depths(s, d) && id in s && (parent.Some? ==> parent.value in s)
  {
    map x | x in s :: if InSubtree(s, d, x, id)
    && d[x] + Shift(d, id, parent) >= 0 then d[x] + Shift(d, id, parent) else d[x]
  }

  lemma SubtreeStep(s: Store, d: DepthMap, x: NamespaceId, id: NamespaceId)
    requires Depths(s, d) && x in s && id in s
    ensures InSubtree(s, d, x, id) <==> x == id || (s[x].parent.Some? && InSubtree(s, d, s[x].parent.value, id))
    ensures InSubtree(s, d, x, id) ==> d[x] >= d[id]
  {
    assert Fits(s, d, x);
    ChainDepths(s, d, x);
  }

  /** A move shifts the whole subtree by the same amount and leaves every other depth alone. */
  lemma MoveKeepsDepths(s: Store, d: DepthMap, id: NamespaceId, expected: u64, parent: Option<NamespaceId>)
    requires Depths(s, d) && Move(s, id, expected, parent).Ok?
    ensures var d' := MovedDepths(s, d, id, parent);
            && Depths(Move(s, id, expected, parent).value, d')
            && (forall x :: x in s ==> d'[x] == d[x] + if InSubtree(s, d, x, id) then Shift(d, id, parent) else 0)
  {
    hide Walk;
    var s' := Move(s, id, expected, parent).value;
    var d' := MovedDepths(s, d, id, parent);
    forall x | x in s
      ensures d'[x] == d[x] + if InSubtree(s, d, x, id) then Shift(d, id, parent) else 0
    {
      SubtreeStep(s, d, x, id);
    }
    if parent.Some? {
      MoveAvoidsSubtree(s, d, id, expected, parent.value);
    }
    forall x | x in s'
      ensures Fits(s', d', x)
    {
      SubtreeStep(s, d, x, id);
      assert Fits(s, d, x);
    }
  }

  /** The two tables differ in one parent link, and the new parent is not below the namespace it receives. */
  ghost predicate Reparented(s: Store, d: DepthMap, s': Store, d': DepthMap, id: NamespaceId,
                             parent: Option<NamespaceId>) {
    && Depths(s, d) && Depths(s', d') && s'.Keys == s.Keys
    && id in s && s'[id].parent == parent
    && (parent.Some? ==> parent.value in s && !InSubtree(s, d, parent.value, id))
    && forall x :: x in s && x != id ==> s'[x] == s[x]
  }

  lemma MoveReparents(s: Store, d: DepthMap, id: NamespaceId, expected: u64, parent: Option<NamespaceId>)
    requires Depths(s, d) && Move(s, id, expected, parent).Ok?
    ensures Reparented(s, d, Move(s, id, expected, parent).value, MovedDepths(s, d, id, parent), id, parent)
  {
    MoveKeepsDepths(s, d, id, expected, parent);
    if parent.Some? {
      MoveAvoidsSubtree(s, d, id, expected, parent.value);
    }
  }

  /** Outside the moved subtree every chain is unchanged. */
  lemma {:induction false} ChainOutside(s: Store, d: DepthMap, s': Store, d': DepthMap, id: NamespaceId,
                                        parent: Option<NamespaceId>, x: NamespaceId)
    requires Reparented(s, d, s', d', id, parent) && x in s && !InSubtree(s, d, x, id)
    ensures Chain(s', d', x) == Chain(s, d, x)
    decreases d[x]
  {
    SubtreeStep(s, d, x, id);
    assert Fits(s, d, x);
    if s[x].parent.Some? {
      ChainOutside(s, d, s', d', id, parent, s[x].parent.value);
    }
  }

  /** The part of a chain strictly below `id`'s parent: from `x` up to and including `id`. */
  ghost function Below(s: Store, d: DepthMap, x: NamespaceId, id: NamespaceId): (r: seq<NamespaceId>)
    requires Depths(s, d) && id in s && InSubtree(s, d, x, id)
    ensures |r| >= 1
    decreases d[x]
  {
    SubtreeStep(s, d, x, id);
    if x == id then [id] else [x] + Below(s, d, s[x].parent.value, id)
  }

  lemma {:induction false} ChainThrough(s: Store, d: DepthMap, x: NamespaceId, id: NamespaceId)
    requires Depths(s, d) && id in s && InSubtree(s, d, x, id)
    ensures Chain(s, d, x) == Below(s, d, x, id) + Chain(s, d, id)[1..]
    ensures |Below(s, d, x, id)| == d[x] - d[id] + 1
    decreases d[x]
  {
    SubtreeStep(s, d, x, id);
    if x != id {
      ChainThrough(s, d, s[x].parent.value, id);
    }
  }

  lemma ChainStep(s: Store, d: DepthMap, x: NamespaceId)
    requires Depths(s, d) && x in s
    ensures s[x].parent.None? ==> Chain(s, d, x) == [x]
    ensures s[x].parent.Some? ==> s[x].parent.value in s && Chain(s, d, x) == [x] + Chain(s, d, s[x].parent.value)
  {
    assert Fits(s, d, x);
  }

  lemma BelowStep(s: Store, d: DepthMap, x: NamespaceId, id: NamespaceId)
    requires Depths(s, d) && id in s && InSubtree(s, d, x, id)
    ensures x == id ==> Below(s, d, x, id) == [x]
    ensures x != id ==> s[x].parent.Some? && InSubtree(s, d, s[x].parent.value, id) && d[s[x].parent.value] < d[x]
                        && Below(s, d, x, id) == [x] + Below(s, d, s[x].parent.value, id)
  {
    SubtreeStep(s, d, x, id);
    assert Fits(s, d, x);
  }

  lemma Prepend<T>(x: T, a: seq<T>, b: seq<T>)
    ensures [x] + a + b == [x] + (a + b)
  {
  }

  /** Inside the moved subtree a chain keeps its lower part and continues with the new parent's chain. */
  lemma {:induction false} ChainInside(s: Store, d: DepthMap, s': Store, d': DepthMap, id: NamespaceId,
                                       parent: Option<NamespaceId>, x: NamespaceId)
    requires Reparented(s, d, s', d', id, parent) && InSubtree(s, d, x, id)
    ensures Chain(s', d', x) == Below(s, d, x, id) + (if parent.None? then [] else Chain(s, d, parent.value))
    decreases d[x]
  {
    hide Chain, Below;
    var tail := if parent.None? then [] else Chain(s, d, parent.value);
    ChainStep(s', d', x);
    BelowStep(s, d, x, id);
    if x != id {
      var q := s[x].parent.value;
      ChainInside(s, d, s', d', id, parent, q);
      Prepend(x, Below(s, d, q, id), tail);
    } else if parent.Some? {
      ChainOutside(s, d, s', d', id, parent, parent.value);
    }
  }

  /**
   * A create succeeds exactly for an unused identity and a name new among its siblings, under no parent or under an
   * active one of true depth below 32.
   */
  lemma CreateOkIff(s: Store, d: DepthMap, id: NamespaceId, parent: Option<NamespaceId>, name: bytes)
    requires Depths(s, d)
    ensures Create(s, id, parent, name).Ok? <==>
            && id !in s && !Taken(s, id, parent, name)
            && (parent.Some? ==> parent.value in s && s[parent.value].active && d[parent.value] < MAX_NAMESPACE_DEPTH)
    ensures Create(s, id, parent, name).Ok? ==> Create(s, id, parent, name).value == s[id := Row(parent, name, true, 1)]
  {
    if parent.Some? && parent.value in s {
      DepthIsTrue(s, d, parent.value);
    }
  }

  /**
   * A move succeeds exactly for the current revision of an active namespace whose name is new among its new siblings,
   * to the top or to an active parent of true depth below 32 that is not in the namespace's own subtree.
   */
  lemma MoveOkIff(s: Store, d: DepthMap, id: NamespaceId, expected: u64, parent: Option<NamespaceId>)
    requires Depths(s, d)
    ensures Move(s, id, expected, parent).Ok? <==>
            && id in s && s[id].active && s[id].revision == expected && expected < I64_MAX
            && !Taken(s, id, parent, s[id].name)
            && (parent.Some? ==>
                  && parent.value in s && s[parent.value].active && d[parent.value] < MAX_NAMESPACE_DEPTH
                  && !InSubtree(s, d, parent.value, id))
    ensures Move(s, id, expected, parent).Ok? ==>
            Move(s, id, expected, parent).value == s[id := Row(parent, s[id].name, true, expected + 1)]
  {
    if parent.Some? && parent.value in s && id in s {
      DepthIsTrue(s, d, parent.value);
      FoundWithin32(s, d, parent.value, id);
      SubtreeStep(s, d, parent.value, id);
    }
  }

  // ----- Whole runs -----

  datatype Op =
    | CreateOp(id: NamespaceId, parent: Option<NamespaceId>, name: bytes)
    | MoveOp(id: NamespaceId, expected: u64, parent: Option<NamespaceId>)

  /** One operation; a refused one changes nothing. */
  function Apply(s: Store, op: Op): Store {
    var r := match op
      case CreateOp(id, parent, name) => Create(s, id, parent, name)
      case MoveOp(id, expected, parent) => Move(s, id, expected, parent);
    if r.Ok? then r.value else s
  }

  function Run(s: Store, ops: seq<Op>): Store
    decreases |ops|
  {
    if ops == [] then s else Run(Apply(s, ops[0]), ops[1..])
  }

  /** Every run of creates and moves keeps the parent links a forest. */
  lemma {:induction false} RunsKeepForest(s: Store, ops: seq<Op>)
    requires IsForest(s)
    ensures IsForest(Run(s, ops))
    decreases |ops|
  {
    if ops != [] {
      var d :| Depths(s, d);
      match ops[0] {
        case CreateOp(id, parent, name) =>
          if Create(s, id, parent, name).Ok? {
            var d' := CreateKeepsDepths(s, d, id, parent, name);
          }
        case MoveOp(id, expected, parent) =>
          if Move(s, id, expected, parent).Ok? {
            MoveKeepsDepths(s, d, id, expected, parent);
          }
      }
      assert IsForest(Apply(s, ops[0]));
      RunsKeepForest(Apply(s, ops[0]), ops[1..]);
    }
  }

  ghost predicate NamesUnique(s: Store) {
    forall x, y :: x in s && y in s && x != y && s[x].parent == s[y].parent ==> s[x].name != s[y].name
  }

  /** Every run keeps names unique among siblings. */
  lemma {:induction false} RunsKeepNames(s: Store, ops: seq<Op>)
    requires NamesUnique(s)
    ensures NamesUnique(Run(s, ops))
    decreases |ops|
  {
    hide Walk;
    if ops != [] {
      NamesKept(s, ops[0]);
      RunsKeepNames(Apply(s, ops[0]), ops[1..]);
    }
  }

  lemma NamesKept(s: Store, op: Op)
    requires NamesUnique(s)
    ensures NamesUnique(Apply(s, op))
  {
    hide Walk, ParentRefusal;
  }

  ghost predicate DepthAtMost(s: Store, n: nat) {
    exists d :: Depths(s, d) && forall id :: id in s ==> d[id] <= n
  }

  /** With creates alone no namespace is ever deeper than 32. */
  lemma {:induction false} CreatesBoundDepth(s: Store, ops: seq<Op>)
    requires DepthAtMost(s, MAX_NAMESPACE_DEPTH)
    requires forall i :: 0 <= i < |ops| ==> ops[i].CreateOp?
    ensures DepthAtMost(Run(s, ops), MAX_NAMESPACE_DEPTH)
    decreases |ops|
  {
    if ops != [] {
      var d :| Depths(s, d) && forall id :: id in s ==> d[id] <= MAX_NAMESPACE_DEPTH;
      var op := ops[0];
      if Create(s, op.id, op.parent, op.name).Ok? {
        var d' := CreateKeepsDepths(s, d, op.id, op.parent, op.name);
        assert forall id :: id in Apply(s, op) ==> d'[id] <= MAX_NAMESPACE_DEPTH;
      }
      assert DepthAtMost(Apply(s, op), MAX_NAMESPACE_DEPTH);
      CreatesBoundDepth(Apply(s, op), ops[1..]);
    }
  }

  /** A move keeps a depth bound exactly when the deepest namespace it carries still fits under the new parent. */
  lemma MoveKeepsBound(s: Store, d: DepthMap, id: NamespaceId, expected: u64, parent: Option<NamespaceId>, n: nat)
    requires Depths(s, d) && Move(s, id, expected, parent).Ok?
    requires forall x :: x in s ==> d[x] <= n
    ensures DepthAtMost(Move(s, id, expected, parent).value, n) <==>
            forall x :: InSubtree(s, d, x, id) ==> d[x] + Shift(d, id, parent) <= n
  {
    MoveKeepsDepths(s, d, id, expected, parent);
    var s', d' := Move(s, id, expected, parent).value, MovedDepths(s, d, id, parent);
    if DepthAtMost(s', n) {
      var d'' :| Depths(s', d'') && forall x :: x in s' ==> d''[x] <= n;
      forall x | x in s' ensures d''[x] == d'[x] { DepthsUnique(s', d', d'', x); }
    } else {
      assert exists x :: x in s' && d'[x] > n;
    }
  }

  lemma {:induction false} DepthsUnique(s: Store, d: DepthMap, d': DepthMap, id: NamespaceId)
    requires Depths(s, d) && Depths(s, d') && id in s
    ensures d[id] == d'[id]
    decreases d[id]
  {
    assert Fits(s, d, id) && Fits(s, d', id);
    if s[id].parent.Some? {
      DepthsUnique(s, d, d', s[id].parent.value);
    }
  }

  /** The namespace table, changed in place; every row change keeps it a forest. */
  class NamespaceTable {
    var rows: Store

    ghost predicate Valid()
      reads this
    {
      IsForest(rows)
    }

    constructor ()
      ensures Valid() && rows == map[]
    {
      rows := map[];
      new;
      assert Depths(rows, map[]);
    }

    method CreateNamespace(id: NamespaceId, parent: Option<NamespaceId>, name: bytes)
      returns (r: Result<NamespaceId, VaultError>)
      requires Valid()
      modifies this
      ensures Valid()
      ensures match Create(old(rows), id, parent, name)
              case Ok(next) => r == Ok(id) && rows == next
              case Err(e) => r == Err(e) && rows == old(rows)
    {
      RunsKeepForest(rows, [CreateOp(id, parent, name)]);
      assert Run(rows, [CreateOp(id, parent, name)]) == Apply(rows, CreateOp(id, parent, name));
      if parent.Some? {
        if parent.value !in rows || !rows[parent.value].active {
          return Err(NotFound);
        }
        if NamespaceDepth(rows, parent.value).value >= MAX_NAMESPACE_DEPTH {
          return Err(InvalidInput);
        }
      }
      if id in rows || Taken(rows, id, parent, name) {
        return Err(Conflict);
      }
      rows := rows[id := Row(parent, name, true, 1)];
      return Ok(id);
    }

    method MoveNamespace(id: NamespaceId, expected: u64, parent: Option<NamespaceId>)
      returns (r: Result<u64, VaultError>)
      requires Valid()
      modifies this
      ensures Valid()
      ensures match Move(old(rows), id, expected, parent)
              case Ok(next) => r == Ok(expected + 1) && rows == next
              case Err(e) => r == Err(e) && rows == old(rows)
    {
      RunsKeepForest(rows, [MoveOp(id, expected, parent)]);
      assert Run(rows, [MoveOp(id, expected, parent)]) == Apply(rows, MoveOp(id, expected, parent));
      if id !in rows {
        return Err(NotFound);
      }
      if rows[id].revision != expected || !rows[id].active {
        return Err(Conflict);
      }
      if parent.Some? {
        if parent.value == id {
          return Err(InvalidInput);
        }
        if parent.value !in rows {
          return Err(NotFound);
        }
        var ancestors := AncestorsInclusive(rows, parent.value).value;
        if !rows[parent.value].active || |ancestors| >= MAX_NAMESPACE_DEPTH || id in ancestors {
          return Err(InvalidInput);
        }
      }
      if expected >= I64_MAX {
        return Err(Conflict);
      }
      if Taken(rows, id, parent, rows[id].name) {
        return Err(Unavailable);
      }
      rows := rows[id := Row(parent, rows[id].name, true, expected + 1)];
      return Ok(expected + 1);
    }
  }
}
