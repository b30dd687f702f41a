/** What a confirmed namespace move changes, discloses and, for deep subtrees, fails to disclose. */
module MoveTheorems {
  import opened Bytes
  import opened Sorting
  import opened Forest
  import opened Access
  import Gate

  /** `move_namespace`: moves only when the caller's confirmation equals the current preview. */
  method ConfirmedMove(table: NamespaceTable, g: Graph, sessions: Gate.SessionTable, owner: Gate.OwnerContext,
                       id: NamespaceId, expected: u64, parent: Option<NamespaceId>, confirmed: seq<Delta>, now: i64)
    returns (r: Result<u64, AuthorizationError>)
    requires table.Valid()
    modifies table
    ensures table.Valid()
    ensures r.Err? ==> table.rows == old(table.rows)
    ensures r.Ok? ==> Move(old(table.rows), id, expected, parent) == Ok(table.rows)
    ensures r.Ok? <==> && Gate.OwnerActive(sessions, owner, now) && Previewable(old(table.rows), id, parent)
                       && Lists(old(table.rows), g, id, parent, confirmed)
                       && (confirmed != [] ==> now <= owner.recentUntil)
                       && Move(old(table.rows), id, expected, parent).Ok?
  {
    if !Gate.OwnerActive(sessions, owner, now) {
      return Err(Denied);
    }
    var actual := Preview(table.rows, g, id, parent);
    if actual.Err? {
      return Err(actual.error);
    }
    DeltaLeIsTotalOrder();
    if actual.value != confirmed {
      if Lists(table.rows, g, id, parent, confirmed) {
        StrictListingUnique(DeltaLe, actual.value, confirmed);
      }
      return Err(AuthorizationError.InvalidInput);
    }
    if confirmed != [] && !Gate.IsRecent(owner, now) {
      return Err(RecentAuthenticationRequired);
    }
    var moved := table.MoveNamespace(id, expected, parent);
    if moved.Err? {
      return Err(if moved.error.InvalidInput? then AuthorizationError.InvalidInput
                 else if moved.error.Unavailable? then AuthorizationError.Unavailable else Denied);
    }
    return Ok(moved.value);
  }

  /** The confirmation names exactly the disclosed pairs, each once, in order. */
  ghost predicate Lists(s: Store, g: Graph, id: NamespaceId, parent: Option<NamespaceId>, confirmed: seq<Delta>)
    requires Previewable(s, id, parent)
  {
    Strict(DeltaLe, confirmed)
    && forall x :: x in confirmed <==> InDelta(g, Walk(s, id, 32), NewAncestors(s, id, parent), x)
  }

  // ----- A move, with the depths on both sides -----

  /** A successful move and the depths before it. */
  datatype Moved = Moved(s: Store, d: DepthMap, id: NamespaceId, expected: u64, parent: Option<NamespaceId>)

  ghost predicate Happened(m: Moved) {
    Depths(m.s, m.d) && Move(m.s, m.id, m.expected, m.parent).Ok?
  }

  ghost function After(m: Moved): Store
    requires Happened(m)
  {
    Move(m.s, m.id, m.expected, m.parent).value
  }

  ghost predicate Carried(m: Moved, x: NamespaceId)
    requires Happened(m)
  {
    InSubtree(m.s, m.d, x, m.id)
  }

  ghost function By(m: Moved): int
    requires Happened(m)
  {
    Shift(m.d, m.id, m.parent)
  }

  /** `t` is strictly above the moved namespace before the move. */
  ghost predicate AboveBefore(m: Moved, t: NamespaceId)
    requires Happened(m)
  {
    t in Chain(m.s, m.d, m.id)[1..]
  }

  /** `t` is strictly above the moved namespace after the move. */
  ghost predicate AboveAfter(m: Moved, t: NamespaceId)
    requires Happened(m)
  {
    m.parent.Some? && t in Chain(m.s, m.d, m.parent.value)
  }

  /** `t` lies on the path from `x` up to the moved namespace. */
  ghost predicate Between(m: Moved, x: NamespaceId, t: NamespaceId)
    requires Happened(m) && Carried(m, x)
  {
    t in Below(m.s, m.d, x, m.id)
  }

  /**
   * Before the move, the walk from a carried namespace sees the path to the top of the subtree and the old ancestors.
   */
  lemma SeenBefore(m: Moved, x: NamespaceId, t: NamespaceId)
    requires Happened(m) && Carried(m, x)
    ensures t in Walk(m.s, x, 32) <==> (Between(m, x, t) || AboveBefore(m, t)) && t in m.s && m.d[x] <= m.d[t] + 32
  {
    FoundWithin32(m.s, m.d, x, t);
    ChainThrough(m.s, m.d, x, m.id);
  }

  /** After it, the walk sees the same path and the new ancestors, at shifted distances. */
  lemma SeenAfter(m: Moved, x: NamespaceId, t: NamespaceId)
    requires Happened(m) && Carried(m, x)
    ensures x in After(m)
    ensures t in Walk(After(m), x, 32) <==>
            || (Between(m, x, t) && t in m.s && m.d[x] <= m.d[t] + 32)
            || (AboveAfter(m, t) && t in m.s && m.d[x] + By(m) <= m.d[t] + 32)
  {
    var s', d' := After(m), MovedDepths(m.s, m.d, m.id, m.parent);
    MoveKeepsDepths(m.s, m.d, m.id, m.expected, m.parent);
    MoveReparents(m.s, m.d, m.id, m.expected, m.parent);
    ChainInside(m.s, m.d, s', d', m.id, m.parent, x);
    FoundWithin32(s', d', x, t);
    ChainThrough(m.s, m.d, x, m.id);
    FoundWithin32(m.s, m.d, x, t);
    if Between(m, x, t) {
      BetweenIsCarried(m, x, t);
    }
    if AboveAfter(m, t) {
      AboveIsNotCarried(m, t);
    }
  }

  lemma {:induction false} BetweenIsCarried(m: Moved, x: NamespaceId, t: NamespaceId)
    requires Happened(m) && Carried(m, x) && Between(m, x, t)
    ensures Carried(m, t)
    decreases m.d[x]
  {
    SubtreeStep(m.s, m.d, x, m.id);
    if x != m.id && t != x {
      BetweenIsCarried(m, m.s[x].parent.value, t);
    }
  }

  /** Nothing above the new parent is in the moved subtree. */
  lemma AboveIsNotCarried(m: Moved, t: NamespaceId)
    requires Happened(m) && AboveAfter(m, t)
    ensures t in m.s && !Carried(m, t)
  {
    var p := m.parent.value;
    MoveAvoidsSubtree(m.s, m.d, m.id, m.expected, p);
    ChainDepths(m.s, m.d, p);
    if Carried(m, t) {
      ChainContains(m.s, m.d, p, t, m.id);
    }
  }

  lemma {:induction false} ChainContains(s: Store, d: DepthMap, p: NamespaceId, t: NamespaceId, u: NamespaceId)
    requires Depths(s, d) && p in s && t in s && t in Chain(s, d, p) && u in Chain(s, d, t)
    ensures u in Chain(s, d, p)
    decreases d[p]
  {
    assert Fits(s, d, p);
    if t != p {
      ChainContains(s, d, s[p].parent.value, t, u);
    }
  }

  /** Outside the subtree the walk does not change. */
  lemma SeenOutside(m: Moved, x: NamespaceId)
    requires Happened(m) && x in m.s && !Carried(m, x)
    ensures x in After(m) && Walk(After(m), x, 32) == Walk(m.s, x, 32)
  {
    var s', d' := After(m), MovedDepths(m.s, m.d, m.id, m.parent);
    MoveReparents(m.s, m.d, m.id, m.expected, m.parent);
    MoveKeepsDepths(m.s, m.d, m.id, m.expected, m.parent);
    ChainOutside(m.s, m.d, s', d', m.id, m.parent, x);
    WalkIsChain(m.s, m.d, x, 32);
    WalkIsChain(s', d', x, 32);
  }

  /** The preview's two ancestor lists, said by depth. The new parent is shallow enough for its list to be complete. */
  lemma PreviewSees(m: Moved, t: NamespaceId)
    requires Happened(m)
    ensures Previewable(m.s, m.id, m.parent)
    ensures t in Walk(m.s, m.id, 32) <==> t == m.id || (AboveBefore(m, t) && t in m.s && m.d[m.id] <= m.d[t] + 32)
    ensures t in NewAncestors(m.s, m.id, m.parent) <==> t == m.id || AboveAfter(m, t)
  {
    SubtreeStep(m.s, m.d, m.id, m.id);
    SeenBefore(m, m.id, t);
    if m.parent.Some? {
      MoveAvoidsSubtree(m.s, m.d, m.id, m.expected, m.parent.value);
      FoundWithin32(m.s, m.d, m.parent.value, t);
    }
  }

  // ----- What a move does to decisions -----

  ghost predicate AllowedBefore(m: Moved, secrets: Secrets, g: Graph, x: Delta, r: Resource)
    requires Happened(m)
  {
    Allowed(m.s, secrets, g, x.principalId, x.action, r)
  }

  ghost predicate AllowedAfter(m: Moved, secrets: Secrets, g: Graph, x: Delta, r: Resource)
    requires Happened(m)
  {
    Allowed(After(m), secrets, g, x.principalId, x.action, r)
  }

  /** The resource lives in the moved subtree. */
  ghost predicate ResourceCarried(m: Moved, secrets: Secrets, r: Resource)
    requires Happened(m)
  {
    Home(secrets, r).Some? && Carried(m, Home(secrets, r).value)
  }

  ghost predicate Disclosed(m: Moved, g: Graph, x: Delta)
    requires Happened(m)
  {
    PreviewSees(m, m.id);
    InDelta(g, Walk(m.s, m.id, 32), NewAncestors(m.s, m.id, m.parent), x)
  }

  /** No decision outside the moved subtree changes. */
  lemma OutsideUnchanged(m: Moved, secrets: Secrets, g: Graph, x: Delta, r: Resource)
    requires Happened(m) && !ResourceCarried(m, secrets, r)
    ensures AllowedAfter(m, secrets, g, x, r) <==> AllowedBefore(m, secrets, g, x, r)
  {
    var home := Home(secrets, r);
    if home.Some? && home.value in m.s {
      SeenOutside(m, home.value);
    }
  }

  /**
   * Every access the move adds is disclosed, whatever the secrets, the graph, the service, the action and the
   * resource.
   */
  ghost predicate HidesNothing(m: Moved)
    requires Happened(m)
  {
    forall secrets, g, x, r :: AllowedAfter(m, secrets, g, x, r) && !AllowedBefore(m, secrets, g, x, r) ==>
        Disclosed(m, g, x)
  }

  /**
   * The subtree is not lifted towards an ancestor it keeps, or nothing in it is more than 32 levels below
   * such an ancestor.
   */
  ghost predicate KeepsNearAncestorsNear(m: Moved)
    requires Happened(m)
  {
    By(m) >= 0 || forall t, x :: KeptAncestor(m, t) && Carried(m, x) ==> m.d[x] <= m.d[t] + 32
  }

  /** An ancestor of the moved namespace before and after the move, which the preview sees. */
  ghost predicate KeptAncestor(m: Moved, t: NamespaceId)
    requires Happened(m)
  {
    t in m.s && AboveBefore(m, t) && AboveAfter(m, t) && m.d[m.id] <= m.d[t] + 32
  }

  /** Moves disclose everything they broaden exactly when no kept ancestor comes back within reach. */
  lemma HidesNothingIff(m: Moved)
    requires Happened(m)
    ensures HidesNothing(m) <==> KeepsNearAncestorsNear(m)
  {
    if KeepsNearAncestorsNear(m) {
      forall secrets, g, x, r | AllowedAfter(m, secrets, g, x, r) && !AllowedBefore(m, secrets, g, x, r)
        ensures Disclosed(m, g, x)
      {
        BroadeningDisclosed(m, secrets, g, x, r);
      }
    } else {
      var t, x :| KeptAncestor(m, t) && Carried(m, x) && m.d[x] > m.d[t] + 32;
      HiddenBroadening(m, t, x);
    }
  }

  /** An ancestor that comes into reach of a carried namespace is one the preview reports as gained. */
  lemma NewReachIsReported(m: Moved, home: NamespaceId, t: NamespaceId)
    requires Happened(m) && KeepsNearAncestorsNear(m) && Carried(m, home)
    requires home in After(m) && t in Walk(After(m), home, 32) && t !in Walk(m.s, home, 32)
    ensures t !in Walk(m.s, m.id, 32)
    ensures Previewable(m.s, m.id, m.parent) && t in NewAncestors(m.s, m.id, m.parent)
  {
    hide Walk, Chain;
    SeenBefore(m, home, t);
    SeenAfter(m, home, t);
    PreviewSees(m, t);
    AboveIsNotCarried(m, t);
    SubtreeStep(m.s, m.d, m.id, m.id);
    var kept := KeptAncestor(m, t);
  }

  lemma BroadeningDisclosed(m: Moved, secrets: Secrets, g: Graph, x: Delta, r: Resource)
    requires Happened(m) && KeepsNearAncestorsNear(m)
    requires AllowedAfter(m, secrets, g, x, r) && !AllowedBefore(m, secrets, g, x, r)
    ensures Disclosed(m, g, x)
  {
    hide Walk, Chain, KeepsNearAncestorsNear, ResourceCarried, Move, Depths;
    if !ResourceCarried(m, secrets, r) {
      OutsideUnchanged(m, secrets, g, x, r);
      assert false;
    }
    CarriedHome(m, secrets, r);
    var home := Home(secrets, r).value;
    var after := ResourceAncestors(After(m), secrets, r).value;
    var j :| 0 <= j < |g.grants| && g.grants[j].action == x.action && Holds(g, x.principalId, g.grants[j].policyId)
             && Reaches(g.grants[j], after, r);
    assert !Reaches(g.grants[j], Walk(m.s, home, 32), r);
    NewReachIsReported(m, home, g.grants[j].target.namespace);
    ReportedIsDisclosed(m, g, x, j);
  }

  lemma CarriedHome(m: Moved, secrets: Secrets, r: Resource)
    requires Happened(m) && ResourceCarried(m, secrets, r)
    ensures Home(secrets, r).Some? && Carried(m, Home(secrets, r).value)
    ensures Home(secrets, r).value in m.s && Home(secrets, r).value in After(m)
  {
  }

  lemma ReportedIsDisclosed(m: Moved, g: Graph, x: Delta, j: nat)
    requires Happened(m) && Previewable(m.s, m.id, m.parent)
    requires j < |g.grants| && g.grants[j].action == x.action && Holds(g, x.principalId, g.grants[j].policyId)
    requires g.grants[j].target.NamespaceResource? && g.grants[j].includeDescendants
    requires g.grants[j].target.namespace !in Walk(m.s, m.id, 32)
    requires g.grants[j].target.namespace in NewAncestors(m.s, m.id, m.parent)
    ensures Disclosed(m, g, x)
  {
    hide Walk;
    var i :| 0 <= i < |g.bindings| && g.bindings[i] == Binding(x.principalId, g.grants[j].policyId);
    var q :| 0 <= q < |g.policies| && g.policies[q].policyId == g.grants[j].policyId && g.policies[q].active;
    assert RowsDisclose(g, Walk(m.s, m.id, 32), NewAncestors(m.s, m.id, m.parent), x, i, q, j);
  }

  const SOME_UUID: Id := [0, 0, 0, 0, 0, 0, 0, 0, 0, 0, 0, 0, 0, 0, 0, 0]

  /** A graph that grants one action, inheriting, at `t`. */
  function OneGrant(t: NamespaceId): Graph {
    Graph([Policy(PolicyId(SOME_UUID), true)],
          [Grant(PolicyId(SOME_UUID), Action([]), NamespaceResource(t), true)],
          [Binding(PrincipalId(SOME_UUID), PolicyId(SOME_UUID))])
  }

  const SOME_ACCESS := Delta(PrincipalId(SOME_UUID), Action([]))

  /** With one inheriting grant, access to a namespace is seeing the granted one. */
  lemma OneGrantAllows(s: Store, t: NamespaceId, x: NamespaceId)
    requires x in s
    ensures Allowed(s, map[], OneGrant(t), SOME_ACCESS.principalId, SOME_ACCESS.action, NamespaceResource(x))
            <==> t == x || t in Walk(s, x, 32)
  {
    var g := OneGrant(t);
    assert g.policies[0].active && g.bindings[0] == Binding(SOME_ACCESS.principalId, g.policies[0].policyId);
    assert ActivePolicy(g, g.policies[0].policyId);
    assert Holds(g, SOME_ACCESS.principalId, g.grants[0].policyId);
    assert Reaches(g.grants[0], Walk(s, x, 32), NamespaceResource(x)) <==> t == x || t in Walk(s, x, 32);
  }

  lemma OneGrantDiscloses(m: Moved, t: NamespaceId)
    requires Happened(m)
    ensures Disclosed(m, OneGrant(t), SOME_ACCESS) <==>
            t !in Walk(m.s, m.id, 32) && t in NewAncestors(m.s, m.id, m.parent)
  {
    PreviewSees(m, t);
    var g := OneGrant(t);
    var before, after := Walk(m.s, m.id, 32), NewAncestors(m.s, m.id, m.parent);
    assert RowsDisclose(g, before, after, SOME_ACCESS, 0, 0, 0) <==> t !in before && t in after;
  }

  /** Every depth between the top of a subtree and a namespace in it is taken by some namespace of the subtree. */
  lemma {:induction false} DepthBetween(m: Moved, x: NamespaceId, n: nat) returns (y: NamespaceId)
    requires Happened(m) && Carried(m, x) && m.d[m.id] <= n <= m.d[x]
    ensures Carried(m, y) && m.d[y] == n
    decreases m.d[x]
  {
    SubtreeStep(m.s, m.d, x, m.id);
    assert Fits(m.s, m.d, x);
    if m.d[x] == n {
      y := x;
    } else {
      y := DepthBetween(m, m.s[x].parent.value, n);
    }
  }

  /** Lifting a deep subtree towards an ancestor it keeps adds access the preview does not show. */
  lemma HiddenBroadening(m: Moved, t: NamespaceId, x: NamespaceId)
    requires Happened(m) && By(m) < 0 && KeptAncestor(m, t) && Carried(m, x) && m.d[x] > m.d[t] + 32
    ensures !HidesNothing(m)
  {
    var y := DepthBetween(m, x, m.d[t] + 33);
    SeenBefore(m, y, t);
    SeenAfter(m, y, t);
    PreviewSees(m, t);
    if Between(m, y, t) {
      BetweenIsCarried(m, y, t);
      AboveIsNotCarried(m, t);
    }
    OneGrantAllows(m.s, t, y);
    OneGrantAllows(After(m), t, y);
    OneGrantDiscloses(m, t);
    assert AllowedAfter(m, map[], OneGrant(t), SOME_ACCESS, NamespaceResource(y));
    assert !AllowedBefore(m, map[], OneGrant(t), SOME_ACCESS, NamespaceResource(y));
  }

  /** Every disclosed pair is allowed on every resource of the moved subtree afterwards. */
  ghost predicate DisclosesOnlyTrueAccess(m: Moved)
    requires Happened(m)
  {
    forall secrets, g, x, r :: Disclosed(m, g, x) && ResourceCarried(m, secrets, r) ==>
        AllowedAfter(m, secrets, g, x, r)
  }

  /** An ancestor gained by the move. */
  ghost predicate GainedAncestor(m: Moved, t: NamespaceId)
    requires Happened(m)
  {
    t in m.s && AboveAfter(m, t) && !(AboveBefore(m, t) && m.d[m.id] <= m.d[t] + 32)
  }

  /**
   * The disclosure is exact across the subtree exactly when nothing carried ends more than 32 levels below a gained
   * ancestor.
   */
  lemma DisclosesOnlyTrueAccessIff(m: Moved)
    requires Happened(m)
    ensures DisclosesOnlyTrueAccess(m) <==> GainedAncestorsNear(m)
  {
    if GainedAncestorsNear(m) {
      forall secrets, g, x, r | Disclosed(m, g, x) && ResourceCarried(m, secrets, r)
        ensures AllowedAfter(m, secrets, g, x, r)
      {
        DisclosedIsAllowed(m, secrets, g, x, r);
      }
    } else {
      var t, x :| GainedAncestor(m, t) && Carried(m, x) && m.d[x] + By(m) > m.d[t] + 32;
      PreviewSees(m, t);
      SeenAfter(m, x, t);
      AboveIsNotCarried(m, t);
      SubtreeStep(m.s, m.d, m.id, m.id);
      if Between(m, x, t) {
        BetweenIsCarried(m, x, t);
      }
      OneGrantDiscloses(m, t);
      OneGrantAllows(After(m), t, x);
      assert Home(map[], NamespaceResource(x)) == Some(x);
      assert ResourceCarried(m, map[], NamespaceResource(x));
      assert !AllowedAfter(m, map[], OneGrant(t), SOME_ACCESS, NamespaceResource(x));
    }
  }

  /** No carried namespace ends more than 32 levels below a gained ancestor. */
  ghost predicate GainedAncestorsNear(m: Moved)
    requires Happened(m)
  {
    forall t, x :: GainedAncestor(m, t) && Carried(m, x) ==> m.d[x] + By(m) <= m.d[t] + 32
  }

  lemma ReportedIsReached(m: Moved, home: NamespaceId, t: NamespaceId)
    requires Happened(m) && GainedAncestorsNear(m) && Carried(m, home) && Previewable(m.s, m.id, m.parent)
    requires t !in Walk(m.s, m.id, 32) && t in NewAncestors(m.s, m.id, m.parent)
    ensures home in After(m) && t in Walk(After(m), home, 32)
  {
    hide Walk, Chain;
    PreviewSees(m, t);
    AboveIsNotCarried(m, t);
    SeenAfter(m, home, t);
    assert GainedAncestor(m, t);
  }

  lemma DisclosedIsAllowed(m: Moved, secrets: Secrets, g: Graph, x: Delta, r: Resource)
    requires Happened(m) && Disclosed(m, g, x) && ResourceCarried(m, secrets, r) && GainedAncestorsNear(m)
    ensures AllowedAfter(m, secrets, g, x, r)
  {
    hide Walk, Chain, GainedAncestorsNear, ResourceCarried, Move, Depths;
    PreviewSees(m, m.id);
    var before, after := Walk(m.s, m.id, 32), NewAncestors(m.s, m.id, m.parent);
    var i, q, j :| RowsDisclose(g, before, after, x, i, q, j);
    CarriedHome(m, secrets, r);
    var home := Home(secrets, r).value;
    ReportedIsReached(m, home, g.grants[j].target.namespace);
    assert g.bindings[i] == Binding(x.principalId, g.grants[j].policyId);
    assert Holds(g, x.principalId, g.grants[j].policyId);
    assert Reaches(g.grants[j], Walk(After(m), home, 32), r);
  }

  /** While no namespace is deeper than 33 before or after, the disclosure is complete and exact. */
  lemma ShallowMovesAreExact(m: Moved)
    requires Happened(m)
    requires forall x :: x in m.s ==> m.d[x] <= 33
    requires forall x :: Carried(m, x) ==> m.d[x] + By(m) <= 33
    ensures HidesNothing(m) && DisclosesOnlyTrueAccess(m)
  {
    HidesNothingIff(m);
    DisclosesOnlyTrueAccessIff(m);
    forall t | t in m.s
      ensures m.d[t] >= 1
    {
      assert Fits(m.s, m.d, t);
    }
  }

  // ----- Deep subtrees are reachable -----

  /** The namespace whose identity is sixteen copies of one byte. */
  function Node(k: byte): NamespaceId {
    NamespaceId([k, k, k, k, k, k, k, k, k, k, k, k, k, k, k, k])
  }

  /** Creates a line of namespaces `base + 1` to `last`, each under the one before. */
  function LadderOps(base: byte, last: byte): seq<Op>
    decreases last
  {
    if last <= base then []
       else LadderOps(base, last - 1) + [CreateOp(Node(last), RungParent(base, last), Node(last).uuid)]
  }

  function RungParent(base: byte, k: byte): Option<NamespaceId>
    requires base < k
  {
    if k == base + 1 then None else Some(Node(k - 1))
  }

  /** One namespace of a line, untouched since its creation. */
  ghost predicate Rung(s: Store, d: DepthMap, base: byte, k: byte)
    requires base < k
  {
    && Node(k) in s && Node(k) in d && d[Node(k)] == k - base
    && s[Node(k)] == Row(RungParent(base, k), Node(k).uuid, true, 1)
  }

  /** Every namespace is named by its identity, so no name is ever taken. */
  ghost predicate OwnNames(s: Store) {
    forall x :: x in s ==> s[x].name == x.uuid
  }

  lemma NothingTaken(s: Store, id: NamespaceId, parent: Option<NamespaceId>)
    requires OwnNames(s)
    ensures !Taken(s, id, parent, id.uuid)
  {
  }

  ghost predicate HasLadder(s: Store, d: DepthMap, base: byte, last: byte) {
    Depths(s, d) && OwnNames(s) && forall k {:trigger Rung(s, d, base, k)} :: base < k <= last ==> Rung(s, d, base, k)
  }

  lemma {:induction false} RunAppend(s: Store, ops: seq<Op>, op: Op)
    ensures Run(s, ops + [op]) == Apply(Run(s, ops), op)
    decreases |ops|
  {
    if ops == [] {
      assert ops + [op] == [op];
    } else {
      RunAppend(Apply(s, ops[0]), ops[1..], op);
      assert (ops + [op])[1..] == ops[1..] + [op];
    }
  }

  lemma NodesDiffer(j: byte, k: byte)
    ensures Node(j) == Node(k) <==> j == k
  {
    assert Node(j).uuid[0] == j && Node(k).uuid[0] == k;
  }

  ghost predicate Free(s: Store, base: byte, last: byte) {
    forall k {:trigger Node(k)} :: base < k <= last ==> Node(k) !in s
  }

  /** Nothing that was there before has changed, and only the line is new. */
  ghost predicate Extended(s: Store, d: DepthMap, s': Store, d': DepthMap, base: byte, last: byte) {
    && (forall x :: x in s && x in d ==> x in s' && x in d' && s'[x] == s[x] && d'[x] == d[x])
    && (forall k: byte {:trigger Node(k)} :: Node(k) in s' ==> Node(k) in s || base < k <= last)
  }

  lemma AddRung(s: Store, d: DepthMap, base: byte, last: byte) returns (s': Store, d': DepthMap)
    requires base < last <= base + 32 && HasLadder(s, d, base, last - 1) && Node(last) !in s
    ensures s' == Apply(s, CreateOp(Node(last), RungParent(base, last), Node(last).uuid))
    ensures HasLadder(s', d', base, last) && Extended(s, d, s', d', last - 1, last)
  {
    hide Node, Walk;
    var id, parent := Node(last), RungParent(base, last);
    if parent.Some? {
      assert Rung(s, d, base, last - 1);
      DepthIsTrue(s, d, parent.value);
    }
    NothingTaken(s, id, parent);
    s' := Create(s, id, parent, id.uuid).value;
    d' := CreateKeepsDepths(s, d, id, parent, id.uuid);
    forall k: byte | base < k <= last
      ensures Rung(s', d', base, k)
    {
      NodesDiffer(k, last);
      assert k < last ==> Rung(s, d, base, k);
    }
    forall k: byte | Node(k) in s'
      ensures Node(k) in s || last - 1 < k <= last
    {
      NodesDiffer(k, last);
    }
  }

  lemma {:induction false} LadderStands(s: Store, d: DepthMap, base: byte, last: byte) returns (s': Store, d': DepthMap)
    requires Depths(s, d) && OwnNames(s) && base <= last <= base + 32 && Free(s, base, last)
    ensures s' == Run(s, LadderOps(base, last)) && HasLadder(s', d', base, last) && Extended(s, d, s', d', base, last)
    decreases last
  {
    hide Node, Apply, Rung;
    if last == base {
      s', d' := s, d;
    } else {
      var s1, d1 := LadderStands(s, d, base, last - 1);
      s', d' := AddRung(s1, d1, base, last);
      RunAppend(s, LadderOps(base, last - 1), CreateOp(Node(last), RungParent(base, last), Node(last).uuid));
    }
  }

  /** Each namespace from `first + 1` to `last` is under the one before. */
  ghost predicate Line(s: Store, first: byte, last: byte) {
    forall k: byte {:trigger Linked(s, k)} :: first < k <= last ==> Linked(s, k)
  }

  ghost predicate Linked(s: Store, k: byte) {
    k > 0 && Node(k) in s && s[Node(k)].parent == Some(Node(k - 1))
  }

  lemma {:induction false} LineIsChain(s: Store, d: DepthMap, first: byte, k: byte)
    requires Depths(s, d) && Node(first) in s && first <= k && Line(s, first, k)
    ensures Node(k) in s && Node(first) in Chain(s, d, Node(k))
    decreases k
  {
    hide Node;
    if k > first {
      assert Linked(s, k);
      LineIsChain(s, d, first, k - 1);
    }
  }

  lemma LadderIsLine(s: Store, d: DepthMap, base: byte, last: byte)
    requires base < last && HasLadder(s, d, base, last)
    ensures Line(s, base + 1, last)
  {
    hide Node;
    forall k: byte | base + 1 < k <= last
      ensures Linked(s, k)
    {
      assert Rung(s, d, base, k);
    }
  }

  /** A chain has one namespace of each depth. */
  lemma ChainHasOneRoot(s: Store, d: DepthMap, id: NamespaceId, t: NamespaceId, u: NamespaceId)
    requires Depths(s, d) && id in s && t in Chain(s, d, id) && u in s && u != t && t in s && d[u] == d[t]
    ensures u !in Chain(s, d, id)
  {
    ChainDepths(s, d, id);
  }

  /** Two lines of 31 and 13 namespaces stand side by side. */
  lemma TwoLadders() returns (ops: seq<Op>, s: Store, d: DepthMap)
    ensures s == Run(map[], ops) && HasLadder(s, d, 0, 31) && HasLadder(s, d, 100, 113)
  {
    hide Node;
    assert Depths(map[], map[]);
    var s1, d1 := LadderStands(map[], map[], 0, 31);
    var s2, d2 := LadderStands(s1, d1, 100, 113);
    RunSplit(map[], LadderOps(0, 31), LadderOps(100, 113));
    ops, s, d := LadderOps(0, 31) + LadderOps(100, 113), s2, d2;
    forall k: byte | 0 < k <= 31
      ensures Rung(s, d, 0, k)
    {
      assert Rung(s1, d1, 0, k);
    }
  }

  lemma {:induction false} RunSplit(s: Store, a: seq<Op>, b: seq<Op>)
    ensures Run(s, a + b) == Run(Run(s, a), b)
    decreases |a|
  {
    if a == [] {
      assert a + b == b;
    } else {
      RunSplit(Apply(s, a[0]), a[1..], b);
      assert (a + b)[1..] == a[1..] + b;
    }
  }

  /** The short line may move under the long one. */
  lemma FirstMoveHappens(s: Store, d: DepthMap)
    requires HasLadder(s, d, 0, 31) && HasLadder(s, d, 100, 113)
    ensures Move(s, Node(101), 1, Some(Node(21))).Ok? && Node(1) in Chain(s, d, Node(21)) && Node(113) in s
    ensures Node(101) in Chain(s, d, Node(113)) && Node(101) !in Chain(s, d, Node(21))
  {
    hide Node, Move;
    assert Rung(s, d, 0, 1) && Rung(s, d, 0, 21) && Rung(s, d, 100, 101) && Rung(s, d, 100, 113);
    LadderIsLine(s, d, 0, 31);
    LadderIsLine(s, d, 100, 113);
    LineIsChain(s, d, 1, 21);
    LineIsChain(s, d, 101, 113);
    NodesDiffer(1, 101);
    ChainHasOneRoot(s, d, Node(21), Node(1), Node(101));
    NothingTaken(s, Node(101), Some(Node(21)));
    hide Taken, OwnNames, Rung;
    MoveOkIff(s, d, Node(101), 1, Some(Node(21)));
  }

  /** Moving the short line under the long one succeeds and leaves its last namespace at depth 34. */
  lemma FirstMove(s: Store, d: DepthMap) returns (m: Moved)
    requires HasLadder(s, d, 0, 31) && HasLadder(s, d, 100, 113)
    ensures m == Moved(s, d, Node(101), 1, Some(Node(21))) && Happened(m) && By(m) == 21
    ensures Carried(m, Node(113)) && GainedAncestor(m, Node(1))
    ensures Line(m.s, 1, 31) && Line(m.s, 101, 113) && m.d[Node(113)] == 13 && m.d[Node(1)] == 1
  {
    FirstMoveHappens(s, d);
    hide Node, Move, Taken, OwnNames;
    m := Moved(s, d, Node(101), 1, Some(Node(21)));
    assert Rung(s, d, 0, 1) && Rung(s, d, 0, 21) && Rung(s, d, 100, 101) && Rung(s, d, 100, 113);
    LadderIsLine(s, d, 0, 31);
    LadderIsLine(s, d, 100, 113);
    NodesDiffer(1, 101);
    assert Fits(s, d, Node(101));
    ChainStep(s, d, Node(101));
  }

  /** The store after the first move: the short line hangs from depth 21 of the long one. */
  ghost predicate Hung(s: Store, d: DepthMap) {
    && Depths(s, d) && OwnNames(s) && Line(s, 1, 31) && Line(s, 101, 113)
    && Node(1) in s && s[Node(1)].active && s[Node(1)].parent.None? && d[Node(1)] == 1
    && Node(101) in s && s[Node(101)] == Row(Some(Node(21)), Node(101).uuid, true, 2) && d[Node(101)] == 22
    && Node(113) in s && d[Node(113)] == 34
  }

  lemma MoveKeepsOwnNames(m: Moved)
    requires Happened(m) && OwnNames(m.s)
    ensures OwnNames(After(m))
  {
    hide Walk, Taken, ParentRefusal;
  }

  lemma FirstMoveHangs(m: Moved)
    requires m == Moved(m.s, m.d, Node(101), 1, Some(Node(21))) && Happened(m) && By(m) == 21
    requires HasLadder(m.s, m.d, 0, 31) && HasLadder(m.s, m.d, 100, 113)
    ensures Depths(m.s, m.d) && Hung(After(m), MovedDepths(m.s, m.d, m.id, m.parent))
  {
    MoveKeepsOwnNames(m);
    assert After(m) == m.s[Node(101) := Row(Some(Node(21)), m.s[Node(101)].name, true, 2)];
    hide Node, Walk, Taken, OwnNames, Move;
    assert Rung(m.s, m.d, 0, 1) && Rung(m.s, m.d, 100, 101) && Rung(m.s, m.d, 100, 113);
    LadderIsLine(m.s, m.d, 0, 31);
    LadderIsLine(m.s, m.d, 100, 113);
    LineIsChain(m.s, m.d, 101, 113);
    NodesDiffer(1, 101);
    assert Fits(m.s, m.d, Node(1));
    SubtreeStep(m.s, m.d, Node(1), Node(101));
    SubtreeStep(m.s, m.d, Node(101), Node(101));
    MoveKeepsDepths(m.s, m.d, m.id, m.expected, m.parent);
    LineStays(m, 1, 31);
    LineStays(m, 101, 113);
  }

  /** A line that does not lead through the moved namespace stays. */
  lemma LineStays(m: Moved, first: byte, last: byte)
    requires m == Moved(m.s, m.d, Node(101), 1, Some(Node(21))) && Happened(m)
    requires Line(m.s, first, last) && (last < 101 || first >= 101)
    ensures Line(After(m), first, last)
  {
    hide Node, Walk, Taken;
    forall k: byte | first < k <= last
      ensures Linked(After(m), k)
    {
      assert Linked(m.s, k);
      NodesDiffer(k, 101);
    }
  }

  /** Moving the short line up to the top of the long one. */
  lemma SecondMove(s: Store, d: DepthMap) returns (m: Moved)
    requires Hung(s, d)
    ensures m == Moved(s, d, Node(101), 2, Some(Node(1))) && Happened(m) && !HidesNothing(m)
  {
    hide Node;
    m := Moved(s, d, Node(101), 2, Some(Node(1)));
    NodesDiffer(1, 101);
    assert Fits(s, d, Node(1)) && Fits(s, d, Node(101));
    assert Walk(s, Node(1), 32) == [Node(1)];
    NothingTaken(s, Node(101), Some(Node(1)));
    assert Happened(m);
    LineIsChain(s, d, 1, 21);
    LineIsChain(s, d, 101, 113);
    assert KeptAncestor(m, Node(1));
    HiddenBroadening(m, Node(1), Node(113));
  }

  /**
   * Creates and moves alone reach a store where a move discloses access that does not take effect, and then one
   * where a move adds access it does not disclose.
   */
  lemma InexactMovesAreReachable() returns (ops: seq<Op>, m1: Moved, m2: Moved)
    ensures m1.s == Run(map[], ops) && Happened(m1) && !DisclosesOnlyTrueAccess(m1)
    ensures m2.s == After(m1) && Happened(m2) && !HidesNothing(m2)
  {
    hide Node, Hung, DisclosesOnlyTrueAccess, HidesNothing;
    var s: Store, d: DepthMap;
    ops, s, d := TwoLadders();
    m1 := FirstMove(s, d);
    DisclosesOnlyTrueAccessIff(m1);
    FirstMoveHangs(m1);
    m2 := SecondMove(After(m1), MovedDepths(s, d, m1.id, m1.parent));
  }

  /** Creates and one move reach a namespace of depth 34. */
  lemma DeepNamespaceIsReachable() returns (ops: seq<Op>, d: DepthMap, id: NamespaceId)
    ensures Depths(Run(map[], ops), d) && id in d && d[id] == 34
  {
    hide Node, Apply;
    var before: seq<Op>, s: Store;
    before, s, d := TwoLadders();
    var m := FirstMove(s, d);
    FirstMoveHangs(m);
    assert Apply(s, MoveOp(m.id, m.expected, m.parent)) == After(m) by { MoveApplies(m); }
    RunAppend(map[], before, MoveOp(m.id, m.expected, m.parent));
    ops, d, id := before + [MoveOp(m.id, m.expected, m.parent)], MovedDepths(s, d, m.id, m.parent), Node(113);
  }

  lemma MoveApplies(m: Moved)
    requires Happened(m)
    ensures Apply(m.s, MoveOp(m.id, m.expected, m.parent)) == After(m)
  {
  }
}
