/** Service authorization: allow-only grants inherited along the namespace forest, and the move preview. */
module Access {
  import opened Bytes
  import opened Sorting
  import opened Forest

  datatype PrincipalId = PrincipalId(uuid: Id)
  datatype PolicyId = PolicyId(uuid: Id)
  datatype SecretId = SecretId(uuid: Id)

  /** An action of the closed vocabulary, by its stable spelling. */
  datatype Action = Action(name: bytes)

  datatype Resource = NamespaceResource(namespace: NamespaceId) | SecretResource(secret: SecretId)

  datatype Policy = Policy(policyId: PolicyId, active: bool)
  datatype Grant = Grant(policyId: PolicyId, action: Action, target: Resource, includeDescendants: bool)
  datatype Binding = Binding(principalId: PrincipalId, policyId: PolicyId)

  /** The verified authorization snapshot. */
  datatype Graph = Graph(policies: seq<Policy>, grants: seq<Grant>, bindings: seq<Binding>)

  /** Which namespace holds each secret. */
  type Secrets = map<SecretId, NamespaceId>

  // ----- Decisions -----

  /** The namespace a resource lives in. */
  function Home(secrets: Secrets, r: Resource): Option<NamespaceId> {
    match r
    case NamespaceResource(n) => Some(n)
    case SecretResource(k) => if k in secrets then Some(secrets[k]) else None
  }

  /** `resource_namespace_ancestors`. */
  function ResourceAncestors(s: Store, secrets: Secrets, r: Resource): Option<seq<NamespaceId>> {
    match Home(secrets, r)
    case None => None
    case Some(n) => if n in s then Some(Walk(s, n, 32)) else None
  }

  predicate ActivePolicy(g: Graph, policyId: PolicyId) {
    exists i :: 0 <= i < |g.policies| && g.policies[i].policyId == policyId && g.policies[i].active
  }

  /** The principal is bound to the policy and the policy is active. */
  predicate Holds(g: Graph, principal: PrincipalId, policyId: PolicyId) {
    Binding(principal, policyId) in g.bindings && ActivePolicy(g, policyId)
  }

  /** A grant reaches a resource exactly, on the namespace itself, or by inheritance from an ancestor. */
  predicate Reaches(grant: Grant, ancestors: seq<NamespaceId>, r: Resource) {
    || grant.target == r
    || (grant.target.NamespaceResource? && grant.target.namespace in ancestors
        && (grant.includeDescendants || r == grant.target))
  }

  /** `service_is_allowed`: a missing resource is denied. */
  predicate Allowed(s: Store, secrets: Secrets, g: Graph, principal: PrincipalId, action: Action, r: Resource) {
    && ResourceAncestors(s, secrets, r).Some?
    && exists i :: 0 <= i < |g.grants| && g.grants[i].action == action && Holds(g, principal, g.grants[i].policyId)
                   && Reaches(g.grants[i], ResourceAncestors(s, secrets, r).value, r)
  }

  // ----- Decisions, row by row -----

  /** The resource is `home` itself or a secret in it. */
  ghost predicate LivesIn(secrets: Secrets, r: Resource, home: NamespaceId) {
    match r
    case NamespaceResource(n) => n == home
    case SecretResource(k) => k in secrets && secrets[k] == home
  }

  /**
   * Binding `i` gives the principal the active policy of row `q`, whose grant `j` allows the action on the resource,
   * or, inheriting, on a namespace the walk from the resource's home passes.
   */
  ghost predicate RowsAllow(s: Store, secrets: Secrets, g: Graph, principal: PrincipalId, action: Action, r: Resource,
                            home: NamespaceId, i: int, q: int, j: int)
  {
    && LivesIn(secrets, r, home) && home in s
    && 0 <= i < |g.bindings| && 0 <= q < |g.policies| && 0 <= j < |g.grants|
    && g.bindings[i].principalId == principal && g.policies[q].policyId == g.bindings[i].policyId
    && g.policies[q].active && g.grants[j].policyId == g.bindings[i].policyId && g.grants[j].action == action
    && match g.grants[j].target
       case SecretResource(k) => r == SecretResource(k)
       case NamespaceResource(n) =>
         r == NamespaceResource(n) || (g.grants[j].includeDescendants && n in Walk(s, home, 32))
  }

  /** A service is allowed exactly by a binding, the active policy it names, and a fitting grant of that policy. */
  lemma AllowedIff(s: Store, secrets: Secrets, g: Graph, principal: PrincipalId, action: Action, r: Resource)
    ensures Allowed(s, secrets, g, principal, action, r)
            <==> exists home, i, q, j :: RowsAllow(s, secrets, g, principal, action, r, home, i, q, j)
  {
    hide Walk;
    if Allowed(s, secrets, g, principal, action, r) {
      var home, ancestors := Home(secrets, r).value, ResourceAncestors(s, secrets, r).value;
      var j :| 0 <= j < |g.grants| && g.grants[j].action == action && Holds(g, principal, g.grants[j].policyId)
               && Reaches(g.grants[j], ancestors, r);
      var i :| 0 <= i < |g.bindings| && g.bindings[i] == Binding(principal, g.grants[j].policyId);
      var q :| 0 <= q < |g.policies| && g.policies[q].policyId == g.grants[j].policyId && g.policies[q].active;
      assert RowsAllow(s, secrets, g, principal, action, r, home, i, q, j);
    }
    if home, i, q, j :| RowsAllow(s, secrets, g, principal, action, r, home, i, q, j) {
      assert g.bindings[i] == Binding(principal, g.grants[j].policyId);
      assert Holds(g, principal, g.grants[j].policyId) && Reaches(g.grants[j], Walk(s, home, 32), r);
    }
  }

  // ----- The move preview -----

  datatype AuthorizationError = Denied | InvalidInput | RecentAuthenticationRequired | Unavailable

  datatype Delta = Delta(principalId: PrincipalId, action: Action)

  /** Principal bytes first, then the action's spelling. */
  predicate DeltaLe(x: Delta, y: Delta) {
    if x.principalId == y.principalId then LexLe(x.action.name, y.action.name)
    else LexLe(x.principalId.uuid, y.principalId.uuid)
  }

  lemma DeltaLeTransitive(x: Delta, y: Delta, z: Delta)
    requires DeltaLe(x, y) && DeltaLe(y, z)
    ensures DeltaLe(x, z)
  {
    hide LexLe;
    if x.principalId == y.principalId == z.principalId {
      LexTransitive(x.action.name, y.action.name, z.action.name);
    } else if x.principalId == z.principalId {
      LexAntisymmetric(x.principalId.uuid, y.principalId.uuid);
    } else if x.principalId != y.principalId && y.principalId != z.principalId {
      LexTransitive(x.principalId.uuid, y.principalId.uuid, z.principalId.uuid);
    }
  }

  lemma DeltaLeIsTotalOrder()
    ensures TotalOrder(DeltaLe)
  {
    hide LexLe;
    forall x, y
      ensures DeltaLe(x, y) || DeltaLe(y, x)
      ensures DeltaLe(x, y) && DeltaLe(y, x) ==> x == y
    {
      LexTotal(x.principalId.uuid, y.principalId.uuid);
      LexTotal(x.action.name, y.action.name);
      if DeltaLe(x, y) && DeltaLe(y, x) {
        if x.principalId == y.principalId {
          LexAntisymmetric(x.action.name, y.action.name);
        } else {
          LexAntisymmetric(x.principalId.uuid, y.principalId.uuid);
        }
      }
    }
    forall x, y, z | DeltaLe(x, y) && DeltaLe(y, z)
      ensures DeltaLe(x, z)
    {
      DeltaLeTransitive(x, y, z);
    }
  }

  /** The ancestors a namespace would have under a new parent, as the preview computes them. */
  function NewAncestors(s: Store, id: NamespaceId, parent: Option<NamespaceId>): seq<NamespaceId>
    requires parent.Some? ==> parent.value in s
  {
    [id] + (if parent.Some? then Walk(s, parent.value, 32) else [])
  }

  /** Binding `i`, the active policy of row `q` it names and that policy's inheriting grant `j` gain the pair. */
  ghost predicate RowsDisclose(g: Graph, before: seq<NamespaceId>, after: seq<NamespaceId>, x: Delta, i: int, q: int,
                               j: int)
  {
    && 0 <= i < |g.bindings| && 0 <= q < |g.policies| && 0 <= j < |g.grants|
    && x.principalId == g.bindings[i].principalId && x.action == g.grants[j].action
    && g.policies[q].policyId == g.bindings[i].policyId && g.policies[q].active
    && g.grants[j].policyId == g.bindings[i].policyId && g.grants[j].includeDescendants
    && match g.grants[j].target
       case SecretResource(_) => false
       case NamespaceResource(n) => n !in before && n in after
  }

  /** The pair is gained through some binding, active policy and inheriting grant. */
  ghost predicate InDelta(g: Graph, before: seq<NamespaceId>, after: seq<NamespaceId>, x: Delta) {
    exists i, q, j :: RowsDisclose(g, before, after, x, i, q, j)
  }

  predicate Previewable(s: Store, id: NamespaceId, parent: Option<NamespaceId>) {
    id in s && (parent.Some? ==> parent.value in s && id !in Walk(s, parent.value, 32))
  }

  /**
   * `preview_namespace_move_core`: collects, sorts and deduplicates; the result is the one strict listing of the
   * delta.
   */
  method Preview(s: Store, g: Graph, id: NamespaceId, parent: Option<NamespaceId>)
    returns (r: Result<seq<Delta>, AuthorizationError>)
    ensures r.Ok? <==> Previewable(s, id, parent)
    ensures r.Err? ==>
            if id !in s || (parent.Some? && parent.value !in s) then r.error == Denied
            else r.error == AuthorizationError.InvalidInput
    ensures r.Ok? ==> Strict(DeltaLe, r.value)
    ensures r.Ok? ==> forall x :: x in r.value <==> InDelta(g, Walk(s, id, 32), NewAncestors(s, id, parent), x)
  {
    if id !in s {
      return Err(Denied);
    }
    var before := Walk(s, id, 32);
    var after := [id];
    if parent.Some? {
      if parent.value !in s {
        return Err(Denied);
      }
      var above := Walk(s, parent.value, 32);
      if id in above {
        return Err(AuthorizationError.InvalidInput);
      }
      after := after + above;
    }
    assert after == NewAncestors(s, id, parent);
    var delta := Collect(g, before, after);
    DeltaLeIsTotalOrder();
    SortSorts(DeltaLe, delta);
    DedupStrict(DeltaLe, Sort(DeltaLe, delta));
    SameMultisetSameMembers(Sort(DeltaLe, delta), delta);
    return Ok(Dedup(Sort(DeltaLe, delta)));
  }

  /** The double loop over bindings and grants. */
  method Collect(g: Graph, before: seq<NamespaceId>, after: seq<NamespaceId>) returns (delta: seq<Delta>)
    ensures forall x :: x in delta <==> InDelta(g, before, after, x)
  {
    delta := [];
    for i := 0 to |g.bindings|
      invariant forall x :: x in delta <==> InDeltaUpTo(g, before, after, x, i)
    {
      var b := g.bindings[i];
      ghost var start := delta;
      if ActivePolicy(g, b.policyId) {
        for j := 0 to |g.grants|
          invariant forall x :: x in delta <==> x in start || InDeltaOf(g, before, after, x, b, j)
        {
          if Gains(before, after, b, g.grants[j]) {
            delta := delta + [Delta(b.principalId, g.grants[j].action)];
          }
        }
      }
      forall x
        ensures InDeltaUpTo(g, before, after, x, i + 1) <==>
                || InDeltaUpTo(g, before, after, x, i)
                || (ActivePolicy(g, b.policyId) && InDeltaOf(g, before, after, x, b, |g.grants|))
      {
        NextBinding(g, before, after, x, i);
      }
    }
    forall x ensures InDeltaUpTo(g, before, after, x, |g.bindings|) <==> InDelta(g, before, after, x) {
      AllBindings(g, before, after, x);
    }
  }

  /** An inheriting grant of the bound policy whose target becomes an ancestor by the move. */
  predicate Gains(before: seq<NamespaceId>, after: seq<NamespaceId>, b: Binding, grant: Grant) {
    && grant.policyId == b.policyId && grant.target.NamespaceResource? && grant.includeDescendants
    && grant.target.namespace !in before && grant.target.namespace in after
  }

  ghost predicate InDeltaOf(g: Graph, before: seq<NamespaceId>, after: seq<NamespaceId>, x: Delta, b: Binding, n: nat)
    requires n <= |g.grants|
  {
    exists j :: 0 <= j < n && Gains(before, after, b, g.grants[j]) && x == Delta(b.principalId, g.grants[j].action)
  }

  ghost predicate InDeltaUpTo(g: Graph, before: seq<NamespaceId>, after: seq<NamespaceId>, x: Delta, n: nat)
    requires n <= |g.bindings|
  {
    exists i :: 0 <= i < n && ActivePolicy(g, g.bindings[i].policyId)
                && InDeltaOf(g, before, after, x, g.bindings[i], |g.grants|)
  }

  lemma NextBinding(g: Graph, before: seq<NamespaceId>, after: seq<NamespaceId>, x: Delta, i: nat)
    requires i < |g.bindings|
    ensures InDeltaUpTo(g, before, after, x, i + 1) <==>
            || InDeltaUpTo(g, before, after, x, i)
            || (ActivePolicy(g, g.bindings[i].policyId) && InDeltaOf(g, before, after, x, g.bindings[i], |g.grants|))
  {
    hide ActivePolicy, InDeltaOf;
  }

  lemma AllBindings(g: Graph, before: seq<NamespaceId>, after: seq<NamespaceId>, x: Delta)
    ensures InDeltaUpTo(g, before, after, x, |g.bindings|) <==> InDelta(g, before, after, x)
  {
    if i, q, j :| RowsDisclose(g, before, after, x, i, q, j) {
      assert Gains(before, after, g.bindings[i], g.grants[j]) && ActivePolicy(g, g.bindings[i].policyId);
      assert InDeltaOf(g, before, after, x, g.bindings[i], |g.grants|);
    }
    if i :| 0 <= i < |g.bindings| && ActivePolicy(g, g.bindings[i].policyId)
            && InDeltaOf(g, before, after, x, g.bindings[i], |g.grants|)
    {
      var q :| 0 <= q < |g.policies| && g.policies[q].policyId == g.bindings[i].policyId && g.policies[q].active;
      var j :| 0 <= j < |g.grants| && Gains(before, after, g.bindings[i], g.grants[j])
               && x == Delta(g.bindings[i].principalId, g.grants[j].action);
      assert RowsDisclose(g, before, after, x, i, q, j);
    }
  }
}
