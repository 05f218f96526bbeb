/** Placement of constant allocations below their roots (src/dependency_graph.rs, lines 1222-1377). */
module AllocationPaths {
  import opened Wrappers
  import opened Ordering
  import opened DependencyTypes

  /** `key_matches_allocation_root`. */
  predicate KeyMatchesRoot(key: MonoKey, root: AllocationRootKey) {
    match (key, root)
    case (InstanceKey(instance, role), InstanceRoot(rootInstance, rootRole)) =>
      instance == rootInstance && role == rootRole
    case (StaticKey(definition), StaticRoot(rootDefinition)) => definition == rootDefinition
    case (VTableKey(concreteType, traitReference), VTableRoot(rootType, rootTrait)) =>
      concreteType == rootType && traitReference == rootTrait
    case _ => false
  }

  /** `allocation_site_matches`. */
  predicate SiteMatches(expected: AllocationPathSite, actual: ObservationSite) {
    match (expected, actual)
    case (AtSource(range), Source(other)) => range == other
    case (AtExternalSource, ExternalSource) => true
    case (AtAllocationReference, AllocationOffset(_)) => true
    case (AtCompilerGenerated, SiteCompilerGenerated) => true
    case _ => false
  }

  /** `allocation_path_site`. */
  function PathSite(relation: MonoDependencyKind, site: ObservationSite): Option<AllocationPathSite> {
    match (relation, site)
    case (ConstAllocation, Source(range)) => Some(AtSource(range))
    case (ConstAllocation, ExternalSource) => Some(AtExternalSource)
    case (ConstAllocation, SiteCompilerGenerated) => Some(AtCompilerGenerated)
    case (AllocationReference, SiteCompilerGenerated) => Some(AtCompilerGenerated)
    case (AllocationReference, AllocationOffset(_)) => Some(AtAllocationReference)
    case _ => None
  }

  datatype Role = Role(from: nat, relation: MonoDependencyKind, collection: MonoCollection, site: AllocationPathSite)

  predicate IsAllocation(nodes: seq<MonoNode>, i: nat) {
    i < |nodes| && nodes[i].key.Allocation?
  }

  function PathOf(nodes: seq<MonoNode>, i: nat): seq<AllocationPathPart>
    requires IsAllocation(nodes, i)
  {
    nodes[i].key.allocation.path
  }

  /** `p` can be the parent of allocation `i`: the node of its root when the path has one part, otherwise the
      allocation with the path one part shorter. */
  predicate CanPrecede(nodes: seq<MonoNode>, p: nat, i: nat)
    requires IsAllocation(nodes, i) && PathOf(nodes, i) != []
  {
    && p < |nodes|
    && var root, prefix := nodes[i].key.allocation.root, PathOf(nodes, i)[..|PathOf(nodes, i)| - 1];
    match nodes[p].key
    case Allocation(parent) => prefix != [] && parent.root == root && parent.path == prefix
    case key => prefix == [] && KeyMatchesRoot(key, root)
  }

  ghost predicate OnlyParent(nodes: seq<MonoNode>, p: nat, i: nat)
    requires IsAllocation(nodes, i) && PathOf(nodes, i) != []
  {
    CanPrecede(nodes, p, i) && forall q: nat :: CanPrecede(nodes, q, i) ==> q == p
  }

  function LastPart(nodes: seq<MonoNode>, i: nat): AllocationPathPart
    requires IsAllocation(nodes, i) && PathOf(nodes, i) != []
  {
    PathOf(nodes, i)[|PathOf(nodes, i)| - 1]
  }

  /** The edge that places allocation `i` below `p`: relation, collection and a matching site. */
  predicate PlacingEdge(nodes: seq<MonoNode>, edges: seq<DependencyEdge>, p: nat, i: nat, e: nat)
    requires IsAllocation(nodes, i) && PathOf(nodes, i) != [] && p < |nodes|
  {
    && e < |edges|
    && var last := LastPart(nodes, i);
    edges[e].key == DependencyKey(MonoOf(nodes[p].id), MonoOf(nodes[i].id), Mono(last.relation, last.collection))
    && exists s | s in edges[e].sites :: SiteMatches(last.site, s)
  }

  ghost predicate OnlyPlacingEdge(nodes: seq<MonoNode>, edges: seq<DependencyEdge>, p: nat, i: nat)
    requires IsAllocation(nodes, i) && PathOf(nodes, i) != [] && p < |nodes|
  {
    exists e: nat :: PlacingEdge(nodes, edges, p, i, e) && forall f: nat :: PlacingEdge(nodes, edges, p, i, f) ==>
      f == e
  }

  /** Allocation `i` has one parent and one edge from it. */
  ghost predicate Placed(nodes: seq<MonoNode>, edges: seq<DependencyEdge>, i: nat)
    requires IsAllocation(nodes, i)
  {
    PathOf(nodes, i) != [] && exists p: nat :: OnlyParent(nodes, p, i) && OnlyPlacingEdge(nodes, edges, p, i)
  }

  /** The role under which the only parent of `i` holds it. */
  ghost predicate HasRole(nodes: seq<MonoNode>, i: nat, role: Role) {
    && IsAllocation(nodes, i) && PathOf(nodes, i) != []
    && exists p: nat :: OnlyParent(nodes, p, i) && role == RoleBelow(nodes, p, i)
  }

  function RoleBelow(nodes: seq<MonoNode>, p: nat, i: nat): Role
    requires IsAllocation(nodes, i) && PathOf(nodes, i) != [] && p < |nodes|
  {
    var last := LastPart(nodes, i);
    Role(nodes[p].id, last.relation, last.collection, last.site)
  }

  /** An edge into an allocation is a monomorphic one, and every site of it can stand in a path. */
  predicate IncomingValid(nodes: seq<MonoNode>, edge: DependencyEdge) {
    edge.key.to.MonoOf? && IsAllocation(nodes, edge.key.to.id) ==>
      && edge.key.kind.Mono? && edge.key.from.MonoOf?
      && forall s | s in edge.sites :: PathSite(edge.key.kind.relation, s).Some?
  }

  /** Edge `e` observes allocation `to` in `role`. */
  predicate Observes(nodes: seq<MonoNode>, edge: DependencyEdge, role: Role, to: nat) {
    && edge.key == DependencyKey(MonoOf(role.from), MonoOf(to), Mono(role.relation, role.collection))
    && IsAllocation(nodes, to)
    && exists s | s in edge.sites :: PathSite(role.relation, s) == Some(role.site)
  }

  ghost function TargetsOf(nodes: seq<MonoNode>, edges: seq<DependencyEdge>, role: Role): set<nat> {
    set to | 0 <= to < |nodes| && Observed(nodes, edges, role, to)
  }

  function OrdinalOf(nodes: seq<MonoNode>, i: nat): nat {
    if IsAllocation(nodes, i) && PathOf(nodes, i) != [] then LastPart(nodes, i).sameRoleOrdinal else 0
  }

  ghost predicate OrdinalsFit(nodes: seq<MonoNode>, edges: seq<DependencyEdge>) {
    && (forall i, j, role :: 0 <= i < j < |nodes| && HasRole(nodes, i, role) && HasRole(nodes, j, role) ==>
          OrdinalOf(nodes, i) != OrdinalOf(nodes, j))
    && (forall i, role :: 0 <= i < |nodes| && HasRole(nodes, i, role) ==>
          OrdinalOf(nodes, i) < |TargetsOf(nodes, edges, role)|)
  }

  ghost predicate AllocationsValid(nodes: seq<MonoNode>, edges: seq<DependencyEdge>) {
    && (forall i :: 0 <= i < |nodes| && IsAllocation(nodes, i) ==> Placed(nodes, edges, i))
    && (forall e :: e in edges ==> IncomingValid(nodes, e))
    && OrdinalsFit(nodes, edges)
  }

  /* ---------- the check ---------- */

  /** First match, then no second one. */
  method FindOnly(n: nat, test: nat -> bool) returns (r: Option<nat>)
    ensures r.Some? ==> r.value < n && test(r.value) && forall m :: 0 <= m < n && test(m) ==> m == r.value
    ensures r.None? ==> forall k :: 0 <= k < n && test(k) ==> exists m :: 0 <= m < n && test(m) && m != k
  {
    r := None;
    for i := 0 to n
      invariant r.Some? ==> r.value < i && test(r.value) && forall m :: 0 <= m < i && test(m) ==> m == r.value
      invariant r.None? ==> forall m :: 0 <= m < i ==> !test(m)
    {
      if test(i) {
        if r.Some? {
          return None;
        }
        r := Some(i);
      }
    }
  }

  /** The search for the parent and its edge. */
  method Place(nodes: seq<MonoNode>, edges: seq<DependencyEdge>, i: nat) returns (parent: Option<nat>)
    requires IsAllocation(nodes, i)
    ensures parent.Some? <==> Placed(nodes, edges, i)
    ensures parent.Some? ==> PathOf(nodes, i) != [] && OnlyParent(nodes, parent.value, i)
  {
    if PathOf(nodes, i) == [] {
      return None;
    }
    parent := FindParent(nodes, i);
    if parent.Some? {
      var placed := PlacedOnce(nodes, edges, parent.value, i);
      if !placed {
        NotPlaced(nodes, edges, parent.value, i);
        parent := None;
      }
    }
  }

  lemma {:induction false} NotPlaced(nodes: seq<MonoNode>, edges: seq<DependencyEdge>, p: nat, i: nat)
    requires IsAllocation(nodes, i) && PathOf(nodes, i) != [] && OnlyParent(nodes, p, i)
    requires !OnlyPlacingEdge(nodes, edges, p, i)
    ensures !Placed(nodes, edges, i)
  {
    hide CanPrecede;
    hide OnlyPlacingEdge;
    forall q: nat | OnlyParent(nodes, q, i)
      ensures q == p
    {
    }
  }

  method FindParent(nodes: seq<MonoNode>, i: nat) returns (parent: Option<nat>)
    requires IsAllocation(nodes, i) && PathOf(nodes, i) != []
    ensures parent.Some? ==> OnlyParent(nodes, parent.value, i)
    ensures parent.None? ==> forall p: nat :: !OnlyParent(nodes, p, i)
  {
    hide LastPart;
    var test := (p: nat) => CanPrecede(nodes, p, i);
    parent := FindOnly(|nodes|, test);
    forall p: nat
      ensures CanPrecede(nodes, p, i) <==> p < |nodes| && test(p)
    {
      assert test(p) == CanPrecede(nodes, p, i);
      if test(p) { BelowLength(nodes, p, i); }
    }
  }

  lemma {:induction false} BelowLength(nodes: seq<MonoNode>, p: nat, i: nat)
    requires IsAllocation(nodes, i) && PathOf(nodes, i) != [] && CanPrecede(nodes, p, i)
    ensures p < |nodes|
  {
  }

  method PlacedOnce(nodes: seq<MonoNode>, edges: seq<DependencyEdge>, p: nat, i: nat) returns (once: bool)
    requires IsAllocation(nodes, i) && PathOf(nodes, i) != [] && p < |nodes|
    ensures once <==> OnlyPlacingEdge(nodes, edges, p, i)
  {
    var test := (e: nat) => PlacingEdge(nodes, edges, p, i, e);
    var edge := FindOnly(|edges|, test);
    forall e: nat
      ensures PlacingEdge(nodes, edges, p, i, e) <==> e < |edges| && test(e)
    {
    }
    once := edge.Some?;
  }

  /** Per role: the ordinals of the allocations holding it, in node order. */
  ghost predicate Recorded(nodes: seq<MonoNode>, upTo: nat, ordinals: map<Role, seq<nat>>,
                           members: map<Role, seq<nat>>) {
    && ordinals.Keys == members.Keys
    && (forall role :: role in ordinals ==>
          |ordinals[role]| == |members[role]| && members[role] != [] && Distinct(members[role]))
    && (forall role, k: nat :: role in ordinals && k < |ordinals[role]| ==>
          ordinals[role][k] == OrdinalOf(nodes, members[role][k]))
    && (forall role, i: nat {:trigger i in members[role]} :: role in members ==>
          (i in members[role] ==> i < upTo && HasRole(nodes, i, role)))
    && (forall role, i: nat :: i < upTo && HasRole(nodes, i, role) ==> role in members && i in members[role])
  }

  method CollectOrdinals(nodes: seq<MonoNode>, edges: seq<DependencyEdge>)
    returns (ok: bool, ordinals: map<Role, seq<nat>>, ghost members: map<Role, seq<nat>>)
    ensures ok <==> forall i :: 0 <= i < |nodes| && IsAllocation(nodes, i) ==> Placed(nodes, edges, i)
    ensures ok ==> Recorded(nodes, |nodes|, ordinals, members)
  {
    hide Placed;
    ordinals, members := map[], map[];
    for i := 0 to |nodes|
      invariant forall k :: 0 <= k < i && IsAllocation(nodes, k) ==> Placed(nodes, edges, k)
      invariant Recorded(nodes, i, ordinals, members)
    {
      if nodes[i].key.Allocation? {
        var parent := Place(nodes, edges, i);
        if parent.None? {
          return false, ordinals, members;
        }
        var role := RoleBelow(nodes, parent.value, i);
        RecordOne(nodes, i, parent.value, ordinals, members);
        members := Extended(members, role, i);
        ordinals := Extended(ordinals, role, LastPart(nodes, i).sameRoleOrdinal);
      }
    }
    ok := true;
  }

  lemma {:induction false} RoleUnique(nodes: seq<MonoNode>, i: nat, p: nat, role: Role)
    requires IsAllocation(nodes, i) && PathOf(nodes, i) != [] && OnlyParent(nodes, p, i)
    ensures HasRole(nodes, i, role) <==> role == RoleBelow(nodes, p, i)
  {
  }

  lemma {:induction false} RecordOne(nodes: seq<MonoNode>, i: nat, p: nat, ordinals: map<Role, seq<nat>>,
                                     members: map<Role, seq<nat>>)
    requires Recorded(nodes, i, ordinals, members)
    requires IsAllocation(nodes, i) && PathOf(nodes, i) != [] && OnlyParent(nodes, p, i)
    ensures
      var role := RoleBelow(nodes, p, i);
      Recorded(nodes, i + 1, Extended(ordinals, role, LastPart(nodes, i).sameRoleOrdinal), Extended(members, role, i))
  {
    var role := RoleBelow(nodes, p, i);
    forall r
      ensures HasRole(nodes, i, r) <==> r == role
    {
      RoleUnique(nodes, i, p, r);
    }
    hide Recorded;
    RecordAt(nodes, i, role, ordinals, members);
  }

  function Extended(lists: map<Role, seq<nat>>, role: Role, value: nat): map<Role, seq<nat>> {
    lists[role := (if role in lists then lists[role] else []) + [value]]
  }

  lemma {:induction false} RecordAt(nodes: seq<MonoNode>, i: nat, role: Role, ordinals: map<Role, seq<nat>>,
                                    members: map<Role, seq<nat>>)
    requires Recorded(nodes, i, ordinals, members) && forall r :: HasRole(nodes, i, r) <==> r == role
    ensures Recorded(nodes, i + 1, Extended(ordinals, role, OrdinalOf(nodes, i)), Extended(members, role, i))
  {
    hide HasRole;
    hide OrdinalOf;
    var before := if role in members then members[role] else [];
    var members' := Extended(members, role, i);
    assert i !in before;
    assert i in members'[role] by { assert (before + [i])[|before|] == i; }
    forall r, k: nat | k < i + 1 && HasRole(nodes, k, r)
      ensures r in members' && k in members'[r]
    {
      if k < i && r == role { assert k in before; }
    }
  }

  /** The scan over incoming edges, filling the target sets. */
  method CollectTargets(nodes: seq<MonoNode>, edges: seq<DependencyEdge>)
    returns (ok: bool, targets: map<Role, set<nat>>)
    ensures ok <==> forall e :: e in edges ==> IncomingValid(nodes, e)
    ensures ok ==> TargetsRecorded(nodes, edges, targets)
  {
    targets := map[];
    for n := 0 to |edges|
      invariant forall k :: 0 <= k < n ==> IncomingValid(nodes, edges[k])
      invariant TargetsRecorded(nodes, edges[..n], targets)
    {
      var edge := edges[n];
      if edge.key.to.MonoOf? && IsAllocation(nodes, edge.key.to.id) {
        if !edge.key.kind.Mono? || !edge.key.from.MonoOf? {
          assert edges[n] in edges;
          return false, targets;
        }
        var all;
        all, targets := CollectSites(nodes, edges, n, targets);
        if !all {
          assert edges[n] in edges;
          return false, targets;
        }
      } else {
        SkipEdge(nodes, edges, n, targets);
      }
    }
    assert edges[..|edges|] == edges;
    ok := true;
  }

  ghost predicate TargetsRecorded(nodes: seq<MonoNode>, edges: seq<DependencyEdge>, targets: map<Role, set<nat>>) {
    forall role, to: nat :: to in TargetsAt(targets, role) <==> Observed(nodes, edges, role, to)
  }

  function TargetsAt(targets: map<Role, set<nat>>, role: Role): set<nat> {
    if role in targets then targets[role] else {}
  }

  ghost predicate Observed(nodes: seq<MonoNode>, edges: seq<DependencyEdge>, role: Role, to: nat) {
    exists e :: e in edges && Observes(nodes, e, role, to)
  }

  lemma {:induction false} ObservedPrefix(nodes: seq<MonoNode>, edges: seq<DependencyEdge>, n: nat, role: Role,
                                          to: nat)
    requires n < |edges|
    ensures Observed(nodes, edges[..n + 1], role, to)
      <==> Observed(nodes, edges[..n], role, to) || Observes(nodes, edges[n], role, to)
  {
    assert edges[..n + 1] == edges[..n] + [edges[n]];
  }

  lemma {:induction false} SkipEdge(nodes: seq<MonoNode>, edges: seq<DependencyEdge>, n: nat,
                                    targets: map<Role, set<nat>>)
    requires n < |edges| && TargetsRecorded(nodes, edges[..n], targets)
    requires !(edges[n].key.to.MonoOf? && IsAllocation(nodes, edges[n].key.to.id))
    ensures TargetsRecorded(nodes, edges[..n + 1], targets)
  {
    forall role, to: nat
      ensures Observed(nodes, edges[..n + 1], role, to) <==> Observed(nodes, edges[..n], role, to)
    {
      ObservedPrefix(nodes, edges, n, role, to);
    }
  }

  /** The roles an edge observed through its first `k` sites. */
  predicate SiteSeen(edge: DependencyEdge, k: nat, role: Role) {
    && edge.key.kind.Mono? && edge.key.from == MonoOf(role.from)
    && edge.key.kind == Mono(role.relation, role.collection)
    && exists s | s in edge.sites[..if k <= |edge.sites| then k else |edge.sites|] ::
      PathSite(role.relation, s) == Some(role.site)
  }

  lemma {:induction false} SiteSeenPrefix(edge: DependencyEdge, k: nat, role: Role)
    requires k < |edge.sites| && edge.key.kind.Mono? && edge.key.from == MonoOf(role.from)
    requires edge.key.kind == Mono(role.relation, role.collection)
    requires PathSite(role.relation, edge.sites[k]) == Some(role.site)
    ensures forall r: Role :: SiteSeen(edge, k + 1, r) <==> SiteSeen(edge, k, r) || r == role
  {
    hide PathSite;
    var longer, shorter := edge.sites[..k + 1], edge.sites[..k];
    assert longer == shorter + [edge.sites[k]];
    forall r: Role
      ensures SiteSeen(edge, k + 1, r) <==> SiteSeen(edge, k, r) || r == role
    {
      if SiteSeen(edge, k + 1, r) {
        var s :| s in longer && PathSite(r.relation, s) == Some(r.site);
        assert s in shorter || s == edge.sites[k];
      }
      if SiteSeen(edge, k, r) {
        var s :| s in shorter && PathSite(r.relation, s) == Some(r.site);
        assert s in longer;
      }
      assert edge.sites[k] in longer;
    }
  }

  /** The inner loop over the sites of one incoming edge. */
  method CollectSites(nodes: seq<MonoNode>, edges: seq<DependencyEdge>, n: nat, targets: map<Role, set<nat>>)
    returns (all: bool, targets': map<Role, set<nat>>)
    requires n < |edges| && TargetsRecorded(nodes, edges[..n], targets)
    requires edges[n].key.to.MonoOf? && IsAllocation(nodes, edges[n].key.to.id)
    requires edges[n].key.kind.Mono? && edges[n].key.from.MonoOf?
    ensures all <==> IncomingValid(nodes, edges[n])
    ensures all ==> TargetsRecorded(nodes, edges[..n + 1], targets')
  {
    var edge := edges[n];
    var relation, to := edge.key.kind.relation, edge.key.to.id;
    targets' := targets;
    for k := 0 to |edge.sites|
      invariant forall m :: 0 <= m < k ==> PathSite(relation, edge.sites[m]).Some?
      invariant forall role, t: nat ::
        t in TargetsAt(targets', role) <==> t in TargetsAt(targets, role) || (t == to && SiteSeen(edge, k, role))
    {
      var site := PathSite(relation, edge.sites[k]);
      if site.None? {
        assert edge.sites[k] in edge.sites;
        return false, targets';
      }
      var role := Role(edge.key.from.id, relation, edge.key.kind.collection, site.value);
      SiteSeenPrefix(edge, k, role);
      ghost var before := targets';
      targets' := targets'[role := TargetsAt(targets', role) + {to}];
      forall r: Role, t: nat
        ensures t in TargetsAt(targets', r) <==> t in TargetsAt(targets, r) || (t == to && SiteSeen(edge, k + 1, r))
      {
        assert t in TargetsAt(before, r) <==> t in TargetsAt(targets, r) || (t == to && SiteSeen(edge, k, r));
        assert TargetsAt(targets', r) == if r == role then TargetsAt(before, r) + {to} else TargetsAt(before, r);
      }
    }
    assert edge.sites[..|edge.sites|] == edge.sites;
    forall role, t: nat
      ensures t in TargetsAt(targets', role) <==> Observed(nodes, edges[..n + 1], role, t)
    {
      ObservedPrefix(nodes, edges, n, role, t);
      assert Observes(nodes, edge, role, t) <==> t == to && SiteSeen(edge, |edge.sites|, role);
    }
    all := true;
  }

  predicate NatLe(a: nat, b: nat) { a <= b }

  predicate NeighboursDiffer(sorted: seq<nat>) {
    forall k :: 1 <= k < |sorted| ==> sorted[k] != sorted[k - 1]
  }

  lemma {:induction false} SortedDistinct(values: seq<nat>)
    ensures Distinct(values) <==> NeighboursDiffer(SortBy(values, NatLe))
  {
    SortSorts(values, NatLe);
    var sorted := SortBy(values, NatLe);
    if Distinct(values) {
      DistinctStays(values, sorted);
    }
    if NeighboursDiffer(sorted) {
      forall i, j | 0 <= i < j < |sorted|
        ensures sorted[i] != sorted[j]
      {
        assert sorted[i + 1] != sorted[i + 1 - 1] && NatLe(sorted[i], sorted[i + 1]);
        if i + 1 < j { assert NatLe(sorted[i + 1], sorted[j]); }
      }
      DistinctStays(sorted, values);
    }
  }

  /** The last check: per role, distinct ordinals below the number of targets. */
  method OrdinalsBelow(ordinals: map<Role, seq<nat>>, targets: map<Role, set<nat>>) returns (ok: bool)
    requires forall role :: role in ordinals ==> ordinals[role] != []
    ensures ok <==> forall role :: role in ordinals ==> RoleFits(ordinals[role], TargetsAt(targets, role))
  {
    var todo := ordinals.Keys;
    while todo != {}
      invariant todo <= ordinals.Keys
      invariant forall role :: role in ordinals && role !in todo ==> RoleFits(ordinals[role], TargetsAt(targets, role))
      decreases todo
    {
      var role :| role in todo;
      var sorted := SortBy(ordinals[role], NatLe);
      SortSorts(ordinals[role], NatLe);
      SortedDistinct(ordinals[role]);
      assert sorted[0] in sorted;
      if !NeighboursDiffer(sorted)
         || role !in targets
         || (exists v | v in sorted :: v >= |targets[role]|)
      {
        assert ordinals[role][0] in ordinals[role];
        return false;
      }
      todo := todo - {role};
    }
    ok := true;
  }

  predicate RoleFits(values: seq<nat>, targets: set<nat>) {
    Distinct(values) && forall v | v in values :: v < |targets|
  }

  /** `valid_allocation_paths`. */
  method ValidAllocationPaths(nodes: seq<MonoNode>, edges: seq<DependencyEdge>) returns (valid: bool)
    ensures valid <==> AllocationsValid(nodes, edges)
  {
    hide Placed;
    hide IncomingValid;
    hide Recorded;
    hide OrdinalsFit;
    hide TargetsRecorded;
    hide RoleFits;
    var ok, ordinals;
    ghost var members;
    ok, ordinals, members := CollectOrdinals(nodes, edges);
    if !ok {
      return false;
    }
    var targets;
    ok, targets := CollectTargets(nodes, edges);
    if !ok {
      return false;
    }
    RolesNonEmpty(nodes, ordinals, members);
    valid := OrdinalsBelow(ordinals, targets);
    FitsAgree(nodes, edges, ordinals, members, targets);
  }

  lemma {:induction false} RolesNonEmpty(nodes: seq<MonoNode>, ordinals: map<Role, seq<nat>>,
                                         members: map<Role, seq<nat>>)
    requires Recorded(nodes, |nodes|, ordinals, members)
    ensures forall role :: role in ordinals ==> ordinals[role] != []
  {
  }

  lemma {:induction false} FitsAgree(nodes: seq<MonoNode>, edges: seq<DependencyEdge>, ordinals: map<Role, seq<nat>>,
                                     members: map<Role, seq<nat>>, targets: map<Role, set<nat>>)
    requires Recorded(nodes, |nodes|, ordinals, members) && TargetsRecorded(nodes, edges, targets)
    ensures (forall role :: role in ordinals ==> RoleFits(ordinals[role], TargetsAt(targets, role)))
      <==> OrdinalsFit(nodes, edges)
  {
    hide HasRole;
    forall role
      ensures TargetsAt(targets, role) == TargetsOf(nodes, edges, role)
    {
      TargetsAgree(nodes, edges, targets, role);
    }
    forall role | role in ordinals
      ensures RoleFits(ordinals[role], TargetsOf(nodes, edges, role)) <==> RoleOrdinalsFit(nodes, edges, role)
    {
      RoleAgrees(nodes, edges, ordinals, members, role);
    }
    if forall role :: role in ordinals ==> RoleFits(ordinals[role], TargetsOf(nodes, edges, role)) {
      forall i, j, role | 0 <= i < j < |nodes| && HasRole(nodes, i, role) && HasRole(nodes, j, role)
        ensures OrdinalOf(nodes, i) != OrdinalOf(nodes, j)
      {
        assert RoleOrdinalsFit(nodes, edges, role);
      }
      forall i, role | 0 <= i < |nodes| && HasRole(nodes, i, role)
        ensures OrdinalOf(nodes, i) < |TargetsOf(nodes, edges, role)|
      {
        assert RoleOrdinalsFit(nodes, edges, role);
      }
    }
  }

  ghost predicate RoleOrdinalsFit(nodes: seq<MonoNode>, edges: seq<DependencyEdge>, role: Role) {
    && (forall i, j :: 0 <= i < j < |nodes| && HasRole(nodes, i, role) && HasRole(nodes, j, role) ==>
          OrdinalOf(nodes, i) != OrdinalOf(nodes, j))
    && (forall i :: 0 <= i < |nodes| && HasRole(nodes, i, role) ==>
          OrdinalOf(nodes, i) < |TargetsOf(nodes, edges, role)|)
  }

  lemma {:induction false} TargetsAgree(nodes: seq<MonoNode>, edges: seq<DependencyEdge>,
                                        targets: map<Role, set<nat>>, role: Role)
    requires TargetsRecorded(nodes, edges, targets)
    ensures TargetsAt(targets, role) == TargetsOf(nodes, edges, role)
  {
    forall to: nat
      ensures to in TargetsAt(targets, role) <==> to in TargetsOf(nodes, edges, role)
    {
      assert to in TargetsAt(targets, role) <==> Observed(nodes, edges, role, to);
    }
  }

  lemma {:induction false} RoleAgrees(nodes: seq<MonoNode>, edges: seq<DependencyEdge>, ordinals: map<Role, seq<nat>>,
                                      members: map<Role, seq<nat>>, role: Role)
    requires Recorded(nodes, |nodes|, ordinals, members) && role in ordinals
    ensures RoleFits(ordinals[role], TargetsOf(nodes, edges, role)) <==> RoleOrdinalsFit(nodes, edges, role)
  {
    hide HasRole;
    hide TargetsOf;
    var values, who := ordinals[role], members[role];
    if RoleFits(values, TargetsOf(nodes, edges, role)) {
      forall i | 0 <= i < |nodes| && HasRole(nodes, i, role)
        ensures OrdinalOf(nodes, i) < |TargetsOf(nodes, edges, role)|
      {
        var k :| 0 <= k < |who| && who[k] == i;
        assert values[k] in values;
      }
      forall i, j | 0 <= i < j < |nodes| && HasRole(nodes, i, role) && HasRole(nodes, j, role)
        ensures OrdinalOf(nodes, i) != OrdinalOf(nodes, j)
      {
        var k :| 0 <= k < |who| && who[k] == i;
        var l :| 0 <= l < |who| && who[l] == j;
        assert values[k] != values[l];
      }
    }
    if RoleOrdinalsFit(nodes, edges, role) {
      forall k, l | 0 <= k < l < |values|
        ensures values[k] != values[l]
      {
        assert who[k] in who && who[l] in who;
      }
      forall v | v in values
        ensures v < |TargetsOf(nodes, edges, role)|
      {
        var k :| 0 <= k < |values| && values[k] == v;
        assert who[k] in who;
      }
    }
  }

  /* ---------- what the check guarantees ---------- */

  /** The key of the node a root names. */
  function RootNode(root: AllocationRootKey): MonoKey {
    match root
    case InstanceRoot(instance, role) => InstanceKey(instance, role)
    case StaticRoot(definition) => StaticKey(definition)
    case VTableRoot(concreteType, traitReference) => VTableKey(concreteType, traitReference)
  }

  lemma {:induction false} RootNamed(key: MonoKey, root: AllocationRootKey)
    ensures KeyMatchesRoot(key, root) <==> key == RootNode(root)
  {
  }

  /** Node `c` of a chain stands for the root, or for the allocation with the first `k` parts of the path. */
  predicate StandsFor(nodes: seq<MonoNode>, c: nat, root: AllocationRootKey, prefix: seq<AllocationPathPart>) {
    && c < |nodes|
    && if prefix == [] then !nodes[c].key.Allocation? && KeyMatchesRoot(nodes[c].key, root)
       else nodes[c].key == Allocation(AllocationKey(root, prefix))
  }

  predicate LinkedBy(nodes: seq<MonoNode>, edges: seq<DependencyEdge>, a: nat, b: nat, part: AllocationPathPart)
    requires a < |nodes| && b < |nodes|
  {
    exists e | e in edges ::
      && e.key == DependencyKey(MonoOf(nodes[a].id), MonoOf(nodes[b].id), Mono(part.relation, part.collection))
      && exists s | s in e.sites :: SiteMatches(part.site, s)
  }

  ghost predicate PlacingChain(nodes: seq<MonoNode>, edges: seq<DependencyEdge>, i: nat, chain: seq<nat>)
    requires IsAllocation(nodes, i)
  {
    var root, path := nodes[i].key.allocation.root, PathOf(nodes, i);
    && |chain| == |path| + 1 && chain[|path|] == i
    && (forall k :: 0 <= k <= |path| ==> StandsFor(nodes, chain[k], root, path[..k]))
    && (forall k :: 0 <= k < |path| ==> LinkedBy(nodes, edges, chain[k], chain[k + 1], path[k]))
  }

  /** Every allocation with a path of `n` parts hangs below the one node its root names by a chain of exactly `n`
      monomorphic edges; the `k`-th carries the relation, collection and a matching site of part `k`, and leads to the
      allocation whose path is the first `k` parts. */
  lemma {:induction false} AllocationChain(nodes: seq<MonoNode>, edges: seq<DependencyEdge>, i: nat)
    returns (chain: seq<nat>)
    requires AllocationsValid(nodes, edges) && IsAllocation(nodes, i)
    ensures PathOf(nodes, i) != [] && PlacingChain(nodes, edges, i, chain)
    ensures forall c :: 0 <= c < |nodes| ==> (c == chain[0] <==>
      nodes[c].key ==
        match nodes[i].key.allocation.root
        case InstanceRoot(instance, role) => InstanceKey(instance, role)
        case StaticRoot(definition) => StaticKey(definition)
        case VTableRoot(concreteType, traitReference) => VTableKey(concreteType, traitReference))
    ensures forall k :: 0 < k <= |PathOf(nodes, i)| ==>
      nodes[chain[k]].key == Allocation(AllocationKey(nodes[i].key.allocation.root, PathOf(nodes, i)[..k]))
  {
    chain := ChainBelow(nodes, edges, i);
    hide KeyMatchesRoot;
    hide AllocationsValid;
    hide LinkedBy;
  }

  lemma {:induction false} ChainBelow(nodes: seq<MonoNode>, edges: seq<DependencyEdge>, i: nat)
    returns (chain: seq<nat>)
    requires AllocationsValid(nodes, edges) && IsAllocation(nodes, i)
    ensures PathOf(nodes, i) != [] && PlacingChain(nodes, edges, i, chain)
    ensures forall c :: 0 <= c < |nodes| ==>
      (c == chain[0] <==> nodes[c].key == RootNode(nodes[i].key.allocation.root))
    decreases |PathOf(nodes, i)|
  {
    hide OrdinalsFit;
    hide IncomingValid;
    assert Placed(nodes, edges, i);
    var p: nat :| OnlyParent(nodes, p, i) && OnlyPlacingEdge(nodes, edges, p, i);
    var path := PathOf(nodes, i);
    var n := |path| - 1;
    PlacingLinks(nodes, edges, p, i);
    if n == 0 {
      chain := [p, i];
      assert path[..1] == path && path[..0] == [];
      forall c | 0 <= c < |nodes|
        ensures c == p <==> nodes[c].key == RootNode(nodes[i].key.allocation.root)
      {
        RootNamed(nodes[c].key, nodes[i].key.allocation.root);
        assert CanPrecede(nodes, c, i) <==> nodes[c].key == RootNode(nodes[i].key.allocation.root);
      }
    } else {
      var up := ChainBelow(nodes, edges, p);
      chain := up + [i];
      ExtendChain(nodes, edges, p, i, up);
      assert chain[0] == up[0];
    }
  }

  lemma {:induction false} PlacingLinks(nodes: seq<MonoNode>, edges: seq<DependencyEdge>, p: nat, i: nat)
    requires IsAllocation(nodes, i) && PathOf(nodes, i) != [] && p < |nodes| && OnlyPlacingEdge(nodes, edges, p, i)
    ensures LinkedBy(nodes, edges, p, i, LastPart(nodes, i))
  {
    var e: nat :| PlacingEdge(nodes, edges, p, i, e);
    assert edges[e] in edges;
  }

  lemma {:induction false} ExtendChain(nodes: seq<MonoNode>, edges: seq<DependencyEdge>, p: nat, i: nat, up: seq<nat>)
    requires IsAllocation(nodes, i) && |PathOf(nodes, i)| > 1 && CanPrecede(nodes, p, i)
    requires IsAllocation(nodes, p) && PlacingChain(nodes, edges, p, up)
    requires LinkedBy(nodes, edges, p, i, LastPart(nodes, i))
    ensures PlacingChain(nodes, edges, i, up + [i])
  {
    hide LinkedBy;
    var chain, path := up + [i], PathOf(nodes, i);
    var n := |path| - 1;
    assert PathOf(nodes, p) == path[..n];
    forall k | 0 <= k <= |path|
      ensures StandsFor(nodes, chain[k], nodes[i].key.allocation.root, path[..k])
    {
      if k <= n { assert path[..n][..k] == path[..k]; } else { assert path[..k] == path; }
    }
    forall k | 0 <= k < |path|
      ensures LinkedBy(nodes, edges, chain[k], chain[k + 1], path[k])
    {
      if k < n { assert chain[k] == up[k] && chain[k + 1] == up[k + 1] && path[..n][k] == path[k]; }
    }
  }

  /* ---------- what the check demands, said of keys and edges alone ---------- */

  /** The key of the node an allocation hangs below. */
  function KeyAbove(root: AllocationRootKey, path: seq<AllocationPathPart>): MonoKey
    requires path != []
  {
    if |path| == 1 then RootNode(root) else Allocation(AllocationKey(root, path[..|path| - 1]))
  }

  lemma {:induction false} PrecedesMeans(nodes: seq<MonoNode>, p: nat, i: nat)
    requires IsAllocation(nodes, i) && PathOf(nodes, i) != []
    ensures CanPrecede(nodes, p, i)
      <==> p < |nodes| && nodes[p].key == KeyAbove(nodes[i].key.allocation.root, PathOf(nodes, i))
  {
    if p < |nodes| {
      RootNamed(nodes[p].key, nodes[i].key.allocation.root);
    }
  }

  /** The edge leads from one node to the other with the part's relation, collection and a site of its kind. */
  predicate Carries(edge: DependencyEdge, from: nat, to: nat, part: AllocationPathPart) {
    && edge.key == DependencyKey(MonoOf(from), MonoOf(to), Mono(part.relation, part.collection))
    && exists s | s in edge.sites :: SiteMatches(part.site, s)
  }

  /** `Carries`, said of the edge's fields: an external, compiler-generated or offset site stands for its kind, a source
      site for its range. */
  lemma {:induction false} CarriesMeans(edge: DependencyEdge, from: nat, to: nat, part: AllocationPathPart)
    ensures Carries(edge, from, to, part) <==>
      && edge.key.from == MonoOf(from) && edge.key.to == MonoOf(to)
      && edge.key.kind == Mono(part.relation, part.collection)
      && exists s :: s in edge.sites &&
           match part.site
           case AtSource(range) => s == Source(range)
           case AtExternalSource => s == ExternalSource
           case AtAllocationReference => s.AllocationOffset?
           case AtCompilerGenerated => s == SiteCompilerGenerated
  {
    forall s
      ensures SiteMatches(part.site, s) <==>
        match part.site
        case AtSource(range) => s == Source(range)
        case AtExternalSource => s == ExternalSource
        case AtAllocationReference => s.AllocationOffset?
        case AtCompilerGenerated => s == SiteCompilerGenerated
    {
    }
    hide SiteMatches;
  }

  /** An allocation is placed exactly when one node has the key above it, that of its root or of the allocation with the
      path one part shorter, and one edge from there carries the last part. */
  lemma {:induction false} PlacedMeans(nodes: seq<MonoNode>, edges: seq<DependencyEdge>, i: nat,
                                       root: AllocationRootKey, prefix: seq<AllocationPathPart>,
                                       last: AllocationPathPart, above: MonoKey)
    requires i < |nodes| && nodes[i].key == Allocation(AllocationKey(root, prefix + [last]))
    requires prefix != [] ==> above == Allocation(AllocationKey(root, prefix))
    requires
      var named :=
        match root
        case InstanceRoot(instance, role) => InstanceKey(instance, role)
        case StaticRoot(definition) => StaticKey(definition)
        case VTableRoot(concreteType, traitReference) => VTableKey(concreteType, traitReference);
      prefix == [] ==> above == named
    ensures Placed(nodes, edges, i) <==> exists p, e ::
      && 0 <= p < |nodes| && nodes[p].key == above && (forall q :: 0 <= q < |nodes| && nodes[q].key == above ==> q == p)
      && 0 <= e < |edges| && Carries(edges[e], nodes[p].id, nodes[i].id, last)
      && (forall f :: 0 <= f < |edges| && Carries(edges[f], nodes[p].id, nodes[i].id, last) ==> f == e)
  {
    var path := prefix + [last];
    assert path[..|path| - 1] == prefix && path[|path| - 1] == last;
    forall p: nat
      ensures CanPrecede(nodes, p, i) <==> p < |nodes| && nodes[p].key == above
    {
      PrecedesMeans(nodes, p, i);
    }
    forall p: nat, f: nat | p < |nodes|
      ensures PlacingEdge(nodes, edges, p, i, f) <==> f < |edges| && Carries(edges[f], nodes[p].id, nodes[i].id, last)
    {
    }
    if Placed(nodes, edges, i) {
      PlacedBelow(nodes, edges, i, above, last);
    }
    hide CanPrecede;
    hide PlacingEdge;
    hide Carries;
    if p, e :|
      && 0 <= p < |nodes| && nodes[p].key == above && (forall q :: 0 <= q < |nodes| && nodes[q].key == above ==> q == p)
      && 0 <= e < |edges| && Carries(edges[e], nodes[p].id, nodes[i].id, last)
      && (forall f :: 0 <= f < |edges| && Carries(edges[f], nodes[p].id, nodes[i].id, last) ==> f == e)
    {
      assert OnlyParent(nodes, p, i);
      assert PlacingEdge(nodes, edges, p, i, e);
    }
  }

  lemma {:induction false} PlacedBelow(nodes: seq<MonoNode>, edges: seq<DependencyEdge>, i: nat, above: MonoKey,
                                       last: AllocationPathPart)
    requires IsAllocation(nodes, i) && Placed(nodes, edges, i)
    requires forall p: nat :: CanPrecede(nodes, p, i) <==> p < |nodes| && nodes[p].key == above
    requires forall p: nat, f: nat :: p < |nodes| ==>
      (PlacingEdge(nodes, edges, p, i, f) <==> f < |edges| && Carries(edges[f], nodes[p].id, nodes[i].id, last))
    ensures exists p, e ::
      && 0 <= p < |nodes| && nodes[p].key == above && (forall q :: 0 <= q < |nodes| && nodes[q].key == above ==> q == p)
      && 0 <= e < |edges| && Carries(edges[e], nodes[p].id, nodes[i].id, last)
      && (forall f :: 0 <= f < |edges| && Carries(edges[f], nodes[p].id, nodes[i].id, last) ==> f == e)
  {
    hide CanPrecede;
    hide PlacingEdge;
    hide Carries;
    var p: nat :| OnlyParent(nodes, p, i) && OnlyPlacingEdge(nodes, edges, p, i);
    var e: nat :| PlacingEdge(nodes, edges, p, i, e)
      && forall f: nat :: PlacingEdge(nodes, edges, p, i, f) ==> f == e;
    assert p < |nodes| && nodes[p].key == above;
    forall q | 0 <= q < |nodes| && nodes[q].key == above
      ensures q == p
    {
      assert CanPrecede(nodes, q, i);
    }
    assert e < |edges| && Carries(edges[e], nodes[p].id, nodes[i].id, last);
    forall f | 0 <= f < |edges| && Carries(edges[f], nodes[p].id, nodes[i].id, last)
      ensures f == e
    {
      assert PlacingEdge(nodes, edges, p, i, f);
    }
  }

  /** Every edge into an allocation is a monomorphic one from a node, and each of its sites is one the relation can have
      in a path: a constant's allocation comes from source, from elsewhere or from the compiler, a reference between
      allocations from an offset or from the compiler. */
  lemma {:induction false} IncomingMeans(nodes: seq<MonoNode>, edge: DependencyEdge, to: nat)
    requires edge.key.to == MonoOf(to) && to < |nodes| && nodes[to].key.Allocation?
    ensures IncomingValid(nodes, edge) <==>
      && edge.key.from.MonoOf? && edge.key.kind.Mono?
      && forall s :: s in edge.sites ==>
           || (edge.key.kind.relation == ConstAllocation
               && (s.Source? || s == ExternalSource || s == SiteCompilerGenerated))
           || (edge.key.kind.relation == AllocationReference && (s.AllocationOffset? || s == SiteCompilerGenerated))
  {
  }

  /** What counts as a target of a role: an allocation some edge of the role's relation and collection leads to from its
      node, with a site of the role's kind. */
  lemma {:induction false} TargetsMeans(nodes: seq<MonoNode>, edges: seq<DependencyEdge>, role: Role, to: nat)
    ensures to in TargetsOf(nodes, edges, role) <==>
      && to < |nodes| && nodes[to].key.Allocation?
      && exists e :: e in edges
           && e.key.from == MonoOf(role.from) && e.key.to == MonoOf(to)
           && e.key.kind == Mono(role.relation, role.collection)
           && exists s :: s in e.sites &&
                match role.site
                case AtSource(range) => s == Source(range) && role.relation == ConstAllocation
                case AtExternalSource => s == ExternalSource && role.relation == ConstAllocation
                case AtAllocationReference => s.AllocationOffset? && role.relation == AllocationReference
                case AtCompilerGenerated =>
                  s == SiteCompilerGenerated && role.relation in {ConstAllocation, AllocationReference}
  {
    forall s
      ensures PathSite(role.relation, s) == Some(role.site) <==>
        match role.site
        case AtSource(range) => s == Source(range) && role.relation == ConstAllocation
        case AtExternalSource => s == ExternalSource && role.relation == ConstAllocation
        case AtAllocationReference => s.AllocationOffset? && role.relation == AllocationReference
        case AtCompilerGenerated =>
          s == SiteCompilerGenerated && role.relation in {ConstAllocation, AllocationReference}
    {
    }
    hide PathSite;
  }

  ghost predicate ShareRole(nodes: seq<MonoNode>, i: nat, j: nat) {
    exists role :: HasRole(nodes, i, role) && HasRole(nodes, j, role)
  }

  lemma {:induction false} SameRole(nodes: seq<MonoNode>, edges: seq<DependencyEdge>, i: nat, j: nat)
    requires forall k, l :: 0 <= k < l < |nodes| ==> nodes[k].id != nodes[l].id
    requires IsAllocation(nodes, i) && Placed(nodes, edges, i) && IsAllocation(nodes, j) && Placed(nodes, edges, j)
    ensures PathOf(nodes, i) != [] && PathOf(nodes, j) != []
    ensures ShareRole(nodes, i, j) <==>
      && KeyAbove(nodes[i].key.allocation.root, PathOf(nodes, i))
           == KeyAbove(nodes[j].key.allocation.root, PathOf(nodes, j))
      && LastPart(nodes, i).relation == LastPart(nodes, j).relation
      && LastPart(nodes, i).collection == LastPart(nodes, j).collection
      && LastPart(nodes, i).site == LastPart(nodes, j).site
  {
    hide OnlyPlacingEdge;
    var p: nat :| OnlyParent(nodes, p, i);
    var q: nat :| OnlyParent(nodes, q, j);
    PrecedesMeans(nodes, p, i);
    PrecedesMeans(nodes, q, j);
    PrecedesMeans(nodes, p, j);
    hide KeyAbove;
    hide CanPrecede;
    hide LastPart;
    forall role
      ensures HasRole(nodes, i, role) <==> role == RoleBelow(nodes, p, i)
      ensures HasRole(nodes, j, role) <==> role == RoleBelow(nodes, q, j)
    {
      RoleUnique(nodes, i, p, role);
      RoleUnique(nodes, j, q, role);
    }
    hide HasRole;
    assert HasRole(nodes, i, RoleBelow(nodes, p, i));
    assert nodes[p].id == nodes[q].id <==> p == q;
  }

  lemma {:induction false} SameAbove(root: AllocationRootKey, path: seq<AllocationPathPart>, root': AllocationRootKey,
                                     path': seq<AllocationPathPart>)
    requires path != [] && path' != []
    ensures KeyAbove(root, path) == KeyAbove(root', path')
      <==> root == root' && path[..|path| - 1] == path'[..|path'| - 1]
  {
  }

  /** Two allocations share role and ordinal exactly when they have the same key. */
  lemma {:induction false} SameRoleSameKey(nodes: seq<MonoNode>, edges: seq<DependencyEdge>, i: nat, j: nat)
    requires forall k, l :: 0 <= k < l < |nodes| ==> nodes[k].id != nodes[l].id
    requires IsAllocation(nodes, i) && Placed(nodes, edges, i) && IsAllocation(nodes, j) && Placed(nodes, edges, j)
    ensures ShareRole(nodes, i, j) && OrdinalOf(nodes, i) == OrdinalOf(nodes, j) <==> nodes[i].key == nodes[j].key
  {
    SameRole(nodes, edges, i, j);
    var a, b := nodes[i].key.allocation, nodes[j].key.allocation;
    SameAbove(a.root, a.path, b.root, b.path);
    hide HasRole;
    hide Placed;
    hide KeyAbove;
    assert a.path == a.path[..|a.path| - 1] + [a.path[|a.path| - 1]];
    assert b.path == b.path[..|b.path| - 1] + [b.path[|b.path| - 1]];
  }

  lemma {:induction false} OrdinalsApart(nodes: seq<MonoNode>, edges: seq<DependencyEdge>)
    requires forall i :: 0 <= i < |nodes| && IsAllocation(nodes, i) ==> Placed(nodes, edges, i)
    requires forall i, j :: 0 <= i < j < |nodes| ==> nodes[i].id != nodes[j].id
    ensures (forall i, j, role :: 0 <= i < j < |nodes| && HasRole(nodes, i, role) && HasRole(nodes, j, role) ==>
               OrdinalOf(nodes, i) != OrdinalOf(nodes, j))
      <==> forall i, j :: 0 <= i < j < |nodes| && nodes[i].key.Allocation? ==> nodes[i].key != nodes[j].key
  {
    forall i, j | 0 <= i < j < |nodes| && IsAllocation(nodes, i) && IsAllocation(nodes, j)
      ensures ShareRole(nodes, i, j) && OrdinalOf(nodes, i) == OrdinalOf(nodes, j) <==> nodes[i].key == nodes[j].key
    {
      SameRoleSameKey(nodes, edges, i, j);
    }
    forall i, role | 0 <= i < |nodes| && HasRole(nodes, i, role)
      ensures IsAllocation(nodes, i)
    {
    }
    hide HasRole;
    hide OrdinalOf;
    hide Placed;
  }

  ghost predicate HasParent(nodes: seq<MonoNode>, p: int, i: nat) {
    0 <= p < |nodes| && IsAllocation(nodes, i) && PathOf(nodes, i) != [] && OnlyParent(nodes, p, i)
  }

  lemma {:induction false} OrdinalsBounded(nodes: seq<MonoNode>, edges: seq<DependencyEdge>)
    ensures (forall i, role :: 0 <= i < |nodes| && HasRole(nodes, i, role) ==>
               OrdinalOf(nodes, i) < |TargetsOf(nodes, edges, role)|)
      <==> forall i, p :: 0 <= i < |nodes| && HasParent(nodes, p, i) ==>
             LastPart(nodes, i).sameRoleOrdinal < |TargetsOf(nodes, edges, RoleBelow(nodes, p, i))|
  {
    forall i, p | 0 <= i < |nodes| && HasParent(nodes, p, i)
      ensures HasRole(nodes, i, RoleBelow(nodes, p, i)) && OrdinalOf(nodes, i) == LastPart(nodes, i).sameRoleOrdinal
    {
      RoleUnique(nodes, i, p, RoleBelow(nodes, p, i));
    }
    forall i, role | 0 <= i < |nodes| && HasRole(nodes, i, role)
      ensures exists p :: HasParent(nodes, p, i) && role == RoleBelow(nodes, p, i)
    {
      var p: nat :| OnlyParent(nodes, p, i) && role == RoleBelow(nodes, p, i);
      assert HasParent(nodes, p, i);
    }
    hide HasRole;
    hide TargetsOf;
    hide OnlyParent;
    hide RoleBelow;
    hide OrdinalOf;
    hide LastPart;
  }

  /** With everything placed, the ordinals fit exactly when no two allocations have the same key and every ordinal is
      smaller than the number of targets of the allocation's role below its parent. */
  lemma {:induction false} OrdinalsMeans(nodes: seq<MonoNode>, edges: seq<DependencyEdge>)
    requires forall i :: 0 <= i < |nodes| && IsAllocation(nodes, i) ==> Placed(nodes, edges, i)
    requires forall i, j :: 0 <= i < j < |nodes| ==> nodes[i].id != nodes[j].id
    ensures OrdinalsFit(nodes, edges) <==>
      && (forall i, j :: 0 <= i < j < |nodes| && nodes[i].key.Allocation? ==> nodes[i].key != nodes[j].key)
      && (forall i, p :: 0 <= i < |nodes| && HasParent(nodes, p, i) ==>
            LastPart(nodes, i).sameRoleOrdinal < |TargetsOf(nodes, edges, RoleBelow(nodes, p, i))|)
  {
    OrdinalsApart(nodes, edges);
    OrdinalsBounded(nodes, edges);
  }
}
