/** The checks of the dependency graph that look at what edges connect, not at where they were observed
    (src/dependency_graph.rs, lines 904-951, 1115-1123, 1633-1819 and 1964-2034). */
module EdgeKeys {
  import opened Wrappers
  import opened DependencyTypes
  import opened Paths
  import opened Reachability
  import opened ProofRelations
  import opened GraphShapes
  import DG = DefinitionGraphs

  /** The same connections in the same order. */
  ghost predicate SameKeys(a: seq<DependencyEdge>, b: seq<DependencyEdge>) {
    |a| == |b| && forall i :: 0 <= i < |a| ==> a[i].key == b[i].key
  }

  /* ---------- proof relations ---------- */

  lemma {:induction false} SlotsAlike(a: seq<DependencyEdge>, b: seq<DependencyEdge>, from: GraphNode,
                                      relation: ProofRelationKind)
    requires SameKeys(a, b)
    ensures Slots(a, from, relation) == Slots(b, from, relation)
    decreases |a|
  {
    if a != [] {
      SlotsAlike(a[..|a| - 1], b[..|b| - 1], from, relation);
    }
  }

  lemma {:induction false} RelationsAlike(proofs: seq<ProofNode>, a: seq<DependencyEdge>, b: seq<DependencyEdge>)
    requires SameKeys(a, b)
    ensures ExactRelations(proofs, a) <==> ExactRelations(proofs, b)
  {
    forall from, relation
      ensures Slots(a, from, relation) == Slots(b, from, relation)
    {
      SlotsAlike(a, b, from, relation);
    }
    hide Slots;
    hide Numbers;
    hide NumbersSomething;
    hide Payload;
  }

  lemma {:induction false} SlotsUniqueAlike(a: seq<DependencyEdge>, b: seq<DependencyEdge>)
    requires SameKeys(a, b)
    ensures SlotsUnique(a) <==> SlotsUnique(b)
  {
  }

  /* ---------- reachability ---------- */

  /** A link that only looks at what an edge connects. */
  ghost predicate OfKeys(link: DependencyEdge -> Option<(nat, nat)>) {
    forall e: DependencyEdge, f: DependencyEdge :: e.key == f.key ==> link(e) == link(f)
  }

  lemma {:induction false} LinksOfKeys()
    ensures OfKeys(MonoLink) && OfKeys(ProofLink)
  {
  }

  lemma {:induction false} LinksAlike(a: seq<DependencyEdge>, b: seq<DependencyEdge>,
                                      link: DependencyEdge -> Option<(nat, nat)>, x: nat, y: nat)
    requires SameKeys(a, b) && OfKeys(link) && LinksTo(a, link, x, y)
    ensures LinksTo(b, link, x, y)
  {
    var e :| e in a && link(e) == Some((x, y));
    var i :| 0 <= i < |a| && a[i] == e;
    assert b[i] in b && link(b[i]) == Some((x, y));
  }

  lemma {:induction false} PathsAlike(a: seq<DependencyEdge>, b: seq<DependencyEdge>,
                                      link: DependencyEdge -> Option<(nat, nat)>, x: nat, y: nat)
    requires SameKeys(a, b) && OfKeys(link) && Reaches(StepBy(a, link), x, y)
    ensures Reaches(StepBy(b, link), x, y)
  {
    hide LinksTo;
    var p :| Connects(StepBy(a, link), p, x, y);
    forall k | 0 <= k < |p| - 1
      ensures StepBy(b, link)(p[k], p[k + 1])
    {
      assert StepBy(a, link)(p[k], p[k + 1]);
      LinksAlike(a, b, link, p[k], p[k + 1]);
    }
    assert Connects(StepBy(b, link), p, x, y);
  }

  lemma {:induction false} ReachedAlike(a: seq<DependencyEdge>, b: seq<DependencyEdge>, seeds: seq<nat>, j: nat)
    requires SameKeys(a, b) && ReachedFrom(a, MonoLink, seeds, j)
    ensures ReachedFrom(b, MonoLink, seeds, j)
  {
    LinksOfKeys();
    var s :| s in seeds && Reaches(StepBy(a, MonoLink), s, j);
    PathsAlike(a, b, MonoLink, s, j);
  }

  lemma {:induction false} ProofReachedAlike(a: seq<DependencyEdge>, b: seq<DependencyEdge>, monos: set<nat>, j: nat)
    requires SameKeys(a, b) && ProofReached(monos, a, j)
    ensures ProofReached(monos, b, j)
  {
    LinksOfKeys();
    var s :| Selected(monos, a, s) && Reaches(StepBy(a, ProofLink), s, j);
    PathsAlike(a, b, ProofLink, s, j);
    var e :| e in a && Selects(monos, e, s);
    var i :| 0 <= i < |a| && a[i] == e;
    assert b[i] in b && Selects(monos, b[i], s);
  }

  /* ---------- exact edges ---------- */

  lemma {:induction false} FilterAlike(a: seq<DependencyEdge>, b: seq<DependencyEdge>, test: DependencyEdge -> bool,
                                       test': DependencyEdge -> bool)
    requires SameKeys(a, b) && forall e: DependencyEdge, f: DependencyEdge :: e.key == f.key ==> test(e) == test'(f)
    ensures SameKeys(Filter(a, test), Filter(b, test'))
    decreases |a|
  {
    if a != [] {
      FilterAlike(a[..|a| - 1], b[..|b| - 1], test, test');
    }
  }

  lemma {:induction false} ExactTargetAlike(a: seq<DependencyEdge>, b: seq<DependencyEdge>, from: GraphNode,
                                            kind: DependencyKind, target: Option<GraphNode>)
    requires SameKeys(a, b)
    ensures ExactTarget(a, from, kind, target) <==> ExactTarget(b, from, kind, target)
  {
    hide Filter;
    var test := (e: DependencyEdge) => e.key.from == from && e.key.kind == kind;
    FilterAlike(a, b, test, test);
  }

  lemma {:induction false} ExactUseAlike(a: seq<DependencyEdge>, b: seq<DependencyEdge>, expansion: GraphNode,
                                         owner: Option<nat>)
    requires SameKeys(a, b)
    ensures ExactUse(a, expansion, owner) <==> ExactUse(b, expansion, owner)
  {
    hide Filter;
    var test := (e: DependencyEdge) => e.key.to == expansion && e.key.kind == ExpansionUse;
    FilterAlike(a, b, test, test);
  }

  lemma {:induction false} GeneratedAlike(a: seq<DependencyEdge>, b: seq<DependencyEdge>, d: DG.Definition,
                                          d': DG.Definition)
    requires SameKeys(a, b) && d'.id == d.id && (d'.origin.Expanded? <==> d.origin.Expanded?)
    ensures GeneratedOnce(d, a) <==> GeneratedOnce(d', b)
  {
    hide Filter;
    var test := (e: DependencyEdge) => e.key.from == DefinitionNode(d.id) && e.key.kind == GeneratedBy;
    FilterAlike(a, b, test, test);
  }
}
