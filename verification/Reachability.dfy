/** The worklist searches and the cycle check of the dependency graph
    (src/dependency_graph.rs, lines 904-951 and 2036-2056). */
module Reachability {
  import opened Wrappers
  import opened Ordering
  import opened DependencyTypes
  import opened Paths

  /** The end points of a monomorphic edge between monomorphic nodes. */
  function MonoLink(edge: DependencyEdge): Option<(nat, nat)> {
    if edge.key.from.MonoOf? && edge.key.kind.Mono? && edge.key.to.MonoOf? then Some((edge.key.from.id, edge.key.to.id))
    else None
  }

  /** The end points of a proof-relation edge between proofs. */
  function ProofLink(edge: DependencyEdge): Option<(nat, nat)> {
    if edge.key.from.ProofOf? && edge.key.kind.ProofRelation? && edge.key.to.ProofOf?
    then Some((edge.key.from.id, edge.key.to.id))
    else None
  }

  predicate LinksTo(edges: seq<DependencyEdge>, link: DependencyEdge -> Option<(nat, nat)>, a: nat, b: nat) {
    exists e | e in edges :: link(e) == Some((a, b))
  }

  ghost function StepBy(edges: seq<DependencyEdge>, link: DependencyEdge -> Option<(nat, nat)>): (nat, nat) -> bool {
    (a: nat, b: nat) => LinksTo(edges, link, a, b)
  }

  ghost predicate ReachedFrom(edges: seq<DependencyEdge>, link: DependencyEdge -> Option<(nat, nat)>, seeds: seq<nat>,
                              j: nat) {
    exists s :: s in seeds && Reaches(StepBy(edges, link), s, j)
  }

  ghost function Targets(edges: seq<DependencyEdge>, link: DependencyEdge -> Option<(nat, nat)>): set<nat> {
    set e | e in edges && link(e).Some? :: link(e).value.1
  }

  /** The loop over the edges leaving one node: unseen targets are recorded and queued. */
  method Visit(edges: seq<DependencyEdge>, link: DependencyEdge -> Option<(nat, nat)>, from: nat, reachable: set<nat>,
               work: seq<nat>)
    returns (reachable': set<nat>, work': seq<nat>)
    ensures reachable <= reachable'
    ensures forall b: nat :: b in reachable' <==> b in reachable || LinksTo(edges, link, from, b)
    ensures forall b: nat :: b in work' <==> b in work || (b in reachable' && b !in reachable)
    ensures reachable' == reachable ==> work' == work
  {
    reachable', work' := reachable, work;
    for n := 0 to |edges|
      invariant reachable <= reachable'
      invariant forall b: nat :: b in reachable' <==> b in reachable || LinksTo(edges[..n], link, from, b)
      invariant forall b: nat :: b in work' <==> b in work || (b in reachable' && b !in reachable)
      invariant reachable' == reachable ==> work' == work
    {
      var target := link(edges[n]);
      LinksPrefix(edges, link, n, from);
      if target.Some? && target.value.0 == from && target.value.1 !in reachable' {
        reachable' := reachable' + {target.value.1};
        work' := work' + [target.value.1];
      }
    }
    assert edges[..|edges|] == edges;
  }

  lemma {:induction false} LinksPrefix(edges: seq<DependencyEdge>, link: DependencyEdge -> Option<(nat, nat)>, n: nat,
                                       a: nat)
    requires n < |edges|
    ensures forall b: nat ::
      LinksTo(edges[..n + 1], link, a, b) <==> LinksTo(edges[..n], link, a, b) || link(edges[n]) == Some((a, b))
  {
    assert edges[..n + 1] == edges[..n] + [edges[n]];
  }

  /** What has been handled leads only to what has been reached. */
  ghost predicate Explored(edges: seq<DependencyEdge>, link: DependencyEdge -> Option<(nat, nat)>, reachable: set<nat>,
                           work: seq<nat>) {
    forall a: nat, b: nat :: a in reachable && a !in work && LinksTo(edges, link, a, b) ==> b in reachable
  }

  /** The worklist loop both searches share. */
  method Explore(edges: seq<DependencyEdge>, link: DependencyEdge -> Option<(nat, nat)>, seeds: seq<nat>)
    returns (reachable: set<nat>)
    ensures forall j: nat :: j in reachable <==> ReachedFrom(edges, link, seeds, j)
  {
    hide ReachedFrom;
    hide LinksTo;
    hide Targets;
    hide Explored;
    reachable := Elements(seeds);
    var work := seeds;
    ghost var all := Elements(seeds) + Targets(edges, link);
    SeedsReached(edges, link, seeds);
    while work != []
      invariant Elements(seeds) <= reachable <= all
      invariant forall j :: j in work ==> j in reachable
      invariant forall j: nat :: j in reachable ==> ReachedFrom(edges, link, seeds, j)
      invariant Explored(edges, link, reachable, work)
      decreases all - reachable, |work|
    {
      var from, rest := work[|work| - 1], work[..|work| - 1];
      assert work == rest + [from];
      var grown, queued := Visit(edges, link, from, reachable, rest);
      VisitKeeps(edges, link, seeds, from, reachable, grown, all);
      VisitExplores(edges, link, from, reachable, rest, grown, queued);
      Shrinks(all, reachable, grown);
      reachable, work := grown, queued;
    }
    ExploredIsAll(edges, link, seeds, reachable);
  }

  lemma {:induction false} SeedsReached(edges: seq<DependencyEdge>, link: DependencyEdge -> Option<(nat, nat)>,
                                        seeds: seq<nat>)
    ensures forall j :: j in Elements(seeds) ==> ReachedFrom(edges, link, seeds, j)
    ensures Explored(edges, link, Elements(seeds), seeds)
  {
    forall j | j in seeds
      ensures ReachedFrom(edges, link, seeds, j)
    {
      ReachesSelf(StepBy(edges, link), j);
    }
  }

  lemma {:induction false} Shrinks(all: set<nat>, before: set<nat>, after: set<nat>)
    requires before <= after <= all
    ensures after != before ==> all - after < all - before
  {
    if after != before {
      var b :| b in after && b !in before;
      assert b in all - before;
    }
  }

  lemma {:induction false} VisitExplores(edges: seq<DependencyEdge>, link: DependencyEdge -> Option<(nat, nat)>,
                                         from: nat, reachable: set<nat>, rest: seq<nat>, grown: set<nat>,
                                         queued: seq<nat>)
    requires Explored(edges, link, reachable, rest + [from])
    requires forall b: nat :: b in grown <==> b in reachable || LinksTo(edges, link, from, b)
    requires forall b: nat :: b in queued <==> b in rest || (b in grown && b !in reachable)
    ensures Explored(edges, link, grown, queued)
  {
    hide LinksTo;
    forall a: nat, b: nat | a in grown && a !in queued && LinksTo(edges, link, a, b)
      ensures b in grown
    {
      assert a != from ==> a in reachable && a !in rest + [from];
    }
  }

  lemma {:induction false} ExploredIsAll(edges: seq<DependencyEdge>, link: DependencyEdge -> Option<(nat, nat)>,
                                         seeds: seq<nat>, reachable: set<nat>)
    requires Explored(edges, link, reachable, []) && Elements(seeds) <= reachable
    ensures forall j: nat :: ReachedFrom(edges, link, seeds, j) ==> j in reachable
  {
    hide LinksTo;
    forall j: nat | ReachedFrom(edges, link, seeds, j)
      ensures j in reachable
    {
      var s :| s in seeds && Reaches(StepBy(edges, link), s, j);
      ClosedHolds(StepBy(edges, link), (k: nat) => k in reachable, s, j);
    }
  }

  lemma {:induction false} VisitKeeps(edges: seq<DependencyEdge>, link: DependencyEdge -> Option<(nat, nat)>,
                                      seeds: seq<nat>, from: nat, reachable: set<nat>, grown: set<nat>, all: set<nat>)
    requires forall b: nat :: b in grown <==> b in reachable || LinksTo(edges, link, from, b)
    requires from in reachable && reachable <= all && all == Elements(seeds) + Targets(edges, link)
    requires forall j: nat :: j in reachable ==> ReachedFrom(edges, link, seeds, j)
    ensures grown <= all
    ensures forall j: nat :: j in grown ==> ReachedFrom(edges, link, seeds, j)
  {
    forall b: nat | b in grown
      ensures b in all && ReachedFrom(edges, link, seeds, b)
    {
      if b !in reachable {
        var e :| e in edges && link(e) == Some((from, b));
        assert b in Targets(edges, link);
        var s :| s in seeds && Reaches(StepBy(edges, link), s, from);
        ReachesFurther(StepBy(edges, link), s, from, b);
      }
    }
  }

  /** `reachable_mono_nodes`. */
  method ReachableMonoNodes(roots: seq<nat>, edges: seq<DependencyEdge>) returns (reachable: set<nat>)
    ensures forall j: nat :: j in reachable <==> ReachedFrom(edges, MonoLink, roots, j)
  {
    reachable := Explore(edges, MonoLink, roots);
  }

  /** A proof some reachable monomorphic node selects. */
  predicate Selected(monoNodes: set<nat>, edges: seq<DependencyEdge>, proof: nat) {
    exists e | e in edges :: Selects(monoNodes, e, proof)
  }

  predicate Selects(monoNodes: set<nat>, e: DependencyEdge, proof: nat) {
    e.key.from.MonoOf? && e.key.from.id in monoNodes && e.key.kind.SelectionProof? && e.key.to == ProofOf(proof)
  }

  ghost predicate ProofReached(monoNodes: set<nat>, edges: seq<DependencyEdge>, proof: nat) {
    exists s :: Selected(monoNodes, edges, s) && Reaches(StepBy(edges, ProofLink), s, proof)
  }

  /** `reachable_proof_nodes`: selected proofs first, then whatever they relate to. */
  method ReachableProofNodes(monoNodes: set<nat>, edges: seq<DependencyEdge>) returns (reachable: set<nat>)
    ensures forall j: nat :: j in reachable <==> ProofReached(monoNodes, edges, j)
  {
    var seeds: seq<nat> := [];
    for n := 0 to |edges|
      invariant forall s: nat :: s in seeds <==> Selected(monoNodes, edges[..n], s)
    {
      var e := edges[n];
      SelectedPrefix(monoNodes, edges, n);
      if e.key.from.MonoOf? && e.key.from.id in monoNodes && e.key.kind.SelectionProof? && e.key.to.ProofOf?
         && e.key.to.id !in seeds {
        seeds := seeds + [e.key.to.id];
      }
    }
    assert edges[..|edges|] == edges;
    reachable := Explore(edges, ProofLink, seeds);
    forall j: nat
      ensures ReachedFrom(edges, ProofLink, seeds, j) <==> ProofReached(monoNodes, edges, j)
    {
      if ReachedFrom(edges, ProofLink, seeds, j) {
        var s :| s in seeds && Reaches(StepBy(edges, ProofLink), s, j);
        assert Selected(monoNodes, edges, s);
      }
    }
  }

  lemma {:induction false} SelectedPrefix(monoNodes: set<nat>, edges: seq<DependencyEdge>, n: nat)
    requires n < |edges|
    ensures forall s: nat ::
      Selected(monoNodes, edges[..n + 1], s) <==> Selected(monoNodes, edges[..n], s) || Selects(monoNodes, edges[n], s)
  {
    assert edges[..n + 1] == edges[..n] + [edges[n]];
  }

  /* ---------- cycles ---------- */

  function Next(expansions: seq<ExpansionNode>, relation: ExpansionNode -> Option<nat>, id: nat): Option<nat> {
    if id < |expansions| then relation(expansions[id]) else None
  }

  /** The node `steps` links up from `id`, if the chain is that long. */
  function After(expansions: seq<ExpansionNode>, relation: ExpansionNode -> Option<nat>, id: nat,
                 steps: nat): Option<nat> {
    if steps == 0 then Some(id)
    else
      var before := After(expansions, relation, id, steps - 1);
      if before.Some? then Next(expansions, relation, before.value) else None
  }

  ghost predicate ChainEnds(expansions: seq<ExpansionNode>, relation: ExpansionNode -> Option<nat>, id: nat) {
    exists steps: nat :: After(expansions, relation, id, steps).None?
  }

  lemma {:induction false} AfterShorter(expansions: seq<ExpansionNode>, relation: ExpansionNode -> Option<nat>,
                                        id: nat, m: nat, n: nat)
    requires m <= n && After(expansions, relation, id, n).Some?
    ensures After(expansions, relation, id, m).Some?
    decreases n
  {
    if m < n {
      AfterShorter(expansions, relation, id, m, n - 1);
    }
  }

  /** A chain that comes back to a node never ends. */
  lemma {:induction false} LoopNeverEnds(expansions: seq<ExpansionNode>, relation: ExpansionNode -> Option<nat>,
                                         id: nat, k: nat, m: nat, steps: nat)
    requires k < m && After(expansions, relation, id, m).Some?
    requires After(expansions, relation, id, k) == After(expansions, relation, id, m)
    ensures After(expansions, relation, id, steps).Some?
    decreases steps
  {
    if steps <= m {
      AfterShorter(expansions, relation, id, steps, m);
    } else {
      SamePace(expansions, relation, id, k, m, steps - m);
      LoopNeverEnds(expansions, relation, id, k, m, k + (steps - m));
    }
  }

  lemma {:induction false} SamePace(expansions: seq<ExpansionNode>, relation: ExpansionNode -> Option<nat>, id: nat,
                                    k: nat, m: nat, more: nat)
    requires After(expansions, relation, id, k) == After(expansions, relation, id, m)
    ensures After(expansions, relation, id, k + more) == After(expansions, relation, id, m + more)
  {
    if more > 0 {
      SamePace(expansions, relation, id, k, m, more - 1);
    }
  }

  /** The nodes met in the first `steps` links. */
  ghost predicate Met(expansions: seq<ExpansionNode>, relation: ExpansionNode -> Option<nat>, start: nat, steps: nat,
                      seen: set<nat>) {
    forall id: nat :: id in seen <==> MetWithin(expansions, relation, start, steps, id)
  }

  ghost predicate MetWithin(expansions: seq<ExpansionNode>, relation: ExpansionNode -> Option<nat>, start: nat,
                            steps: nat, id: nat) {
    exists k: nat :: k < steps && After(expansions, relation, start, k) == Some(id)
  }

  /** Meeting a node again: the chain never ends. */
  lemma {:induction false} MetAgain(expansions: seq<ExpansionNode>, relation: ExpansionNode -> Option<nat>,
                                    start: nat, steps: nat, id: nat)
    requires MetWithin(expansions, relation, start, steps, id) && After(expansions, relation, start, steps) == Some(id)
    ensures !ChainEnds(expansions, relation, start)
  {
    var k: nat :| k < steps && After(expansions, relation, start, k) == Some(id);
    forall n: nat
      ensures After(expansions, relation, start, n).Some?
    {
      LoopNeverEnds(expansions, relation, start, k, steps, n);
    }
  }

  /** One more link. */
  lemma {:induction false} MetGrows(expansions: seq<ExpansionNode>, relation: ExpansionNode -> Option<nat>,
                                    start: nat, steps: nat, seen: set<nat>, id: nat)
    requires Met(expansions, relation, start, steps, seen) && After(expansions, relation, start, steps) == Some(id)
    ensures Met(expansions, relation, start, steps + 1, seen + {id})
    ensures After(expansions, relation, start, steps + 1) == Next(expansions, relation, id)
  {
    forall m: nat
      ensures MetWithin(expansions, relation, start, steps + 1, m)
        <==> MetWithin(expansions, relation, start, steps, m) || m == id
    {
      MetOneMore(expansions, relation, start, steps, id, m);
    }
    hide MetWithin;
  }

  lemma {:induction false} MetOneMore(expansions: seq<ExpansionNode>, relation: ExpansionNode -> Option<nat>,
                                      start: nat, steps: nat, id: nat, m: nat)
    requires After(expansions, relation, start, steps) == Some(id)
    ensures MetWithin(expansions, relation, start, steps + 1, m)
      <==> MetWithin(expansions, relation, start, steps, m) || m == id
  {
    if MetWithin(expansions, relation, start, steps, m) {
      var k: nat :| k < steps && After(expansions, relation, start, k) == Some(m);
      assert k < steps + 1;
    }
  }

  /** Following one chain with a set of seen nodes. */
  method FollowChain(expansions: seq<ExpansionNode>, relation: ExpansionNode -> Option<nat>, start: nat)
    returns (ends: bool)
    ensures ends <==> ChainEnds(expansions, relation, start)
  {
    var seen: set<nat> := {};
    var current := Some(start);
    ghost var steps: nat := 0;
    NothingMet(expansions, relation, start);
    hide After;
    hide Met;
    hide ChainEnds;
    while current.Some?
      invariant current == After(expansions, relation, start, steps)
      invariant Met(expansions, relation, start, steps, seen)
      invariant current.Some? ==> seen <= Indices(|expansions|)
      invariant |seen| <= |expansions| + 1
      decreases |expansions| + 1 - |seen|
    {
      var id := current.value;
      if id in seen {
        MetAgain(expansions, relation, start, steps, id);
        return false;
      }
      SmallerSubset(seen, Indices(|expansions|));
      MetGrows(expansions, relation, start, steps, seen, id);
      seen := seen + {id};
      steps := steps + 1;
      current := Next(expansions, relation, id);
    }
    Ended(expansions, relation, start, steps);
    ends := true;
  }

  lemma {:induction false} NothingMet(expansions: seq<ExpansionNode>, relation: ExpansionNode -> Option<nat>,
                                      start: nat)
    ensures Met(expansions, relation, start, 0, {}) && After(expansions, relation, start, 0) == Some(start)
  {
  }

  lemma {:induction false} Ended(expansions: seq<ExpansionNode>, relation: ExpansionNode -> Option<nat>, start: nat,
                                 steps: nat)
    requires After(expansions, relation, start, steps).None?
    ensures ChainEnds(expansions, relation, start)
  {
  }

  function DiscoveredIn(node: ExpansionNode): Option<nat> { node.discoveredIn }

  function SemanticParent(node: ExpansionNode): Option<nat> { node.semanticParent }

  function SourceCallParent(node: ExpansionNode): Option<nat> { node.sourceCallParent }

  ghost predicate RelationAcyclic(expansions: seq<ExpansionNode>, relation: ExpansionNode -> Option<nat>) {
    forall i :: 0 <= i < |expansions| ==> ChainEnds(expansions, relation, expansions[i].id)
  }

  method Acyclic(expansions: seq<ExpansionNode>, relation: ExpansionNode -> Option<nat>) returns (ok: bool)
    ensures ok <==> RelationAcyclic(expansions, relation)
  {
    for i := 0 to |expansions|
      invariant forall k :: 0 <= k < i ==> ChainEnds(expansions, relation, expansions[k].id)
    {
      var ends := FollowChain(expansions, relation, expansions[i].id);
      if !ends {
        return false;
      }
    }
    ok := true;
  }

  ghost predicate RelationsAcyclic(expansions: seq<ExpansionNode>) {
    && RelationAcyclic(expansions, DiscoveredIn)
    && RelationAcyclic(expansions, SemanticParent)
    && RelationAcyclic(expansions, SourceCallParent)
  }

  /** `expansion_relations_are_acyclic`: from every node, each of the three relations comes to an end. */
  method ExpansionRelationsAreAcyclic(expansions: seq<ExpansionNode>) returns (ok: bool)
    ensures ok <==> RelationsAcyclic(expansions)
  {
    ok := Acyclic(expansions, DiscoveredIn);
    if ok {
      ok := Acyclic(expansions, SemanticParent);
    }
    if ok {
      ok := Acyclic(expansions, SourceCallParent);
    }
  }
}
