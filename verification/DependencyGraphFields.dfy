/** What an accepted dependency graph satisfies, check by check and field by field
    (src/dependency_graph.rs, lines 571-951 and 1852-2056). */
module DependencyGraphFields {
  import opened Wrappers
  import opened Ordering
  import opened GraphKeys
  import opened DependencyTypes
  import opened ProofRelations
  import opened GraphShapes
  import opened Reachability
  import opened DependencyGraphs
  import opened NodeFields
  import opened ProofEdges
  import AllocationPaths
  import Paths
  import DG = DefinitionGraphs

  /* ---------- all checks ---------- */

  /** A graph is accepted exactly when all of this holds: none of the checks may be left out. */
  lemma {:induction false} VerdictMeans(edges: seq<DependencyEdge>, g: DependencyGraph)
    ensures Verdict(edges, g).None? <==>
      && ExpansionsValid(g.expansions, g.definitions)
      && ProofsValid(g.proofs, g.definitions)
      && MonosValid(g.monoNodes, g.definitions)
      && RootsValid(g.roots, g.definitions, g.monoNodes)
      && SlotsUnique(edges)
      && EdgesValid(DefinitionEdges(g.definitions) + edges, g)
      && AllocationPaths.AllocationsValid(g.monoNodes, g.edges)
      && ExactRelations(g.proofs, g.edges)
      && JoinsValid(g)
      && MonosReached(g)
      && ProofsReached(g)
      && ExpansionsJoined(g)
      && MaterializationsValid(g)
  {
    hide ExpansionsValid;
    hide ProofsValid;
    hide MonosValid;
    hide RootsValid;
    hide SlotsUnique;
    hide EdgesValid;
    hide JoinsValid;
    hide MonosReached;
    hide ProofsReached;
    hide ExpansionsJoined;
    hide MaterializationsValid;
  }

  /** Nodes are numbered from 0, no key is given twice, and every node is sound. */
  lemma {:induction false} NodesMean(g: DependencyGraph)
    ensures ExpansionsValid(g.expansions, g.definitions) <==>
      && (forall i :: 0 <= i < |g.expansions| ==> g.expansions[i].id == i)
      && (forall i, j :: 0 <= i < j < |g.expansions| ==> g.expansions[i].key != g.expansions[j].key)
      && (forall i :: 0 <= i < |g.expansions| ==> ExpansionValid(g.expansions[i], |g.expansions|, g.definitions))
    ensures ProofsValid(g.proofs, g.definitions) <==>
      && (forall i :: 0 <= i < |g.proofs| ==> g.proofs[i].id == i)
      && (forall i, j :: 0 <= i < j < |g.proofs| ==> g.proofs[i].key != g.proofs[j].key)
      && (forall i :: 0 <= i < |g.proofs| ==> ProofValid(g.proofs[i], g.proofs, g.definitions))
    ensures MonosValid(g.monoNodes, g.definitions) <==>
      && (forall i :: 0 <= i < |g.monoNodes| ==> g.monoNodes[i].id == i)
      && (forall i, j :: 0 <= i < j < |g.monoNodes| ==> g.monoNodes[i].key != g.monoNodes[j].key)
      && (forall i :: 0 <= i < |g.monoNodes| ==> MonoValid(g.monoNodes[i], g.definitions))
      && GlobalAssemblyMatches(g.definitions, g.monoNodes)
  {
    hide ExpansionValid;
    hide ProofValid;
    hide MonoValid;
    hide GlobalAssemblyMatches;
    assert forall i :: 0 <= i < |g.expansions| ==> ExpansionKeys(g.expansions)[i] == g.expansions[i].key;
    assert forall i :: 0 <= i < |g.proofs| ==> ProofNodeKeys(g.proofs)[i] == g.proofs[i].key;
    assert forall i :: 0 <= i < |g.monoNodes| ==> MonoKeys(g.monoNodes)[i] == g.monoNodes[i].key;
    assert forall i :: 0 <= i < |g.expansions| ==> ExpansionId(g.expansions[i]) == g.expansions[i].id;
    assert forall i :: 0 <= i < |g.proofs| ==> ProofId(g.proofs[i]) == g.proofs[i].id;
    assert forall i :: 0 <= i < |g.monoNodes| ==> MonoId(g.monoNodes[i]) == g.monoNodes[i].id;
    assert forall i :: 0 <= i < |g.expansions| ==> g.expansions[i] in g.expansions;
    assert forall i :: 0 <= i < |g.proofs| ==> g.proofs[i] in g.proofs;
    assert forall i :: 0 <= i < |g.monoNodes| ==> g.monoNodes[i] in g.monoNodes;
  }

  /** Every global assembly of the source has a node, and every such node a definition. */
  lemma {:induction false} AssemblyMeans(definitions: DG.DefinitionGraph, nodes: seq<MonoNode>)
    ensures GlobalAssemblyMatches(definitions, nodes) <==>
      && (forall d | d in definitions.definitions && d.kind == GlobalAsm ::
            exists n | n in nodes :: n.key == GlobalAsmKey(d.key))
      && (forall n | n in nodes && n.key.GlobalAsmKey? ::
            exists d | d in definitions.definitions :: d.kind == GlobalAsm && d.key == n.key.definition)
  {
    var keys := set d | d in definitions.definitions && d.kind == GlobalAsm :: d.key;
    var seen := set n | n in nodes && n.key.GlobalAsmKey? :: n.key.definition;
    if GlobalAssemblyMatches(definitions, nodes) {
      forall d | d in definitions.definitions && d.kind == GlobalAsm
        ensures exists n | n in nodes :: n.key == GlobalAsmKey(d.key)
      {
        assert d.key in keys;
        assert d.key in seen;
        var n :| n in nodes && n.key.GlobalAsmKey? && n.key.definition == d.key;
      }
      forall n | n in nodes && n.key.GlobalAsmKey?
        ensures exists d | d in definitions.definitions :: d.kind == GlobalAsm && d.key == n.key.definition
      {
        assert n.key.definition in seen;
        assert n.key.definition in keys;
        var d :| d in definitions.definitions && d.kind == GlobalAsm && d.key == n.key.definition;
      }
    }
  }

  /** Every edge, given or from the definition graph, is sound, and every selection among the grouped ones joined. */
  lemma {:induction false} EdgesMean(edges: seq<DependencyEdge>, g: DependencyGraph)
    ensures EdgesValid(edges, g) <==>
      forall i :: 0 <= i < |edges| ==>
        EdgeValid(edges[i], g.definitions, |g.expansions|, |g.proofs|, |g.monoNodes|)
    ensures JoinsValid(g) <==>
      forall i :: 0 <= i < |g.edges| && g.edges[i].key.kind.SelectionProof? ==>
        SelectionJoin(g.edges[i], g.proofs, g.monoNodes, g.edges)
  {
    hide EdgeValid;
    assert forall i :: 0 <= i < |edges| ==> edges[i] in edges;
    assert forall i :: 0 <= i < |g.edges| ==> g.edges[i] in g.edges;
  }

  /** The edges of an expansion are its fields: one to the expansion that discovered it, one to its semantic parent, one
      to its call-site parent, one to its macro and one from its owner, as far as there are such. */
  lemma {:induction false} ExpansionsJoinedMeans(g: DependencyGraph)
    ensures ExpansionsJoined(g) <==>
      && (forall i :: 0 <= i < |g.expansions| ==>
            && LeafDescribes(g.expansions[i], g.definitions) && ExtendsParent(g.expansions[i], g.expansions)
            && var n, self := g.expansions[i], ExpansionOf(g.expansions[i].id);
            && ExactTarget(g.edges, self, ExpansionDiscoveredIn,
                           match n.discoveredIn case None => None case Some(p) => Some(ExpansionOf(p)))
            && ExactTarget(g.edges, self, ExpansionSemanticParent,
                           match n.semanticParent case None => None case Some(p) => Some(ExpansionOf(p)))
            && ExactTarget(g.edges, self, ExpansionSourceCallParent,
                           match n.sourceCallParent case None => None case Some(p) => Some(ExpansionOf(p)))
            && ExactTarget(g.edges, self, MacroDefinitionOf,
                           match n.macroDefinition
                           case None => None
                           case Some(LocalTarget(id)) => Some(DefinitionNode(id))
                           case Some(ExternalTarget(id)) => Some(ExternalDefinitionNode(id)))
            && ExactUse(g.edges, self, n.sourceOwner))
      && RelationsAcyclic(g.expansions)
      && (forall i :: 0 <= i < |g.definitions.definitions| && g.definitions.definitions[i].origin.Expanded? ==>
            GeneratedOnce(g.definitions.definitions[i], g.edges))
  {
    hide LeafDescribes;
    hide ExtendsParent;
    hide ExactTarget;
    hide ExactUse;
    hide RelationsAcyclic;
    assert forall i :: 0 <= i < |g.expansions| ==> g.expansions[i] in g.expansions;
    assert forall i :: 0 <= i < |g.definitions.definitions| ==>
      g.definitions.definitions[i] in g.definitions.definitions;
    forall n | n in g.expansions
      ensures exists i :: 0 <= i < |g.expansions| && g.expansions[i] == n
    {
    }
  }

  /** An expanded definition has exactly one edge to what generated it. */
  lemma {:induction false} GeneratedMeans(d: DG.Definition, edges: seq<DependencyEdge>)
    requires d.origin.Expanded?
    ensures GeneratedOnce(d, edges) <==>
      && (exists k :: 0 <= k < |edges| && edges[k].key.from == DefinitionNode(d.id) && edges[k].key.kind == GeneratedBy)
      && (forall k, m :: 0 <= k < m < |edges| && edges[k].key.from == edges[m].key.from == DefinitionNode(d.id) ==>
            edges[k].key.kind != GeneratedBy || edges[m].key.kind != GeneratedBy)
  {
    FilterGood(edges, (e: DependencyEdge) => e.key.from == DefinitionNode(d.id) && e.key.kind == GeneratedBy,
               (e: DependencyEdge) => true);
    hide Filter;
  }

  /** The one materialisation edge of a node leads to its definition. */
  lemma {:induction false} MaterializationsMean(g: DependencyGraph)
    ensures MaterializationsValid(g) <==>
      forall i :: 0 <= i < |g.monoNodes| ==>
        ExactTarget(g.edges, MonoOf(g.monoNodes[i].id), MaterializesDefinition,
                    match g.monoNodes[i].materializedDefinition
                    case None => None
                    case Some(LocalTarget(id)) => Some(DefinitionNode(id))
                    case Some(ExternalTarget(id)) => Some(ExternalDefinitionNode(id)))
  {
    hide ExactTarget;
    assert forall i :: 0 <= i < |g.monoNodes| ==> g.monoNodes[i] in g.monoNodes;
  }

  /** Every allocation hangs at one place, every edge into one fits a path, and the ordinals fit. */
  lemma {:induction false} AllocationsMean(nodes: seq<MonoNode>, edges: seq<DependencyEdge>)
    ensures AllocationPaths.AllocationsValid(nodes, edges) <==>
      && (forall i :: 0 <= i < |nodes| && nodes[i].key.Allocation? ==> AllocationPaths.Placed(nodes, edges, i))
      && (forall k :: 0 <= k < |edges| && edges[k].key.to.MonoOf? && edges[k].key.to.id < |nodes|
                      && nodes[edges[k].key.to.id].key.Allocation? ==>
            AllocationPaths.IncomingValid(nodes, edges[k]))
      && AllocationPaths.OrdinalsFit(nodes, edges)
  {
    hide AllocationPaths.Placed;
    hide AllocationPaths.OrdinalsFit;
    assert forall k :: 0 <= k < |edges| ==> edges[k] in edges;
    forall i: nat
      ensures AllocationPaths.IsAllocation(nodes, i) <==> i < |nodes| && nodes[i].key.Allocation?
    {
    }
  }

  /** Some list of targets is numbered by the edges of the relation that leave the node. */
  ghost predicate NumbersTargets(edges: seq<DependencyEdge>, from: GraphNode, relation: ProofRelationKind) {
    exists targets :: OneEdgeEach(edges, from, relation, targets)
  }

  /** The edges of every relation from every node are numbered from 0, and those of a proof are its fields. */
  lemma {:induction false} ExactRelationsMean(proofs: seq<ProofNode>, edges: seq<DependencyEdge>)
    ensures ExactRelations(proofs, edges) <==>
      && (forall from, relation :: NumbersTargets(edges, from, relation))
      && (forall i :: 0 <= i < |proofs| ==> ExactProof(proofs[i], edges))
  {
    hide ExactProof;
    hide Numbers;
    hide OneEdgeEach;
    forall from, relation
      ensures NumbersSomething(Slots(edges, from, relation)) <==> NumbersTargets(edges, from, relation)
    {
      forall targets
        ensures Numbers(Slots(edges, from, relation), targets) <==> OneEdgeEach(edges, from, relation, targets)
      {
        NumbersMeans(edges, from, relation, targets);
      }
    }
  }

  /** A grouped edge keeps the evidence all its observations share. */
  lemma {:induction false} SharedEvidence(edges: seq<DependencyEdge>, grouped: seq<DependencyEdge>, i: nat,
                                          evidence: EvidenceOrigin)
    requires EdgesGrouped(edges, grouped) && i < |grouped|
    requires forall k :: 0 <= k < |edges| && edges[k].key == grouped[i].key ==> edges[k].evidence == evidence
    ensures grouped[i].evidence == evidence
  {
    var seen := EvidenceFor(edges, grouped[i].key);
    GroupedOne(edges, grouped, i);
    var e :| e in edges && e.key == grouped[i].key;
    assert e.evidence in seen;
    assert seen == {evidence};
    CombinedMeans(seen);
    hide Combined;
  }

  /** Where two observations differ in evidence, the grouped edge says so. */
  lemma {:induction false} SeveralEvidence(edges: seq<DependencyEdge>, grouped: seq<DependencyEdge>, i: nat, k: nat,
                                           m: nat)
    requires EdgesGrouped(edges, grouped) && i < |grouped| && k < |edges| && m < |edges|
    requires edges[k].key == edges[m].key == grouped[i].key && edges[k].evidence != edges[m].evidence
    ensures grouped[i].evidence == Multiple
  {
    var seen := EvidenceFor(edges, grouped[i].key);
    assert edges[k] in edges && edges[m] in edges;
    assert edges[k].evidence in seen && edges[m].evidence in seen;
    SmallerSubset({edges[k].evidence, edges[m].evidence}, seen);
    CombinedMeans(seen);
    hide Combined;
  }

  /* ---------- reachability ---------- */

  ghost predicate MonoStep(edges: seq<DependencyEdge>, a: nat, b: nat) {
    exists k :: 0 <= k < |edges|
      && edges[k].key.from == MonoOf(a) && edges[k].key.kind.Mono? && edges[k].key.to == MonoOf(b)
  }

  ghost predicate ProofStep(edges: seq<DependencyEdge>, a: nat, b: nat) {
    exists k :: 0 <= k < |edges|
      && edges[k].key.from == ProofOf(a) && edges[k].key.kind.ProofRelation? && edges[k].key.to == ProofOf(b)
  }

  /** From the node of a root along mono edges. */
  ghost predicate MonoPath(g: DependencyGraph, p: seq<nat>, j: nat) {
    && |p| > 0 && p[|p| - 1] == j
    && (exists r :: 0 <= r < |g.roots| && g.roots[r].node == MonoOf(p[0]))
    && forall k :: 0 <= k < |p| - 1 ==> MonoStep(g.edges, p[k], p[k + 1])
  }

  /** From a proof selected by a mono node along proof relations. */
  ghost predicate ProofPath(g: DependencyGraph, p: seq<nat>, j: nat) {
    && |p| > 0 && p[|p| - 1] == j
    && (exists k :: 0 <= k < |g.edges|
          && g.edges[k].key.from.MonoOf? && g.edges[k].key.from.id < |g.monoNodes|
          && g.edges[k].key.kind.SelectionProof? && g.edges[k].key.to == ProofOf(p[0]))
    && forall k :: 0 <= k < |p| - 1 ==> ProofStep(g.edges, p[k], p[k + 1])
  }

  lemma {:induction false} LinksMean(edges: seq<DependencyEdge>, a: nat, b: nat)
    ensures StepBy(edges, MonoLink)(a, b) <==> MonoStep(edges, a, b)
    ensures StepBy(edges, ProofLink)(a, b) <==> ProofStep(edges, a, b)
  {
    assert forall k :: 0 <= k < |edges| ==> edges[k] in edges;
    if StepBy(edges, MonoLink)(a, b) {
      var e :| e in edges && MonoLink(e) == Some((a, b));
      var k :| 0 <= k < |edges| && edges[k] == e;
    }
    if StepBy(edges, ProofLink)(a, b) {
      var e :| e in edges && ProofLink(e) == Some((a, b));
      var k :| 0 <= k < |edges| && edges[k] == e;
    }
    if MonoStep(edges, a, b) {
      var k :| 0 <= k < |edges|
        && edges[k].key.from == MonoOf(a) && edges[k].key.kind.Mono? && edges[k].key.to == MonoOf(b);
      assert MonoLink(edges[k]) == Some((a, b));
    }
    if ProofStep(edges, a, b) {
      var k :| 0 <= k < |edges|
        && edges[k].key.from == ProofOf(a) && edges[k].key.kind.ProofRelation? && edges[k].key.to == ProofOf(b);
      assert ProofLink(edges[k]) == Some((a, b));
    }
  }

  lemma {:induction false} MonoRootsMean(roots: seq<RootRecord>, id: nat)
    ensures id in MonoRoots(roots) <==> exists r :: 0 <= r < |roots| && roots[r].node == MonoOf(id)
  {
    if roots != [] {
      var n := |roots| - 1;
      MonoRootsMean(roots[..n], id);
      assert forall r :: 0 <= r < n ==> roots[..n][r] == roots[r];
    }
  }

  /** A mono node counts as reached exactly when a path of mono edges leads to it from the node of some root. */
  lemma {:induction false} MonosReachedMeans(g: DependencyGraph, j: nat)
    ensures ReachedFrom(g.edges, MonoLink, MonoRoots(g.roots), j) <==> exists p :: MonoPath(g, p, j)
  {
    var step := StepBy(g.edges, MonoLink);
    forall a: nat, b: nat
      ensures step(a, b) <==> MonoStep(g.edges, a, b)
    {
      LinksMean(g.edges, a, b);
    }
    hide MonoStep;
    if ReachedFrom(g.edges, MonoLink, MonoRoots(g.roots), j) {
      var s :| s in MonoRoots(g.roots) && Paths.Reaches(step, s, j);
      var p :| Paths.Connects(step, p, s, j);
      MonoRootsMean(g.roots, s);
      assert MonoPath(g, p, j);
    }
    if p :| MonoPath(g, p, j) {
      MonoRootsMean(g.roots, p[0]);
      assert Paths.Connects(step, p, p[0], j);
    }
  }

  /** A proof counts as reached exactly when a path of proof relations leads to it from one a mono node selects. */
  lemma {:induction false} ProofsReachedMeans(g: DependencyGraph, j: nat)
    ensures ProofReached(Indices(|g.monoNodes|), g.edges, j) <==> exists p :: ProofPath(g, p, j)
  {
    var step := StepBy(g.edges, ProofLink);
    forall a: nat, b: nat
      ensures step(a, b) <==> ProofStep(g.edges, a, b)
    {
      LinksMean(g.edges, a, b);
    }
    hide ProofStep;
    if ProofReached(Indices(|g.monoNodes|), g.edges, j) {
      var s :| Selected(Indices(|g.monoNodes|), g.edges, s) && Paths.Reaches(step, s, j);
      var p :| Paths.Connects(step, p, s, j);
      var e :| e in g.edges && Selects(Indices(|g.monoNodes|), e, s);
      var k :| 0 <= k < |g.edges| && g.edges[k] == e;
      assert ProofPath(g, p, j);
    }
    if p :| ProofPath(g, p, j) {
      var k :| 0 <= k < |g.edges|
        && g.edges[k].key.from.MonoOf? && g.edges[k].key.from.id < |g.monoNodes|
        && g.edges[k].key.kind.SelectionProof? && g.edges[k].key.to == ProofOf(p[0]);
      assert g.edges[k] in g.edges && Selects(Indices(|g.monoNodes|), g.edges[k], p[0]);
      assert Selected(Indices(|g.monoNodes|), g.edges, p[0]);
      assert Paths.Connects(step, p, p[0], j);
    }
  }

  /* ---------- cycles ---------- */

  /** Numbers that fall along every link. */
  ghost predicate Falls(expansions: seq<ExpansionNode>, relation: ExpansionNode -> Option<nat>, height: seq<nat>) {
    && |height| == |expansions|
    && forall i ::
         0 <= i < |expansions| && relation(expansions[i]).Some? && relation(expansions[i]).value < |expansions| ==>
         height[relation(expansions[i]).value] < height[i]
  }

  lemma {:induction false} FallingEnds(expansions: seq<ExpansionNode>, relation: ExpansionNode -> Option<nat>,
                                       height: seq<nat>, i: nat)
    requires Falls(expansions, relation, height) && i < |expansions|
    ensures ChainEnds(expansions, relation, i)
    decreases height[i]
  {
    var next := relation(expansions[i]);
    if next.Some? && next.value < |expansions| {
      FallingEnds(expansions, relation, height, next.value);
      var steps: nat :| After(expansions, relation, next.value, steps).None?;
      StepThenAfter(expansions, relation, i, next.value, steps);
      assert After(expansions, relation, i, steps + 1).None?;
    } else if next.Some? {
      assert After(expansions, relation, i, 1) == next;
      assert After(expansions, relation, i, 2).None?;
    } else {
      assert After(expansions, relation, i, 1).None?;
    }
  }

  lemma {:induction false} StepThenAfter(expansions: seq<ExpansionNode>, relation: ExpansionNode -> Option<nat>,
                                         i: nat, p: nat, steps: nat)
    requires i < |expansions| && relation(expansions[i]) == Some(p)
    ensures After(expansions, relation, i, steps + 1) == After(expansions, relation, p, steps)
  {
    if steps > 0 {
      StepThenAfter(expansions, relation, i, p, steps - 1);
    } else {
      assert After(expansions, relation, i, 0) == Some(i);
    }
  }

  /** The first step count at which the chain has ended. */
  ghost function LeastEnd(expansions: seq<ExpansionNode>, relation: ExpansionNode -> Option<nat>, i: nat,
                          from: nat, bound: nat): (n: nat)
    requires from <= bound && After(expansions, relation, i, bound).None?
    ensures After(expansions, relation, i, n).None? && from <= n <= bound
    ensures forall m :: from <= m < n ==> After(expansions, relation, i, m).Some?
    decreases bound - from
  {
    if After(expansions, relation, i, from).None? then from else LeastEnd(expansions, relation, i, from + 1, bound)
  }

  ghost function Height(expansions: seq<ExpansionNode>, relation: ExpansionNode -> Option<nat>, i: nat): (n: nat)
    requires ChainEnds(expansions, relation, i)
    ensures After(expansions, relation, i, n).None?
    ensures forall m: nat :: m < n ==> After(expansions, relation, i, m).Some?
  {
    var bound: nat :| After(expansions, relation, i, bound).None?;
    LeastEnd(expansions, relation, i, 0, bound)
  }

  lemma {:induction false} EndingFalls(expansions: seq<ExpansionNode>, relation: ExpansionNode -> Option<nat>)
    returns (height: seq<nat>)
    requires forall i :: 0 <= i < |expansions| ==> ChainEnds(expansions, relation, i)
    ensures Falls(expansions, relation, height)
  {
    height := seq(|expansions|, i requires 0 <= i < |expansions| => Height(expansions, relation, i));
    forall i | 0 <= i < |expansions| && relation(expansions[i]).Some? && relation(expansions[i]).value < |expansions|
      ensures height[relation(expansions[i]).value] < height[i]
    {
      var p := relation(expansions[i]).value;
      assert After(expansions, relation, i, 0).Some?;
      var m := height[i] - 1;
      StepThenAfter(expansions, relation, i, p, m);
      assert After(expansions, relation, p, m).None?;
    }
  }

  /** Numbers that fall along the links to what discovered an expansion, to its semantic parent, to its call-site
      parent. */
  ghost predicate DiscoveredFalls(expansions: seq<ExpansionNode>, height: seq<nat>) {
    && |height| == |expansions|
    && forall i :: 0 <= i < |expansions| ==>
         match expansions[i].discoveredIn
         case None => true
         case Some(p) => p < |expansions| ==> height[p] < height[i]
  }

  ghost predicate SemanticFalls(expansions: seq<ExpansionNode>, height: seq<nat>) {
    && |height| == |expansions|
    && forall i :: 0 <= i < |expansions| ==>
         match expansions[i].semanticParent
         case None => true
         case Some(p) => p < |expansions| ==> height[p] < height[i]
  }

  ghost predicate CallFalls(expansions: seq<ExpansionNode>, height: seq<nat>) {
    && |height| == |expansions|
    && forall i :: 0 <= i < |expansions| ==>
         match expansions[i].sourceCallParent
         case None => true
         case Some(p) => p < |expansions| ==> height[p] < height[i]
  }

  /** The three relations are acyclic exactly when, for each, numbers can be given that fall along every link. */
  lemma {:induction false} AcyclicMeans(expansions: seq<ExpansionNode>)
    requires forall i :: 0 <= i < |expansions| ==> expansions[i].id == i
    ensures RelationsAcyclic(expansions) <==>
      && (exists height :: DiscoveredFalls(expansions, height))
      && (exists height :: SemanticFalls(expansions, height))
      && (exists height :: CallFalls(expansions, height))
  {
    AcyclicFalls(expansions, DiscoveredIn);
    AcyclicFalls(expansions, SemanticParent);
    AcyclicFalls(expansions, SourceCallParent);
    forall height
      ensures Falls(expansions, DiscoveredIn, height) <==> DiscoveredFalls(expansions, height)
      ensures Falls(expansions, SemanticParent, height) <==> SemanticFalls(expansions, height)
      ensures Falls(expansions, SourceCallParent, height) <==> CallFalls(expansions, height)
    {
    }
    hide RelationAcyclic;
    hide Falls;
    hide DiscoveredFalls;
    hide SemanticFalls;
    hide CallFalls;
  }

  lemma {:induction false} AcyclicFalls(expansions: seq<ExpansionNode>, relation: ExpansionNode -> Option<nat>)
    requires forall i :: 0 <= i < |expansions| ==> expansions[i].id == i
    ensures RelationAcyclic(expansions, relation) <==> exists height :: Falls(expansions, relation, height)
  {
    if RelationAcyclic(expansions, relation) {
      forall i | 0 <= i < |expansions|
        ensures ChainEnds(expansions, relation, i)
      {
        assert ChainEnds(expansions, relation, expansions[i].id);
      }
      var height := EndingFalls(expansions, relation);
    }
    if height :| Falls(expansions, relation, height) {
      forall i | 0 <= i < |expansions|
        ensures ChainEnds(expansions, relation, expansions[i].id)
      {
        FallingEnds(expansions, relation, height, i);
      }
    }
  }
}
