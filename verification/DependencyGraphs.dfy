/** The validating constructor of the dependency graph (src/dependency_graph.rs, lines 570-746). */
module DependencyGraphs {
  import opened Wrappers
  import opened Text
  import opened Ordering
  import opened GraphKeys
  import opened Grouping
  import opened DependencyTypes
  import opened ProofRelations
  import opened GraphShapes
  import opened Reachability
  import AllocationPaths
  import Survival
  import DG = DefinitionGraphs

  datatype DependencyGraph = DependencyGraph(
    definitions: DG.DefinitionGraph, expansions: seq<ExpansionNode>, proofs: seq<ProofNode>, monoNodes: seq<MonoNode>,
    edges: seq<DependencyEdge>, roots: seq<RootRecord>)

  datatype DependencyGraphError = InvalidExpansion | InvalidProof | InvalidMonoNode | InvalidEdge | InvalidRoot

  /* ---------- grouping edges ---------- */

  function SiteItems(edges: seq<DependencyEdge>): (items: seq<Observed<DependencyKey, ObservationSite>>)
    ensures |items| == |edges| && forall i :: 0 <= i < |edges| ==> items[i] == Observed(edges[i].key, edges[i].sites)
  {
    seq(|edges|, i requires 0 <= i < |edges| => Observed(edges[i].key, edges[i].sites))
  }

  function EvidenceItems(edges: seq<DependencyEdge>): (items: seq<Observed<DependencyKey, EvidenceOrigin>>)
    ensures |items| == |edges| && forall i :: 0 <= i < |edges| ==>
      items[i] == Observed(edges[i].key, [edges[i].evidence])
  {
    seq(|edges|, i requires 0 <= i < |edges| => Observed(edges[i].key, [edges[i].evidence]))
  }

  /** Every evidence seen for one connection. */
  function EvidenceFor(edges: seq<DependencyEdge>, key: DependencyKey): set<EvidenceOrigin> {
    set e | e in edges && e.key == key :: e.evidence
  }

  /** One kind of evidence stands for itself, several for `Multiple`. */
  function Combined(evidence: set<EvidenceOrigin>): EvidenceOrigin {
    if evidence == {Compiler} then Compiler
    else if evidence == {PatchedObserver} then PatchedObserver
    else if evidence == {Derived} then Derived
    else Multiple
  }

  lemma {:induction false} CombinedMeans(evidence: set<EvidenceOrigin>)
    ensures |evidence| == 1 ==> evidence == {Combined(evidence)}
    ensures |evidence| != 1 ==> Combined(evidence) == Multiple
  {
    if |evidence| == 1 {
      var e :| e in evidence;
      SmallerSubset({e}, evidence);
      assert evidence == {e};
      match e
      case Compiler =>
      case PatchedObserver => assert Compiler !in evidence;
      case Derived => assert Compiler !in evidence && PatchedObserver !in evidence;
      case Multiple => assert Compiler !in evidence && PatchedObserver !in evidence && Derived !in evidence;
    }
  }

  /** One edge per connection, in order, with the union of the sites and the combined evidence. */
  ghost predicate EdgesGrouped(edges: seq<DependencyEdge>, grouped: seq<DependencyEdge>) {
    && NormalForm(SiteItems(edges), SiteItems(grouped), DependencyLe, SiteLe)
    && forall i :: 0 <= i < |grouped| ==> grouped[i].evidence == Combined(EvidenceFor(edges, grouped[i].key))
  }

  method GroupEdges(edges: seq<DependencyEdge>) returns (grouped: seq<DependencyEdge>)
    ensures EdgesGrouped(edges, grouped)
  {
    DependencyOrder();
    SiteOrder();
    var sites := Group(SiteItems(edges), DependencyLe, SiteLe);
    var evidence := Merge(EvidenceItems(edges));
    grouped := [];
    hide Combined;
    hide EvidenceFor;
    for i := 0 to |sites|
      invariant |grouped| == i
      invariant forall k :: 0 <= k < i ==> grouped[k].key == sites[k].key && grouped[k].sites == sites[k].sites
      invariant forall k :: 0 <= k < i ==> grouped[k].evidence == Combined(EvidenceFor(edges, grouped[k].key))
    {
      var key := sites[i].key;
      EvidenceMerged(edges, sites, evidence, i);
      grouped := grouped + [DependencyEdge(key, sites[i].sites, Combined(evidence[key]))];
    }
    assert SiteItems(grouped) == sites;
  }

  lemma {:induction false} EvidenceMerged(edges: seq<DependencyEdge>,
                                          sites: seq<Observed<DependencyKey, ObservationSite>>,
                                          evidence: map<DependencyKey, set<EvidenceOrigin>>, i: nat)
    requires NormalForm(SiteItems(edges), sites, DependencyLe, SiteLe) && Merges(EvidenceItems(edges), evidence)
    requires i < |sites|
    ensures sites[i].key in evidence && evidence[sites[i].key] == EvidenceFor(edges, sites[i].key)
  {
    var key := sites[i].key;
    assert HasKey(sites, key);
    assert HasKey(SiteItems(edges), key);
    var k :| 0 <= k < |edges| && SiteItems(edges)[k].key == key;
    assert EvidenceItems(edges)[k].key == key;
    forall e
      ensures e in evidence[key] <==> e in EvidenceFor(edges, key)
    {
      EvidenceSeen(edges, key, e);
    }
  }

  lemma {:induction false} EvidenceSeen(edges: seq<DependencyEdge>, key: DependencyKey, e: EvidenceOrigin)
    ensures HasSite(EvidenceItems(edges), key, e) <==> e in EvidenceFor(edges, key)
  {
    if HasSite(EvidenceItems(edges), key, e) {
      var i :| 0 <= i < |edges| && EvidenceItems(edges)[i].key == key && e in EvidenceItems(edges)[i].sites;
      assert edges[i] in edges;
    }
    if e in EvidenceFor(edges, key) {
      var edge :| edge in edges && edge.key == key && edge.evidence == e;
      var i :| 0 <= i < |edges| && edges[i] == edge;
      assert EvidenceItems(edges)[i].key == key && e in EvidenceItems(edges)[i].sites;
    }
  }

  /* ---------- definition edges ---------- */

  function SourceSites(sites: seq<ByteRange>): (r: seq<ObservationSite>)
    ensures |r| == |sites| && forall i :: 0 <= i < |sites| ==> r[i] == Source(sites[i])
  {
    seq(|sites|, i requires 0 <= i < |sites| => Source(sites[i]))
  }

  /** `definition_edges`. */
  function DefinitionEdges(definitions: DG.DefinitionGraph): (edges: seq<DependencyEdge>)
    ensures |edges| == |definitions.edges|
    ensures forall i :: 0 <= i < |edges| ==>
      && edges[i].key
        == DependencyKey(DefinitionNode(definitions.edges[i].key.from), TargetNode(definitions.edges[i].key.to),
                         DefinitionDependency(definitions.edges[i].key.kind))
      && edges[i].sites == SourceSites(definitions.edges[i].sites)
      && edges[i].evidence == Compiler
  {
    seq(|definitions.edges|, i requires 0 <= i < |definitions.edges| =>
      DependencyEdge(
        DependencyKey(DefinitionNode(definitions.edges[i].key.from), TargetNode(definitions.edges[i].key.to),
                      DefinitionDependency(definitions.edges[i].key.kind)),
        SourceSites(definitions.edges[i].sites), Compiler))
  }

  /* ---------- sorted nodes ---------- */

  predicate ExpansionLe(a: ExpansionNode, b: ExpansionNode) { a.id <= b.id }

  predicate ProofLe(a: ProofNode, b: ProofNode) { a.id <= b.id }

  predicate MonoLe(a: MonoNode, b: MonoNode) { a.id <= b.id }

  function ExpansionId(node: ExpansionNode): nat { node.id }

  function ProofId(node: ProofNode): nat { node.id }

  function MonoId(node: MonoNode): nat { node.id }

  predicate Dense<T>(values: seq<T>, id: T -> nat) {
    forall i :: 0 <= i < |values| ==> id(values[i]) == i
  }

  function ExpansionKeys(nodes: seq<ExpansionNode>): (keys: seq<ExpansionKey>)
    ensures |keys| == |nodes| && forall i :: 0 <= i < |nodes| ==> keys[i] == nodes[i].key
  {
    seq(|nodes|, i requires 0 <= i < |nodes| => nodes[i].key)
  }

  function ProofNodeKeys(nodes: seq<ProofNode>): (keys: seq<ProofKey>)
    ensures |keys| == |nodes| && forall i :: 0 <= i < |nodes| ==> keys[i] == nodes[i].key
  {
    seq(|nodes|, i requires 0 <= i < |nodes| => nodes[i].key)
  }

  function MonoKeys(nodes: seq<MonoNode>): (keys: seq<MonoKey>)
    ensures |keys| == |nodes| && forall i :: 0 <= i < |nodes| ==> keys[i] == nodes[i].key
  {
    seq(|nodes|, i requires 0 <= i < |nodes| => nodes[i].key)
  }

  /* ---------- the checks ---------- */

  ghost predicate ExpansionsValid(nodes: seq<ExpansionNode>, definitions: DG.DefinitionGraph) {
    && Dense(nodes, ExpansionId)
    && Distinct(ExpansionKeys(nodes))
    && forall n :: n in nodes ==> ExpansionValid(n, |nodes|, definitions)
  }

  ghost predicate ProofsValid(nodes: seq<ProofNode>, definitions: DG.DefinitionGraph) {
    && Dense(nodes, ProofId)
    && Distinct(ProofNodeKeys(nodes))
    && forall n :: n in nodes ==> ProofValid(n, nodes, definitions)
  }

  ghost predicate MonosValid(nodes: seq<MonoNode>, definitions: DG.DefinitionGraph) {
    && Dense(nodes, MonoId)
    && Distinct(MonoKeys(nodes))
    && (forall n :: n in nodes ==> MonoValid(n, definitions))
    && GlobalAssemblyMatches(definitions, nodes)
  }

  ghost predicate EdgesValid(edges: seq<DependencyEdge>, g: DependencyGraph) {
    forall e :: e in edges ==> EdgeValid(e, g.definitions, |g.expansions|, |g.proofs|, |g.monoNodes|)
  }

  /** The monomorphic roots. */
  function MonoRoots(roots: seq<RootRecord>): seq<nat> {
    if roots == [] then []
    else
      var n := |roots| - 1;
      MonoRoots(roots[..n]) + if roots[n].node.MonoOf? then [roots[n].node.id] else []
  }

  ghost predicate MonosReached(g: DependencyGraph) {
    forall j :: 0 <= j < |g.monoNodes| ==> ReachedFrom(g.edges, MonoLink, MonoRoots(g.roots), j)
  }

  ghost predicate ProofsReached(g: DependencyGraph) {
    forall j :: 0 <= j < |g.proofs| ==> ProofReached(Indices(|g.monoNodes|), g.edges, j)
  }

  ghost predicate JoinsValid(g: DependencyGraph) {
    forall e :: e in g.edges ==> SelectionJoin(e, g.proofs, g.monoNodes, g.edges)
  }

  ghost predicate ExpansionsJoined(g: DependencyGraph) {
    && (forall n :: n in g.expansions ==> ExpansionEdgesValid(n, g.definitions, g.expansions, g.edges))
    && RelationsAcyclic(g.expansions)
    && (forall d :: d in g.definitions.definitions ==> GeneratedOnce(d, g.edges))
  }

  ghost predicate MaterializationsValid(g: DependencyGraph) {
    forall n :: n in g.monoNodes ==> MaterializationValid(n, g.edges)
  }

  /** The first check that fails on the raw edges `edges` and the candidate graph `g`, whose edges are grouped. */
  ghost function Verdict(edges: seq<DependencyEdge>, g: DependencyGraph): Option<DependencyGraphError> {
    if !ExpansionsValid(g.expansions, g.definitions) then Some(InvalidExpansion)
    else if !ProofsValid(g.proofs, g.definitions) then Some(InvalidProof)
    else if !MonosValid(g.monoNodes, g.definitions) then Some(InvalidMonoNode)
    else if !RootsValid(g.roots, g.definitions, g.monoNodes) then Some(InvalidRoot)
    else if !SlotsUnique(edges) then Some(InvalidProof)
    else if !EdgesValid(DefinitionEdges(g.definitions) + edges, g) then Some(InvalidEdge)
    else if !AllocationPaths.AllocationsValid(g.monoNodes, g.edges) then Some(InvalidMonoNode)
    else if !ExactRelations(g.proofs, g.edges) then Some(InvalidProof)
    else if !JoinsValid(g) then Some(InvalidProof)
    else if !MonosReached(g) then Some(InvalidMonoNode)
    else if !ProofsReached(g) then Some(InvalidProof)
    else if !ExpansionsJoined(g) then Some(InvalidExpansion)
    else if !MaterializationsValid(g) then Some(InvalidMonoNode)
    else None
  }

  /** The candidate graph of some parts: nodes and roots sorted, definition edges and given edges grouped. */
  ghost predicate Candidate(definitions: DG.DefinitionGraph, expansions: seq<ExpansionNode>, proofs: seq<ProofNode>,
                            monoNodes: seq<MonoNode>, edges: seq<DependencyEdge>, roots: seq<RootRecord>,
                            g: DependencyGraph)
  {
    && g.definitions == definitions
    && g.expansions == SortBy(expansions, ExpansionLe)
    && g.proofs == SortBy(proofs, ProofLe)
    && g.monoNodes == SortBy(monoNodes, MonoLe)
    && g.roots == SortBy(roots, RootLe)
    && EdgesGrouped(DefinitionEdges(definitions) + edges, g.edges)
  }

  /* ---------- running the checks ---------- */

  method CheckExpansions(nodes: seq<ExpansionNode>, definitions: DG.DefinitionGraph) returns (ok: bool)
    ensures ok <==> ExpansionsValid(nodes, definitions)
  {
    DistinctCount(ExpansionKeys(nodes));
    ok := && Dense(nodes, ExpansionId)
          && |Elements(ExpansionKeys(nodes))| == |nodes|
          && forall n | n in nodes :: ExpansionValid(n, |nodes|, definitions);
  }

  method CheckProofs(nodes: seq<ProofNode>, definitions: DG.DefinitionGraph) returns (ok: bool)
    ensures ok <==> ProofsValid(nodes, definitions)
  {
    DistinctCount(ProofNodeKeys(nodes));
    ok := && Dense(nodes, ProofId)
          && |Elements(ProofNodeKeys(nodes))| == |nodes|
          && forall n | n in nodes :: ProofValid(n, nodes, definitions);
  }

  method CheckMonos(nodes: seq<MonoNode>, definitions: DG.DefinitionGraph) returns (ok: bool)
    ensures ok <==> MonosValid(nodes, definitions)
  {
    DistinctCount(MonoKeys(nodes));
    ok := && Dense(nodes, MonoId)
          && |Elements(MonoKeys(nodes))| == |nodes|
          && (forall n | n in nodes :: MonoValid(n, definitions))
          && GlobalAssemblyMatches(definitions, nodes);
  }

  lemma {:induction false} RootIdsValid(g: DependencyGraph, root: nat)
    requires RootsValid(g.roots, g.definitions, g.monoNodes) && root in MonoRoots(g.roots)
    ensures root < |g.monoNodes|
  {
    MonoRootRecord(g.roots, root);
  }

  lemma {:induction false} MonoRootRecord(roots: seq<RootRecord>, root: nat)
    requires root in MonoRoots(roots)
    ensures exists r :: r in roots && r.node == MonoOf(root)
  {
    var n := |roots| - 1;
    if roots[n].node != MonoOf(root) {
      MonoRootRecord(roots[..n], root);
    }
  }

  /** Comparing sizes decides whether every node is reached. */
  lemma {:induction false} AllReached(found: set<nat>, n: nat)
    requires forall j :: j in found ==> j < n
    ensures |found| == n <==> forall j: nat :: j < n ==> j in found
  {
    if |found| == n && found != Indices(n) {
      SmallerSubset(found, Indices(n));
    }
    if forall j: nat :: j < n ==> j in found {
      assert found == Indices(n);
    }
  }

  lemma {:induction false} GroupedEdgeValid(edges: seq<DependencyEdge>, g: DependencyGraph)
    requires EdgesGrouped(edges, g.edges) && EdgesValid(edges, g)
    ensures EdgesValid(g.edges, g)
  {
    forall e | e in g.edges
      ensures EdgeValid(e, g.definitions, |g.expansions|, |g.proofs|, |g.monoNodes|)
    {
      var i :| 0 <= i < |g.edges| && g.edges[i] == e;
      GroupedOne(edges, g.edges, i);
    }
  }

  /** A grouped edge stands for an input edge with its end points and kind. */
  lemma {:induction false} GroupedOne(edges: seq<DependencyEdge>, grouped: seq<DependencyEdge>, i: nat)
    requires EdgesGrouped(edges, grouped) && i < |grouped|
    ensures exists e :: e in edges && e.key == grouped[i].key && (grouped[i].sites == [] ==> e.sites == [])
  {
    assert SiteItems(grouped)[i].key == grouped[i].key;
    assert HasKey(SiteItems(grouped), grouped[i].key);
    assert HasKey(SiteItems(edges), grouped[i].key);
    var k :| 0 <= k < |edges| && SiteItems(edges)[k].key == grouped[i].key;
    if edges[k].sites != [] {
      var site := edges[k].sites[0];
      assert site in SiteItems(edges)[k].sites;
      assert HasSite(SiteItems(edges), SiteItems(grouped)[i].key, site);
      assert site in SiteItems(grouped)[i].sites;
    }
    assert edges[k] in edges;
  }

  method CheckMonosReached(g: DependencyGraph) returns (ok: bool, reached: set<nat>)
    requires EdgesValid(g.edges, g) && RootsValid(g.roots, g.definitions, g.monoNodes)
    ensures ok <==> MonosReached(g)
    ensures ok ==> reached == Indices(|g.monoNodes|)
  {
    reached := ReachableMonoNodes(MonoRoots(g.roots), g.edges);
    forall j | j in reached
      ensures j < |g.monoNodes|
    {
      ReachedValid(g, j);
    }
    AllReached(reached, |g.monoNodes|);
    ok := |reached| == |g.monoNodes|;
  }

  lemma {:induction false} ReachedValid(g: DependencyGraph, j: nat)
    requires EdgesValid(g.edges, g) && RootsValid(g.roots, g.definitions, g.monoNodes)
    requires ReachedFrom(g.edges, MonoLink, MonoRoots(g.roots), j)
    ensures j < |g.monoNodes|
  {
    var step := StepBy(g.edges, MonoLink);
    var s :| s in MonoRoots(g.roots) && Paths.Reaches(step, s, j);
    RootIdsValid(g, s);
    forall a: nat, b: nat | step(a, b)
      ensures b < |g.monoNodes|
    {
      var e :| e in g.edges && MonoLink(e) == Some((a, b));
      assert EdgeValid(e, g.definitions, |g.expansions|, |g.proofs|, |g.monoNodes|);
    }
    Paths.ClosedHolds(step, (k: nat) => k < |g.monoNodes|, s, j);
  }

  method CheckProofsReached(g: DependencyGraph, monos: set<nat>) returns (ok: bool)
    requires EdgesValid(g.edges, g) && monos == Indices(|g.monoNodes|)
    ensures ok <==> ProofsReached(g)
  {
    var reached := ReachableProofNodes(monos, g.edges);
    forall j | j in reached
      ensures j < |g.proofs|
    {
      ProofReachedValid(g, j);
    }
    AllReached(reached, |g.proofs|);
    ok := |reached| == |g.proofs|;
  }

  lemma {:induction false} ProofReachedValid(g: DependencyGraph, j: nat)
    requires EdgesValid(g.edges, g) && ProofReached(Indices(|g.monoNodes|), g.edges, j)
    ensures j < |g.proofs|
  {
    var step := StepBy(g.edges, ProofLink);
    var s :| Selected(Indices(|g.monoNodes|), g.edges, s) && Paths.Reaches(step, s, j);
    var e :| e in g.edges && Selects(Indices(|g.monoNodes|), e, s);
    assert EdgeValid(e, g.definitions, |g.expansions|, |g.proofs|, |g.monoNodes|);
    forall a: nat, b: nat | step(a, b)
      ensures b < |g.proofs|
    {
      var e :| e in g.edges && ProofLink(e) == Some((a, b));
      assert EdgeValid(e, g.definitions, |g.expansions|, |g.proofs|, |g.monoNodes|);
    }
    Paths.ClosedHolds(step, (k: nat) => k < |g.proofs|, s, j);
  }

  method CheckExpansionsJoined(g: DependencyGraph) returns (ok: bool)
    ensures ok <==> ExpansionsJoined(g)
  {
    if exists n | n in g.expansions :: !ExpansionEdgesValid(n, g.definitions, g.expansions, g.edges) {
      return false;
    }
    var acyclic := ExpansionRelationsAreAcyclic(g.expansions);
    if !acyclic {
      return false;
    }
    ok := forall d | d in g.definitions.definitions :: GeneratedOnce(d, g.edges);
  }

  /** The checks before grouping. */
  method CheckParts(edges: seq<DependencyEdge>, g: DependencyGraph) returns (error: Option<DependencyGraphError>)
    ensures error.Some? ==> Verdict(edges, g) == error
    ensures error.None? ==>
      && ExpansionsValid(g.expansions, g.definitions) && ProofsValid(g.proofs, g.definitions)
      && MonosValid(g.monoNodes, g.definitions)
      && RootsValid(g.roots, g.definitions, g.monoNodes) && SlotsUnique(edges)
      && EdgesValid(DefinitionEdges(g.definitions) + edges, g)
  {
    hide ExpansionsValid;
    hide ProofsValid;
    hide MonosValid;
    hide RootsValid;
    hide SlotsUnique;
    hide EdgeValid;
    var ok := CheckExpansions(g.expansions, g.definitions);
    if !ok { return Some(InvalidExpansion); }
    ok := CheckProofs(g.proofs, g.definitions);
    if !ok { return Some(InvalidProof); }
    ok := CheckMonos(g.monoNodes, g.definitions);
    if !ok { return Some(InvalidMonoNode); }
    if !RootsValid(g.roots, g.definitions, g.monoNodes) { return Some(InvalidRoot); }
    ok := ProofRelationSlotsAreUnique(edges);
    if !ok { return Some(InvalidProof); }
    if exists e | e in DefinitionEdges(g.definitions) + edges ::
      !EdgeValid(e, g.definitions, |g.expansions|, |g.proofs|, |g.monoNodes|) {
      return Some(InvalidEdge);
    }
    error := None;
  }

  /** The checks on the grouped edges. */
  method CheckGrouped(edges: seq<DependencyEdge>, g: DependencyGraph) returns (error: Option<DependencyGraphError>)
    requires ExpansionsValid(g.expansions, g.definitions) && ProofsValid(g.proofs, g.definitions)
    requires MonosValid(g.monoNodes, g.definitions)
    requires RootsValid(g.roots, g.definitions, g.monoNodes) && SlotsUnique(edges)
    requires EdgesValid(DefinitionEdges(g.definitions) + edges, g)
    requires EdgesValid(g.edges, g)
    ensures error == Verdict(edges, g)
  {
    hide ExpansionsValid;
    hide ProofsValid;
    hide MonosValid;
    hide RootsValid;
    hide SlotsUnique;
    hide EdgesValid;
    hide MonosReached;
    hide ProofsReached;
    hide ExpansionsJoined;
    var ok := AllocationPaths.ValidAllocationPaths(g.monoNodes, g.edges);
    if !ok { return Some(InvalidMonoNode); }
    ok := ValidProofRelations(g.proofs, g.edges);
    if !ok { return Some(InvalidProof); }
    if exists e | e in g.edges :: !SelectionJoin(e, g.proofs, g.monoNodes, g.edges) { return Some(InvalidProof); }
    var reached;
    ok, reached := CheckMonosReached(g);
    if !ok { return Some(InvalidMonoNode); }
    ok := CheckProofsReached(g, reached);
    if !ok { return Some(InvalidProof); }
    ok := CheckExpansionsJoined(g);
    if !ok { return Some(InvalidExpansion); }
    if exists n | n in g.monoNodes :: !MaterializationValid(n, g.edges) { return Some(InvalidMonoNode); }
    error := None;
  }

  /** `DependencyGraph::new`: the candidate graph, or the error of the first check it fails. */
  method New(definitions: DG.DefinitionGraph, expansions: seq<ExpansionNode>, proofs: seq<ProofNode>,
             monoNodes: seq<MonoNode>, edges: seq<DependencyEdge>, roots: seq<RootRecord>)
    returns (r: Result<DependencyGraph, DependencyGraphError>)
    ensures r.Ok? ==>
      Candidate(definitions, expansions, proofs, monoNodes, edges, roots, r.value) && Verdict(edges, r.value).None?
    ensures r.Err? ==> exists g ::
      Candidate(definitions, expansions, proofs, monoNodes, edges, roots, g) && Verdict(edges, g) == Some(r.error)
  {
    hide Verdict;
    hide EdgesGrouped;
    var all := DefinitionEdges(definitions) + edges;
    var grouped := GroupEdges(all);
    var g :=
      DependencyGraph(definitions, SortBy(expansions, ExpansionLe), SortBy(proofs, ProofLe), SortBy(monoNodes, MonoLe),
                             grouped, SortBy(roots, RootLe));
    assert Candidate(definitions, expansions, proofs, monoNodes, edges, roots, g);
    var error := CheckParts(edges, g);
    if error.Some? {
      return Err(error.value);
    }
    GroupedEdgeValid(all, g);
    error := CheckGrouped(edges, g);
    if error.Some? {
      return Err(error.value);
    }
    r := Ok(g);
  }

  /* ---------- the order of the parts does not matter ---------- */

  lemma {:induction false} ClimbsFromZero(ids: seq<nat>, k: nat)
    requires k < |ids| && forall i, j :: 0 <= i < j < |ids| ==> ids[i] < ids[j]
    ensures ids[k] >= k
    decreases k
  {
    if k > 0 {
      ClimbsFromZero(ids, k - 1);
    }
  }

  lemma {:induction false} StaysBelow(ids: seq<nat>, k: nat)
    requires k < |ids| && (forall i, j :: 0 <= i < j < |ids| ==> ids[i] < ids[j]) && forall i :: 0 <= i < |ids| ==>
      ids[i] < |ids|
    ensures ids[k] <= k
    decreases |ids| - k
  {
    if k + 1 < |ids| {
      StaysBelow(ids, k + 1);
    }
  }

  /** If one list is dense, any rearrangement of it in id order is the same list. */
  lemma {:induction false} DenseOrder<T(!new)>(s: seq<T>, t: seq<T>, id: T -> nat)
    requires Dense(s, id) && multiset(s) == multiset(t)
    requires forall i, j :: 0 <= i < j < |t| ==> id(t[i]) <= id(t[j])
    ensures s == t
  {
    SameElements(s, t);
    assert Distinct(s) by {
      forall i, j | 0 <= i < j < |s|
        ensures s[i] != s[j]
      {
        assert id(s[i]) == i && id(s[j]) == j;
      }
    }
    DistinctStays(s, t);
    var ids := seq(|t|, k requires 0 <= k < |t| => id(t[k]));
    forall k | 0 <= k < |t|
      ensures ids[k] < |t| && t[k] == s[ids[k]]
    {
      assert t[k] in s;
      var m :| 0 <= m < |s| && s[m] == t[k];
    }
    forall i, j | 0 <= i < j < |ids|
      ensures ids[i] < ids[j]
    {
      assert t[i] != t[j];
    }
    forall k | 0 <= k < |t|
      ensures t[k] == s[k]
    {
      ClimbsFromZero(ids, k);
      StaysBelow(ids, k);
    }
  }

  lemma {:induction false} SortedAlike<T(!new)>(a: seq<T>, b: seq<T>, le: (T, T) -> bool, id: T -> nat)
    requires TotalPreorder(le) && multiset(a) == multiset(b)
    requires forall x, y :: le(x, y) <==> id(x) <= id(y)
    ensures Dense(SortBy(a, le), id) <==> Dense(SortBy(b, le), id)
    ensures Dense(SortBy(a, le), id) ==> SortBy(a, le) == SortBy(b, le)
  {
    SortSorts(a, le);
    SortSorts(b, le);
    if Dense(SortBy(a, le), id) {
      DenseOrder(SortBy(a, le), SortBy(b, le), id);
    }
    if Dense(SortBy(b, le), id) {
      DenseOrder(SortBy(b, le), SortBy(a, le), id);
    }
  }

  /** Sharing a slot is a property of the collection of edges. */
  lemma {:induction false} SlotsReordered(a: seq<DependencyEdge>, b: seq<DependencyEdge>)
    requires multiset(a) == multiset(b) && SlotsUnique(a)
    ensures SlotsUnique(b)
  {
    SameElements(a, b);
    forall i, j | 0 <= i < j < |b| && b[i].key.kind.ProofRelation? && b[j].key.kind.ProofRelation?
      ensures SlotKey(b[i]) != SlotKey(b[j])
    {
      if b[i] == b[j] {
        TwiceInMultiset(b, i, j);
        UniqueOnce(a, b[i]);
      } else {
        assert b[i] in a && b[j] in a;
        var k :| 0 <= k < |a| && a[k] == b[i];
        var l :| 0 <= l < |a| && a[l] == b[j];
      }
    }
  }

  lemma {:induction false} UniqueOnce(a: seq<DependencyEdge>, e: DependencyEdge)
    requires SlotsUnique(a) && e.key.kind.ProofRelation?
    ensures multiset(a)[e] <= 1
    decreases |a|
  {
    if a != [] {
      var n := |a| - 1;
      DropLastMultiset(a);
      UniqueOnce(a[..n], e);
      if a[n] == e {
        assert e !in a[..n];
      }
    }
  }

  lemma {:induction false} SiteItemsReordered(a: seq<DependencyEdge>, b: seq<DependencyEdge>)
    requires forall e :: e in a <==> e in b
    ensures SameObservations(SiteItems(a), SiteItems(b))
    ensures forall key :: EvidenceFor(a, key) == EvidenceFor(b, key)
  {
    forall x
      ensures x in SiteItems(a) <==> x in SiteItems(b)
    {
      if x in SiteItems(a) { ItemMoves(a, b, x); }
      if x in SiteItems(b) { ItemMoves(b, a, x); }
    }
    PermutationObserves(SiteItems(a), SiteItems(b));
  }

  lemma {:induction false} ItemMoves(a: seq<DependencyEdge>, b: seq<DependencyEdge>,
                                     x: Observed<DependencyKey, ObservationSite>)
    requires (forall e :: e in a <==> e in b) && x in SiteItems(a)
    ensures x in SiteItems(b)
  {
    var i :| 0 <= i < |a| && SiteItems(a)[i] == x;
    assert a[i] in b;
    var j :| 0 <= j < |b| && b[j] == a[i];
    assert SiteItems(b)[j] == x;
  }

  /** The grouped form depends on the observations and the evidence alone. */
  lemma {:induction false} GroupedUnique(a: seq<DependencyEdge>, b: seq<DependencyEdge>, ga: seq<DependencyEdge>,
                                         gb: seq<DependencyEdge>)
    requires EdgesGrouped(a, ga) && EdgesGrouped(b, gb)
    requires SameObservations(SiteItems(a), SiteItems(b))
    requires forall key :: HasKey(SiteItems(a), key) ==> Combined(EvidenceFor(a, key)) == Combined(EvidenceFor(b, key))
    ensures ga == gb
  {
    DependencyOrder();
    SiteOrder();
    NormalFormUnique(SiteItems(a), SiteItems(b), SiteItems(ga), SiteItems(gb), DependencyLe, SiteLe);
    assert |SiteItems(ga)| == |ga| && |SiteItems(gb)| == |gb|;
    forall i | 0 <= i < |ga|
      ensures ga[i] == gb[i]
    {
      assert SiteItems(ga)[i] == SiteItems(gb)[i];
      assert SiteItems(ga)[i].key == ga[i].key;
      assert HasKey(SiteItems(ga), ga[i].key);
    }
  }

  lemma {:induction false} NodeOrders()
    ensures TotalPreorder(ExpansionLe) && TotalPreorder(ProofLe) && TotalPreorder(MonoLe)
  {
  }

  lemma {:induction false} AppendedMembers(d: seq<DependencyEdge>, a: seq<DependencyEdge>, b: seq<DependencyEdge>)
    requires multiset(a) == multiset(b)
    ensures forall e :: e in d + a <==> e in d + b
  {
    SameElements(a, b);
  }

  lemma {:induction false} EdgesReordered(definitions: DG.DefinitionGraph, a: seq<DependencyEdge>,
                                          b: seq<DependencyEdge>, g: DependencyGraph)
    requires multiset(a) == multiset(b)
    ensures SlotsUnique(a) <==> SlotsUnique(b)
    ensures EdgesValid(DefinitionEdges(definitions) + a, g) <==> EdgesValid(DefinitionEdges(definitions) + b, g)
  {
    hide SlotsUnique;
    if SlotsUnique(a) { SlotsReordered(a, b); }
    if SlotsUnique(b) { SlotsReordered(b, a); }
    AppendedMembers(DefinitionEdges(definitions), a, b);
  }

  /** Reordering nodes, edges and roots changes neither the verdict nor the graph. */
  lemma {:induction false} OrderIrrelevant(definitions: DG.DefinitionGraph, expansions: seq<ExpansionNode>,
                                           proofs: seq<ProofNode>, monoNodes: seq<MonoNode>,
                                           edges: seq<DependencyEdge>, roots: seq<RootRecord>, g: DependencyGraph,
                                           expansions': seq<ExpansionNode>, proofs': seq<ProofNode>,
                                           monoNodes': seq<MonoNode>, edges': seq<DependencyEdge>,
                                           roots': seq<RootRecord>, g': DependencyGraph)
    requires Candidate(definitions, expansions, proofs, monoNodes, edges, roots, g)
    requires Candidate(definitions, expansions', proofs', monoNodes', edges', roots', g')
    requires multiset(expansions) == multiset(expansions') && multiset(proofs) == multiset(proofs')
    requires multiset(monoNodes) == multiset(monoNodes') && multiset(edges) == multiset(edges')
    requires multiset(roots) == multiset(roots')
    ensures Verdict(edges, g) == Verdict(edges', g')
    ensures Verdict(edges, g).None? ==> g == g'
  {
    hide Verdict;
    hide EdgesGrouped;
    NodeOrders();
    SortedAlike(expansions, expansions', ExpansionLe, ExpansionId);
    SortedAlike(proofs, proofs', ProofLe, ProofId);
    SortedAlike(monoNodes, monoNodes', MonoLe, MonoId);
    RootOrder();
    SortPermutation(roots, roots', RootLe);
    AppendedMembers(DefinitionEdges(definitions), edges, edges');
    var all, all' := DefinitionEdges(definitions) + edges, DefinitionEdges(definitions) + edges';
    SiteItemsReordered(all, all');
    GroupedUnique(all, all', g.edges, g'.edges);
    VerdictReordered(edges, edges', g, g');
  }

  lemma {:induction false} VerdictReordered(edges: seq<DependencyEdge>, edges': seq<DependencyEdge>,
                                            g: DependencyGraph, g': DependencyGraph)
    requires g'.definitions == g.definitions && g'.edges == g.edges && g'.roots == g.roots
    requires multiset(edges) == multiset(edges')
    requires Dense(g.expansions, ExpansionId) <==> Dense(g'.expansions, ExpansionId)
    requires Dense(g.proofs, ProofId) <==> Dense(g'.proofs, ProofId)
    requires Dense(g.monoNodes, MonoId) <==> Dense(g'.monoNodes, MonoId)
    requires Dense(g.expansions, ExpansionId) ==> g.expansions == g'.expansions
    requires Dense(g.proofs, ProofId) ==> g.proofs == g'.proofs
    requires Dense(g.monoNodes, MonoId) ==> g.monoNodes == g'.monoNodes
    ensures Verdict(edges, g) == Verdict(edges', g')
    ensures Verdict(edges, g).None? ==> g == g'
  {
    hide ExpansionValid;
    hide ProofValid;
    hide MonoValid;
    hide GlobalAssemblyMatches;
    hide RootsValid;
    hide SlotsUnique;
    hide EdgesValid;
    hide Distinct;
    hide Dense;
    EdgesReordered(g.definitions, edges, edges', g);
  }

  /* ---------- feeding a graph back ---------- */

  lemma {:induction false} DefinitionEdgeKey(definitions: DG.DefinitionGraph, e: DependencyEdge)
    requires e in DefinitionEdges(definitions)
    ensures e.evidence == Compiler && e.key.kind.DefinitionDependency?
  {
  }

  lemma {:induction false} EvidenceConcat(d: seq<DependencyEdge>, a: seq<DependencyEdge>, key: DependencyKey)
    ensures EvidenceFor(d + a, key) == EvidenceFor(d, key) + EvidenceFor(a, key)
  {
    forall x
      ensures x in EvidenceFor(d + a, key) <==> x in EvidenceFor(d, key) || x in EvidenceFor(a, key)
    {
      if x in EvidenceFor(d + a, key) {
        var e :| e in d + a && e.key == key && e.evidence == x;
        assert e in d || e in a;
      }
      if x in EvidenceFor(d, key) {
        var e :| e in d && e.key == key && e.evidence == x;
        assert e in d + a;
      }
      if x in EvidenceFor(a, key) {
        var e :| e in a && e.key == key && e.evidence == x;
        assert e in d + a;
      }
    }
  }

  /** A connection's evidence in the grouped form is its combined evidence. */
  lemma {:induction false} GroupedEvidence(edges: seq<DependencyEdge>, grouped: seq<DependencyEdge>,
                                           key: DependencyKey)
    requires EdgesGrouped(edges, grouped) && HasKey(SiteItems(edges), key)
    ensures EvidenceFor(grouped, key) == {Combined(EvidenceFor(edges, key))}
  {
    assert HasKey(SiteItems(grouped), key);
    var i :| 0 <= i < |grouped| && SiteItems(grouped)[i].key == key;
    assert grouped[i] in grouped && grouped[i].key == key;
    forall e | e in grouped && e.key == key
      ensures e.evidence == Combined(EvidenceFor(edges, key))
    {
      var j :| 0 <= j < |grouped| && grouped[j] == e;
    }
  }

  /** Adding the definition edges a second time leaves the combined evidence alone. */
  lemma {:induction false} EvidenceAgain(d: seq<DependencyEdge>, edges: seq<DependencyEdge>,
                                         grouped: seq<DependencyEdge>, key: DependencyKey)
    requires forall e :: e in d ==> e.evidence == Compiler
    requires EdgesGrouped(d + edges, grouped) && HasKey(SiteItems(d + edges), key)
    ensures Combined(EvidenceFor(d + grouped, key)) == Combined(EvidenceFor(d + edges, key))
  {
    hide EvidenceFor;
    hide EdgesGrouped;
    hide HasKey;
    hide Combined;
    GroupedEvidence(d + edges, grouped, key);
    EvidenceConcat(d, grouped, key);
    EvidenceConcat(d, edges, key);
    CompilerOnly(d, key);
    JoinAgain(EvidenceFor(d, key), EvidenceFor(d + edges, key), EvidenceFor(grouped, key));
  }

  lemma {:induction false} CompilerOnly(d: seq<DependencyEdge>, key: DependencyKey)
    requires forall e :: e in d ==> e.evidence == Compiler
    ensures EvidenceFor(d, key) <= {Compiler}
  {
  }

  lemma {:induction false} JoinAgain(fromDefinitions: set<EvidenceOrigin>, before: set<EvidenceOrigin>,
                                     grouped: set<EvidenceOrigin>)
    requires fromDefinitions <= {Compiler} && fromDefinitions <= before
    requires grouped == {Combined(before)}
    ensures Combined(fromDefinitions + grouped) == Combined(before)
  {
    var combined := Combined(before);
    CombinedMeans(before);
    CombinedMeans(grouped);
    if fromDefinitions == {} {
      assert fromDefinitions + grouped == grouped;
    } else {
      assert fromDefinitions == {Compiler} && Compiler in before;
      CompilerJoins(combined);
      assert fromDefinitions + grouped == {Compiler, combined};
    }
  }

  lemma {:induction false} CompilerJoins(e: EvidenceOrigin)
    requires e == Compiler || e == Multiple
    ensures Combined({Compiler, e}) == e
  {
    if e == Compiler {
      assert {Compiler, e} == {Compiler};
    } else {
      assert Multiple in {Compiler, e} && Compiler in {Compiler, e};
      assert {Compiler, e} != {PatchedObserver} && {Compiler, e} != {Derived};
    }
  }

  lemma {:induction false} ItemsConcat(d: seq<DependencyEdge>, a: seq<DependencyEdge>)
    ensures SiteItems(d + a) == SiteItems(d) + SiteItems(a)
  {
  }

  lemma {:induction false} SeenInEither(d: seq<DependencyEdge>, a: seq<DependencyEdge>, key: DependencyKey)
    ensures HasKey(SiteItems(d + a), key) <==> HasKey(SiteItems(d), key) || HasKey(SiteItems(a), key)
  {
    ItemsConcat(d, a);
    var x, y, z := SiteItems(d), SiteItems(a), SiteItems(d) + SiteItems(a);
    if HasKey(x, key) {
      var i :| 0 <= i < |x| && x[i].key == key;
      assert z[i].key == key;
    }
    if HasKey(y, key) {
      var i :| 0 <= i < |y| && y[i].key == key;
      assert z[|x| + i].key == key;
    }
  }

  lemma {:induction false} SiteInEither(d: seq<DependencyEdge>, a: seq<DependencyEdge>, key: DependencyKey,
                                        site: ObservationSite)
    ensures HasSite(SiteItems(d + a), key, site)
      <==> HasSite(SiteItems(d), key, site) || HasSite(SiteItems(a), key, site)
  {
    ItemsConcat(d, a);
    var x, y, z := SiteItems(d), SiteItems(a), SiteItems(d) + SiteItems(a);
    if HasSite(x, key, site) {
      var i :| 0 <= i < |x| && x[i].key == key && site in x[i].sites;
      assert z[i].key == key;
    }
    if HasSite(y, key, site) {
      var i :| 0 <= i < |y| && y[i].key == key && site in y[i].sites;
      assert z[|x| + i].key == key;
    }
  }

  lemma {:induction false} ObservationsAgain(d: seq<DependencyEdge>, edges: seq<DependencyEdge>,
                                             grouped: seq<DependencyEdge>)
    requires EdgesGrouped(d + edges, grouped)
    ensures SameObservations(SiteItems(d + edges), SiteItems(d + grouped))
  {
    hide HasSite;
    hide HasKey;
    NormalFormObserves(SiteItems(d + edges), SiteItems(grouped), DependencyLe, SiteLe);
    forall key
      ensures HasKey(SiteItems(d + edges), key) <==> HasKey(SiteItems(d + grouped), key)
    {
      SeenInEither(d, edges, key);
      SeenInEither(d, grouped, key);
    }
    forall key, site
      ensures HasSite(SiteItems(d + edges), key, site) <==> HasSite(SiteItems(d + grouped), key, site)
    {
      SiteInEither(d, edges, key, site);
      SiteInEither(d, grouped, key, site);
    }
  }

  lemma {:induction false} SlotsStayUnique(definitions: DG.DefinitionGraph, edges: seq<DependencyEdge>,
                                           grouped: seq<DependencyEdge>)
    requires EdgesGrouped(DefinitionEdges(definitions) + edges, grouped) && SlotsUnique(edges)
    ensures SlotsUnique(grouped)
  {
    forall i, j | 0 <= i < j < |grouped| && grouped[i].key.kind.ProofRelation? && grouped[j].key.kind.ProofRelation?
      ensures SlotKey(grouped[i]) != SlotKey(grouped[j])
    {
      var a := RelationInput(definitions, edges, grouped, i);
      var b := RelationInput(definitions, edges, grouped, j);
      assert SiteItems(grouped)[i].key != SiteItems(grouped)[j].key;
      assert a != b;
    }
  }

  lemma {:induction false} RelationInput(definitions: DG.DefinitionGraph, edges: seq<DependencyEdge>,
                                         grouped: seq<DependencyEdge>, i: nat) returns (a: nat)
    requires EdgesGrouped(DefinitionEdges(definitions) + edges, grouped)
    requires i < |grouped| && grouped[i].key.kind.ProofRelation?
    ensures a < |edges| && edges[a].key == grouped[i].key
  {
    GroupedOne(DefinitionEdges(definitions) + edges, grouped, i);
    var e :| e in DefinitionEdges(definitions) + edges && e.key == grouped[i].key;
    if e in DefinitionEdges(definitions) { DefinitionEdgeKey(definitions, e); }
    a :| 0 <= a < |edges| && edges[a] == e;
  }

  /** An accepted graph, fed back with its own edges, is accepted again unchanged, although its definition edges
      are added a second time. */
  lemma {:induction false} Idempotent(definitions: DG.DefinitionGraph, expansions: seq<ExpansionNode>,
                                      proofs: seq<ProofNode>, monoNodes: seq<MonoNode>, edges: seq<DependencyEdge>,
                                      roots: seq<RootRecord>, g: DependencyGraph, again: DependencyGraph)
    requires Candidate(definitions, expansions, proofs, monoNodes, edges, roots, g) && Verdict(edges, g).None?
    requires Candidate(g.definitions, g.expansions, g.proofs, g.monoNodes, g.edges, g.roots, again)
    ensures Verdict(g.edges, again).None? && again == g
  {
    hide Verdict;
    hide EdgesGrouped;
    var d := DefinitionEdges(definitions);
    SortedTwice(expansions, proofs, monoNodes, roots);
    forall e | e in d
      ensures e.evidence == Compiler
    {
      DefinitionEdgeKey(definitions, e);
    }
    ObservationsAgain(d, edges, g.edges);
    forall key | HasKey(SiteItems(d + edges), key)
      ensures Combined(EvidenceFor(d + edges, key)) == Combined(EvidenceFor(d + g.edges, key))
    {
      EvidenceAgain(d, edges, g.edges, key);
    }
    GroupedUnique(d + edges, d + g.edges, g.edges, again.edges);
    SlotsKept(definitions, edges, g);
    VerdictAgain(edges, g);
  }

  lemma {:induction false} SlotsKept(definitions: DG.DefinitionGraph, edges: seq<DependencyEdge>, g: DependencyGraph)
    requires Verdict(edges, g).None? && g.definitions == definitions
    requires EdgesGrouped(DefinitionEdges(definitions) + edges, g.edges)
    ensures SlotsUnique(g.edges)
    ensures EdgesValid(DefinitionEdges(definitions) + g.edges, g)
  {
    hide Verdict;
    VerdictParts(edges, g);
    SlotsStayUnique(definitions, edges, g.edges);
    GroupedEdgeValid(DefinitionEdges(definitions) + edges, g);
    hide EdgeValid;
    forall e | e in DefinitionEdges(definitions)
      ensures EdgeValid(e, g.definitions, |g.expansions|, |g.proofs|, |g.monoNodes|)
    {
      assert e in DefinitionEdges(definitions) + edges;
    }
  }

  lemma {:induction false} VerdictParts(edges: seq<DependencyEdge>, g: DependencyGraph)
    requires Verdict(edges, g).None?
    ensures SlotsUnique(edges) && EdgesValid(DefinitionEdges(g.definitions) + edges, g)
  {
    hide ExpansionsValid;
    hide ProofsValid;
    hide MonosValid;
    hide RootsValid;
    hide SlotsUnique;
    hide EdgesValid;
  }

  lemma {:induction false} VerdictAgain(edges: seq<DependencyEdge>, g: DependencyGraph)
    requires Verdict(edges, g).None? && SlotsUnique(g.edges) && EdgesValid(DefinitionEdges(g.definitions) + g.edges, g)
    ensures Verdict(g.edges, g).None?
  {
    hide ExpansionsValid;
    hide ProofsValid;
    hide MonosValid;
    hide RootsValid;
    hide SlotsUnique;
    hide EdgesValid;
  }

  lemma {:induction false} SortedTwice(expansions: seq<ExpansionNode>, proofs: seq<ProofNode>,
                                       monoNodes: seq<MonoNode>, roots: seq<RootRecord>)
    ensures SortBy(SortBy(expansions, ExpansionLe), ExpansionLe) == SortBy(expansions, ExpansionLe)
    ensures SortBy(SortBy(proofs, ProofLe), ProofLe) == SortBy(proofs, ProofLe)
    ensures SortBy(SortBy(monoNodes, MonoLe), MonoLe) == SortBy(monoNodes, MonoLe)
    ensures SortBy(SortBy(roots, RootLe), RootLe) == SortBy(roots, RootLe)
  {
    NodeOrders();
    RootOrder();
    SortAgain(expansions, ExpansionLe);
    SortAgain(proofs, ProofLe);
    SortAgain(monoNodes, MonoLe);
    SortAgain(roots, RootLe);
  }

  lemma {:induction false} SortAgain<T(!new)>(s: seq<T>, le: (T, T) -> bool)
    requires TotalPreorder(le)
    ensures SortBy(SortBy(s, le), le) == SortBy(s, le)
  {
    SortSorts(s, le);
    SortedStays(SortBy(s, le), le);
  }

  /* ---------- what an accepted graph guarantees ---------- */

  lemma {:induction false} AcceptedParts(edges: seq<DependencyEdge>, g: DependencyGraph)
    requires Verdict(edges, g).None?
    ensures Dense(g.proofs, ProofId) && Dense(g.expansions, ExpansionId)
    ensures forall n :: n in g.expansions ==> ExpansionValid(n, |g.expansions|, g.definitions)
    ensures RelationsAcyclic(g.expansions) && ExactRelations(g.proofs, g.edges)
  {
    hide ExactRelations;
    hide RelationsAcyclic;
    hide MonosValid;
    hide RootsValid;
    hide SlotsUnique;
    hide EdgesValid;
    hide ExpansionValid;
    hide ProofValid;
  }

  /** The proof-relation edges of an accepted graph are exactly the payloads of its proofs. */
  lemma {:induction false} AcceptedProofs(definitions: DG.DefinitionGraph, expansions: seq<ExpansionNode>,
                                          proofs: seq<ProofNode>, monoNodes: seq<MonoNode>,
                                          edges: seq<DependencyEdge>, roots: seq<RootRecord>, g: DependencyGraph)
    requires Candidate(definitions, expansions, proofs, monoNodes, edges, roots, g) && Verdict(edges, g).None?
    ensures multiset(RelationKeys(g.edges)) == multiset(PayloadKeys(g.proofs))
  {
    hide Verdict;
    hide EdgesGrouped;
    hide EdgesValid;
    hide ExactRelations;
    AcceptedParts(edges, g);
    VerdictParts(edges, g);
    GroupedEdgeValid(DefinitionEdges(definitions) + edges, g);
    assert forall i :: 0 <= i < |g.proofs| ==> ProofId(g.proofs[i]) == i;
    EdgesLeaveProofs(g);
    ExactIsPermutation(g.proofs, g.edges);
  }

  lemma {:induction false} EdgesLeaveProofs(g: DependencyGraph)
    requires EdgesValid(g.edges, g) && Dense(g.proofs, ProofId)
    ensures LeaveProofs(g.proofs, g.edges)
  {
    forall e | e in g.edges && e.key.kind.ProofRelation?
      ensures Listed(g.proofs, e.key.from)
    {
      assert EdgeValid(e, g.definitions, |g.expansions|, |g.proofs|, |g.monoNodes|);
      var p := g.proofs[e.key.from.id];
      assert ProofId(p) == e.key.from.id;
      assert p in g.proofs;
    }
  }

  /** In an accepted graph every parent reference is valid, so source survival always answers. */
  lemma {:induction false} AcceptedSurvival(edges: seq<DependencyEdge>, g: DependencyGraph, i: nat)
    requires Verdict(edges, g).None?
    ensures Survival.DenseIds(g.expansions) && !Survival.InvalidParentAt(g.expansions, i)
  {
    hide Verdict;
    AcceptedParts(edges, g);
    assert forall k :: 0 <= k < |g.expansions| ==> ExpansionId(g.expansions[k]) == k;
    if i < |g.expansions| {
      var node := g.expansions[i];
      assert node in g.expansions;
      NoSelfParent(g.expansions, DiscoveredIn, i);
      NoSelfParent(g.expansions, SemanticParent, i);
      NoSelfParent(g.expansions, SourceCallParent, i);
      forall p | p in Survival.ParentsOf(node)
        ensures Survival.ValidParent(g.expansions, i, p)
      {
      }
    }
  }

  lemma {:induction false} NoSelfParent(expansions: seq<ExpansionNode>, relation: ExpansionNode -> Option<nat>,
                                        i: nat)
    requires RelationAcyclic(expansions, relation) && i < |expansions| && expansions[i].id == i
    ensures relation(expansions[i]) != Some(i)
  {
    assert ChainEnds(expansions, relation, expansions[i].id);
    var steps: nat :| After(expansions, relation, i, steps).None?;
    if relation(expansions[i]) == Some(i) {
      assert After(expansions, relation, i, 0) == Some(i);
      assert After(expansions, relation, i, 1) == Some(i);
      LoopNeverEnds(expansions, relation, i, 0, 1, steps);
    }
  }
}
