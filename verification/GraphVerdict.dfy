/** What the dependency graph's constructor says of the normalised parts of a reduced run: the same as it would say of
    the parts before their ranges were moved (src/input.rs, lines 1764-1777; src/dependency_graph.rs, lines 570-746). */
module GraphVerdict {
  import opened Wrappers
  import opened Text
  import opened Ordering
  import opened Rewrite
  import opened Coordinates
  import opened Grouping
  import opened DependencyTypes
  import opened GraphShapes
  import opened ProofRelations
  import opened Reachability
  import opened DependencyGraphs
  import opened RangeNormalization
  import opened EdgeKeys
  import opened GraphMove
  import AllocationPaths
  import Normalization
  import DG = DefinitionGraphs

  /* ---------- sorting commutes with the move ---------- */

  ghost predicate Paired<S(!new), T(!new)>(a: seq<S>, b: seq<T>, same: (S, T) -> bool) {
    |a| == |b| && forall i :: 0 <= i < |a| ==> same(a[i], b[i])
  }

  /** Paired elements compare alike. */
  ghost predicate CompareAlike<S(!new), T(!new)>(same: (S, T) -> bool, le: (S, S) -> bool, le': (T, T) -> bool) {
    forall x, y, x', y' :: same(x, x') && same(y, y') ==> (le(x, y) <==> le'(x', y'))
  }

  lemma {:induction false} InsertPaired<S(!new), T(!new)>(a: seq<S>, b: seq<T>, x: S, x': T, same: (S, T) -> bool,
                                                          le: (S, S) -> bool, le': (T, T) -> bool)
    requires Paired(a, b, same) && same(x, x') && CompareAlike(same, le, le')
    ensures Paired(Insert(a, x, le), Insert(b, x', le'), same)
  {
    if a != [] && !le(a[|a| - 1], x) {
      InsertPaired(a[..|a| - 1], b[..|b| - 1], x, x', same, le, le');
    }
  }

  lemma {:induction false} SortPaired<S(!new), T(!new)>(a: seq<S>, b: seq<T>, same: (S, T) -> bool, le: (S, S) -> bool,
                                                        le': (T, T) -> bool)
    requires Paired(a, b, same) && CompareAlike(same, le, le')
    ensures Paired(SortBy(a, le), SortBy(b, le'), same)
  {
    hide Insert;
    if a != [] {
      var n := |a| - 1;
      SortPaired(a[..n], b[..n], same, le, le');
      InsertPaired(SortBy(a[..n], le), SortBy(b[..n], le'), a[n], b[n], same, le, le');
    }
  }

  predicate ExpansionMoves(coordinates: SourceRewrite, before: ExpansionNode, after: ExpansionNode) {
    ExpansionKeyMaps(before.key, coordinates) && after == MappedExpansion(before, coordinates)
  }

  predicate MonoMoves(coordinates: SourceRewrite, before: MonoNode, after: MonoNode) {
    MonoMaps(before, coordinates) && after == MappedMono(before, coordinates)
  }

  lemma {:induction false} ExpansionsSorted(nodes: seq<ExpansionNode>, coordinates: SourceRewrite)
    requires AllExpansionsMap(nodes, coordinates)
    ensures AllExpansionsMap(SortBy(nodes, ExpansionLe), coordinates)
    ensures SortBy(MappedExpansions(nodes, coordinates), ExpansionLe)
      == MappedExpansions(SortBy(nodes, ExpansionLe), coordinates)
  {
    hide ExpansionKeyMaps;
    hide MappedExpansionKey;
    var same := (n: ExpansionNode, m: ExpansionNode) => ExpansionMoves(coordinates, n, m);
    forall n, m | same(n, m)
      ensures n.id == m.id
    {
    }
    SortPaired(nodes, MappedExpansions(nodes, coordinates), same, ExpansionLe, ExpansionLe);
  }

  lemma {:induction false} MonosSorted(nodes: seq<MonoNode>, coordinates: SourceRewrite)
    requires AllMonosMap(nodes, coordinates)
    ensures AllMonosMap(SortBy(nodes, MonoLe), coordinates)
    ensures SortBy(MappedMonos(nodes, coordinates), MonoLe) == MappedMonos(SortBy(nodes, MonoLe), coordinates)
  {
    hide MonoMaps;
    hide MappedPath;
    var same := (n: MonoNode, m: MonoNode) => MonoMoves(coordinates, n, m);
    forall n, m | same(n, m)
      ensures n.id == m.id
    {
    }
    SortPaired(nodes, MappedMonos(nodes, coordinates), same, MonoLe, MonoLe);
  }

  /* ---------- grouped edges ---------- */

  lemma {:induction false} GroupedTidy(edges: seq<DependencyEdge>, grouped: seq<DependencyEdge>)
    requires EdgesGrouped(edges, grouped)
    ensures AllTidy(grouped)
  {
    hide HasSite;
    hide HasKey;
    forall e | e in grouped
      ensures Tidy(e)
    {
      var i :| 0 <= i < |grouped| && grouped[i] == e;
      assert SiteItems(grouped)[i].sites == e.sites;
    }
  }

  lemma {:induction false} MovedKeys(coordinates: SourceRewrite, before: seq<DependencyEdge>,
                                     after: seq<DependencyEdge>)
    requires EdgesMoved(coordinates, before, after)
    ensures SameKeys(before, after)
  {
    hide MapObservation;
  }

  lemma {:induction false} GroupedDistinct(edges: seq<DependencyEdge>, grouped: seq<DependencyEdge>)
    requires EdgesGrouped(edges, grouped)
    ensures DistinctEdges(grouped)
  {
    hide HasSite;
    hide HasKey;
    forall i, j | 0 <= i < j < |grouped|
      ensures grouped[i].key != grouped[j].key
    {
      assert SiteItems(grouped)[i].key == grouped[i].key && SiteItems(grouped)[j].key == grouped[j].key;
    }
  }

  lemma {:induction false} DefinitionEdgesValid(definitions: DG.DefinitionGraph, expansions: nat, proofs: nat,
                                                monos: nat)
    requires forall i :: 0 <= i < |definitions.edges| ==>
      DG.EdgeValid(definitions.edges[i], |definitions.definitions|, |definitions.externalDefinitions|)
    ensures forall e :: e in DefinitionEdges(definitions) ==> EdgeValid(e, definitions, expansions, proofs, monos)
  {
    var edges := DefinitionEdges(definitions);
    forall e | e in edges
      ensures EdgeValid(e, definitions, expansions, proofs, monos)
    {
      var i :| 0 <= i < |edges| && edges[i] == e;
      assert DG.EdgeValid(definitions.edges[i], |definitions.definitions|, |definitions.externalDefinitions|);
    }
  }

  lemma {:induction false} EdgeValidAlike(e: DependencyEdge, e': DependencyEdge, a: DG.DefinitionGraph,
                                          b: DG.DefinitionGraph, expansions: nat, proofs: nat, monos: nat)
    requires DefinitionsAlike(a, b) && e'.key == e.key && (e'.sites == [] <==> e.sites == [])
    ensures EdgeValid(e, a, expansions, proofs, monos) <==> EdgeValid(e', b, expansions, proofs, monos)
  {
    hide ShapeValid;
    hide Structural;
  }

  /** Every edge is valid before the move exactly when every edge is after it. */
  lemma {:induction false} EdgesValidAlike(edges: seq<DependencyEdge>, g: DependencyGraph, g': DependencyGraph,
                                           coordinates: SourceRewrite)
    requires AllEdgesMap(edges, coordinates) && DefinitionsAlike(g.definitions, g'.definitions)
    requires |g.expansions| == |g'.expansions| && |g.proofs| == |g'.proofs| && |g.monoNodes| == |g'.monoNodes|
    requires forall e :: e in DefinitionEdges(g.definitions) ==>
      EdgeValid(e, g.definitions, |g.expansions|, |g.proofs|, |g.monoNodes|)
    requires forall e :: e in DefinitionEdges(g'.definitions) ==>
      EdgeValid(e, g'.definitions, |g.expansions|, |g.proofs|, |g.monoNodes|)
    ensures EdgesValid(DefinitionEdges(g.definitions) + edges, g)
      <==> EdgesValid(DefinitionEdges(g'.definitions) + MappedEdges(edges, coordinates), g')
  {
    hide EdgeValid;
    hide DefinitionsAlike;
    hide DefinitionEdges;
    hide MapObservation;
    var moved := MappedEdges(edges, coordinates);
    var x, m, l := |g.expansions|, |g.monoNodes|, |g.proofs|;
    forall i | 0 <= i < |edges|
      ensures EdgeValid(edges[i], g.definitions, x, l, m) <==> EdgeValid(moved[i], g'.definitions, x, l, m)
    {
      EdgeValidAlike(edges[i], moved[i], g.definitions, g'.definitions, x, l, m);
    }
    EachAlike(edges, moved, (e: DependencyEdge) => EdgeValid(e, g.definitions, x, l, m),
              (e: DependencyEdge) => EdgeValid(e, g'.definitions, x, l, m));
    ValidInBoth(DefinitionEdges(g.definitions), edges, g);
    ValidInBoth(DefinitionEdges(g'.definitions), moved, g');
  }

  lemma {:induction false} ValidInBoth(d: seq<DependencyEdge>, a: seq<DependencyEdge>, g: DependencyGraph)
    ensures EdgesValid(d + a, g) <==> EdgesValid(d, g) && EdgesValid(a, g)
  {
    hide EdgeValid;
    assert forall e :: e in d + a <==> e in d || e in a;
  }

  /* ---------- joins and reachability ---------- */

  lemma {:induction false} MovedInstances(nodes: seq<MonoNode>, coordinates: SourceRewrite)
    requires AllMonosMap(nodes, coordinates)
    ensures InstancesAlike(nodes, MappedMonos(nodes, coordinates))
  {
    hide MonoMaps;
    hide MappedPath;
  }

  /** Some direct call of a concrete associated item is lost in the move. */
  ghost predicate CallsLost(coordinates: SourceRewrite, g: DependencyGraph)
    requires TiledRewrite(coordinates)
  {
    exists i :: 0 <= i < |g.edges| && CallLost(coordinates, g.edges[i], g.proofs, g.monoNodes, g.edges)
  }

  /** Every selection is joined after the move exactly when it is before and no call is lost. */
  lemma {:induction false} JoinsMoved(coordinates: SourceRewrite, g: DependencyGraph, g': DependencyGraph)
    requires TiledRewrite(coordinates) && EdgesMoved(coordinates, g.edges, g'.edges)
    requires InstancesAlike(g.monoNodes, g'.monoNodes)
    requires g'.proofs == g.proofs && Distinct(MonoKeys(g.monoNodes)) && DistinctEdges(g.edges) && AllTidy(g.edges)
    requires AllTidy(g'.edges)
    ensures JoinsValid(g') <==> JoinsValid(g) && !CallsLost(coordinates, g)
  {
    hide TiledRewrite;
    hide AllTidy;
    hide SelectionJoin;
    hide InstancesAlike;
    hide EdgeMoved;
    hide CallLost;
    hide Distinct;
    hide DistinctEdges;
    forall i | 0 <= i < |g.edges|
      ensures SelectionJoin(g'.edges[i], g'.proofs, g'.monoNodes, g'.edges) <==>
        SelectionJoin(g.edges[i], g.proofs, g.monoNodes, g.edges)
        && !CallLost(coordinates, g.edges[i], g.proofs, g.monoNodes, g.edges)
    {
      JoinMoved(coordinates, i, g.proofs, g.monoNodes, g'.monoNodes, g.edges, g'.edges);
    }
    EachAlike(g.edges, g'.edges,
              (e: DependencyEdge) => SelectionJoin(e, g.proofs, g.monoNodes, g.edges)
              && !CallLost(coordinates, e, g.proofs, g.monoNodes, g.edges),
              (e: DependencyEdge) => SelectionJoin(e, g'.proofs, g'.monoNodes, g'.edges));
    assert forall i :: 0 <= i < |g.edges| ==> g.edges[i] in g.edges;
  }

  lemma {:induction false} ReachedSame(g: DependencyGraph, g': DependencyGraph)
    requires SameKeys(g.edges, g'.edges) && |g'.monoNodes| == |g.monoNodes| && |g'.proofs| == |g.proofs|
    requires g'.roots == g.roots
    requires MonosReached(g) || ProofsReached(g)
    ensures MonosReached(g) ==> MonosReached(g')
    ensures ProofsReached(g) ==> ProofsReached(g')
  {
    hide ReachedFrom;
    hide ProofReached;
    hide SameKeys;
    if MonosReached(g) {
      forall j | 0 <= j < |g'.monoNodes|
        ensures ReachedFrom(g'.edges, MonoLink, MonoRoots(g'.roots), j)
      {
        ReachedAlike(g.edges, g'.edges, MonoRoots(g.roots), j);
      }
    }
    if ProofsReached(g) {
      forall j | 0 <= j < |g'.proofs|
        ensures ProofReached(Indices(|g'.monoNodes|), g'.edges, j)
      {
        ProofReachedAlike(g.edges, g'.edges, Indices(|g.monoNodes|), j);
      }
    }
  }

  /* ---------- the verdict ---------- */

  /** The parts a reduced run hands to the constructor, before and after their ranges move. */
  datatype Parts = Parts(
    definitions: DG.DefinitionGraph, expansions: seq<ExpansionNode>, proofs: seq<ProofNode>, monoNodes: seq<MonoNode>,
    edges: seq<DependencyEdge>, roots: seq<RootRecord>)

  predicate PartsMap(p: Parts, coordinates: SourceRewrite) {
    && Normalization.GraphMaps(p.definitions, coordinates)
    && AllExpansionsMap(p.expansions, coordinates)
    && AllMonosMap(p.monoNodes, coordinates)
    && AllEdgesMap(p.edges, coordinates)
  }

  /** `after` is `before` with every range moved. */
  ghost predicate PartsMoved(before: Parts, after: Parts, coordinates: SourceRewrite) {
    && PartsMap(before, coordinates)
    && MovesDefinitions(before.definitions, after.definitions, coordinates)
    && after.expansions == MappedExpansions(before.expansions, coordinates)
    && after.proofs == before.proofs
    && after.monoNodes == MappedMonos(before.monoNodes, coordinates)
    && after.edges == MappedEdges(before.edges, coordinates)
    && after.roots == before.roots
  }

  /** The candidate graph of some parts. */
  ghost predicate CandidateOf(p: Parts, g: DependencyGraph) {
    Candidate(p.definitions, p.expansions, p.proofs, p.monoNodes, p.edges, p.roots, g)
  }

  /** The parts of a reduced run as the collectors that ask for keys see them: definition keys in original coordinates,
      every other range still in the reduced text. */
  function KeyedParts(p: Parts, coordinates: SourceRewrite): (r: Parts)
    requires Normalization.GraphMaps(p.definitions, coordinates)
  {
    p.(definitions := Keyed(p.definitions, coordinates))
  }

  /** The nodes, the grouped edges and the definitions of two candidates correspond. */
  ghost predicate GraphsMoved(g: DependencyGraph, g': DependencyGraph, coordinates: SourceRewrite) {
    && DefinitionsAlike(g.definitions, g'.definitions)
    && AllExpansionsMap(g.expansions, coordinates) && g'.expansions == MappedExpansions(g.expansions, coordinates)
    && g'.proofs == g.proofs
    && AllMonosMap(g.monoNodes, coordinates) && g'.monoNodes == MappedMonos(g.monoNodes, coordinates)
    && EdgesMoved(coordinates, g.edges, g'.edges)
    && g'.roots == g.roots
  }

  lemma {:induction false} CandidatesMoved(before: Parts, after: Parts, g: DependencyGraph, g': DependencyGraph,
                                           coordinates: SourceRewrite)
    requires PartsMoved(before, after, coordinates)
    requires CandidateOf(KeyedParts(before, coordinates), g) && CandidateOf(after, g')
    ensures GraphsMoved(g, g', coordinates)
  {
    hide Normalization.GraphMaps;
    hide ObservationsMoved;
    hide EdgesGrouped;
    hide AllEdgesMap;
    hide DefinitionsAlike;
    hide MovesDefinitions;
    MovedAlike(before.definitions, after.definitions, coordinates);
    ExpansionsSorted(before.expansions, coordinates);
    MonosSorted(before.monoNodes, coordinates);
    MappedObserve(before.edges, coordinates);
    DefinitionsObserve(before.definitions, after.definitions, coordinates);
    var d, d' := DefinitionEdges(g.definitions), DefinitionEdges(g'.definitions);
    assert d == DefinitionEdges(before.definitions);
    BothObserve(d, d', before.edges, after.edges, coordinates);
    GroupsMoved(d + before.edges, d' + after.edges, g.edges, g'.edges, coordinates);
  }

  /** Corresponding candidates pass or fail each check on nodes and roots together. */
  lemma {:induction false} NodeChecksAlike(g: DependencyGraph, g': DependencyGraph, coordinates: SourceRewrite)
    requires TiledRewrite(coordinates) && GraphsMoved(g, g', coordinates)
    ensures ExpansionsValid(g.expansions, g.definitions) <==> ExpansionsValid(g'.expansions, g'.definitions)
    ensures ProofsValid(g.proofs, g.definitions) <==> ProofsValid(g'.proofs, g'.definitions)
    ensures MonosValid(g.monoNodes, g.definitions) <==> MonosValid(g'.monoNodes, g'.definitions)
    ensures RootsValid(g.roots, g.definitions, g.monoNodes) <==> RootsValid(g'.roots, g'.definitions, g'.monoNodes)
  {
    hide TiledRewrite;
    hide DefinitionsAlike;
    hide ExpansionsValid;
    hide ProofsValid;
    hide MonosValid;
    hide RootsValid;
    hide EdgesMoved;
    ExpansionsAlike(g.expansions, g.definitions, g'.definitions, coordinates);
    ProofsAlike(g.proofs, g.definitions, g'.definitions);
    MonosAlike(g.monoNodes, g.definitions, g'.definitions, coordinates);
    RootsAlike(g.roots, g.monoNodes, g.definitions, g'.definitions, coordinates);
  }

  /** Corresponding candidates pass or fail each check on the grouped edges together. */
  lemma {:induction false} EdgeChecksAlike(g: DependencyGraph, g': DependencyGraph, coordinates: SourceRewrite)
    requires TiledRewrite(coordinates) && GraphsMoved(g, g', coordinates)
    requires Distinct(MonoKeys(g.monoNodes)) && DistinctEdges(g.edges) && AllTidy(g.edges) && AllTidy(g'.edges)
    ensures GroupedChecksMoved(g, g', CallsLost(coordinates, g))
  {
    hide TiledRewrite;
    hide DefinitionsAlike;
    hide AllocationPaths.AllocationsValid;
    hide ExactRelations;
    hide JoinsValid;
    hide MonosReached;
    hide ProofsReached;
    hide ExpansionsJoined;
    hide MaterializationsValid;
    hide CallsLost;
    hide AllTidy;
    hide Distinct;
    hide DistinctEdges;
    hide EdgesMoved;
    hide SameKeys;
    MovedKeys(coordinates, g.edges, g'.edges);
    SameKeysBack(g.edges, g'.edges);
    AllocationsMoved(g.monoNodes, g.edges, g'.edges, coordinates);
    RelationsAlike(g.proofs, g.edges, g'.edges);
    MovedInstances(g.monoNodes, coordinates);
    JoinsMoved(coordinates, g, g');
    if MonosReached(g) || ProofsReached(g) { ReachedSame(g, g'); }
    if MonosReached(g') || ProofsReached(g') { ReachedSame(g', g); }
    JoinedAlike(g, g', coordinates);
    MaterializationsAlike(g, g', coordinates);
  }

  lemma {:induction false} SameKeysBack(a: seq<DependencyEdge>, b: seq<DependencyEdge>)
    requires SameKeys(a, b)
    ensures SameKeys(b, a)
  {
  }

  lemma {:induction false} RawChecksAlike(before: Parts, after: Parts, g: DependencyGraph, g': DependencyGraph,
                                          coordinates: SourceRewrite)
    requires DG.Accepted(before.definitions) && DG.Accepted(after.definitions) && PartsMoved(before, after, coordinates)
    requires GraphsMoved(g, g', coordinates) && g.definitions == Keyed(before.definitions, coordinates)
    requires g'.definitions == after.definitions
    ensures SlotsUnique(before.edges) <==> SlotsUnique(after.edges)
    ensures EdgesValid(DefinitionEdges(g.definitions) + before.edges, g)
      <==> EdgesValid(DefinitionEdges(g'.definitions) + after.edges, g')
  {
    hide SlotsUnique;
    hide EdgesValid;
    hide EdgeValid;
    hide DG.EdgeValid;
    hide DG.LocalsValid;
    hide DG.ParentLinked;
    hide DefinitionEdges;
    hide DefinitionsAlike;
    hide Normalization.GraphMaps;
    hide EdgesMoved;
    hide DG.Grouped;
    assert SameKeys(before.edges, after.edges);
    SlotsUniqueAlike(before.edges, after.edges);
    DefinitionEdgesValid(g.definitions, |g.expansions|, |g.proofs|, |g.monoNodes|);
    DefinitionEdgesValid(g'.definitions, |g.expansions|, |g.proofs|, |g.monoNodes|);
    EdgesValidAlike(before.edges, g, g', coordinates);
  }

  /** The checks before the selections are joined find nothing. */
  ghost predicate PassesBeforeJoins(edges: seq<DependencyEdge>, g: DependencyGraph) {
    && ExpansionsValid(g.expansions, g.definitions)
    && ProofsValid(g.proofs, g.definitions)
    && MonosValid(g.monoNodes, g.definitions)
    && RootsValid(g.roots, g.definitions, g.monoNodes)
    && SlotsUnique(edges)
    && EdgesValid(DefinitionEdges(g.definitions) + edges, g)
    && AllocationPaths.AllocationsValid(g.monoNodes, g.edges)
    && ExactRelations(g.proofs, g.edges)
  }

  /** What the constructor says after the move: what it said before, unless it comes to join selections and a call is
      lost. */
  ghost function MovedVerdict(coordinates: SourceRewrite, edges: seq<DependencyEdge>,
                              g: DependencyGraph): Option<DependencyGraphError>
    requires TiledRewrite(coordinates)
  {
    if PassesBeforeJoins(edges, g) && CallsLost(coordinates, g) then Some(InvalidProof) else Verdict(edges, g)
  }

  /** Moving every range of a reduced run's parts into original coordinates changes what the constructor answers exactly
      when it would come to join a direct call that a seam takes out of its counterpart's ranges. */
  lemma {:induction false} VerdictMoved(before: Parts, after: Parts, g: DependencyGraph, g': DependencyGraph,
                                        coordinates: SourceRewrite)
    requires TiledRewrite(coordinates) && DG.Accepted(before.definitions) && DG.Accepted(after.definitions)
    requires PartsMoved(before, after, coordinates)
    requires CandidateOf(KeyedParts(before, coordinates), g) && CandidateOf(after, g')
    ensures Verdict(after.edges, g') == MovedVerdict(coordinates, before.edges, g)
    ensures Verdict(after.edges, g').None? <==> Verdict(before.edges, g).None? && !CallsLost(coordinates, g)
    ensures GraphsMoved(g, g', coordinates)
  {
    hide TiledRewrite;
    hide DG.Accepted;
    hide PartsMap;
    hide EdgesGrouped;
    hide GraphsMoved;
    hide MovesDefinitions;
    hide CallsLost;
    hide AllTidy;
    hide DistinctEdges;
    CandidatesMoved(before, after, g, g', coordinates);
    NodeChecksAlike(g, g', coordinates);
    RawChecksAlike(before, after, g, g', coordinates);
    GroupedTidy(DefinitionEdges(g.definitions) + before.edges, g.edges);
    GroupedTidy(DefinitionEdges(g'.definitions) + after.edges, g'.edges);
    GroupedDistinct(DefinitionEdges(g.definitions) + before.edges, g.edges);
    if MonosValid(g.monoNodes, g.definitions) {
      EdgeChecksAlike(g, g', coordinates);
    }
    SameVerdict(before.edges, after.edges, g, g', CallsLost(coordinates, g));
  }

  lemma {:induction false} SameVerdict(a: seq<DependencyEdge>, b: seq<DependencyEdge>, g: DependencyGraph,
                                       g': DependencyGraph, lost: bool)
    requires ExpansionsValid(g.expansions, g.definitions) <==> ExpansionsValid(g'.expansions, g'.definitions)
    requires ProofsValid(g.proofs, g.definitions) <==> ProofsValid(g'.proofs, g'.definitions)
    requires MonosValid(g.monoNodes, g.definitions) <==> MonosValid(g'.monoNodes, g'.definitions)
    requires RootsValid(g.roots, g.definitions, g.monoNodes) <==> RootsValid(g'.roots, g'.definitions, g'.monoNodes)
    requires SlotsUnique(a) <==> SlotsUnique(b)
    requires EdgesValid(DefinitionEdges(g.definitions) + a, g) <==> EdgesValid(DefinitionEdges(g'.definitions) + b, g')
    requires MonosValid(g.monoNodes, g.definitions) ==> GroupedChecksMoved(g, g', lost)
    ensures Verdict(b, g') == if PassesBeforeJoins(a, g) && lost then Some(InvalidProof) else Verdict(a, g)
    ensures Verdict(b, g').None? <==> Verdict(a, g).None? && !lost
  {
    hide ExpansionsValid;
    hide ProofsValid;
    hide MonosValid;
    hide RootsValid;
    hide SlotsUnique;
    hide EdgesValid;
    hide AllocationPaths.AllocationsValid;
    hide ExactRelations;
    hide JoinsValid;
    hide MonosReached;
    hide ProofsReached;
    hide ExpansionsJoined;
    hide MaterializationsValid;
  }

  /** The checks on grouped edges answer alike, except for lost calls. */
  ghost predicate GroupedChecksMoved(g: DependencyGraph, g': DependencyGraph, lost: bool) {
    && (AllocationPaths.AllocationsValid(g'.monoNodes, g'.edges) <==>
        AllocationPaths.AllocationsValid(g.monoNodes, g.edges))
    && (ExactRelations(g.proofs, g.edges) <==> ExactRelations(g'.proofs, g'.edges))
    && (JoinsValid(g') <==> JoinsValid(g) && !lost)
    && (MonosReached(g) <==> MonosReached(g'))
    && (ProofsReached(g) <==> ProofsReached(g'))
    && (ExpansionsJoined(g) <==> ExpansionsJoined(g'))
    && (MaterializationsValid(g) <==> MaterializationsValid(g'))
  }

  /* ---------- the end of a reduced run ---------- */

  datatype BuildError = OutOfText(rewrite: RewriteError) | InvalidDefinitions | Refused(error: DependencyGraphError)

  /** The outcome a verdict calls for. */
  predicate Answers(r: Result<DependencyGraph, BuildError>, verdict: Option<DependencyGraphError>) {
    match r
    case Ok(_) => verdict.None?
    case Err(Refused(error)) => verdict == Some(error)
    case Err(_) => false
  }

  /** What the constructor answers on the moved parts, in terms of the parts before the move. */
  lemma {:induction false} Outcome(before: Parts, after: Parts, coordinates: SourceRewrite,
                                   r: Result<DependencyGraph, DependencyGraphError>, g: DependencyGraph)
    requires TiledRewrite(coordinates) && DG.Accepted(before.definitions) && DG.Accepted(after.definitions)
    requires PartsMoved(before, after, coordinates)
    requires r.Ok? ==> CandidateOf(after, r.value) && Verdict(after.edges, r.value).None?
    requires r.Err? ==> exists g' :: CandidateOf(after, g') && Verdict(after.edges, g') == Some(r.error)
    requires CandidateOf(KeyedParts(before, coordinates), g)
    ensures MovedVerdict(coordinates, before.edges, g) == if r.Ok? then None else Some(r.error)
  {
    hide TiledRewrite;
    hide DG.Accepted;
    hide PartsMap;
    hide Candidate;
    hide MovesDefinitions;
    hide Verdict;
    hide GraphsMoved;
    if r.Ok? {
      VerdictMoved(before, after, g, r.value, coordinates);
    } else {
      var g' :| CandidateOf(after, g') && Verdict(after.edges, g') == Some(r.error);
      VerdictMoved(before, after, g, g', coordinates);
    }
  }

  /** Normalise the definition graph, then move the ranges of expansions, allocations and observations in place. */
  method MoveParts(definitions: DG.DefinitionGraph, expansions: array<ExpansionNode>, ghost proofs: seq<ProofNode>,
                   monoNodes: array<MonoNode>, edges: array<DependencyEdge>, ghost roots: seq<RootRecord>,
                   coordinates: SourceRewrite)
    returns (r: Result<DG.DefinitionGraph, BuildError>)
    requires TiledRewrite(coordinates) && DG.Accepted(definitions)
    modifies expansions, monoNodes, edges
    ensures var p := Parts(definitions, old(expansions[..]), proofs, old(monoNodes[..]), old(edges[..]), roots);
      && (r.Ok? ==> DG.Accepted(r.value))
      && (r.Ok? ==> PartsMoved(p, Parts(r.value, expansions[..], proofs, monoNodes[..], edges[..], roots), coordinates))
      && (Normalization.OnlyRootIsCrate(definitions) ==> (PartsMap(p, coordinates) <==> r.Ok?))
      && (Normalization.OnlyRootIsCrate(definitions) && r.Err? ==> r.error.OutOfText?)
  {
    ghost var xs, ms, es := expansions[..], monoNodes[..], edges[..];
    Normalization.FittingMaps(definitions, coordinates);
    hide TiledRewrite;
    hide DG.Accepted;
    hide Normalization.OnlyRootIsCrate;
    hide Normalization.RangesFit;
    hide Normalization.GraphMaps;
    hide DG.Grouped;
    hide ExpansionKeyMaps;
    hide MonoMaps;
    hide ObservationsMap;
    hide MappedExpansion;
    hide MappedMono;
    hide MappedEdge;
    var moved := Normalization.NormalizeDefinitionGraph(definitions, coordinates);
    if moved.Err? {
      return Err(if moved.error.Coordinates? then OutOfText(moved.error.rewrite) else InvalidDefinitions);
    }
    var done := NormalizeExpansionRanges(expansions, coordinates);
    if done.Err? {
      return Err(OutOfText(done.error));
    }
    assert expansions[..] == MappedExpansions(xs, coordinates);
    done := NormalizeMonoRanges(monoNodes, coordinates);
    if done.Err? {
      return Err(OutOfText(done.error));
    }
    assert monoNodes[..] == MappedMonos(ms, coordinates);
    done := NormalizeObservationRanges(edges, coordinates);
    if done.Err? {
      return Err(OutOfText(done.error));
    }
    assert edges[..] == MappedEdges(es, coordinates);
    r := Ok(moved.value);
  }

  /** `DependencyGraph::new` on parts whose ranges have been moved. */
  method BuildFrom(ghost before: Parts, definitions: DG.DefinitionGraph, expansions: seq<ExpansionNode>,
                   proofs: seq<ProofNode>, monoNodes: seq<MonoNode>, edges: seq<DependencyEdge>, roots: seq<RootRecord>,
                   coordinates: SourceRewrite)
    returns (r: Result<DependencyGraph, BuildError>)
    requires TiledRewrite(coordinates) && DG.Accepted(before.definitions) && DG.Accepted(definitions)
    requires PartsMoved(before, Parts(definitions, expansions, proofs, monoNodes, edges, roots), coordinates)
    ensures r.Ok? ==> CandidateOf(Parts(definitions, expansions, proofs, monoNodes, edges, roots), r.value)
    ensures r.Err? ==> r.error.Refused?
    ensures forall g :: CandidateOf(KeyedParts(before, coordinates), g) ==>
      Answers(r, MovedVerdict(coordinates, before.edges, g))
  {
    hide TiledRewrite;
    hide DG.Accepted;
    hide Verdict;
    hide Candidate;
    hide Normalization.GraphMaps;
    hide AllExpansionsMap;
    hide AllMonosMap;
    hide AllEdgesMap;
    hide MovesDefinitions;
    ghost var after := Parts(definitions, expansions, proofs, monoNodes, edges, roots);
    var built := DependencyGraphs.New(definitions, expansions, proofs, monoNodes, edges, roots);
    r := if built.Ok? then Ok(built.value) else Err(Refused(built.error));
    assert built.Err? ==> exists g :: CandidateOf(after, g) && Verdict(after.edges, g) == Some(built.error);
    forall g | CandidateOf(KeyedParts(before, coordinates), g)
      ensures Answers(r, MovedVerdict(coordinates, before.edges, g))
    {
      Outcome(before, after, coordinates, built, g);
    }
  }

  /** The end of a reduced run: move every range, then build the graph. */
  method BuildMoved(definitions: DG.DefinitionGraph, expansions: array<ExpansionNode>, proofs: seq<ProofNode>,
                    monoNodes: array<MonoNode>, edges: array<DependencyEdge>, roots: seq<RootRecord>,
                    coordinates: SourceRewrite)
    returns (r: Result<DependencyGraph, BuildError>)
    requires TiledRewrite(coordinates) && DG.Accepted(definitions)
    modifies expansions, monoNodes, edges
    ensures var p := Parts(definitions, old(expansions[..]), proofs, old(monoNodes[..]), old(edges[..]), roots);
      && (r.Ok? ==> exists after :: PartsMoved(p, after, coordinates) && CandidateOf(after, r.value))
      && (Normalization.OnlyRootIsCrate(definitions) ==> (!PartsMap(p, coordinates) <==> r.Err? && r.error.OutOfText?))
      && (Normalization.OnlyRootIsCrate(definitions) && PartsMap(p, coordinates) ==>
            forall g :: CandidateOf(KeyedParts(p, coordinates), g) ==>
              Answers(r, MovedVerdict(coordinates, p.edges, g)))
  {
    ghost var p := Parts(definitions, expansions[..], proofs, monoNodes[..], edges[..], roots);
    hide TiledRewrite;
    hide DG.Accepted;
    hide Verdict;
    hide Candidate;
    hide Normalization.OnlyRootIsCrate;
    hide Normalization.GraphMaps;
    hide MovesDefinitions;
    hide AllExpansionsMap;
    hide AllMonosMap;
    hide AllEdgesMap;
    hide PartsMoved;
    hide PartsMap;
    hide Answers;
    var moved := MoveParts(definitions, expansions, proofs, monoNodes, edges, roots, coordinates);
    if moved.Err? {
      return Err(moved.error);
    }
    r := BuildFrom(p, moved.value, expansions[..], proofs, monoNodes[..], edges[..], roots, coordinates);
  }
}
