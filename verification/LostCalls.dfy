/** The exception of `GraphVerdict.VerdictMoved` is real: the parts of a run that the constructor of the dependency
    graph accepts before their ranges move and rejects afterwards (src/dependency_graph.rs, lines 953-1113). */
module LostCalls {
  import opened Wrappers
  import opened Text
  import opened Ordering
  import opened Rewrite
  import opened Coordinates
  import opened GraphKeys
  import opened Grouping
  import opened DependencyTypes
  import opened GraphShapes
  import opened Paths
  import opened ProofRelations
  import opened Reachability
  import opened DependencyGraphs
  import opened RangeNormalization
  import opened GraphMove
  import opened GraphVerdict
  import AllocationPaths
  import Normalization
  import DG = DefinitionGraphs

  /* ---------- the parts ---------- */

  /** Two bytes, between which one was deleted. */
  const TEXT: Utf8 := assert [66, 66][1..] == [66] && ValidUtf8([66]); [66, 66]
  const PIECES := [SourcePiece(ByteRange(0, 1), ByteRange(0, 1)), SourcePiece(ByteRange(1, 2), ByteRange(2, 3))]
  const COORDINATES := SourceRewrite(TEXT, PIECES, 3)

  const FILE := ByteRange(0, 2)
  const CRATE := DG.Definition(0, [DefinitionKeyPart(Crate, WrittenKey(FILE, CrateRoot), None, 0)], Crate, None,
                               Written(0, FILE, FILE, CrateRoot, 0))
  const LIBRARY := DG.ExternalDefinition(0, ExternalDefinitionKey(0, "", []), "")
  const DEFINITIONS := DG.DefinitionGraph([CRATE], [LIBRARY], [])

  /** An instance that calls itself. */
  const TERM := CanonicalCompilerTerm(0, [])
  const INSTANCE := MonoInstanceKey(External(LIBRARY.key), TERM, TERM)
  const THERE := DG.ExternalTarget(0)
  const CALLER := MonoNode(0, InstanceKey(INSTANCE, Callable), Some(THERE), None)

  /** The proofs that select it: a user's implementation, and the associated item found in it. */
  const SELECTED := ProofNode(0, ObligationKey(TERM, TERM),
    Obligation(TERM, TERM, Some(SelectionSource(UserDefined, TERM, Some(THERE), None)), Some([]), None, None))
  const IN_IMPL := SpecializationNode(ImplSpecialization, THERE)
  const IN_TRAIT := SpecializationNode(TraitSpecialization, THERE)
  const FOUND := ProofNode(1, AssociatedItemKey(TERM, INSTANCE, INSTANCE),
    AssociatedItem(TERM, INSTANCE, INSTANCE, 0, UserDefined, Some(THERE), Some(IN_IMPL), None, [IN_IMPL, IN_TRAIT]))
  const PROOFS := [SELECTED, FOUND]

  function Relates(from: nat, to: GraphNode, relation: ProofRelationKind, ordinal: nat): DependencyEdge {
    DependencyEdge(DependencyKey(ProofOf(from), to, ProofRelation(relation, ordinal)), [], PatchedObserver)
  }

  const AWAY := ExternalDefinitionNode(0)

  /** The call was observed as an empty range at the end of the range of its counterpart. */
  const CALL := DependencyEdge(DependencyKey(MonoOf(0), ProofOf(1), SelectionProof(DirectCall, Used)),
                               [Source(ByteRange(1, 1))], PatchedObserver)
  const USE := DependencyEdge(DependencyKey(MonoOf(0), MonoOf(0), Mono(DirectCall, Used)), [Source(ByteRange(0, 1))],
                              PatchedObserver)

  const EDGES := [
    Relates(0, AWAY, SelectedImpl, 0),
    Relates(1, AWAY, AssociatedLeaf, 0),
    Relates(1, AWAY, AssociatedDefining, 0),
    Relates(1, AWAY, SpecializationAncestor, 0),
    Relates(1, AWAY, SpecializationAncestor, 1),
    Relates(1, ProofOf(0), AssociatedSelection, 0),
    DependencyEdge(DependencyKey(MonoOf(0), AWAY, MaterializesDefinition), [], Compiler),
    CALL,
    USE]

  const ROOTS := [RootRecord(MonoOf(0), ExternalSymbol)]

  const BEFORE := Parts(DEFINITIONS, [], PROOFS, [CALLER], EDGES, ROOTS)

  /* ---------- the rewrite and the definitions ---------- */

  lemma {:induction false} Rewritten()
    ensures TiledRewrite(COORDINATES) && AtSeam(COORDINATES, 1)
    ensures COORDINATES.OriginalRange(ByteRange(0, 1)).Ok? && COORDINATES.OriginalRange(ByteRange(1, 1)).Ok?
  {
    var pieces := COORDINATES.pieces;
    assert pieces[..0] == [] && Tiles([], 0, 1);
    assert Tiles(pieces[..1], 1, 2) by { assert pieces[..1][..0] == []; }
    assert Tiles(pieces, 2, 3);
    assert PieceOffsets(pieces[..1]) == [0] by { assert PieceOffsets(pieces[..1][..0]) == []; }
    assert PieceOffsets(pieces) == [0, 2];
    OriginalRangeTotal(COORDINATES, ByteRange(0, 1));
    OriginalRangeTotal(COORDINATES, ByteRange(1, 1));
  }

  lemma {:induction false} DefinitionsAccepted()
    ensures DG.Accepted(DEFINITIONS) && Normalization.OnlyRootIsCrate(DEFINITIONS)
    ensures Normalization.RangesFit(DEFINITIONS, COORDINATES)
  {
    var ds := DEFINITIONS.definitions;
    assert DG.RootValid(ds) by { assert ds[0] == CRATE; }
    assert DG.DefinitionValid(ds, 0);
    assert DG.ParentLinked(CRATE, []);
    assert Normalization.DefinitionFits(CRATE, COORDINATES);
  }

  /* ---------- the edges are grouped as they stand ---------- */

  lemma {:induction false} LexAt(a: seq<nat>, b: seq<nat>, k: nat)
    requires k < |a| && k < |b| && a[k] < b[k] && forall i :: 0 <= i < k ==> a[i] == b[i]
    ensures LexLe(a, b)
  {
    if k > 0 {
      LexAt(a[1..], b[1..], k - 1);
    }
  }

  ghost predicate Ascending(edges: seq<DependencyEdge>) {
    forall i, j :: 0 <= i < j < |edges| ==> DependencyLe(edges[i].key, edges[j].key) && edges[i].key != edges[j].key
  }

  /** Neighbours in ascending order put all edges in it. */
  lemma {:induction false} NeighboursAscend(edges: seq<DependencyEdge>)
    requires forall i :: 0 <= i < |edges| - 1 ==>
      DependencyLe(edges[i].key, edges[i + 1].key) && edges[i].key != edges[i + 1].key
    ensures Ascending(edges)
  {
    DependencyOrder();
    hide DependencyLe;
    forall i, j | 0 <= i < j < |edges|
      ensures DependencyLe(edges[i].key, edges[j].key) && edges[i].key != edges[j].key
    {
      ChainAscends(edges, i, j);
    }
  }

  lemma {:induction false} ChainAscends(edges: seq<DependencyEdge>, i: nat, j: nat)
    requires TotalOrder(DependencyLe) && i < j < |edges|
    requires forall k :: 0 <= k < |edges| - 1 ==>
      DependencyLe(edges[k].key, edges[k + 1].key) && edges[k].key != edges[k + 1].key
    ensures DependencyLe(edges[i].key, edges[j].key) && edges[i].key != edges[j].key
    decreases j
  {
    hide DependencyLe;
    if i + 1 < j {
      ChainAscends(edges, i, j - 1);
    }
  }

  const CODES: seq<seq<nat>> := [
    [3, 0, 1, 0, 8, 17, 0], [3, 1, 1, 0, 8, 13, 0], [3, 1, 1, 0, 8, 14, 0],
    [3, 1, 1, 0, 8, 16, 0], [3, 1, 1, 0, 8, 16, 1],
    [3, 1, 3, 0, 8, 12, 0], [4, 0, 1, 0, 9], [4, 0, 3, 1, 7, 0, 0], [4, 0, 4, 0, 10, 0, 0]]

  lemma {:induction false} CodeOf(i: nat)
    requires i < |EDGES|
    ensures DependencyCode(EDGES[i].key) == CODES[i]
  {
    var code := CODES[i];
    EndCodes(i);
    RelationCode(i);
    hide NodeCode;
    hide KindCode;
    assert code == code[..2] + code[2..4] + code[4..];
  }

  lemma {:induction false} EndCodes(i: nat)
    requires i < |EDGES|
    ensures |CODES[i]| > 4
    ensures NodeCode(EDGES[i].key.from) == CODES[i][..2] && NodeCode(EDGES[i].key.to) == CODES[i][2..4]
  {
  }

  lemma {:induction false} RelationCode(i: nat)
    requires i < |EDGES|
    ensures |CODES[i]| > 4 && KindCode(EDGES[i].key.kind) == CODES[i][4..]
  {
  }

  lemma {:induction false} CodesAscend(i: nat)
    requires i < |CODES| - 1
    ensures LexLe(CODES[i], CODES[i + 1]) && CODES[i] != CODES[i + 1]
  {
    LexAt(CODES[i], CODES[i + 1], [1, 5, 5, 6, 2, 0, 2, 2][i]);
  }

  lemma {:induction false} EdgesAscend()
    ensures Ascending(EDGES)
  {
    forall i | 0 <= i < |EDGES| - 1
      ensures DependencyLe(EDGES[i].key, EDGES[i + 1].key) && EDGES[i].key != EDGES[i + 1].key
    {
      CodeOf(i);
      CodeOf(i + 1);
      CodesAscend(i);
      hide DependencyCode;
      hide LexLe;
    }
    hide DependencyLe;
    NeighboursAscend(EDGES);
  }

  /** Ascending edges with at most one site each are their own grouped form. */
  lemma {:induction false} OwnGroups(edges: seq<DependencyEdge>)
    requires Ascending(edges) && forall i :: 0 <= i < |edges| ==> |edges[i].sites| <= 1
    ensures EdgesGrouped(edges, edges)
  {
    hide DependencyLe;
    hide SiteLe;
    var items := SiteItems(edges);
    forall i, site | 0 <= i < |items|
      ensures site in items[i].sites <==> HasSite(items, items[i].key, site)
    {
      if HasSite(items, items[i].key, site) {
        var j :| 0 <= j < |items| && items[j].key == items[i].key && site in items[j].sites;
        assert i == j;
      }
    }
    forall i | 0 <= i < |edges|
      ensures edges[i].evidence == Combined(EvidenceFor(edges, edges[i].key))
    {
      assert edges[i] in edges;
      assert EvidenceFor(edges, edges[i].key) == {edges[i].evidence};
      CombinedMeans({edges[i].evidence});
    }
  }

  /* ---------- the graph before the move is accepted ---------- */

  lemma {:induction false} SlotsNone(edges: seq<DependencyEdge>, from: GraphNode, relation: ProofRelationKind)
    requires forall i :: 0 <= i < |edges| ==> !InGroup(edges[i], from, relation)
    ensures Slots(edges, from, relation) == []
    decreases |edges|
  {
    if edges != [] {
      SlotsNone(edges[..|edges| - 1], from, relation);
    }
  }

  lemma {:induction false} SlotsOne(edges: seq<DependencyEdge>, from: GraphNode, relation: ProofRelationKind, k: nat)
    requires k < |edges| && InGroup(edges[k], from, relation)
    requires forall i :: 0 <= i < |edges| ==> (InGroup(edges[i], from, relation) <==> i == k)
    ensures Slots(edges, from, relation) == [(edges[k].key.kind.ordinal, edges[k].key.to)]
    decreases |edges|
  {
    var n := |edges| - 1;
    if k == n {
      SlotsNone(edges[..n], from, relation);
    } else {
      SlotsOne(edges[..n], from, relation, k);
    }
  }

  lemma {:induction false} SlotsTwo(edges: seq<DependencyEdge>, from: GraphNode, relation: ProofRelationKind, j: nat,
                                    k: nat)
    requires j < k < |edges| && InGroup(edges[j], from, relation) && InGroup(edges[k], from, relation)
    requires forall i :: 0 <= i < |edges| ==> (InGroup(edges[i], from, relation) <==> i == j || i == k)
    ensures Slots(edges, from, relation) ==
      [(edges[j].key.kind.ordinal, edges[j].key.to), (edges[k].key.kind.ordinal, edges[k].key.to)]
    decreases |edges|
  {
    var n := |edges| - 1;
    if k == n {
      SlotsOne(edges[..n], from, relation, j);
    } else {
      SlotsTwo(edges[..n], from, relation, j, k);
    }
  }

  /** Where the edges of one proof and relation stand. */
  function Group(from: GraphNode, relation: ProofRelationKind): set<nat> {
    if from == ProofOf(0) && relation == SelectedImpl then {0}
    else if from != ProofOf(1) then {}
    else
      match relation
      case AssociatedLeaf => {1}
      case AssociatedDefining => {2}
      case SpecializationAncestor => {3, 4}
      case AssociatedSelection => {5}
      case _ => {}
  }

  lemma {:induction false} Grouped(i: nat, from: GraphNode, relation: ProofRelationKind)
    requires i < |EDGES|
    ensures InGroup(EDGES[i], from, relation) <==> i in Group(from, relation)
  {
  }

  /** The slots of the proof relations, listed. */
  lemma {:induction false} ListedSlots(from: GraphNode, relation: ProofRelationKind)
    ensures Slots(EDGES, from, relation) ==
      match from
      case ProofOf(0) => if relation == SelectedImpl then [(0, AWAY)] else []
      case ProofOf(1) =>
        (match relation
         case AssociatedLeaf => [(0, AWAY)]
         case AssociatedDefining => [(0, AWAY)]
         case SpecializationAncestor => [(0, AWAY), (1, AWAY)]
         case AssociatedSelection => [(0, ProofOf(0))]
         case _ => [])
      case _ => []
  {
    forall i | 0 <= i < |EDGES|
      ensures InGroup(EDGES[i], from, relation) <==> i in Group(from, relation)
    {
      Grouped(i, from, relation);
    }
    hide InGroup;
    hide Slots;
    var group := Group(from, relation);
    if group == {} {
      SlotsNone(EDGES, from, relation);
    } else if relation == SpecializationAncestor {
      SlotsTwo(EDGES, from, relation, 3, 4);
    } else {
      var k :| k in group;
      SlotsOne(EDGES, from, relation, k);
    }
  }

  lemma {:induction false} RelationsExact()
    ensures ExactRelations(PROOFS, EDGES)
  {
    forall from, relation
      ensures from == ProofOf(0) ==> Numbers(Slots(EDGES, from, relation), Payload(SELECTED.kind, relation))
      ensures from == ProofOf(1) ==> Numbers(Slots(EDGES, from, relation), Payload(FOUND.kind, relation))
      ensures NumbersSomething(Slots(EDGES, from, relation))
    {
      SlotsNumber(from, relation);
    }
    hide Numbers;
    hide Slots;
    hide Payload;
    hide NumbersSomething;
  }

  lemma {:induction false} SlotsNumber(from: GraphNode, relation: ProofRelationKind)
    ensures from == ProofOf(0) ==> Numbers(Slots(EDGES, from, relation), Payload(SELECTED.kind, relation))
    ensures from == ProofOf(1) ==> Numbers(Slots(EDGES, from, relation), Payload(FOUND.kind, relation))
    ensures NumbersSomething(Slots(EDGES, from, relation))
  {
    ListedSlots(from, relation);
    var slots := Slots(EDGES, from, relation);
    hide Slots;
    if from == ProofOf(0) {
      assert slots == Number(Payload(SELECTED.kind, relation));
      assert Numbers(slots, Payload(SELECTED.kind, relation));
    } else if from == ProofOf(1) {
      assert slots == Number(Payload(FOUND.kind, relation));
      assert Numbers(slots, Payload(FOUND.kind, relation));
    } else {
      assert slots == Number([]);
      assert Numbers(slots, []);
    }
  }

  lemma {:induction false} ProofsAccepted(definitions: DG.DefinitionGraph)
    requires definitions.externalDefinitions == [LIBRARY]
    ensures ProofsValid(PROOFS, definitions)
  {
    assert ProofValid(SELECTED, PROOFS, definitions);
    assert ProofValid(FOUND, PROOFS, definitions) by { assert AssociatedSelectionMatches(FOUND.kind, PROOFS); }
    hide ProofValid;
    assert ProofNodeKeys(PROOFS)[0] != ProofNodeKeys(PROOFS)[1];
  }

  lemma {:induction false} NodesAccepted(definitions: DG.DefinitionGraph)
    requires |definitions.definitions| == 1 && definitions.definitions[0].kind == Crate
    requires definitions.externalDefinitions == [LIBRARY]
    ensures ExpansionsValid([], definitions) && ProofsValid(PROOFS, definitions) && MonosValid([CALLER], definitions)
    ensures RootsValid(ROOTS, definitions, [CALLER])
  {
    ProofsAccepted(definitions);
    hide ProofsValid;
    assert MonoValid(CALLER, definitions);
    assert GlobalAssemblyMatches(definitions, [CALLER]) by {
      assert (set d | d in definitions.definitions && d.kind == GlobalAsm :: d.key) == {};
      assert (set n | n in [CALLER] && n.key.GlobalAsmKey? :: n.key.definition) == {};
    }
    hide MonoValid;
    hide GlobalAssemblyMatches;
    assert MonosValid([CALLER], definitions);
    hide MonosValid;
    assert ROOTS[..0] == [] && [CALLER][..0] == [];
    assert CountGlobalAsm([CALLER]) == 0;
    assert forall reason :: CountReason(ROOTS[..0], reason) == 0;
    assert CountReason(ROOTS, MainRoot) == 0 && CountReason(ROOTS, StartInstance) == 0;
    assert CountReason(ROOTS, GlobalAssembly) == 0;
    assert RootNodeValid(ROOTS[0], definitions, [CALLER]);
  }

  lemma {:induction false} EdgesAccepted(g: DependencyGraph)
    requires |g.definitions.definitions| == 1 && g.definitions.externalDefinitions == [LIBRARY]
    requires g.proofs == PROOFS && g.monoNodes == [CALLER]
    ensures EdgesValid(EDGES, g)
  {
    hide EdgeValid;
    forall e | e in EDGES
      ensures EdgeValid(e, g.definitions, |g.expansions|, 2, 1)
    {
      var i :| 0 <= i < |EDGES| && EDGES[i] == e;
      OneValid(i, g);
    }
  }

  lemma {:induction false} NoAllocations()
    ensures SlotsUnique(EDGES) && AllocationPaths.AllocationsValid([CALLER], EDGES)
  {
    assert !AllocationPaths.IsAllocation([CALLER], 0);
    assert AllocationPaths.OrdinalsFit([CALLER], EDGES) by {
      assert forall role: AllocationPaths.Role :: !AllocationPaths.HasRole([CALLER], 0, role);
    }
  }

  lemma {:induction false} OneValid(i: nat, g: DependencyGraph)
    requires |g.definitions.definitions| == 1 && g.definitions.externalDefinitions == [LIBRARY] && i < |EDGES|
    ensures EdgeValid(EDGES[i], g.definitions, |g.expansions|, 2, 1)
  {
    assert RelatesProofs(AssociatedSelection);
  }

  /** The call has its use as the only counterpart. */
  lemma {:induction false} CallJoined()
    ensures CallsInstance(CALL, USE, [CALLER], INSTANCE)
    ensures forall e :: e in EDGES ==> SelectionJoin(e, PROOFS, [CALLER], EDGES)
  {
    assert SiteCovered(CALL.sites[0], USE.sites[0]);
    assert CallsInstance(CALL, USE, [CALLER], INSTANCE);
    var test := (e: DependencyEdge) => CallsInstance(CALL, e, [CALLER], INSTANCE);
    forall i | 0 <= i < |EDGES|
      ensures test(EDGES[i]) <==> i == 8
    {
    }
    FilterOne(EDGES, test, 8);
    assert CodegenJoin(CALL, FOUND.kind, [CALLER], EDGES) by {
      assert FOUND.kind.codegenInstance == INSTANCE;
    }
    hide CodegenJoin;
    assert SelectionJoin(CALL, PROOFS, [CALLER], EDGES);
  }

  lemma {:induction false} CallerReached(g: DependencyGraph)
    requires g.edges == EDGES && g.monoNodes == [CALLER] && g.roots == ROOTS
    ensures MonosReached(g)
  {
    assert MonoRoots(ROOTS) == [0] by { assert ROOTS[..0] == [] && MonoRoots(ROOTS[..0]) == []; }
    ReachesSelf(StepBy(EDGES, MonoLink), 0);
    assert 0 in MonoRoots(ROOTS);
    assert ReachedFrom(EDGES, MonoLink, MonoRoots(ROOTS), 0);
  }

  lemma {:induction false} ProofSteps()
    ensures Selected(Indices(1), EDGES, 1) && StepBy(EDGES, ProofLink)(1, 0)
  {
    assert EDGES[5] in EDGES && ProofLink(EDGES[5]) == Some((1, 0));
    assert EDGES[7] in EDGES && Selects(Indices(1), EDGES[7], 1);
  }

  lemma {:induction false} BothProofsReached(g: DependencyGraph)
    requires g.edges == EDGES && |g.monoNodes| == 1 && |g.proofs| == 2
    ensures ProofsReached(g)
  {
    hide Selected;
    hide LinksTo;
    hide EDGES;
    var step := StepBy(EDGES, ProofLink);
    ProofSteps();
    ReachesSelf(step, 1);
    ReachesFurther(step, 1, 1, 0);
    assert ProofReached(Indices(1), EDGES, 0) && ProofReached(Indices(1), EDGES, 1);
  }

  lemma {:induction false} SelectionsJoined(g: DependencyGraph)
    requires g.edges == EDGES && g.monoNodes == [CALLER] && g.proofs == PROOFS
    ensures JoinsValid(g)
  {
    CallJoined();
  }

  lemma {:induction false} NothingElse(g: DependencyGraph)
    requires g.edges == EDGES && g.monoNodes == [CALLER] && g.expansions == []
    requires forall d :: d in g.definitions.definitions ==> d.origin.Written?
    ensures ExpansionsJoined(g) && MaterializationsValid(g)
  {
    var test := (e: DependencyEdge) => e.key.from == MonoOf(0) && e.key.kind == MaterializesDefinition;
    FilterOne(EDGES, test, 6);
    assert MaterializationValid(CALLER, EDGES);
  }

  /** The graph before the move. */
  function Before(): (g: DependencyGraph)
    requires Normalization.GraphMaps(DEFINITIONS, COORDINATES)
  {
    DependencyGraph(Keyed(DEFINITIONS, COORDINATES), [], PROOFS, [CALLER], EDGES, ROOTS)
  }

  lemma {:induction false} BeforeCandidate()
    requires Normalization.GraphMaps(DEFINITIONS, COORDINATES)
    ensures CandidateOf(KeyedParts(BEFORE, COORDINATES), Before())
  {
    assert DefinitionEdges(Keyed(DEFINITIONS, COORDINATES)) + EDGES == EDGES;
    assert EdgesGrouped(EDGES, EDGES) by { EdgesAscend(); OwnGroups(EDGES); }
    hide EdgesGrouped;
    hide Normalization.GraphMaps;
    hide Keyed;
    SortedStays(PROOFS, ProofLe);
    SortedStays([CALLER], MonoLe);
    SortedStays(ROOTS, RootLe);
    SortedStays<ExpansionNode>([], ExpansionLe);
  }

  lemma {:induction false} BeforeAccepted()
    requires Normalization.GraphMaps(DEFINITIONS, COORDINATES)
    ensures Verdict(EDGES, Before()).None?
  {
    assert |Keyed(DEFINITIONS, COORDINATES).definitions| == 1;
    hide Normalization.GraphMaps;
    GraphAccepted(Before());
  }

  lemma {:induction false} GraphAccepted(g: DependencyGraph)
    requires |g.definitions.definitions| == 1 && g.definitions.externalDefinitions == [LIBRARY]
    requires g.definitions.edges == []
    requires g.definitions.definitions[0].kind == Crate && g.definitions.definitions[0].origin.Written?
    requires g.expansions == [] && g.proofs == PROOFS && g.monoNodes == [CALLER] && g.edges == EDGES && g.roots == ROOTS
    ensures Verdict(EDGES, g).None?
  {
    assert DefinitionEdges(g.definitions) + EDGES == EDGES;
    NodesAccepted(g.definitions);
    EdgesAccepted(g);
    NoAllocations();
    RelationsExact();
    SelectionsJoined(g);
    CallerReached(g);
    BothProofsReached(g);
    NothingElse(g);
    hide *;
    NoObjection(EDGES, g);
  }

  lemma {:induction false} NoObjection(edges: seq<DependencyEdge>, g: DependencyGraph)
    requires ExpansionsValid(g.expansions, g.definitions) && ProofsValid(g.proofs, g.definitions)
    requires MonosValid(g.monoNodes, g.definitions) && RootsValid(g.roots, g.definitions, g.monoNodes)
    requires SlotsUnique(edges) && EdgesValid(DefinitionEdges(g.definitions) + edges, g)
    requires AllocationPaths.AllocationsValid(g.monoNodes, g.edges) && ExactRelations(g.proofs, g.edges)
    requires JoinsValid(g) && MonosReached(g) && ProofsReached(g) && ExpansionsJoined(g) && MaterializationsValid(g)
    ensures Verdict(edges, g).None?
  {
  }

  /* ---------- the graph after the move is rejected ---------- */

  lemma {:induction false} SitesOf(i: nat, k: nat)
    requires i < |EDGES| && k < |EDGES[i].sites|
    ensures EDGES[i].sites[k] == Source(ByteRange(0, 1)) || EDGES[i].sites[k] == Source(ByteRange(1, 1))
  {
  }

  lemma {:induction false} EdgesMap()
    ensures AllEdgesMap(EDGES, COORDINATES)
  {
    Rewritten();
    hide SourceRewrite.OriginalRange;
    hide TiledRewrite;
    hide AtSeam;
    var edges := EDGES;
    forall i, k | 0 <= i < |edges| && 0 <= k < |edges[i].sites|
      ensures MapObservation(edges[i].sites[k], COORDINATES).Ok?
    {
      SitesOf(i, k);
    }
  }

  lemma {:induction false} PartsCanMove()
    ensures TiledRewrite(COORDINATES) && PartsMap(BEFORE, COORDINATES)
  {
    Rewritten();
    DefinitionsAccepted();
    Normalization.FittingMaps(DEFINITIONS, COORDINATES);
    EdgesMap();
    hide Normalization.GraphMaps;
    hide TiledRewrite;
    hide AtSeam;
    hide AllEdgesMap;
    hide SourceRewrite.OriginalRange;
    assert MonoMaps(CALLER, COORDINATES);
  }

  lemma {:induction false} CallUncovered()
    requires TiledRewrite(COORDINATES)
    ensures Uncovers(COORDINATES, CALL, USE)
  {
    Rewritten();
    hide TiledRewrite;
    hide AtSeam;
    hide SourceRewrite.OriginalRange;
    assert !StaysCovered(COORDINATES, CALL.sites[0], USE.sites[0]);
    assert !StaysMatched(COORDINATES, CALL.sites, USE.sites) by { assert CALL.sites[0] in CALL.sites; }
  }

  lemma {:induction false} CallIsLost(g: DependencyGraph)
    requires TiledRewrite(COORDINATES) && g.edges == EDGES && g.proofs == PROOFS && g.monoNodes == [CALLER]
    ensures CallsLost(COORDINATES, g)
  {
    CallJoined();
    CallUncovered();
    hide TiledRewrite;
    hide Uncovers;
    hide CallsInstance;
    hide SelectionJoin;
    assert EDGES[7] == CALL && EDGES[8] == USE;
    assert LosesCall(COORDINATES, CALL, FOUND.kind, [CALLER], EDGES);
    assert CallLost(COORDINATES, EDGES[7], PROOFS, [CALLER], EDGES);
  }

  lemma {:induction false} MovedDefinitionsAccepted()
    requires TiledRewrite(COORDINATES) && Normalization.GraphMaps(DEFINITIONS, COORDINATES)
    ensures DG.Accepted(MovedDefinitions()) && MovesDefinitions(DEFINITIONS, MovedDefinitions(), COORDINATES)
  {
    DefinitionsAccepted();
    hide TiledRewrite;
    Normalization.CollectedGraphMoves(DEFINITIONS, COORDINATES);
    var ds := Normalization.MappedDefinitions(DEFINITIONS.definitions, COORDINATES);
    assert DG.Grouped([], []) by { assert forall key :: !HasKey<DG.EdgeKey, ByteRange>([], key); }
    SortedStays(ds, DG.DefinitionLe);
    SortedStays([LIBRARY], DG.ExternalLe);
    DG.GroupedAccepted(ds, [LIBRARY], [], MovedDefinitions());
  }

  function MovedDefinitions(): DG.DefinitionGraph
    requires Normalization.GraphMaps(DEFINITIONS, COORDINATES)
  {
    DG.DefinitionGraph(Normalization.MappedDefinitions(DEFINITIONS.definitions, COORDINATES), [LIBRARY], [])
  }

  /** A concrete run whose parts are accepted in the reduced text and rejected in original coordinates. */
  lemma {:induction false} CallRejected() returns (g: DependencyGraph, after: Parts, g': DependencyGraph)
    ensures TiledRewrite(COORDINATES) && DG.Accepted(DEFINITIONS) && PartsMap(BEFORE, COORDINATES)
    ensures CandidateOf(KeyedParts(BEFORE, COORDINATES), g) && Verdict(BEFORE.edges, g).None?
    ensures DG.Accepted(after.definitions) && PartsMoved(BEFORE, after, COORDINATES)
    ensures CandidateOf(after, g') && Verdict(after.edges, g') == Some(InvalidProof)
  {
    PartsCanMove();
    DefinitionsAccepted();
    BeforeCandidate();
    BeforeAccepted();
    CallIsLost(Before());
    MovedDefinitionsAccepted();
    hide TiledRewrite;
    hide Normalization.GraphMaps;
    hide MovesDefinitions;
    hide AllExpansionsMap;
    hide AllMonosMap;
    hide AllEdgesMap;
    hide DG.Accepted;
    g := Before();
    var edges := MappedEdges(EDGES, COORDINATES);
    var monos := MappedMonos([CALLER], COORDINATES);
    after := Parts(MovedDefinitions(), [], PROOFS, monos, edges, ROOTS);
    g' := DependencyGraph(after.definitions, [], PROOFS, monos, edges, ROOTS);
    MovedCandidate(after, g');
    hide CandidateOf;
    hide Verdict;
    hide CallsLost;
    hide PartsMap;
    VerdictMoved(BEFORE, after, g, g', COORDINATES);
  }

  lemma {:induction false} MovedAscend()
    requires AllEdgesMap(EDGES, COORDINATES)
    ensures Ascending(MappedEdges(EDGES, COORDINATES))
    ensures forall i :: 0 <= i < |EDGES| ==> |MappedEdges(EDGES, COORDINATES)[i].sites| <= 1
  {
    EdgesAscend();
    assert forall i :: 0 <= i < |EDGES| ==> |EDGES[i].sites| <= 1;
    hide DependencyLe;
    hide MapObservation;
    KeysAscend(EDGES, MappedEdges(EDGES, COORDINATES));
  }

  lemma {:induction false} KeysAscend(a: seq<DependencyEdge>, b: seq<DependencyEdge>)
    requires Ascending(a) && |a| == |b| && forall i :: 0 <= i < |a| ==> b[i].key == a[i].key
    ensures Ascending(b)
  {
    hide DependencyLe;
  }

  lemma {:induction false} MovedCandidate(after: Parts, g': DependencyGraph)
    requires Normalization.GraphMaps(DEFINITIONS, COORDINATES) && AllEdgesMap(EDGES, COORDINATES)
    requires AllMonosMap([CALLER], COORDINATES)
    requires after == Parts(MovedDefinitions(), [], PROOFS, MappedMonos([CALLER], COORDINATES),
                            MappedEdges(EDGES, COORDINATES), ROOTS)
    requires g' == DependencyGraph(after.definitions, [], PROOFS, after.monoNodes, after.edges, ROOTS)
    ensures CandidateOf(after, g')
  {
    hide Normalization.GraphMaps;
    hide MapObservation;
    hide MonoMaps;
    hide MappedPath;
    hide Normalization.MappedDefinitions;
    var edges := after.edges;
    assert DefinitionEdges(after.definitions) + edges == edges;
    MovedAscend();
    OwnGroups(edges);
    hide EdgesGrouped;
    SortedStays(PROOFS, ProofLe);
    SortedStays(after.monoNodes, MonoLe);
    SortedStays(ROOTS, RootLe);
    SortedStays<ExpansionNode>([], ExpansionLe);
  }
}
