/** What an accepted graph says about each field of a proof's payload, edge by edge
    (src/dependency_graph.rs, lines 1633-1847). */
module ProofEdges {
  import opened Wrappers
  import opened Ordering
  import opened DefinitionGraphs
  import opened DependencyTypes
  import opened ProofRelations

  /** Under `relation`, one edge leaves `from` for each target, numbered by the target's position, and no other. */
  ghost predicate OneEdgeEach(edges: seq<DependencyEdge>, from: GraphNode, relation: ProofRelationKind,
                              targets: seq<GraphNode>) {
    && (forall k :: 0 <= k < |targets| ==> HasEdge(edges, DependencyKey(from, targets[k], ProofRelation(relation, k))))
    && (forall e :: e in edges && InGroup(e, from, relation) ==>
          e.key.kind.ordinal < |targets| && e.key.to == targets[e.key.kind.ordinal])
    && (forall i, j ::
          0 <= i < j < |edges| && InGroup(edges[i], from, relation) && InGroup(edges[j], from, relation) ==>
          edges[i].key.kind.ordinal != edges[j].key.kind.ordinal)
  }

  ghost predicate HasEdge(edges: seq<DependencyEdge>, key: DependencyKey) {
    exists e :: e in edges && e.key == key
  }

  function SlotAt(edge: DependencyEdge): Slot
    requires edge.key.kind.ProofRelation?
  {
    (edge.key.kind.ordinal, edge.key.to)
  }

  lemma {:induction false} SlotsListed(edges: seq<DependencyEdge>, from: GraphNode, relation: ProofRelationKind,
                                       slot: Slot)
    ensures slot in Slots(edges, from, relation)
      <==> exists e :: e in edges && InGroup(e, from, relation) && SlotAt(e) == slot
    decreases |edges|
  {
    if edges != [] {
      var n := |edges| - 1;
      SlotsListed(edges[..n], from, relation, slot);
      assert edges == edges[..n] + [edges[n]];
      assert forall e :: e in edges <==> e in edges[..n] || e == edges[n];
    }
  }

  ghost predicate SlotsApart(edges: seq<DependencyEdge>, from: GraphNode, relation: ProofRelationKind) {
    forall i, j :: 0 <= i < j < |edges| && InGroup(edges[i], from, relation) && InGroup(edges[j], from, relation) ==>
      SlotAt(edges[i]) != SlotAt(edges[j])
  }

  lemma {:induction false} DistinctAppend<T(!new)>(s: seq<T>, x: T)
    ensures Distinct(s + [x]) <==> Distinct(s) && x !in s
  {
    var t := s + [x];
    if Distinct(t) {
      forall i, j | 0 <= i < j < |s|
        ensures s[i] != s[j]
      {
        assert t[i] != t[j];
      }
      forall i | 0 <= i < |s|
        ensures s[i] != x
      {
        assert t[i] != t[|s|];
      }
    }
  }

  lemma {:induction false} SlotsDistinct(edges: seq<DependencyEdge>, from: GraphNode, relation: ProofRelationKind)
    ensures Distinct(Slots(edges, from, relation)) <==> SlotsApart(edges, from, relation)
    decreases |edges|
  {
    if edges != [] {
      var n := |edges| - 1;
      var init := edges[..n];
      SlotsDistinct(init, from, relation);
      if InGroup(edges[n], from, relation) {
        DistinctAppend(Slots(init, from, relation), SlotAt(edges[n]));
        SlotsListed(init, from, relation, SlotAt(edges[n]));
        LastApart(edges, from, relation);
        hide SlotsApart;
      } else {
        assert Slots(edges, from, relation) == Slots(init, from, relation);
        LastElsewhere(edges, from, relation);
        hide SlotsApart;
      }
    }
  }

  lemma {:induction false} LastElsewhere(edges: seq<DependencyEdge>, from: GraphNode, relation: ProofRelationKind)
    requires edges != [] && !InGroup(edges[|edges| - 1], from, relation)
    ensures SlotsApart(edges, from, relation) <==> SlotsApart(edges[..|edges| - 1], from, relation)
  {
    var init := edges[..|edges| - 1];
    assert forall i :: 0 <= i < |init| ==> init[i] == edges[i];
  }

  lemma {:induction false} LastApart(edges: seq<DependencyEdge>, from: GraphNode, relation: ProofRelationKind)
    requires edges != [] && InGroup(edges[|edges| - 1], from, relation)
    ensures SlotsApart(edges, from, relation)
      <==> SlotsApart(edges[..|edges| - 1], from, relation)
           && forall e :: e in edges[..|edges| - 1] && InGroup(e, from, relation) ==>
                SlotAt(e) != SlotAt(edges[|edges| - 1])
  {
    var n := |edges| - 1;
    var init := edges[..n];
    assert forall i :: 0 <= i < n ==> init[i] == edges[i];
    if SlotsApart(edges, from, relation) {
      forall e | e in init && InGroup(e, from, relation)
        ensures SlotAt(e) != SlotAt(edges[n])
      {
        var i :| 0 <= i < n && init[i] == e;
      }
    }
  }

  /** Numbering the payload and having one edge for each of its entries are the same. */
  lemma {:induction false} NumbersMeans(edges: seq<DependencyEdge>, from: GraphNode, relation: ProofRelationKind,
                                        targets: seq<GraphNode>)
    ensures Numbers(Slots(edges, from, relation), targets) <==> OneEdgeEach(edges, from, relation, targets)
  {
    var slots := Slots(edges, from, relation);
    SlotsDistinct(edges, from, relation);
    forall slot
      ensures slot in slots <==> exists e :: e in edges && InGroup(e, from, relation) && SlotAt(e) == slot
    {
      SlotsListed(edges, from, relation, slot);
    }
    hide Slots;
    assert Distinct(Number(targets));
    if Numbers(slots, targets) {
      DistinctStays(Number(targets), slots);
      SameElements(slots, Number(targets));
      NumberedEach(edges, from, relation, targets, slots);
    }
    if OneEdgeEach(edges, from, relation, targets) {
      EachNumbered(edges, from, relation, targets, slots);
    }
  }

  lemma {:induction false} NumberedEach(edges: seq<DependencyEdge>, from: GraphNode, relation: ProofRelationKind,
                                        targets: seq<GraphNode>, slots: seq<Slot>)
    requires forall slot :: slot in slots <==> exists e :: e in edges && InGroup(e, from, relation) && SlotAt(e) == slot
    requires SlotsApart(edges, from, relation) && forall slot :: slot in slots <==> slot in Number(targets)
    ensures OneEdgeEach(edges, from, relation, targets)
  {
    forall k | 0 <= k < |targets|
      ensures HasEdge(edges, DependencyKey(from, targets[k], ProofRelation(relation, k)))
    {
      assert Number(targets)[k] in Number(targets);
      var e :| e in edges && InGroup(e, from, relation) && SlotAt(e) == (k, targets[k]);
      assert e.key.kind == ProofRelation(relation, k);
      assert e.key == DependencyKey(from, targets[k], ProofRelation(relation, k));
    }
    forall e | e in edges && InGroup(e, from, relation)
      ensures e.key.kind.ordinal < |targets| && e.key.to == targets[e.key.kind.ordinal]
    {
      assert SlotAt(e) in slots;
    }
    forall i, j |
      0 <= i < j < |edges| && InGroup(edges[i], from, relation) && InGroup(edges[j], from, relation)
      ensures edges[i].key.kind.ordinal != edges[j].key.kind.ordinal
    {
      assert edges[i] in edges && edges[j] in edges;
      assert SlotAt(edges[i]) != SlotAt(edges[j]);
    }
  }

  lemma {:induction false} EachNumbered(edges: seq<DependencyEdge>, from: GraphNode, relation: ProofRelationKind,
                                        targets: seq<GraphNode>, slots: seq<Slot>)
    requires forall slot :: slot in slots <==> exists e :: e in edges && InGroup(e, from, relation) && SlotAt(e) == slot
    requires Distinct(slots) <==> SlotsApart(edges, from, relation)
    requires OneEdgeEach(edges, from, relation, targets)
    ensures Numbers(slots, targets)
  {
    assert SlotsApart(edges, from, relation);
    assert Distinct(Number(targets));
    forall slot: Slot
      ensures multiset(slots)[slot] == multiset(Number(targets))[slot]
    {
      MultisetOfDistinct(slots, slot);
      MultisetOfDistinct(Number(targets), slot);
      if slot in Number(targets) {
        assert HasEdge(edges, DependencyKey(from, targets[slot.0], ProofRelation(relation, slot.0)));
        var e :| e in edges && e.key == DependencyKey(from, targets[slot.0], ProofRelation(relation, slot.0));
        assert SlotAt(e) == slot;
      }
      if slot in slots {
        var e :| e in edges && InGroup(e, from, relation) && SlotAt(e) == slot;
        assert Number(targets)[slot.0] == slot;
      }
    }
  }

  ghost predicate PayloadEdges(proof: ProofNode, edges: seq<DependencyEdge>, relation: ProofRelationKind) {
    OneEdgeEach(edges, ProofOf(proof.id), relation, Payload(proof.kind, relation))
  }

  /** A proof's relations are exact when, under each relation, its payload has one edge for each entry. */
  lemma {:induction false} ExactMeans(proof: ProofNode, edges: seq<DependencyEdge>)
    ensures ExactProof(proof, edges) <==> forall relation :: PayloadEdges(proof, edges, relation)
  {
    hide Payload;
    hide OneEdgeEach;
    hide Numbers;
    forall relation
      ensures Numbers(Slots(edges, ProofOf(proof.id), relation), Payload(proof.kind, relation))
        <==> PayloadEdges(proof, edges, relation)
    {
      NumbersMeans(edges, ProofOf(proof.id), relation, Payload(proof.kind, relation));
    }
  }

  /** The edges of an obligation, field by field. */
  lemma {:induction false} ObligationEdges(proof: ProofNode, edges: seq<DependencyEdge>)
    requires proof.kind.Obligation?
    ensures ExactProof(proof, edges) <==>
      && OneEdgeEach(edges, ProofOf(proof.id), SelectedImpl,
                     match proof.kind.source
                     case Some(SelectionSource(_, _, Some(LocalTarget(id)), _)) => [DefinitionNode(id)]
                     case Some(SelectionSource(_, _, Some(ExternalTarget(id)), _)) => [ExternalDefinitionNode(id)]
                     case _ => [])
      && OneEdgeEach(edges, ProofOf(proof.id), TraitSelectionNested,
                     if proof.kind.selectionNested.Some? then ProofNodes(proof.kind.selectionNested.value) else [])
      && OneEdgeEach(edges, ProofOf(proof.id), FulfillmentNested,
                     if proof.kind.fulfillmentNested.Some? then ProofNodes(proof.kind.fulfillmentNested.value) else [])
      && OneEdgeEach(edges, ProofOf(proof.id), TraitDefinition,
                     match proof.kind.source
                     case Some(SelectionSource(_, _, _,
                                               Some(BuiltinTraitTarget(TraitDefinitionTarget, LocalTarget(id))))) =>
                       [DefinitionNode(id)]
                     case Some(SelectionSource(_, _, _,
                                               Some(BuiltinTraitTarget(TraitDefinitionTarget, ExternalTarget(id))))) =>
                       [ExternalDefinitionNode(id)]
                     case _ => [])
      && OneEdgeEach(edges, ProofOf(proof.id), AutoTraitProof,
                     match proof.kind.source
                     case Some(SelectionSource(_, _, _,
                                               Some(BuiltinTraitTarget(AutoTraitTarget, LocalTarget(id))))) =>
                       [DefinitionNode(id)]
                     case Some(SelectionSource(_, _, _,
                                               Some(BuiltinTraitTarget(AutoTraitTarget, ExternalTarget(id))))) =>
                       [ExternalDefinitionNode(id)]
                     case _ => [])
      && OneEdgeEach(edges, ProofOf(proof.id), QueryTraceRoot,
                     if proof.kind.queryTrace.Some? then [ProofOf(proof.kind.queryTrace.value.root)] else [])
      && OneEdgeEach(edges, ProofOf(proof.id), TraceObligation,
                     if proof.kind.queryTrace.Some? then ProofNodes(proof.kind.queryTrace.value.obligations) else [])
      && OneEdgeEach(edges, ProofOf(proof.id), TraceTraitSelection,
                     if proof.kind.queryTrace.Some? then ProofNodes(proof.kind.queryTrace.value.traitSelections)
                     else [])
      && OneEdgeEach(edges, ProofOf(proof.id), TraceProjection,
                     if proof.kind.queryTrace.Some? then ProofNodes(proof.kind.queryTrace.value.projections) else [])
      && OneEdgeEach(edges, ProofOf(proof.id), TraceFulfillment,
                     if proof.kind.queryTrace.Some? then ProofNodes(proof.kind.queryTrace.value.fulfillments) else [])
      && OneEdgeEach(edges, ProofOf(proof.id), TraceCycle,
                     if proof.kind.queryTrace.Some? then ProofNodes(proof.kind.queryTrace.value.cycles) else [])
      && forall relation ::
           relation !in {SelectedImpl, TraitSelectionNested, FulfillmentNested, TraitDefinition, AutoTraitProof,
           QueryTraceRoot, TraceObligation, TraceTraitSelection, TraceProjection, TraceFulfillment,
           TraceCycle} ==>
             OneEdgeEach(edges, ProofOf(proof.id), relation, [])
  {
    ExactMeans(proof, edges);
    hide OneEdgeEach;
    hide ExactProof;
    hide ProofNodes;
    hide SpecializationNodes;
    assert PayloadEdges(proof, edges, SelectedImpl) <==>
      OneEdgeEach(edges, ProofOf(proof.id), SelectedImpl,
        match proof.kind.source
        case Some(SelectionSource(_, _, Some(LocalTarget(id)), _)) => [DefinitionNode(id)]
        case Some(SelectionSource(_, _, Some(ExternalTarget(id)), _)) => [ExternalDefinitionNode(id)]
        case _ => []);
    assert PayloadEdges(proof, edges, TraitSelectionNested) <==>
      OneEdgeEach(edges, ProofOf(proof.id), TraitSelectionNested,
        if proof.kind.selectionNested.Some? then ProofNodes(proof.kind.selectionNested.value) else []);
    assert PayloadEdges(proof, edges, FulfillmentNested) <==>
      OneEdgeEach(edges, ProofOf(proof.id), FulfillmentNested,
        if proof.kind.fulfillmentNested.Some? then ProofNodes(proof.kind.fulfillmentNested.value) else []);
    assert PayloadEdges(proof, edges, TraitDefinition) <==>
      OneEdgeEach(edges, ProofOf(proof.id), TraitDefinition,
        match proof.kind.source
        case Some(SelectionSource(_, _, _,
                                  Some(BuiltinTraitTarget(TraitDefinitionTarget, LocalTarget(id))))) =>
          [DefinitionNode(id)]
        case Some(SelectionSource(_, _, _,
                                  Some(BuiltinTraitTarget(TraitDefinitionTarget, ExternalTarget(id))))) =>
          [ExternalDefinitionNode(id)]
        case _ => []);
    assert PayloadEdges(proof, edges, AutoTraitProof) <==>
      OneEdgeEach(edges, ProofOf(proof.id), AutoTraitProof,
        match proof.kind.source
        case Some(SelectionSource(_, _, _,
                                  Some(BuiltinTraitTarget(AutoTraitTarget, LocalTarget(id))))) =>
          [DefinitionNode(id)]
        case Some(SelectionSource(_, _, _,
                                  Some(BuiltinTraitTarget(AutoTraitTarget, ExternalTarget(id))))) =>
          [ExternalDefinitionNode(id)]
        case _ => []);
    assert PayloadEdges(proof, edges, QueryTraceRoot) <==>
      OneEdgeEach(edges, ProofOf(proof.id), QueryTraceRoot,
        if proof.kind.queryTrace.Some? then [ProofOf(proof.kind.queryTrace.value.root)] else []);
    assert PayloadEdges(proof, edges, TraceObligation) <==>
      OneEdgeEach(edges, ProofOf(proof.id), TraceObligation,
        if proof.kind.queryTrace.Some? then ProofNodes(proof.kind.queryTrace.value.obligations) else []);
    assert PayloadEdges(proof, edges, TraceTraitSelection) <==>
      OneEdgeEach(edges, ProofOf(proof.id), TraceTraitSelection,
        if proof.kind.queryTrace.Some? then ProofNodes(proof.kind.queryTrace.value.traitSelections) else []);
    assert PayloadEdges(proof, edges, TraceProjection) <==>
      OneEdgeEach(edges, ProofOf(proof.id), TraceProjection,
        if proof.kind.queryTrace.Some? then ProofNodes(proof.kind.queryTrace.value.projections) else []);
    assert PayloadEdges(proof, edges, TraceFulfillment) <==>
      OneEdgeEach(edges, ProofOf(proof.id), TraceFulfillment,
        if proof.kind.queryTrace.Some? then ProofNodes(proof.kind.queryTrace.value.fulfillments) else []);
    assert PayloadEdges(proof, edges, TraceCycle) <==>
      OneEdgeEach(edges, ProofOf(proof.id), TraceCycle,
        if proof.kind.queryTrace.Some? then ProofNodes(proof.kind.queryTrace.value.cycles) else []);
    forall relation | relation !in {SelectedImpl, TraitSelectionNested, FulfillmentNested, TraitDefinition,
           AutoTraitProof, QueryTraceRoot, TraceObligation, TraceTraitSelection, TraceProjection, TraceFulfillment,
           TraceCycle}
      ensures PayloadEdges(proof, edges, relation) <==> OneEdgeEach(edges, ProofOf(proof.id), relation, [])
    {
    }
    hide PayloadEdges;
  }

  /** The edges of a projection, field by field. */
  lemma {:induction false} ProjectionEdges(proof: ProofNode, edges: seq<DependencyEdge>)
    requires proof.kind.Projection?
    ensures ExactProof(proof, edges) <==>
      && OneEdgeEach(edges, ProofOf(proof.id), ProjectionOwner, ProofNodes(proof.kind.owners))
      && OneEdgeEach(edges, ProofOf(proof.id), ProjectionNested, ProofNodes(proof.kind.nested))
      && OneEdgeEach(edges, ProofOf(proof.id), ProjectionSelectedTrait,
                     if proof.kind.selectedTrait.Some? then [ProofOf(proof.kind.selectedTrait.value)] else [])
      && OneEdgeEach(edges, ProofOf(proof.id), SelectedImpl,
                     match proof.kind.selectedImpl
                     case None => []
                     case Some(LocalTarget(id)) => [DefinitionNode(id)]
                     case Some(ExternalTarget(id)) => [ExternalDefinitionNode(id)])
      && OneEdgeEach(edges, ProofOf(proof.id), SelectedTraitItem,
                     match proof.kind.selectedItem
                     case None => []
                     case Some(LocalTarget(id)) => [DefinitionNode(id)]
                     case Some(ExternalTarget(id)) => [ExternalDefinitionNode(id)])
      && OneEdgeEach(edges, ProofOf(proof.id), QueryTraceRoot,
                     if proof.kind.queryTrace.Some? then [ProofOf(proof.kind.queryTrace.value.root)] else [])
      && OneEdgeEach(edges, ProofOf(proof.id), TraceObligation,
                     if proof.kind.queryTrace.Some? then ProofNodes(proof.kind.queryTrace.value.obligations) else [])
      && OneEdgeEach(edges, ProofOf(proof.id), TraceTraitSelection,
                     if proof.kind.queryTrace.Some? then ProofNodes(proof.kind.queryTrace.value.traitSelections)
                     else [])
      && OneEdgeEach(edges, ProofOf(proof.id), TraceProjection,
                     if proof.kind.queryTrace.Some? then ProofNodes(proof.kind.queryTrace.value.projections) else [])
      && OneEdgeEach(edges, ProofOf(proof.id), TraceFulfillment,
                     if proof.kind.queryTrace.Some? then ProofNodes(proof.kind.queryTrace.value.fulfillments) else [])
      && OneEdgeEach(edges, ProofOf(proof.id), TraceCycle,
                     if proof.kind.queryTrace.Some? then ProofNodes(proof.kind.queryTrace.value.cycles) else [])
      && forall relation ::
           relation !in {ProjectionOwner, ProjectionNested, ProjectionSelectedTrait, SelectedImpl, SelectedTraitItem,
           QueryTraceRoot, TraceObligation, TraceTraitSelection, TraceProjection, TraceFulfillment,
           TraceCycle} ==>
             OneEdgeEach(edges, ProofOf(proof.id), relation, [])
  {
    ExactMeans(proof, edges);
    hide OneEdgeEach;
    hide ExactProof;
    hide ProofNodes;
    hide SpecializationNodes;
    assert PayloadEdges(proof, edges, ProjectionOwner) <==>
      OneEdgeEach(edges, ProofOf(proof.id), ProjectionOwner,
        ProofNodes(proof.kind.owners));
    assert PayloadEdges(proof, edges, ProjectionNested) <==>
      OneEdgeEach(edges, ProofOf(proof.id), ProjectionNested,
        ProofNodes(proof.kind.nested));
    assert PayloadEdges(proof, edges, ProjectionSelectedTrait) <==>
      OneEdgeEach(edges, ProofOf(proof.id), ProjectionSelectedTrait,
        if proof.kind.selectedTrait.Some? then [ProofOf(proof.kind.selectedTrait.value)] else []);
    assert PayloadEdges(proof, edges, SelectedImpl) <==>
      OneEdgeEach(edges, ProofOf(proof.id), SelectedImpl,
        match proof.kind.selectedImpl
        case None => []
        case Some(LocalTarget(id)) => [DefinitionNode(id)]
        case Some(ExternalTarget(id)) => [ExternalDefinitionNode(id)]);
    assert PayloadEdges(proof, edges, SelectedTraitItem) <==>
      OneEdgeEach(edges, ProofOf(proof.id), SelectedTraitItem,
        match proof.kind.selectedItem
        case None => []
        case Some(LocalTarget(id)) => [DefinitionNode(id)]
        case Some(ExternalTarget(id)) => [ExternalDefinitionNode(id)]);
    assert PayloadEdges(proof, edges, QueryTraceRoot) <==>
      OneEdgeEach(edges, ProofOf(proof.id), QueryTraceRoot,
        if proof.kind.queryTrace.Some? then [ProofOf(proof.kind.queryTrace.value.root)] else []);
    assert PayloadEdges(proof, edges, TraceObligation) <==>
      OneEdgeEach(edges, ProofOf(proof.id), TraceObligation,
        if proof.kind.queryTrace.Some? then ProofNodes(proof.kind.queryTrace.value.obligations) else []);
    assert PayloadEdges(proof, edges, TraceTraitSelection) <==>
      OneEdgeEach(edges, ProofOf(proof.id), TraceTraitSelection,
        if proof.kind.queryTrace.Some? then ProofNodes(proof.kind.queryTrace.value.traitSelections) else []);
    assert PayloadEdges(proof, edges, TraceProjection) <==>
      OneEdgeEach(edges, ProofOf(proof.id), TraceProjection,
        if proof.kind.queryTrace.Some? then ProofNodes(proof.kind.queryTrace.value.projections) else []);
    assert PayloadEdges(proof, edges, TraceFulfillment) <==>
      OneEdgeEach(edges, ProofOf(proof.id), TraceFulfillment,
        if proof.kind.queryTrace.Some? then ProofNodes(proof.kind.queryTrace.value.fulfillments) else []);
    assert PayloadEdges(proof, edges, TraceCycle) <==>
      OneEdgeEach(edges, ProofOf(proof.id), TraceCycle,
        if proof.kind.queryTrace.Some? then ProofNodes(proof.kind.queryTrace.value.cycles) else []);
    forall relation | relation !in {ProjectionOwner, ProjectionNested, ProjectionSelectedTrait, SelectedImpl,
           SelectedTraitItem, QueryTraceRoot, TraceObligation, TraceTraitSelection, TraceProjection, TraceFulfillment,
           TraceCycle}
      ensures PayloadEdges(proof, edges, relation) <==> OneEdgeEach(edges, ProofOf(proof.id), relation, [])
    {
    }
    hide PayloadEdges;
  }

  /** The edges of an associated item, field by field. */
  lemma {:induction false} AssociatedItemEdges(proof: ProofNode, edges: seq<DependencyEdge>)
    requires proof.kind.AssociatedItem?
    ensures ExactProof(proof, edges) <==>
      && OneEdgeEach(edges, ProofOf(proof.id), AssociatedSelection, [ProofOf(proof.kind.selection)])
      && OneEdgeEach(edges, ProofOf(proof.id), AssociatedLeaf,
                     match proof.kind.leaf
                     case None => []
                     case Some(LocalTarget(id)) => [DefinitionNode(id)]
                     case Some(ExternalTarget(id)) => [ExternalDefinitionNode(id)])
      && OneEdgeEach(edges, ProofOf(proof.id), AssociatedDefining,
                     match proof.kind.definingNode
                     case None => []
                     case Some(SpecializationNode(_, LocalTarget(id))) => [DefinitionNode(id)]
                     case Some(SpecializationNode(_, ExternalTarget(id))) => [ExternalDefinitionNode(id)])
      && OneEdgeEach(edges, ProofOf(proof.id), AssociatedFinalizing,
                     match proof.kind.finalizingNode
                     case None => []
                     case Some(SpecializationNode(_, LocalTarget(id))) => [DefinitionNode(id)]
                     case Some(SpecializationNode(_, ExternalTarget(id))) => [ExternalDefinitionNode(id)])
      && OneEdgeEach(edges, ProofOf(proof.id), SpecializationAncestor, SpecializationNodes(proof.kind.ancestorPath))
      && forall relation ::
           relation !in {AssociatedSelection, AssociatedLeaf, AssociatedDefining, AssociatedFinalizing,
           SpecializationAncestor} ==>
             OneEdgeEach(edges, ProofOf(proof.id), relation, [])
  {
    ExactMeans(proof, edges);
    hide OneEdgeEach;
    hide ExactProof;
    hide ProofNodes;
    hide SpecializationNodes;
    assert PayloadEdges(proof, edges, AssociatedSelection) <==>
      OneEdgeEach(edges, ProofOf(proof.id), AssociatedSelection,
        [ProofOf(proof.kind.selection)]);
    assert PayloadEdges(proof, edges, AssociatedLeaf) <==>
      OneEdgeEach(edges, ProofOf(proof.id), AssociatedLeaf,
        match proof.kind.leaf
        case None => []
        case Some(LocalTarget(id)) => [DefinitionNode(id)]
        case Some(ExternalTarget(id)) => [ExternalDefinitionNode(id)]);
    assert PayloadEdges(proof, edges, AssociatedDefining) <==>
      OneEdgeEach(edges, ProofOf(proof.id), AssociatedDefining,
        match proof.kind.definingNode
        case None => []
        case Some(SpecializationNode(_, LocalTarget(id))) => [DefinitionNode(id)]
        case Some(SpecializationNode(_, ExternalTarget(id))) => [ExternalDefinitionNode(id)]);
    assert PayloadEdges(proof, edges, AssociatedFinalizing) <==>
      OneEdgeEach(edges, ProofOf(proof.id), AssociatedFinalizing,
        match proof.kind.finalizingNode
        case None => []
        case Some(SpecializationNode(_, LocalTarget(id))) => [DefinitionNode(id)]
        case Some(SpecializationNode(_, ExternalTarget(id))) => [ExternalDefinitionNode(id)]);
    assert PayloadEdges(proof, edges, SpecializationAncestor) <==>
      OneEdgeEach(edges, ProofOf(proof.id), SpecializationAncestor,
        SpecializationNodes(proof.kind.ancestorPath));
    forall relation | relation !in {AssociatedSelection, AssociatedLeaf, AssociatedDefining, AssociatedFinalizing,
           SpecializationAncestor}
      ensures PayloadEdges(proof, edges, relation) <==> OneEdgeEach(edges, ProofOf(proof.id), relation, [])
    {
    }
    hide PayloadEdges;
  }

  /** The edges of a cycle. */
  lemma {:induction false} CycleEdges(proof: ProofNode, edges: seq<DependencyEdge>)
    requires proof.kind.Cycle?
    ensures ExactProof(proof, edges) <==>
      && OneEdgeEach(edges, ProofOf(proof.id), CycleMember, ProofNodes(proof.kind.members))
      && forall relation ::
           relation !in {CycleMember} ==>
             OneEdgeEach(edges, ProofOf(proof.id), relation, [])
  {
    ExactMeans(proof, edges);
    hide OneEdgeEach;
    hide ExactProof;
    hide ProofNodes;
    hide SpecializationNodes;
    assert PayloadEdges(proof, edges, CycleMember) <==>
      OneEdgeEach(edges, ProofOf(proof.id), CycleMember,
        ProofNodes(proof.kind.members));
    forall relation | relation !in {CycleMember}
      ensures PayloadEdges(proof, edges, relation) <==> OneEdgeEach(edges, ProofOf(proof.id), relation, [])
    {
    }
    hide PayloadEdges;
  }
}
