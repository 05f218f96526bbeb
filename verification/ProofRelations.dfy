/** The exactness check on proof relations (src/dependency_graph.rs, lines 1115-1123 and 1633-1877). */
module ProofRelations {
  import opened Wrappers
  import opened Ordering
  import opened DefinitionGraphs
  import opened DependencyTypes

  /* ---------- what a proof's payload demands ---------- */

  function TargetNode(target: DefinitionTarget): GraphNode {
    match target
    case LocalTarget(id) => DefinitionNode(id)
    case ExternalTarget(id) => ExternalDefinitionNode(id)
  }

  function ProofNodes(ids: seq<nat>): (nodes: seq<GraphNode>)
    ensures |nodes| == |ids| && forall i :: 0 <= i < |ids| ==> nodes[i] == ProofOf(ids[i])
  {
    seq(|ids|, i requires 0 <= i < |ids| => ProofOf(ids[i]))
  }

  function OptionalProofNodes(ids: Option<seq<nat>>): seq<GraphNode> {
    if ids.Some? then ProofNodes(ids.value) else []
  }

  function OptionalTarget(target: Option<DefinitionTarget>): seq<GraphNode> {
    if target.Some? then [TargetNode(target.value)] else []
  }

  function OptionalSpecialization(node: Option<SpecializationNode>): seq<GraphNode> {
    if node.Some? then [TargetNode(node.value.target)] else []
  }

  function SpecializationNodes(path: seq<SpecializationNode>): (nodes: seq<GraphNode>)
    ensures |nodes| == |path|
    ensures forall i, id {:trigger nodes[i], LocalTarget(id)} ::
      0 <= i < |path| && path[i].target == LocalTarget(id) ==> nodes[i] == DefinitionNode(id)
    ensures forall i, id {:trigger nodes[i], ExternalTarget(id)} ::
      0 <= i < |path| && path[i].target == ExternalTarget(id) ==> nodes[i] == ExternalDefinitionNode(id)
  {
    seq(|path|, i requires 0 <= i < |path| => TargetNode(path[i].target))
  }

  function TracePayload(trace: Option<SolverTracePayload>, relation: ProofRelationKind): (nodes: seq<GraphNode>)
    ensures trace.None? ==> nodes == []
  {
    match trace
    case None => []
    case Some(t) =>
      match relation
      case QueryTraceRoot => [ProofOf(t.root)]
      case TraceObligation => ProofNodes(t.obligations)
      case TraceTraitSelection => ProofNodes(t.traitSelections)
      case TraceProjection => ProofNodes(t.projections)
      case TraceFulfillment => ProofNodes(t.fulfillments)
      case TraceCycle => ProofNodes(t.cycles)
      case _ => []
  }

  predicate TraceRelation(relation: ProofRelationKind) {
    relation in {QueryTraceRoot, TraceObligation, TraceTraitSelection, TraceProjection, TraceFulfillment, TraceCycle}
  }

  function BuiltinTarget(source: Option<SelectionSource>, kind: BuiltinTraitTargetKind): seq<GraphNode> {
    if source.Some? && source.value.builtinTrait.Some? && source.value.builtinTrait.value.kind == kind
    then [TargetNode(source.value.builtinTrait.value.target)] else []
  }

  /** The targets a payload lists under one relation, in payload order: field by field. */
  function Payload(kind: ProofNodeKind, relation: ProofRelationKind): seq<GraphNode> {
    match kind
    case Obligation(_, _, source, selectionNested, fulfillmentNested, queryTrace) =>
      if TraceRelation(relation) then TracePayload(queryTrace, relation)
      else (match relation
        case SelectedImpl => if source.Some? then OptionalTarget(source.value.implementation) else []
        case TraitSelectionNested => OptionalProofNodes(selectionNested)
        case FulfillmentNested => OptionalProofNodes(fulfillmentNested)
        case TraitDefinition => BuiltinTarget(source, TraitDefinitionTarget)
        case AutoTraitProof => BuiltinTarget(source, AutoTraitTarget)
        case _ => [])
    case Projection(_, _, _, _, _, selectedTrait, selectedImpl, selectedItem, owners, nested, queryTrace, _) =>
      if TraceRelation(relation) then TracePayload(queryTrace, relation)
      else (match relation
        case ProjectionOwner => ProofNodes(owners)
        case ProjectionSelectedTrait => if selectedTrait.Some? then [ProofOf(selectedTrait.value)] else []
        case ProjectionNested => ProofNodes(nested)
        case SelectedImpl => OptionalTarget(selectedImpl)
        case SelectedTraitItem => OptionalTarget(selectedItem)
        case _ => [])
    case AssociatedItem(_, _, _, selection, _, leaf, definingNode, finalizingNode, ancestorPath) =>
      (match relation
       case AssociatedSelection => [ProofOf(selection)]
       case AssociatedLeaf => OptionalTarget(leaf)
       case AssociatedDefining => OptionalSpecialization(definingNode)
       case AssociatedFinalizing => OptionalSpecialization(finalizingNode)
       case SpecializationAncestor => SpecializationNodes(ancestorPath)
       case _ => [])
    case Cycle(members, _) => if relation == CycleMember then ProofNodes(members) else []
  }

  /* ---------- the table the check builds ---------- */

  type Expectations = map<ProofRelationKind, seq<GraphNode>>

  const NOTHING_EXPECTED: Expectations := map[
    TraceObligation := [], TraceTraitSelection := [], TraceProjection := [], TraceFulfillment := [],
    TraceCycle := [], QueryTraceRoot := [], TraitSelectionNested := [], ProjectionOwner := [],
    ProjectionSelectedTrait := [], ProjectionNested := [], FulfillmentNested := [], CycleMember := [],
    AssociatedSelection := [], AssociatedLeaf := [], AssociatedDefining := [], AssociatedFinalizing := [],
    SpecializationAncestor := [], SelectedImpl := [], SelectedTraitItem := [], AutoTraitProof := [],
    TraitDefinition := []]

  lemma {:induction false} EveryRelation(r: ProofRelationKind)
    ensures r in NOTHING_EXPECTED && NOTHING_EXPECTED[r] == []
  {
  }

  method ExpectNothing() returns (expected: Expectations)
    ensures forall r :: r in expected && expected[r] == []
  {
    expected := NOTHING_EXPECTED;
    forall r
      ensures r in expected && expected[r] == []
    {
      EveryRelation(r);
    }
  }

  /** `insert_trace_expectations`. */
  method InsertTraceExpectations(expected: Expectations, trace: Option<SolverTracePayload>)
    returns (expected': Expectations)
    ensures trace.None? ==> expected' == expected
    ensures trace.Some? ==> forall r :: r in expected' <==> r in expected || TraceRelation(r)
    ensures trace.Some? ==> forall r :: r in expected' ==>
      expected'[r] == if TraceRelation(r) then TracePayload(trace, r) else expected[r]
  {
    expected' := expected;
    if trace.None? {
      return;
    }
    var t := trace.value;
    expected' := expected'[QueryTraceRoot := [ProofOf(t.root)]];
    expected' := expected'[TraceObligation := ProofNodes(t.obligations)];
    expected' := expected'[TraceTraitSelection := ProofNodes(t.traitSelections)];
    expected' := expected'[TraceProjection := ProofNodes(t.projections)];
    expected' := expected'[TraceFulfillment := ProofNodes(t.fulfillments)];
    expected' := expected'[TraceCycle := ProofNodes(t.cycles)];
  }

  method ObligationExpectations(kind: ProofNodeKind, nothing: Expectations) returns (expected: Expectations)
    requires kind.Obligation? && forall r :: r in nothing && nothing[r] == []
    ensures forall r :: r in expected && expected[r] == Payload(kind, r)
  {
    hide ProofNodes;
    hide OptionalProofNodes;
    hide OptionalTarget;
    hide TracePayload;
    expected := nothing;
    expected :=
      expected[SelectedImpl := if kind.source.Some? then OptionalTarget(kind.source.value.implementation) else []];
    expected := expected[TraitSelectionNested := OptionalProofNodes(kind.selectionNested)];
    expected := expected[FulfillmentNested := OptionalProofNodes(kind.fulfillmentNested)];
    if kind.source.Some? && kind.source.value.builtinTrait.Some? {
      var builtin := kind.source.value.builtinTrait.value;
      var relation := if builtin.kind == TraitDefinitionTarget then TraitDefinition else AutoTraitProof;
      expected := expected[relation := [TargetNode(builtin.target)]];
    }
    expected := InsertTraceExpectations(expected, kind.queryTrace);
  }

  /** The table of one proof agrees with its payload on every relation. */
  method ExpectationsOf(kind: ProofNodeKind) returns (expected: Expectations)
    ensures forall r :: r in expected && expected[r] == Payload(kind, r)
  {
    hide ProofNodes;
    hide OptionalProofNodes;
    hide OptionalTarget;
    hide OptionalSpecialization;
    hide SpecializationNodes;
    hide TracePayload;
    expected := ExpectNothing();
    match kind {
      case Obligation(_, _, _, _, _, _) =>
        expected := ObligationExpectations(kind, expected);
      case Projection(_, _, _, _, _, selectedTrait, selectedImpl, selectedItem, owners, nested, queryTrace, _) =>
        expected := expected[ProjectionOwner := ProofNodes(owners)];
        expected :=
          expected[ProjectionSelectedTrait := if selectedTrait.Some? then [ProofOf(selectedTrait.value)] else []];
        expected := expected[ProjectionNested := ProofNodes(nested)];
        expected := expected[SelectedImpl := OptionalTarget(selectedImpl)];
        expected := expected[SelectedTraitItem := OptionalTarget(selectedItem)];
        expected := InsertTraceExpectations(expected, queryTrace);
      case AssociatedItem(_, _, _, selection, _, leaf, definingNode, finalizingNode, ancestorPath) =>
        expected := expected[AssociatedSelection := [ProofOf(selection)]];
        expected := expected[AssociatedLeaf := OptionalTarget(leaf)];
        expected := expected[AssociatedDefining := OptionalSpecialization(definingNode)];
        expected := expected[AssociatedFinalizing := OptionalSpecialization(finalizingNode)];
        expected := expected[SpecializationAncestor := SpecializationNodes(ancestorPath)];
      case Cycle(members, _) =>
        expected := expected[CycleMember := ProofNodes(members)];
    }
  }

  /* ---------- numbered lists ---------- */

  type Slot = (nat, GraphNode)

  /** Each target with its position. */
  function Number(targets: seq<GraphNode>): (slots: seq<Slot>)
    ensures |slots| == |targets| && forall k :: 0 <= k < |targets| ==> slots[k] == (k, targets[k])
  {
    seq(|targets|, k requires 0 <= k < |targets| => (k, targets[k]))
  }

  /** In any order: one slot per target, at the target's position, and nothing else. */
  ghost predicate Numbers(slots: seq<Slot>, targets: seq<GraphNode>) {
    multiset(slots) == multiset(Number(targets))
  }

  /** By ordinal; equal ordinals, which never pass the check, by target. */
  predicate SlotLe(a: Slot, b: Slot) {
    LexLe([a.0] + NodeCode(a.1), [b.0] + NodeCode(b.1))
  }

  lemma {:induction false} SlotOrder()
    ensures TotalOrder(SlotLe)
  {
    LexOrders((s: Slot) => [s.0] + NodeCode(s.1), SlotLe);
    forall a: Slot, b: Slot | [a.0] + NodeCode(a.1) == [b.0] + NodeCode(b.1)
      ensures a == b
    {
      var x, y := [a.0] + NodeCode(a.1), [b.0] + NodeCode(b.1);
      assert x[0] == a.0 && x[1] == NodeCode(a.1)[0] && x[2] == NodeCode(a.1)[1];
      assert y[0] == b.0 && y[1] == NodeCode(b.1)[0] && y[2] == NodeCode(b.1)[1];
      NodeCodeInjective(a.1, b.1);
    }
  }

  function Second(slots: seq<Slot>): (targets: seq<GraphNode>)
    ensures |targets| == |slots| && forall k :: 0 <= k < |slots| ==> targets[k] == slots[k].1
  {
    seq(|slots|, k requires 0 <= k < |slots| => slots[k].1)
  }

  predicate OrdinalsDense(slots: seq<Slot>) {
    forall k :: 0 <= k < |slots| ==> slots[k].0 == k
  }

  lemma {:induction false} NumberSorted(targets: seq<GraphNode>)
    ensures Sorted(Number(targets), SlotLe)
  {
    var s := Number(targets);
    forall i, j | 0 <= i < j < |s|
      ensures SlotLe(s[i], s[j])
    {
      assert ([s[i].0] + NodeCode(s[i].1))[0] == i && ([s[j].0] + NodeCode(s[j].1))[0] == j;
    }
  }

  /** Sorting, then comparing positions, decides whether the slots number some list, and which. */
  lemma {:induction false} SortedNumbers(slots: seq<Slot>, targets: seq<GraphNode>)
    ensures Numbers(slots, targets)
      <==> OrdinalsDense(SortBy(slots, SlotLe)) && Second(SortBy(slots, SlotLe)) == targets
  {
    SlotOrder();
    SortSorts(slots, SlotLe);
    var sorted := SortBy(slots, SlotLe);
    if Numbers(slots, targets) {
      NumberSorted(targets);
      SortedUnique(sorted, Number(targets), SlotLe);
      assert Second(sorted) == targets;
    }
    if OrdinalsDense(sorted) && Second(sorted) == targets {
      assert sorted == Number(targets);
    }
  }

  ghost predicate NumbersSomething(slots: seq<Slot>) {
    exists targets :: Numbers(slots, targets)
  }

  lemma {:induction false} DenseNumbersSomething(slots: seq<Slot>)
    ensures NumbersSomething(slots) <==> OrdinalsDense(SortBy(slots, SlotLe))
  {
    if targets :| Numbers(slots, targets) {
      SortedNumbers(slots, targets);
    }
    SortedNumbers(slots, Second(SortBy(slots, SlotLe)));
  }

  /** Slots number at most one list. */
  lemma {:induction false} NumbersUnique(slots: seq<Slot>, a: seq<GraphNode>, b: seq<GraphNode>)
    requires Numbers(slots, a) && Numbers(slots, b)
    ensures a == b
  {
    SortedNumbers(slots, a);
    SortedNumbers(slots, b);
  }

  /* ---------- the edges of one proof and relation ---------- */

  predicate InGroup(edge: DependencyEdge, from: GraphNode, relation: ProofRelationKind) {
    edge.key.from == from && edge.key.kind.ProofRelation? && edge.key.kind.proofRelation == relation
  }

  /** The slots of the edges leaving `from` under `relation`, in edge order. */
  function Slots(edges: seq<DependencyEdge>, from: GraphNode, relation: ProofRelationKind): seq<Slot> {
    if edges == [] then []
    else
      var n := |edges| - 1;
      Slots(edges[..n], from, relation)
      + if InGroup(edges[n], from, relation) then [(edges[n].key.kind.ordinal, edges[n].key.to)] else []
  }

  /** Every group numbers some list, and the groups of each proof number exactly its payload. */
  ghost predicate ExactRelations(proofs: seq<ProofNode>, edges: seq<DependencyEdge>) {
    AllNumbered(edges) && forall i :: 0 <= i < |proofs| ==> ExactProof(proofs[i], edges)
  }

  ghost predicate AllNumbered(edges: seq<DependencyEdge>) {
    forall from, relation :: NumbersSomething(Slots(edges, from, relation))
  }

  ghost predicate ExactProof(proof: ProofNode, edges: seq<DependencyEdge>) {
    forall relation :: Numbers(Slots(edges, ProofOf(proof.id), relation), Payload(proof.kind, relation))
  }

  type Groups = map<(GraphNode, ProofRelationKind), seq<Slot>>

  ghost predicate Collects(edges: seq<DependencyEdge>, groups: Groups) {
    forall from, relation :: GroupAt(groups, from, relation) == Slots(edges, from, relation)
  }

  function GroupAt(groups: Groups, from: GraphNode, relation: ProofRelationKind): seq<Slot> {
    if (from, relation) in groups then groups[(from, relation)] else []
  }

  method GroupRelations(edges: seq<DependencyEdge>) returns (groups: Groups)
    ensures Collects(edges, groups)
  {
    groups := map[];
    for n := 0 to |edges|
      invariant Collects(edges[..n], groups)
    {
      var key := edges[n].key;
      assert edges[..n + 1][..n] == edges[..n];
      if key.kind.ProofRelation? {
        var at := (key.from, key.kind.proofRelation);
        groups := groups[at := GroupAt(groups, at.0, at.1) + [(key.kind.ordinal, key.to)]];
      }
    }
    assert edges[..|edges|] == edges;
  }

  /** Sorting every group in place and checking that its ordinals count up from zero. */
  method SortGroups(edges: seq<DependencyEdge>, groups: Groups) returns (ok: bool, sorted: Groups)
    requires Collects(edges, groups)
    ensures ok <==> AllNumbered(edges)
    ensures ok ==>
      forall from, relation :: GroupAt(sorted, from, relation) == SortBy(Slots(edges, from, relation), SlotLe)
  {
    sorted := groups;
    var todo := groups.Keys;
    while todo != {}
      invariant todo <= groups.Keys == sorted.Keys
      invariant forall key :: key in todo ==> sorted[key] == groups[key]
      invariant forall key :: key in groups && key !in todo ==>
        sorted[key] == SortBy(groups[key], SlotLe) && NumbersSomething(groups[key])
      decreases todo
    {
      var key :| key in todo;
      var targets := SortBy(groups[key], SlotLe);
      DenseNumbersSomething(groups[key]);
      sorted := sorted[key := targets];
      if !OrdinalsDense(targets) {
        assert groups[key] == GroupAt(groups, key.0, key.1) == Slots(edges, key.0, key.1);
        return false, sorted;
      }
      todo := todo - {key};
    }
    forall from, relation
      ensures NumbersSomething(Slots(edges, from, relation))
      ensures GroupAt(sorted, from, relation) == SortBy(Slots(edges, from, relation), SlotLe)
    {
      assert GroupAt(groups, from, relation) == Slots(edges, from, relation);
      DenseNumbersSomething([]);
    }
    ok := true;
  }

  /** The comparison of one proof's table with its groups. */
  method ProofExact(proof: ProofNode, edges: seq<DependencyEdge>, sorted: Groups) returns (ok: bool)
    requires AllNumbered(edges)
    requires forall from, relation :: GroupAt(sorted, from, relation) == SortBy(Slots(edges, from, relation), SlotLe)
    ensures ok <==> ExactProof(proof, edges)
  {
    var expected := ExpectationsOf(proof.kind);
    var from := ProofOf(proof.id);
    forall relation
      ensures Second(GroupAt(sorted, from, relation)) == expected[relation]
        <==> Numbers(Slots(edges, from, relation), Payload(proof.kind, relation))
    {
      SortedNumbers(Slots(edges, from, relation), Payload(proof.kind, relation));
      DenseNumbersSomething(Slots(edges, from, relation));
    }
    var todo := expected.Keys;
    while todo != {}
      invariant todo <= expected.Keys
      invariant forall relation :: relation !in todo ==>
        Numbers(Slots(edges, from, relation), Payload(proof.kind, relation))
      decreases todo
    {
      var relation :| relation in todo;
      if Second(GroupAt(sorted, from, relation)) != expected[relation] {
        return false;
      }
      todo := todo - {relation};
    }
    ok := true;
  }

  /** `valid_proof_relations`. */
  method ValidProofRelations(proofs: seq<ProofNode>, edges: seq<DependencyEdge>) returns (valid: bool)
    ensures valid <==> ExactRelations(proofs, edges)
  {
    var groups := GroupRelations(edges);
    var ok, sorted := SortGroups(edges, groups);
    if !ok {
      return false;
    }
    for i := 0 to |proofs|
      invariant forall k :: 0 <= k < i ==> ExactProof(proofs[k], edges)
    {
      ok := ProofExact(proofs[i], edges, sorted);
      if !ok {
        return false;
      }
    }
    valid := true;
  }

  /* ---------- one edge per payload entry ---------- */

  const RELATIONS: seq<ProofRelationKind> := [
    TraceObligation, TraceTraitSelection, TraceProjection, TraceFulfillment, TraceCycle, QueryTraceRoot,
    TraitSelectionNested, ProjectionOwner, ProjectionSelectedTrait, ProjectionNested, FulfillmentNested,
    CycleMember, AssociatedSelection, AssociatedLeaf, AssociatedDefining, AssociatedFinalizing,
    SpecializationAncestor, SelectedImpl, SelectedTraitItem, AutoTraitProof, TraitDefinition]

  lemma {:induction false} RelationsListed()
    ensures Distinct(RELATIONS)
    ensures forall r: ProofRelationKind :: r in RELATIONS
  {
    forall r: ProofRelationKind
      ensures r in RELATIONS
    {
      assert RELATIONS[ProofRelationRank(r)] == r;
    }
    forall i, j | 0 <= i < j < |RELATIONS|
      ensures RELATIONS[i] != RELATIONS[j]
    {
      RankAt(i);
      RankAt(j);
    }
  }

  lemma {:induction false} RankAt(i: nat)
    requires i < |RELATIONS|
    ensures ProofRelationRank(RELATIONS[i]) == i
  {
  }

  /** The proof-relation edges, as end points and kind. */
  function RelationKeys(edges: seq<DependencyEdge>): seq<DependencyKey> {
    if edges == [] then []
    else
      var n := |edges| - 1;
      RelationKeys(edges[..n]) + if edges[n].key.kind.ProofRelation? then [edges[n].key] else []
  }

  /** The edges one payload list stands for. */
  function ListedKeys(from: GraphNode, relation: ProofRelationKind, targets: seq<GraphNode>): (keys: seq<DependencyKey>)
    ensures |keys| == |targets|
    ensures forall k :: 0 <= k < |keys| ==> keys[k] == DependencyKey(from, targets[k], ProofRelation(relation, k))
  {
    seq(|targets|, k requires 0 <= k < |targets| => DependencyKey(from, targets[k], ProofRelation(relation, k)))
  }

  function ProofKeys(proof: ProofNode, relations: seq<ProofRelationKind>): seq<DependencyKey> {
    if relations == [] then []
    else
      var n := |relations| - 1;
      ProofKeys(proof, relations[..n]) + ListedKeys(ProofOf(proof.id), relations[n], Payload(proof.kind, relations[n]))
  }

  /** The edges all payloads stand for. */
  function PayloadKeys(proofs: seq<ProofNode>): seq<DependencyKey> {
    if proofs == [] then []
    else
      var n := |proofs| - 1;
      PayloadKeys(proofs[..n]) + ProofKeys(proofs[n], RELATIONS)
  }

  function SlotOf(key: DependencyKey): Slot
    requires key.kind.ProofRelation?
  {
    (key.kind.ordinal, key.to)
  }

  lemma {:induction false} CountRelationKeys(edges: seq<DependencyEdge>, key: DependencyKey)
    ensures multiset(RelationKeys(edges))[key] ==
      if key.kind.ProofRelation? then multiset(Slots(edges, key.from, key.kind.proofRelation))[SlotOf(key)] else 0
  {
    if edges != [] {
      CountRelationKeys(edges[..|edges| - 1], key);
    }
  }

  lemma {:induction false} CountListed(from: GraphNode, relation: ProofRelationKind, targets: seq<GraphNode>,
                                       key: DependencyKey)
    ensures multiset(ListedKeys(from, relation, targets))[key] ==
      if key.from == from && key.kind.ProofRelation? && key.kind.proofRelation == relation
      then multiset(Number(targets))[SlotOf(key)] else 0
    decreases |targets|
  {
    if targets != [] {
      var n := |targets| - 1;
      CountListed(from, relation, targets[..n], key);
      assert ListedKeys(from, relation, targets)
        == ListedKeys(from, relation, targets[..n]) + [DependencyKey(from, targets[n], ProofRelation(relation, n))];
      assert Number(targets) == Number(targets[..n]) + [(n, targets[n])];
    }
  }

  lemma {:induction false} CountProof(proof: ProofNode, relations: seq<ProofRelationKind>, key: DependencyKey)
    requires Distinct(relations)
    ensures multiset(ProofKeys(proof, relations))[key] ==
      if key.from == ProofOf(proof.id) && key.kind.ProofRelation? && key.kind.proofRelation in relations
      then multiset(Number(Payload(proof.kind, key.kind.proofRelation)))[SlotOf(key)] else 0
    decreases |relations|
  {
    hide Payload;
    if relations != [] {
      var n := |relations| - 1;
      var init := relations[..n];
      CountProof(proof, init, key);
      CountListed(ProofOf(proof.id), relations[n], Payload(proof.kind, relations[n]), key);
      assert relations == init + [relations[n]];
      assert forall i :: 0 <= i < n ==> init[i] != relations[n];
    }
  }

  predicate DistinctIds(proofs: seq<ProofNode>) {
    forall i, j :: 0 <= i < j < |proofs| ==> proofs[i].id != proofs[j].id
  }

  lemma {:induction false} CountPayload(proofs: seq<ProofNode>, key: DependencyKey)
    requires DistinctIds(proofs)
    ensures (forall i :: 0 <= i < |proofs| ==> key.from != ProofOf(proofs[i].id)) || !key.kind.ProofRelation?
      ==> multiset(PayloadKeys(proofs))[key] == 0
    ensures forall i :: 0 <= i < |proofs| && key.from == ProofOf(proofs[i].id) && key.kind.ProofRelation? ==>
      multiset(PayloadKeys(proofs))[key]
        == multiset(Number(Payload(proofs[i].kind, key.kind.proofRelation)))[SlotOf(key)]
    decreases |proofs|
  {
    hide Payload;
    hide ProofKeys;
    if proofs != [] {
      var n := |proofs| - 1;
      var init := proofs[..n];
      RelationsListed();
      CountPayload(init, key);
      CountProof(proofs[n], RELATIONS, key);
      assert multiset(PayloadKeys(proofs))[key]
        == multiset(PayloadKeys(init))[key] + multiset(ProofKeys(proofs[n], RELATIONS))[key];
      hide PayloadKeys;
      hide Number;
      hide SlotOf;
      hide RELATIONS;
      assert forall i :: 0 <= i < n ==> init[i] == proofs[i];
    }
  }

  /** Every proof-relation edge leaves a listed proof. */
  ghost predicate LeaveProofs(proofs: seq<ProofNode>, edges: seq<DependencyEdge>) {
    forall e :: e in edges && e.key.kind.ProofRelation? ==> Listed(proofs, e.key.from)
  }

  predicate Listed(proofs: seq<ProofNode>, from: GraphNode) {
    exists p | p in proofs :: from == ProofOf(p.id)
  }

  lemma {:induction false} NoSlotsElsewhere(proofs: seq<ProofNode>, edges: seq<DependencyEdge>, from: GraphNode,
                                            relation: ProofRelationKind)
    requires LeaveProofs(proofs, edges) && !Listed(proofs, from)
    ensures Slots(edges, from, relation) == []
    decreases |edges|
  {
    if edges != [] {
      var n := |edges| - 1;
      assert edges[n] in edges;
      NoSlotsElsewhere(proofs, edges[..n], from, relation);
    }
  }

  /** The check accepts exactly when, in any order, the proof-relation edges are one edge per payload entry at
      that entry's ordinal: none missing, extra, repeated, moved or retargeted. */
  lemma {:induction false} ExactIsPermutation(proofs: seq<ProofNode>, edges: seq<DependencyEdge>)
    requires DistinctIds(proofs) && LeaveProofs(proofs, edges)
    ensures ExactRelations(proofs, edges) <==> multiset(RelationKeys(edges)) == multiset(PayloadKeys(proofs))
  {
    hide Payload;
    if ExactRelations(proofs, edges) {
      forall key
        ensures multiset(RelationKeys(edges))[key] == multiset(PayloadKeys(proofs))[key]
      {
        ExactCounts(proofs, edges, key);
      }
    }
    if multiset(RelationKeys(edges)) == multiset(PayloadKeys(proofs)) {
      forall i | 0 <= i < |proofs|
        ensures ExactProof(proofs[i], edges)
      {
        forall relation
          ensures Numbers(Slots(edges, ProofOf(proofs[i].id), relation), Payload(proofs[i].kind, relation))
        {
          CountsNumber(proofs, edges, i, relation);
        }
      }
      forall from, relation
        ensures NumbersSomething(Slots(edges, from, relation))
      {
        if Listed(proofs, from) {
          var p :| p in proofs && from == ProofOf(p.id);
          var i :| 0 <= i < |proofs| && proofs[i] == p;
          CountsNumber(proofs, edges, i, relation);
        } else {
          NoSlotsElsewhere(proofs, edges, from, relation);
          assert Numbers([], []);
        }
      }
    }
  }

  lemma {:induction false} ExactCounts(proofs: seq<ProofNode>, edges: seq<DependencyEdge>, key: DependencyKey)
    requires DistinctIds(proofs) && LeaveProofs(proofs, edges) && ExactRelations(proofs, edges)
    ensures multiset(RelationKeys(edges))[key] == multiset(PayloadKeys(proofs))[key]
  {
    hide Payload;
    hide Slots;
    CountRelationKeys(edges, key);
    CountPayload(proofs, key);
    if key.kind.ProofRelation? {
      if Listed(proofs, key.from) {
        var p :| p in proofs && key.from == ProofOf(p.id);
        var i :| 0 <= i < |proofs| && proofs[i] == p;
        assert ExactProof(proofs[i], edges);
        assert Numbers(Slots(edges, ProofOf(proofs[i].id), key.kind.proofRelation),
                       Payload(proofs[i].kind, key.kind.proofRelation));
      } else {
        NoSlotsElsewhere(proofs, edges, key.from, key.kind.proofRelation);
        assert forall i :: 0 <= i < |proofs| ==> proofs[i] in proofs;
      }
    }
  }

  lemma {:induction false} CountsNumber(proofs: seq<ProofNode>, edges: seq<DependencyEdge>, i: nat,
                                        relation: ProofRelationKind)
    requires DistinctIds(proofs) && i < |proofs|
    requires multiset(RelationKeys(edges)) == multiset(PayloadKeys(proofs))
    ensures Numbers(Slots(edges, ProofOf(proofs[i].id), relation), Payload(proofs[i].kind, relation))
  {
    hide Payload;
    hide Slots;
    var from, targets := ProofOf(proofs[i].id), Payload(proofs[i].kind, relation);
    forall slot: Slot
      ensures multiset(Slots(edges, from, relation))[slot] == multiset(Number(targets))[slot]
    {
      var key := DependencyKey(from, slot.1, ProofRelation(relation, slot.0));
      CountRelationKeys(edges, key);
      CountPayload(proofs, key);
    }
  }

  /** Payload to edges and back: whatever order the edges come in, the check accepts them and the sorted
      groups are the payload lists. */
  lemma {:induction false} PayloadRoundTrip(proofs: seq<ProofNode>, edges: seq<DependencyEdge>)
    requires DistinctIds(proofs) && multiset(RelationKeys(edges)) == multiset(PayloadKeys(proofs))
    ensures ExactRelations(proofs, edges)
    ensures forall i, relation :: 0 <= i < |proofs| ==>
      Second(SortBy(Slots(edges, ProofOf(proofs[i].id), relation), SlotLe)) == Payload(proofs[i].kind, relation)
  {
    hide Payload;
    hide Slots;
    forall e | e in edges && e.key.kind.ProofRelation?
      ensures Listed(proofs, e.key.from)
    {
      KeyRecorded(edges, e);
      CountPayload(proofs, e.key);
      assert e.key in multiset(RelationKeys(edges));
      var i :| 0 <= i < |proofs| && e.key.from == ProofOf(proofs[i].id);
      assert proofs[i] in proofs;
    }
    ExactIsPermutation(proofs, edges);
    forall i, relation | 0 <= i < |proofs|
      ensures Second(SortBy(Slots(edges, ProofOf(proofs[i].id), relation), SlotLe)) == Payload(proofs[i].kind, relation)
    {
      CountsNumber(proofs, edges, i, relation);
      SortedNumbers(Slots(edges, ProofOf(proofs[i].id), relation), Payload(proofs[i].kind, relation));
    }
  }

  lemma {:induction false} KeyRecorded(edges: seq<DependencyEdge>, e: DependencyEdge)
    requires e in edges && e.key.kind.ProofRelation?
    ensures e.key in RelationKeys(edges)
    decreases |edges|
  {
    var n := |edges| - 1;
    if edges[n] != e {
      assert edges == edges[..n] + [edges[n]];
      KeyRecorded(edges[..n], e);
    }
  }

  /* ---------- slots ---------- */

  /** No two proof-relation edges share source, relation and ordinal. */
  ghost predicate SlotsUnique(edges: seq<DependencyEdge>) {
    forall i, j :: 0 <= i < j < |edges| && edges[i].key.kind.ProofRelation? && edges[j].key.kind.ProofRelation? ==>
      SlotKey(edges[i]) != SlotKey(edges[j])
  }

  function SlotKey(edge: DependencyEdge): (GraphNode, ProofRelationKind, nat)
    requires edge.key.kind.ProofRelation?
  {
    (edge.key.from, edge.key.kind.proofRelation, edge.key.kind.ordinal)
  }

  /** `proof_relation_slots_are_unique`. */
  method ProofRelationSlotsAreUnique(edges: seq<DependencyEdge>) returns (unique: bool)
    ensures unique <==> SlotsUnique(edges)
    ensures unique <==>
      forall i, j :: 0 <= i < j < |edges| && edges[i].key.kind.ProofRelation? && edges[j].key.kind.ProofRelation? ==>
        || edges[i].key.from != edges[j].key.from
        || edges[i].key.kind.proofRelation != edges[j].key.kind.proofRelation
        || edges[i].key.kind.ordinal != edges[j].key.kind.ordinal
  {
    var slots: set<(GraphNode, ProofRelationKind, nat)> := {};
    for n := 0 to |edges|
      invariant forall i, j ::
        0 <= i < j < n && edges[i].key.kind.ProofRelation? && edges[j].key.kind.ProofRelation? ==>
        SlotKey(edges[i]) != SlotKey(edges[j])
      invariant forall i :: 0 <= i < n && edges[i].key.kind.ProofRelation? ==> SlotKey(edges[i]) in slots
      invariant forall slot :: slot in slots ==>
        exists i :: 0 <= i < n && edges[i].key.kind.ProofRelation? && SlotKey(edges[i]) == slot
    {
      if edges[n].key.kind.ProofRelation? {
        if SlotKey(edges[n]) in slots {
          return false;
        }
        slots := slots + {SlotKey(edges[n])};
      }
    }
    unique := true;
  }
}
