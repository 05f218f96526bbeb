/** The shape tables of the dependency graph, as definitions for its constructor
    (src/dependency_graph.rs, lines 749-902, 953-1111, 1125-1220, 1379-1631 and 1879-2034). */
module GraphShapes {
  import opened Wrappers
  import opened Ordering
  import opened GraphKeys
  import opened DependencyTypes
  import opened ProofRelations
  import DG = DefinitionGraphs

  /* ---------- references into the definition graph ---------- */

  predicate TargetValid(target: DG.DefinitionTarget, definitions: DG.DefinitionGraph) {
    match target
    case LocalTarget(id) => id < |definitions.definitions|
    case ExternalTarget(id) => id < |definitions.externalDefinitions|
  }

  predicate OptionalTargetValid(target: Option<DG.DefinitionTarget>, definitions: DG.DefinitionGraph) {
    target.Some? ==> TargetValid(target.value, definitions)
  }

  function ReferenceKey(definitions: DG.DefinitionGraph, target: DG.DefinitionTarget): DefinitionReferenceKey
    requires TargetValid(target, definitions)
  {
    match target
    case LocalTarget(id) => Local(definitions.definitions[id].key)
    case ExternalTarget(id) => External(definitions.externalDefinitions[id].key)
  }

  /* ---------- expansions ---------- */

  predicate ExpansionRefValid(reference: Option<nat>, count: nat) {
    reference.Some? ==> reference.value < count
  }

  predicate ExpansionValid(node: ExpansionNode, count: nat, definitions: DG.DefinitionGraph) {
    && node.key != []
    && ExpansionRefValid(node.discoveredIn, count)
    && ExpansionRefValid(node.semanticParent, count)
    && ExpansionRefValid(node.sourceCallParent, count)
    && OptionalTargetValid(node.macroDefinition, definitions)
    && (node.sourceOwner.Some? ==> node.sourceOwner.value < |definitions.definitions|)
  }

  function Filter(edges: seq<DependencyEdge>, test: DependencyEdge -> bool): seq<DependencyEdge> {
    if edges == [] then []
    else
      var n := |edges| - 1;
      Filter(edges[..n], test) + if test(edges[n]) then [edges[n]] else []
  }

  /** Exactly one edge of this kind leaves the node and it has this target; none when there is no target. */
  predicate ExactTarget(edges: seq<DependencyEdge>, from: GraphNode, kind: DependencyKind, target: Option<GraphNode>) {
    var matching := Filter(edges, (e: DependencyEdge) => e.key.from == from && e.key.kind == kind);
    if target.Some? then |matching| == 1 && matching[0].key.to == target.value else matching == []
  }

  predicate ExactUse(edges: seq<DependencyEdge>, expansion: GraphNode, owner: Option<nat>) {
    var uses := Filter(edges, (e: DependencyEdge) => e.key.to == expansion && e.key.kind == ExpansionUse);
    if owner.Some? then |uses| == 1 && uses[0].key.from == DefinitionNode(owner.value) else uses == []
  }

  function IdentityParent(node: ExpansionNode): Option<nat> {
    if node.discoveredIn.Some? then node.discoveredIn
    else if node.sourceCallParent.Some? then node.sourceCallParent
    else node.semanticParent
  }

  function OptionalExpansion(id: Option<nat>): Option<GraphNode> {
    if id.Some? then Some(ExpansionOf(id.value)) else None
  }

  predicate LeafDescribes(node: ExpansionNode, definitions: DG.DefinitionGraph) {
    && node.key != []
    && OptionalTargetValid(node.macroDefinition, definitions)
    && var leaf := node.key[|node.key| - 1];
    && leaf.kind == node.kind
    && leaf.fragment == node.fragment
    && leaf.implementation == node.implementation
    && leaf.macroDefinition
      == (if node.macroDefinition.Some? then Some(ReferenceKey(definitions, node.macroDefinition.value)) else None)
  }

  predicate ExtendsParent(node: ExpansionNode, expansions: seq<ExpansionNode>) {
    match IdentityParent(node)
    case None => |node.key| == 1
    case Some(id) =>
      && id < |expansions|
      && expansions[id].id != node.id
      && |node.key| == |expansions[id].key| + 1
      && node.key[..|node.key| - 1] == expansions[id].key
  }

  predicate ExpansionEdgesValid(node: ExpansionNode, definitions: DG.DefinitionGraph, expansions: seq<ExpansionNode>,
                                edges: seq<DependencyEdge>) {
    var self := ExpansionOf(node.id);
    && LeafDescribes(node, definitions)
    && ExtendsParent(node, expansions)
    && ExactTarget(edges, self, ExpansionDiscoveredIn, OptionalExpansion(node.discoveredIn))
    && ExactTarget(edges, self, ExpansionSemanticParent, OptionalExpansion(node.semanticParent))
    && ExactTarget(edges, self, ExpansionSourceCallParent, OptionalExpansion(node.sourceCallParent))
    && ExactTarget(edges, self, MacroDefinitionOf,
                   if node.macroDefinition.Some? then Some(TargetNode(node.macroDefinition.value)) else None)
    && ExactUse(edges, self, node.sourceOwner)
  }

  /** Every expanded definition has exactly one edge to the expansion that generated it. */
  predicate GeneratedOnce(d: DG.Definition, edges: seq<DependencyEdge>) {
    d.origin.Expanded? ==>
      |Filter(edges, (e: DependencyEdge) => e.key.from == DefinitionNode(d.id) && e.key.kind == GeneratedBy)| == 1
  }

  predicate MaterializationValid(node: MonoNode, edges: seq<DependencyEdge>) {
    ExactTarget(edges, MonoOf(node.id), MaterializesDefinition,
      if node.materializedDefinition.Some? then Some(TargetNode(node.materializedDefinition.value)) else None)
  }

  /* ---------- proofs ---------- */

  predicate IsObligation(proofs: seq<ProofNode>, id: nat) { id < |proofs| && proofs[id].kind.Obligation? }

  predicate AllObligations(ids: seq<nat>, proofs: seq<ProofNode>) {
    forall id | id in ids :: IsObligation(proofs, id)
  }

  predicate OptionalObligations(ids: Option<seq<nat>>, proofs: seq<ProofNode>) {
    ids.Some? ==> AllObligations(ids.value, proofs)
  }

  predicate SelectionSourceValid(source: SelectionSource, definitions: DG.DefinitionGraph) {
    && (match source.kind
        case UserDefined => source.implementation.Some? && source.builtinTrait.None?
        case Parameter => source.implementation.None? && source.builtinTrait.None?
        case Builtin => source.implementation.None? && source.builtinTrait.Some?)
    && OptionalTargetValid(source.implementation, definitions)
    && (source.builtinTrait.Some? ==> TargetValid(source.builtinTrait.value.target, definitions))
  }

  predicate TraceValid(trace: SolverTracePayload, proofs: seq<ProofNode>) {
    && trace.root in trace.obligations
    && IsObligation(proofs, trace.root)
    && AllObligations(trace.obligations, proofs)
    && AllObligations(trace.traitSelections, proofs)
    && (forall id | id in trace.traitSelections :: id in trace.obligations)
    && (forall id | id in trace.projections :: id < |proofs| && proofs[id].kind.Projection?)
    && AllObligations(trace.fulfillments, proofs)
    && (forall id | id in trace.fulfillments :: id in trace.obligations)
    && (forall id | id in trace.cycles :: id < |proofs| && proofs[id].kind.Cycle?)
  }

  predicate OptionalTraceValid(trace: Option<SolverTracePayload>, proofs: seq<ProofNode>) {
    trace.Some? ==> TraceValid(trace.value, proofs)
  }

  predicate SpecializationTargetsValid(nodes: seq<SpecializationNode>, definitions: DG.DefinitionGraph) {
    forall n | n in nodes :: TargetValid(n.target, definitions)
  }

  function OptionalNode(node: Option<SpecializationNode>): seq<SpecializationNode> {
    if node.Some? then [node.value] else []
  }

  predicate AssociatedSelectionMatches(item: ProofNodeKind, proofs: seq<ProofNode>)
    requires item.AssociatedItem?
  {
    && IsObligation(proofs, item.selection)
    && proofs[item.selection].kind.source.Some?
    && var source := proofs[item.selection].kind.source.value;
    && source.kind == item.selectionKind
    && match item.selectionKind
       case UserDefined =>
         && source.implementation.Some? && item.leaf.Some? && item.definingNode.Some? && item.ancestorPath != []
         && source.builtinTrait.None?
         && item.ancestorPath[0] == SpecializationNode(ImplSpecialization, source.implementation.value)
         && item.ancestorPath[|item.ancestorPath| - 1].kind == TraitSpecialization
         && item.definingNode.value in item.ancestorPath
         && (item.finalizingNode.Some? ==> item.finalizingNode.value in item.ancestorPath)
       case Parameter => source.implementation.None? && source.builtinTrait.None? && NothingAssociated(item)
       case Builtin => source.implementation.None? && source.builtinTrait.Some? && NothingAssociated(item)
  }

  predicate NothingAssociated(item: ProofNodeKind)
    requires item.AssociatedItem?
  {
    item.leaf.None? && item.definingNode.None? && item.finalizingNode.None? && item.ancestorPath == []
  }

  function MemberKeys(members: seq<nat>, proofs: seq<ProofNode>): seq<ProofKey>
    requires forall i :: 0 <= i < |members| ==> members[i] < |proofs|
  {
    seq(|members|, i requires 0 <= i < |members| => proofs[members[i]].key)
  }

  predicate ProofValid(node: ProofNode, proofs: seq<ProofNode>, definitions: DG.DefinitionGraph) {
    match node.kind
    case Obligation(environment, predicateTerm, source, selectionNested, fulfillmentNested, queryTrace) =>
      && node.key == ObligationKey(environment, predicateTerm)
      && (source.Some? ==> SelectionSourceValid(source.value, definitions))
      && selectionNested.Some? == source.Some?
      && OptionalObligations(selectionNested, proofs)
      && OptionalObligations(fulfillmentNested, proofs)
      && OptionalTraceValid(queryTrace, proofs)
    case Projection(environment, alias, sourceKind, _, _, selectedTrait, selectedImpl, selectedItem, owners, nested,
                    queryTrace, normalizedResult) =>
      && node.key == ProjectionKey(environment, alias)
      && (selectedTrait.Some? ==> IsObligation(proofs, selectedTrait.value))
      && (sourceKind == SelectedUserDefined) == selectedImpl.Some?
      && (sourceKind in {SelectedUserDefined, SelectedParameter, SelectedBuiltin}) == selectedTrait.Some?
      && (sourceKind == SelectedUserDefined) == selectedItem.Some?
      && OptionalTargetValid(selectedImpl, definitions)
      && OptionalTargetValid(selectedItem, definitions)
      && owners != []
      && AllObligations(owners, proofs)
      && AllObligations(nested, proofs)
      && queryTrace.Some? == normalizedResult.Some?
      && OptionalTraceValid(queryTrace, proofs)
    case AssociatedItem(request, rawInstance, codegenInstance, selection, _, leaf, definingNode, finalizingNode,
                        ancestorPath) =>
      && node.key == AssociatedItemKey(request, rawInstance, codegenInstance)
      && AssociatedSelectionMatches(node.kind, proofs)
      && OptionalTargetValid(leaf, definitions)
      && SpecializationTargetsValid(OptionalNode(definingNode) + OptionalNode(finalizingNode) + ancestorPath,
                                    definitions)
    case Cycle(members, coinductive) =>
      && members != []
      && AllObligations(members, proofs)
      && (forall i | 0 <= i < |members| :: members[i] in members && members[i] < |proofs|)
      && node.key == CycleKey(MemberKeys(members, proofs), coinductive)
  }

  /* ---------- monomorphic nodes ---------- */

  predicate PathPartValid(part: AllocationPathPart) {
    match part.relation
    case AllocationReference => part.site.AtAllocationReference? || part.site.AtCompilerGenerated?
    case ConstAllocation => part.site.AtSource? || part.site.AtExternalSource? || part.site.AtCompilerGenerated?
    case _ => false
  }

  predicate MonoValid(node: MonoNode, definitions: DG.DefinitionGraph) {
    && OptionalTargetValid(node.materializedDefinition, definitions)
    && node.key.Allocation? == node.allocationObservation.Some?
    && match node.key
       case InstanceKey(instance, _) =>
         node.materializedDefinition.Some?
         && ReferenceKey(definitions, node.materializedDefinition.value) == instance.definition
       case StaticKey(definition) =>
         node.materializedDefinition.Some?
         && ReferenceKey(definitions, node.materializedDefinition.value) == Local(definition)
       case GlobalAsmKey(definition) =>
         && node.materializedDefinition.Some? && node.materializedDefinition.value.LocalTarget?
         && var d := definitions.definitions[node.materializedDefinition.value.id];
         d.kind == GlobalAsm && d.key == definition
       case VTableKey(_, _) => node.materializedDefinition.None?
       case Allocation(allocation) =>
         node.materializedDefinition.None? && allocation.path != [] && forall part | part in allocation.path ::
           PathPartValid(part)
  }

  predicate GlobalAssemblyMatches(definitions: DG.DefinitionGraph, nodes: seq<MonoNode>) {
    (set d | d in definitions.definitions && d.kind == GlobalAsm :: d.key)
    == (set n | n in nodes && n.key.GlobalAsmKey? :: n.key.definition)
  }

  /* ---------- roots ---------- */

  function CountReason(roots: seq<RootRecord>, reason: RootReason): nat {
    if roots == [] then 0
    else CountReason(roots[..|roots| - 1], reason) + if roots[|roots| - 1].reason == reason then 1 else 0
  }

  function CountGlobalAsm(nodes: seq<MonoNode>): nat {
    if nodes == [] then 0
    else CountGlobalAsm(nodes[..|nodes| - 1]) + if nodes[|nodes| - 1].key.GlobalAsmKey? then 1 else 0
  }

  predicate DownstreamCandidate(definitions: DG.DefinitionGraph, id: nat) {
    && id < |definitions.definitions|
    && var d := definitions.definitions[id];
    || d.kind in {Trait, Impl}
    || (d.kind in {AssociatedType, AssociatedFunction, AssociatedConst}
        && d.parent.Some? && d.parent.value < |definitions.definitions|
        && definitions.definitions[d.parent.value].kind in {Trait, Impl})
  }

  predicate NativeLinkRoot(definitions: DG.DefinitionGraph, id: nat) {
    && id < |definitions.definitions|
    && var d := definitions.definitions[id];
    || d.kind == ForeignModule
    || (d.kind in {Function, Static}
        && d.parent.Some? && d.parent.value < |definitions.definitions|
        && definitions.definitions[d.parent.value].kind == ForeignModule)
  }

  predicate LocalCallable(key: MonoKey) { key.InstanceKey? && key.instance.definition.Local? && key.role == Callable }

  predicate CallableInstance(key: MonoKey) { key.InstanceKey? && key.role == Callable }

  predicate RootNodeValid(root: RootRecord, definitions: DG.DefinitionGraph, nodes: seq<MonoNode>) {
    var mono := root.node.MonoOf? && root.node.id < |nodes|;
    match root.reason
    case MainRoot => mono && LocalCallable(nodes[root.node.id].key)
    case ExplicitEntry =>
      if root.node.DefinitionNode? then
        root.node.id < |definitions.definitions| && definitions.definitions[root.node.id].kind in {Function, Use}
      else mono && (LocalCallable(nodes[root.node.id].key) || nodes[root.node.id].key.StaticKey?)
    case DownstreamSelection => root.node.DefinitionNode? && DownstreamCandidate(definitions, root.node.id)
    case StartInstance => mono && CallableInstance(nodes[root.node.id].key)
    case UsedAttribute => mono && nodes[root.node.id].key.StaticKey?
    case ExternalSymbol => mono && (CallableInstance(nodes[root.node.id].key) || nodes[root.node.id].key.StaticKey?)
    case NativeLink => root.node.DefinitionNode? && NativeLinkRoot(definitions, root.node.id)
    case GlobalAssembly => mono && nodes[root.node.id].key.GlobalAsmKey?
  }

  predicate RootsValid(roots: seq<RootRecord>, definitions: DG.DefinitionGraph, nodes: seq<MonoNode>) {
    && Distinct(roots)
    && CountReason(roots, MainRoot) <= 1
    && CountReason(roots, StartInstance) <= 1
    && CountReason(roots, MainRoot) == CountReason(roots, StartInstance)
    && CountReason(roots, GlobalAssembly) == CountGlobalAsm(nodes)
    && forall root | root in roots :: RootNodeValid(root, definitions, nodes)
  }

  /* ---------- edges ---------- */

  predicate NodeValid(node: GraphNode, definitions: DG.DefinitionGraph, expansions: nat, proofs: nat, monos: nat) {
    match node
    case DefinitionNode(id) => id < |definitions.definitions|
    case ExternalDefinitionNode(id) => id < |definitions.externalDefinitions|
    case ExpansionOf(id) => id < expansions
    case ProofOf(id) => id < proofs
    case MonoOf(id) => id < monos
  }

  predicate Structural(kind: DependencyKind) {
    || kind == DefinitionDependency(DG.Parent)
    || kind.ExpansionDiscoveredIn? || kind.ExpansionSemanticParent? || kind.ExpansionSourceCallParent?
    || kind.MacroDefinitionOf? || kind.GeneratedBy? || kind.ProofRelation? || kind.MaterializesDefinition?
  }

  predicate ToDefinition(node: GraphNode) { node.DefinitionNode? || node.ExternalDefinitionNode? }

  predicate RelatesProofs(relation: ProofRelationKind) {
    TraceRelation(relation)
    || relation in {TraitSelectionNested, ProjectionOwner, ProjectionSelectedTrait, ProjectionNested, FulfillmentNested,
                    CycleMember, AssociatedSelection}
  }

  predicate ShapeValid(key: DependencyKey) {
    match key.kind
    case DefinitionDependency(_) => key.from.DefinitionNode? && ToDefinition(key.to)
    case ExpansionDiscoveredIn => key.from.ExpansionOf? && key.to.ExpansionOf?
    case ExpansionSemanticParent => key.from.ExpansionOf? && key.to.ExpansionOf?
    case ExpansionSourceCallParent => key.from.ExpansionOf? && key.to.ExpansionOf?
    case MacroDefinitionOf => key.from.ExpansionOf? && ToDefinition(key.to)
    case ExpansionUse => key.from.DefinitionNode? && key.to.ExpansionOf?
    case GeneratedBy => key.from.DefinitionNode? && key.to.ExpansionOf?
    case SelectionProof(_, _) => key.from.MonoOf? && key.to.ProofOf?
    case ProofRelation(relation, _) =>
      key.from.ProofOf? && if RelatesProofs(relation) then key.to.ProofOf? else ToDefinition(key.to)
    case MaterializesDefinition => key.from.MonoOf? && ToDefinition(key.to)
    case Mono(relation, _) => relation != SourceAssociatedItem && key.from.MonoOf? && key.to.MonoOf?
  }

  predicate EdgeValid(edge: DependencyEdge, definitions: DG.DefinitionGraph, expansions: nat, proofs: nat, monos: nat) {
    && NodeValid(edge.key.from, definitions, expansions, proofs, monos)
    && NodeValid(edge.key.to, definitions, expansions, proofs, monos)
    && ShapeValid(edge.key)
    && (edge.sites == [] ==> Structural(edge.key.kind))
  }

  /* ---------- selections of associated items ---------- */

  predicate SiteCovered(proof: ObservationSite, mono: ObservationSite) {
    if proof.Source? && mono.Source? then mono.range.Contains(proof.range) else proof == mono
  }

  predicate SelectionSitesMatch(relation: MonoDependencyKind, proofSites: seq<ObservationSite>,
                                monoSites: seq<ObservationSite>) {
    if relation != DirectCall then proofSites == monoSites
    else forall p | p in proofSites :: exists m | m in monoSites :: SiteCovered(p, m)
  }

  predicate IsInstance(nodes: seq<MonoNode>, id: nat, instance: MonoInstanceKey, role: MonoInstanceRole) {
    id < |nodes| && nodes[id].key == InstanceKey(instance, role)
  }

  predicate SourceItemJoin(edge: DependencyEdge, proof: ProofNode, nodes: seq<MonoNode>) {
    && edge.key.kind.SelectionProof? && edge.key.from.MonoOf?
    && edge.key.kind.collection == Mentioned
    && edge.sites != []
    && (forall s | s in edge.sites :: s.Source? || s.ExternalSource? || s.SiteCompilerGenerated?)
    && edge.key.from.id < |nodes| && CallableInstance(nodes[edge.key.from.id].key)
    && (proof.kind.AssociatedItem? ==> proof.kind.rawInstance == proof.kind.codegenInstance)
  }

  predicate CallsInstance(proofEdge: DependencyEdge, monoEdge: DependencyEdge, nodes: seq<MonoNode>,
                          instance: MonoInstanceKey)
    requires proofEdge.key.kind.SelectionProof?
  {
    && monoEdge.key.from == proofEdge.key.from
    && monoEdge.key.kind == Mono(proofEdge.key.kind.relation, proofEdge.key.kind.collection)
    && SelectionSitesMatch(proofEdge.key.kind.relation, proofEdge.sites, monoEdge.sites)
    && monoEdge.key.to.MonoOf? && IsInstance(nodes, monoEdge.key.to.id, instance, Callable)
  }

  predicate CodegenJoin(edge: DependencyEdge, item: ProofNodeKind, nodes: seq<MonoNode>, edges: seq<DependencyEdge>)
    requires edge.key.kind.SelectionProof? && item.AssociatedItem?
  {
    var matching := Filter(edges, (e: DependencyEdge) => CallsInstance(edge, e, nodes, item.codegenInstance));
    if matching != [] then |matching| == 1
    else
      || (item.codegenInstance.definition.External?
          && forall n | n in nodes :: n.key != InstanceKey(item.codegenInstance, Callable))
      || (item.leaf.None? && item.selectionKind != UserDefined && edge.key.kind.relation in {DirectCall, VTableMethod})
  }

  predicate SelectionJoin(edge: DependencyEdge, proofs: seq<ProofNode>, nodes: seq<MonoNode>,
                          edges: seq<DependencyEdge>) {
    edge.key.kind.SelectionProof? ==>
      && edge.key.to.ProofOf? && edge.key.to.id < |proofs| && edge.key.from.MonoOf?
      && var relation, proof := edge.key.kind.relation, proofs[edge.key.to.id];
      if relation == SourceAssociatedItem then SourceItemJoin(edge, proof, nodes)
      else if !proof.kind.AssociatedItem? then true
      else if relation == ConstAllocation then
        IsInstance(nodes, edge.key.from.id, proof.kind.codegenInstance, ConstRole(None))
      else
        && relation in {DirectCall, FunctionPointer, InlineAsmSymbol, VTableMethod}
        && CodegenJoin(edge, proof.kind, nodes, edges)
  }
}
