/** Nodes, edges and roots of the dependency graph (src/dependency_graph.rs, lines 12-541),
    and the derived orders of the types that are grouped or sorted. */
module DependencyTypes {
  import opened Wrappers
  import opened Text
  import opened Ordering
  import opened GraphKeys
  import opened DefinitionGraphs

  datatype CanonicalCompilerTerm = CanonicalCompilerTerm(schemaVersion: u32, bytes: seq<byte>)

  datatype GraphNode =
    | DefinitionNode(id: nat)
    | ExternalDefinitionNode(id: nat)
    | ExpansionOf(id: nat)
    | ProofOf(id: nat)
    | MonoOf(id: nat)

  datatype ExpansionNode = ExpansionNode(
    id: nat, key: ExpansionKey, kind: ExpansionKind, fragment: Option<nat>, implementation: Option<nat>,
    discoveredIn: Option<nat>, semanticParent: Option<nat>, sourceCallParent: Option<nat>,
    writtenInvocation: Option<nat>, sourceOwner: Option<nat>, macroDefinition: Option<DefinitionTarget>)

  /* ---------- proofs ---------- */

  datatype SelectionSourceKind = UserDefined | Parameter | Builtin

  datatype BuiltinTraitTargetKind = TraitDefinitionTarget | AutoTraitTarget

  datatype BuiltinTraitTarget = BuiltinTraitTarget(kind: BuiltinTraitTargetKind, target: DefinitionTarget)

  datatype SelectionSource = SelectionSource(
    kind: SelectionSourceKind, term: CanonicalCompilerTerm, implementation: Option<DefinitionTarget>,
    builtinTrait: Option<BuiltinTraitTarget>)

  datatype ProjectionOutcome = Progress(rawTerm: CanonicalCompilerTerm) | NoProgress(term: CanonicalCompilerTerm)

  datatype ProjectionSourceKind =
    | ParameterEnvironment | FromTraitDefinition | Object | SelectedUserDefined | SelectedParameter
    | SelectedBuiltin | NoApplicableCandidate

  datatype SolverTracePayload = SolverTracePayload(
    root: nat, obligations: seq<nat>, traitSelections: seq<nat>, projections: seq<nat>,
    fulfillments: seq<nat>, cycles: seq<nat>)

  datatype MonoInstanceKey = MonoInstanceKey(
    definition: DefinitionReferenceKey, arguments: CanonicalCompilerTerm, kind: CanonicalCompilerTerm)

  datatype MonoInstanceRole = Callable | ConstRole(promoted: Option<u32>)

  datatype ProofKey =
    | ObligationKey(environment: CanonicalCompilerTerm, predicateTerm: CanonicalCompilerTerm)
    | ProjectionKey(environment: CanonicalCompilerTerm, alias: CanonicalCompilerTerm)
    | AssociatedItemKey(request: CanonicalCompilerTerm, rawInstance: MonoInstanceKey, codegenInstance: MonoInstanceKey)
    | CycleKey(members: seq<ProofKey>, coinductive: bool)

  datatype SpecializationNodeKind = ImplSpecialization | TraitSpecialization

  datatype SpecializationNode = SpecializationNode(kind: SpecializationNodeKind, target: DefinitionTarget)

  datatype ProofNodeKind =
    | Obligation(
        environment: CanonicalCompilerTerm, predicateTerm: CanonicalCompilerTerm, source: Option<SelectionSource>,
        selectionNested: Option<seq<nat>>, fulfillmentNested: Option<seq<nat>>, queryTrace: Option<SolverTracePayload>)
    | Projection(
        environment: CanonicalCompilerTerm, alias: CanonicalCompilerTerm, sourceKind: ProjectionSourceKind,
        sourceTerm: CanonicalCompilerTerm, outcome: ProjectionOutcome, selectedTrait: Option<nat>,
        selectedImpl: Option<DefinitionTarget>, selectedItem: Option<DefinitionTarget>, owners: seq<nat>,
        nested: seq<nat>, queryTrace: Option<SolverTracePayload>, normalizedResult: Option<CanonicalCompilerTerm>)
    | AssociatedItem(
        request: CanonicalCompilerTerm, rawInstance: MonoInstanceKey, codegenInstance: MonoInstanceKey, selection: nat,
        selectionKind: SelectionSourceKind, leaf: Option<DefinitionTarget>, definingNode: Option<SpecializationNode>,
        finalizingNode: Option<SpecializationNode>, ancestorPath: seq<SpecializationNode>)
    | Cycle(members: seq<nat>, coinductive: bool)

  datatype ProofNode = ProofNode(id: nat, key: ProofKey, kind: ProofNodeKind)

  /* ---------- monomorphic nodes ---------- */

  datatype MonoCollection = Used | Mentioned

  datatype MonoDependencyKind =
    | DirectCall | FunctionPointer | ClosureFunctionPointer | InlineAsmSymbol | StaticReference
    | ThreadLocalReference | DropGlue | VTableConstruction | VTableMethod | VTableDrop | SupertraitVTable
    | ConstAllocation | AllocationReference | ThreadLocalShim | CompilerRequirement | SourceAssociatedItem

  datatype AllocationPathSite =
    | AtSource(range: ByteRange) | AtExternalSource | AtAllocationReference | AtCompilerGenerated

  datatype AllocationPathPart = AllocationPathPart(
    relation: MonoDependencyKind, collection: MonoCollection, site: AllocationPathSite, sameRoleOrdinal: u32)

  datatype AllocationRootKey =
    | InstanceRoot(instance: MonoInstanceKey, role: MonoInstanceRole)
    | StaticRoot(definition: DefinitionKey)
    | VTableRoot(concreteType: CanonicalCompilerTerm, traitReference: Option<CanonicalCompilerTerm>)

  datatype AllocationKey = AllocationKey(root: AllocationRootKey, path: seq<AllocationPathPart>)

  datatype MonoKey =
    | InstanceKey(instance: MonoInstanceKey, role: MonoInstanceRole)
    | StaticKey(definition: DefinitionKey)
    | GlobalAsmKey(definition: DefinitionKey)
    | VTableKey(concreteType: CanonicalCompilerTerm, traitReference: Option<CanonicalCompilerTerm>)
    | Allocation(allocation: AllocationKey)

  datatype AllocationDescriptor =
    | Memory
    | FunctionAllocation(instance: CanonicalCompilerTerm)
    | StaticAllocation(definition: DefinitionReferenceKey)
    | VTableAllocation(concreteType: CanonicalCompilerTerm, predicates: CanonicalCompilerTerm)
    | TypeIdAllocation(valueType: CanonicalCompilerTerm)

  datatype MonoNode = MonoNode(
    id: nat, key: MonoKey, materializedDefinition: Option<DefinitionTarget>,
    allocationObservation: Option<AllocationDescriptor>)

  /* ---------- edges ---------- */

  datatype ObservationSite =
    | Source(range: ByteRange) | ExternalSource | AllocationOffset(offset: nat) | VTableSlot(slot: nat)
    | SiteCompilerGenerated

  datatype EvidenceOrigin = Compiler | PatchedObserver | Derived | Multiple

  datatype ProofRelationKind =
    | TraceObligation | TraceTraitSelection | TraceProjection | TraceFulfillment | TraceCycle | QueryTraceRoot
    | TraitSelectionNested | ProjectionOwner | ProjectionSelectedTrait | ProjectionNested | FulfillmentNested
    | CycleMember | AssociatedSelection | AssociatedLeaf | AssociatedDefining | AssociatedFinalizing
    | SpecializationAncestor | SelectedImpl | SelectedTraitItem | AutoTraitProof | TraitDefinition

  datatype DependencyKind =
    | DefinitionDependency(dependency: DefinitionDependencyKind)
    | ExpansionDiscoveredIn
    | ExpansionSemanticParent
    | ExpansionSourceCallParent
    | MacroDefinitionOf
    | ExpansionUse
    | GeneratedBy
    | SelectionProof(relation: MonoDependencyKind, collection: MonoCollection)
    | ProofRelation(proofRelation: ProofRelationKind, ordinal: nat)
    | MaterializesDefinition
    | Mono(relation: MonoDependencyKind, collection: MonoCollection)

  datatype DependencyKey = DependencyKey(from: GraphNode, to: GraphNode, kind: DependencyKind)

  datatype DependencyEdge = DependencyEdge(key: DependencyKey, sites: seq<ObservationSite>, evidence: EvidenceOrigin)

  datatype RootReason =
    | MainRoot | ExplicitEntry | DownstreamSelection | StartInstance | UsedAttribute | ExternalSymbol | NativeLink
    | GlobalAssembly

  datatype RootRecord = RootRecord(node: GraphNode, reason: RootReason)

  /* ---------- derived orders ---------- */

  function NodeCode(node: GraphNode): (code: seq<nat>)
    ensures |code| == 2
  {
    match node
    case DefinitionNode(id) => [0, id]
    case ExternalDefinitionNode(id) => [1, id]
    case ExpansionOf(id) => [2, id]
    case ProofOf(id) => [3, id]
    case MonoOf(id) => [4, id]
  }

  function MonoRank(relation: MonoDependencyKind): nat {
    match relation
    case DirectCall => 0 case FunctionPointer => 1 case ClosureFunctionPointer => 2 case InlineAsmSymbol => 3
    case StaticReference => 4 case ThreadLocalReference => 5 case DropGlue => 6 case VTableConstruction => 7
    case VTableMethod => 8 case VTableDrop => 9 case SupertraitVTable => 10 case ConstAllocation => 11
    case AllocationReference => 12 case ThreadLocalShim => 13 case CompilerRequirement => 14
    case SourceAssociatedItem => 15
  }

  function CollectionRank(collection: MonoCollection): nat {
    match collection case Used => 0 case Mentioned => 1
  }

  function ProofRelationRank(relation: ProofRelationKind): nat {
    match relation
    case TraceObligation => 0 case TraceTraitSelection => 1 case TraceProjection => 2 case TraceFulfillment => 3
    case TraceCycle => 4 case QueryTraceRoot => 5 case TraitSelectionNested => 6 case ProjectionOwner => 7
    case ProjectionSelectedTrait => 8 case ProjectionNested => 9 case FulfillmentNested => 10 case CycleMember => 11
    case AssociatedSelection => 12 case AssociatedLeaf => 13 case AssociatedDefining => 14
    case AssociatedFinalizing => 15 case SpecializationAncestor => 16 case SelectedImpl => 17
    case SelectedTraitItem => 18 case AutoTraitProof => 19 case TraitDefinition => 20
  }

  function KindCode(kind: DependencyKind): (code: seq<nat>)
    ensures code != []
  {
    match kind
    case DefinitionDependency(dependency) => [0, DependencyRank(dependency)]
    case ExpansionDiscoveredIn => [1]
    case ExpansionSemanticParent => [2]
    case ExpansionSourceCallParent => [3]
    case MacroDefinitionOf => [4]
    case ExpansionUse => [5]
    case GeneratedBy => [6]
    case SelectionProof(relation, collection) => [7, MonoRank(relation), CollectionRank(collection)]
    case ProofRelation(relation, ordinal) => [8, ProofRelationRank(relation), ordinal]
    case MaterializesDefinition => [9]
    case Mono(relation, collection) => [10, MonoRank(relation), CollectionRank(collection)]
  }

  function DependencyCode(key: DependencyKey): seq<nat> {
    NodeCode(key.from) + NodeCode(key.to) + KindCode(key.kind)
  }

  predicate DependencyLe(a: DependencyKey, b: DependencyKey) {
    LexLe(DependencyCode(a), DependencyCode(b))
  }

  function SiteCode(site: ObservationSite): seq<nat> {
    match site
    case Source(range) => [0, range.start, range.end]
    case ExternalSource => [1]
    case AllocationOffset(offset) => [2, offset]
    case VTableSlot(slot) => [3, slot]
    case SiteCompilerGenerated => [4]
  }

  predicate SiteLe(a: ObservationSite, b: ObservationSite) {
    LexLe(SiteCode(a), SiteCode(b))
  }

  function ReasonRank(reason: RootReason): nat {
    match reason
    case MainRoot => 0 case ExplicitEntry => 1 case DownstreamSelection => 2 case StartInstance => 3
    case UsedAttribute => 4 case ExternalSymbol => 5 case NativeLink => 6 case GlobalAssembly => 7
  }

  function RootCode(root: RootRecord): seq<nat> {
    NodeCode(root.node) + [ReasonRank(root.reason)]
  }

  predicate RootLe(a: RootRecord, b: RootRecord) {
    LexLe(RootCode(a), RootCode(b))
  }

  lemma {:induction false} NodeCodeInjective(a: GraphNode, b: GraphNode)
    requires NodeCode(a)[0] == NodeCode(b)[0] && NodeCode(a)[1] == NodeCode(b)[1]
    ensures a == b
  {
  }

  lemma {:induction false} MonoRankInjective(a: MonoDependencyKind, b: MonoDependencyKind)
    requires MonoRank(a) == MonoRank(b)
    ensures a == b
  {
  }

  lemma {:induction false} ProofRelationRankInjective(a: ProofRelationKind, b: ProofRelationKind)
    requires ProofRelationRank(a) == ProofRelationRank(b)
    ensures a == b
  {
  }

  lemma {:induction false} KindCodeInjective(a: DependencyKind, b: DependencyKind)
    requires KindCode(a) == KindCode(b)
    ensures a == b
  {
    hide MonoRank;
    hide ProofRelationRank;
    hide DependencyRank;
    assert KindCode(a)[0] == KindCode(b)[0];
    if a.DefinitionDependency? {
      assert KindCode(a)[1] == KindCode(b)[1];
      RankInjective(a.dependency, b.dependency);
    } else if a.SelectionProof? || a.Mono? {
      assert KindCode(a)[1] == KindCode(b)[1] && KindCode(a)[2] == KindCode(b)[2];
      MonoRankInjective(a.relation, b.relation);
    } else if a.ProofRelation? {
      assert KindCode(a)[1] == KindCode(b)[1] && KindCode(a)[2] == KindCode(b)[2];
      ProofRelationRankInjective(a.proofRelation, b.proofRelation);
    }
  }

  lemma {:induction false} DependencyOrder()
    ensures TotalOrder(DependencyLe)
  {
    LexOrders(DependencyCode, DependencyLe);
    forall a: DependencyKey, b: DependencyKey | DependencyCode(a) == DependencyCode(b)
      ensures a == b
    {
      DependencyCodeInjective(a, b);
    }
  }

  lemma {:induction false} DependencyCodeInjective(a: DependencyKey, b: DependencyKey)
    requires DependencyCode(a) == DependencyCode(b)
    ensures a == b
  {
    hide NodeCode;
    hide KindCode;
    var x, y := DependencyCode(a), DependencyCode(b);
    assert x[0] == NodeCode(a.from)[0] && x[1] == NodeCode(a.from)[1] && x[2] == NodeCode(a.to)[0];
    assert x[3] == NodeCode(a.to)[1];
    assert y[0] == NodeCode(b.from)[0] && y[1] == NodeCode(b.from)[1] && y[2] == NodeCode(b.to)[0];
    assert y[3] == NodeCode(b.to)[1];
    assert x[4..] == KindCode(a.kind) && y[4..] == KindCode(b.kind);
    NodeCodeInjective(a.from, b.from);
    NodeCodeInjective(a.to, b.to);
    KindCodeInjective(a.kind, b.kind);
  }

  lemma {:induction false} SiteOrder()
    ensures TotalOrder(SiteLe)
  {
    LexOrders(SiteCode, SiteLe);
    forall a: ObservationSite, b: ObservationSite | SiteCode(a) == SiteCode(b)
      ensures a == b
    {
      assert SiteCode(a)[0] == SiteCode(b)[0];
      if a.Source? { assert SiteCode(a)[1] == SiteCode(b)[1] && SiteCode(a)[2] == SiteCode(b)[2]; }
      if a.AllocationOffset? || a.VTableSlot? { assert SiteCode(a)[1] == SiteCode(b)[1]; }
    }
  }

  lemma {:induction false} RootOrder()
    ensures TotalOrder(RootLe)
  {
    LexOrders(RootCode, RootLe);
    forall a: RootRecord, b: RootRecord | RootCode(a) == RootCode(b)
      ensures a == b
    {
      var x, y := RootCode(a), RootCode(b);
      assert x[0] == NodeCode(a.node)[0] && x[1] == NodeCode(a.node)[1] && x[2] == ReasonRank(a.reason);
      assert y[0] == NodeCode(b.node)[0] && y[1] == NodeCode(b.node)[1] && y[2] == ReasonRank(b.reason);
      NodeCodeInjective(a.node, b.node);
    }
  }
}
