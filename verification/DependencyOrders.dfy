/** The derived orders of dependency edges, their sites and roots, constructor by constructor
    (src/dependency_graph.rs, lines 12-541). */
module DependencyOrders {
  import opened Wrappers
  import opened Ordering
  import opened DefinitionGraphs
  import opened DependencyTypes

  const MONO_RELATIONS: seq<MonoDependencyKind> :=
    [DirectCall, FunctionPointer, ClosureFunctionPointer, InlineAsmSymbol, StaticReference, ThreadLocalReference,
     DropGlue, VTableConstruction, VTableMethod, VTableDrop, SupertraitVTable, ConstAllocation, AllocationReference,
     ThreadLocalShim, CompilerRequirement, SourceAssociatedItem]

  const PROOF_RELATIONS: seq<ProofRelationKind> :=
    [TraceObligation, TraceTraitSelection, TraceProjection, TraceFulfillment, TraceCycle, QueryTraceRoot,
     TraitSelectionNested, ProjectionOwner, ProjectionSelectedTrait, ProjectionNested, FulfillmentNested, CycleMember,
     AssociatedSelection, AssociatedLeaf, AssociatedDefining, AssociatedFinalizing, SpecializationAncestor,
     SelectedImpl, SelectedTraitItem, AutoTraitProof, TraitDefinition]

  const ROOT_REASONS: seq<RootReason> :=
    [MainRoot, ExplicitEntry, DownstreamSelection, StartInstance, UsedAttribute, ExternalSymbol, NativeLink,
     GlobalAssembly]

  /** The ranks follow the declarations. */
  lemma {:induction false} MonoRelationsRanked(relation: MonoDependencyKind)
    ensures |MONO_RELATIONS| == 16 && MonoRank(relation) < 16 && MONO_RELATIONS[MonoRank(relation)] == relation
  {
  }

  lemma {:induction false} ProofRelationsRanked(relation: ProofRelationKind)
    ensures |PROOF_RELATIONS| == 21 && ProofRelationRank(relation) < 21
    ensures PROOF_RELATIONS[ProofRelationRank(relation)] == relation
  {
  }

  lemma {:induction false} ReasonsRanked(reason: RootReason)
    ensures |ROOT_REASONS| == 8 && ReasonRank(reason) < 8 && ROOT_REASONS[ReasonRank(reason)] == reason
  {
  }

  /** Definitions, external definitions, expansions, proofs, mono nodes; each by id. */
  predicate NodeBefore(a: GraphNode, b: GraphNode) {
    match a
    case DefinitionNode(id) => b.DefinitionNode? ==> id < b.id
    case ExternalDefinitionNode(id) => !b.DefinitionNode? && (b.ExternalDefinitionNode? ==> id < b.id)
    case ExpansionOf(id) => b.ProofOf? || b.MonoOf? || (b.ExpansionOf? && id < b.id)
    case ProofOf(id) => b.MonoOf? || (b.ProofOf? && id < b.id)
    case MonoOf(id) => b.MonoOf? && id < b.id
  }

  /** Relations as declared, then by what they carry. */
  predicate KindBefore(a: DependencyKind, b: DependencyKind) {
    match (a, b)
    case (DefinitionDependency(x), DefinitionDependency(y)) => DependencyRank(x) < DependencyRank(y)
    case (SelectionProof(x, c), SelectionProof(y, d)) =>
      MonoRank(x) < MonoRank(y) || (x == y && c == Used && d == Mentioned)
    case (ProofRelation(x, m), ProofRelation(y, n)) => ProofRelationRank(x) < ProofRelationRank(y) || (x == y && m < n)
    case (Mono(x, c), Mono(y, d)) => MonoRank(x) < MonoRank(y) || (x == y && c == Used && d == Mentioned)
    case _ =>
      match a
      case DefinitionDependency(_) => !b.DefinitionDependency?
      case ExpansionDiscoveredIn => !b.DefinitionDependency? && !b.ExpansionDiscoveredIn?
      case ExpansionSemanticParent => b.ExpansionSourceCallParent? || b.MacroDefinitionOf? || UseOrLater(b)
      case ExpansionSourceCallParent => b.MacroDefinitionOf? || UseOrLater(b)
      case MacroDefinitionOf => UseOrLater(b)
      case ExpansionUse => UseOrLater(b) && !b.ExpansionUse?
      case GeneratedBy => b.SelectionProof? || b.ProofRelation? || b.MaterializesDefinition? || b.Mono?
      case SelectionProof(_, _) => b.ProofRelation? || b.MaterializesDefinition? || b.Mono?
      case ProofRelation(_, _) => b.MaterializesDefinition? || b.Mono?
      case MaterializesDefinition => b.Mono?
      case Mono(_, _) => false
  }

  predicate UseOrLater(kind: DependencyKind) {
    || kind.ExpansionUse? || kind.GeneratedBy? || kind.SelectionProof? || kind.ProofRelation?
    || kind.MaterializesDefinition? || kind.Mono?
  }

  lemma {:induction false} NodesCompared(a: GraphNode, b: GraphNode)
    ensures NodeBefore(a, b) <==>
      NodeCode(a)[0] < NodeCode(b)[0] || (NodeCode(a)[0] == NodeCode(b)[0] && NodeCode(a)[1] < NodeCode(b)[1])
  {
  }

  /** The first position at which two codes of kinds differ, with the smaller one first. */
  lemma {:induction false} KindsCompared(a: DependencyKind, b: DependencyKind) returns (k: nat)
    requires KindBefore(a, b)
    ensures k < |KindCode(a)| && k < |KindCode(b)| && KindCode(a)[k] < KindCode(b)[k]
    ensures forall m :: 0 <= m < k ==> KindCode(a)[m] == KindCode(b)[m]
  {
    hide DependencyRank;
    hide MonoRank;
    hide ProofRelationRank;
    var x, y := KindCode(a), KindCode(b);
    k := if x[0] < y[0] then 0 else if x[1] < y[1] then 1 else 2;
  }

  lemma {:induction false} KindsTotal(a: DependencyKind, b: DependencyKind)
    ensures a == b || KindBefore(a, b) || KindBefore(b, a)
  {
    if a.DefinitionDependency? && b.DefinitionDependency? && a != b {
      if DependencyRank(a.dependency) == DependencyRank(b.dependency) { RankInjective(a.dependency, b.dependency); }
    } else if (a.SelectionProof? && b.SelectionProof?) || (a.Mono? && b.Mono?) {
      if MonoRank(a.relation) == MonoRank(b.relation) { MonoRankInjective(a.relation, b.relation); }
    } else if a.ProofRelation? && b.ProofRelation? {
      if ProofRelationRank(a.proofRelation) == ProofRelationRank(b.proofRelation) {
        ProofRelationRankInjective(a.proofRelation, b.proofRelation);
      }
    }
    hide DependencyRank;
    hide MonoRank;
    hide ProofRelationRank;
  }

  /** Edges go by source, then by target, then by relation. */
  lemma {:induction false} EdgesOrdered(a: DependencyKey, b: DependencyKey)
    ensures DependencyLe(a, b) && a != b <==>
      || NodeBefore(a.from, b.from)
      || (a.from == b.from && NodeBefore(a.to, b.to))
      || (a.from == b.from && a.to == b.to && KindBefore(a.kind, b.kind))
  {
    if EdgeBefore(a, b) {
      BeforeIsFirst(a, b);
    } else if EdgeBefore(b, a) {
      BeforeIsFirst(b, a);
    } else {
      NodesCompared(a.from, b.from);
      NodesCompared(b.from, a.from);
      NodesCompared(a.to, b.to);
      NodesCompared(b.to, a.to);
      NodeCodesEqual(a.from, b.from);
      NodeCodesEqual(a.to, b.to);
      KindsTotal(a.kind, b.kind);
    }
    hide DependencyLe;
  }

  lemma {:induction false} NodeCodesEqual(a: GraphNode, b: GraphNode)
    ensures NodeCode(a)[0] == NodeCode(b)[0] && NodeCode(a)[1] == NodeCode(b)[1] ==> a == b
  {
  }

  predicate EdgeBefore(a: DependencyKey, b: DependencyKey) {
    || NodeBefore(a.from, b.from)
    || (a.from == b.from && NodeBefore(a.to, b.to))
    || (a.from == b.from && a.to == b.to && KindBefore(a.kind, b.kind))
  }

  lemma {:induction false} BeforeIsFirst(a: DependencyKey, b: DependencyKey)
    requires EdgeBefore(a, b)
    ensures DependencyLe(a, b) && !DependencyLe(b, a)
  {
    var x, y := DependencyCode(a), DependencyCode(b);
    NodesCompared(a.from, b.from);
    NodesCompared(a.to, b.to);
    hide NodeBefore;
    hide NodeCode;
    hide KindCode;
    hide KindBefore;
    if NodeBefore(a.from, b.from) {
      FirstDifference(x, y, if NodeCode(a.from)[0] < NodeCode(b.from)[0] then 0 else 1);
    } else if a.from == b.from && NodeBefore(a.to, b.to) {
      FirstDifference(x, y, if NodeCode(a.to)[0] < NodeCode(b.to)[0] then 2 else 3);
    } else {
      var k := KindsCompared(a.kind, b.kind);
      FirstDifference(x, y, 4 + k);
    }
  }

  /** Source ranges by start and end, external sources, allocation offsets, vtable slots, compiler-generated sites. */
  lemma {:induction false} SitesOrdered(a: ObservationSite, b: ObservationSite)
    ensures SiteLe(a, b) && a != b <==>
      match (a, b)
      case (Source(x), Source(y)) => x.start < y.start || (x.start == y.start && x.end < y.end)
      case (AllocationOffset(m), AllocationOffset(n)) => m < n
      case (VTableSlot(m), VTableSlot(n)) => m < n
      case _ =>
        match a
        case Source(_) => !b.Source?
        case ExternalSource => b.AllocationOffset? || b.VTableSlot? || b.SiteCompilerGenerated?
        case AllocationOffset(_) => b.VTableSlot? || b.SiteCompilerGenerated?
        case VTableSlot(_) => b.SiteCompilerGenerated?
        case SiteCompilerGenerated => false
  {
    var x, y := SiteCode(a), SiteCode(b);
    if a != b {
      var k := if x[0] != y[0] then 0 else if x[1] != y[1] then 1 else 2;
      if x[k] < y[k] { FirstDifference(x, y, k); } else { FirstDifference(y, x, k); }
    }
  }

  /** Roots go by node, then by reason as declared. */
  lemma {:induction false} RootsOrdered(a: RootRecord, b: RootRecord)
    ensures RootLe(a, b) && a != b <==>
      NodeBefore(a.node, b.node) || (a.node == b.node && ReasonRank(a.reason) < ReasonRank(b.reason))
  {
    var x, y := RootCode(a), RootCode(b);
    NodesCompared(a.node, b.node);
    NodesCompared(b.node, a.node);
    NodeCodesEqual(a.node, b.node);
    ReasonsRanked(a.reason);
    ReasonsRanked(b.reason);
    hide NodeCode;
    hide NodeBefore;
    hide ReasonRank;
    if a != b {
      var k := if x[0] != y[0] then 0 else if x[1] != y[1] then 1 else 2;
      if x[k] < y[k] { FirstDifference(x, y, k); } else { FirstDifference(y, x, k); }
    }
  }
}
