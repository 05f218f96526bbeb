/** What the dependency graph demands of one node, root, edge or selection, said of the fields alone
    (src/dependency_graph.rs, lines 753-902, 953-1111, 1125-1220, 1379-1631 and 1849-2034). */
module NodeFields {
  import opened Wrappers
  import opened Ordering
  import opened GraphKeys
  import opened DependencyTypes
  import opened ProofRelations
  import opened GraphShapes
  import DG = DefinitionGraphs

  /* ---------- edges ---------- */

  /** Which relations may join two nodes, read off the two nodes. */
  lemma {:induction false} ShapeMeans(key: DependencyKey)
    ensures ShapeValid(key) <==>
      match (key.from, key.to)
      case (DefinitionNode(_), DefinitionNode(_)) => key.kind.DefinitionDependency?
      case (DefinitionNode(_), ExternalDefinitionNode(_)) => key.kind.DefinitionDependency?
      case (DefinitionNode(_), ExpansionOf(_)) => key.kind == ExpansionUse || key.kind == GeneratedBy
      case (ExpansionOf(_), ExpansionOf(_)) =>
        || key.kind == ExpansionDiscoveredIn || key.kind == ExpansionSemanticParent
        || key.kind == ExpansionSourceCallParent
      case (ExpansionOf(_), DefinitionNode(_)) => key.kind == MacroDefinitionOf
      case (ExpansionOf(_), ExternalDefinitionNode(_)) => key.kind == MacroDefinitionOf
      case (ProofOf(_), ProofOf(_)) => key.kind.ProofRelation? && !TargetsDefinition(key.kind.proofRelation)
      case (ProofOf(_), DefinitionNode(_)) => key.kind.ProofRelation? && TargetsDefinition(key.kind.proofRelation)
      case (ProofOf(_), ExternalDefinitionNode(_)) =>
        key.kind.ProofRelation? && TargetsDefinition(key.kind.proofRelation)
      case (MonoOf(_), DefinitionNode(_)) => key.kind == MaterializesDefinition
      case (MonoOf(_), ExternalDefinitionNode(_)) => key.kind == MaterializesDefinition
      case (MonoOf(_), ProofOf(_)) => key.kind.SelectionProof?
      case (MonoOf(_), MonoOf(_)) => key.kind.Mono? && key.kind.relation != SourceAssociatedItem
      case _ => false
  {
    if key.kind.ProofRelation? { RelationTargets(key.kind.proofRelation); }
    hide RelatesProofs;
    hide TargetsDefinition;
  }

  /** The relations of a proof to a definition. */
  predicate TargetsDefinition(relation: ProofRelationKind) {
    match relation
    case AssociatedLeaf => true case AssociatedDefining => true case AssociatedFinalizing => true
    case SpecializationAncestor => true case SelectedImpl => true case SelectedTraitItem => true
    case AutoTraitProof => true case TraitDefinition => true
    case _ => false
  }

  lemma {:induction false} RelationTargets(relation: ProofRelationKind)
    ensures RelatesProofs(relation) <==> !TargetsDefinition(relation)
  {
  }

  /** Both ends exist, the relation fits them, and only relations the compiler does not observe at a place go without
      sites. */
  lemma {:induction false} EdgeMeans(edge: DependencyEdge, definitions: DG.DefinitionGraph, expansions: nat,
                                     proofs: nat, monos: nat)
    ensures EdgeValid(edge, definitions, expansions, proofs, monos) <==>
      && (forall node | node in [edge.key.from, edge.key.to] ::
            && (node.DefinitionNode? ==> node.id < |definitions.definitions|)
            && (node.ExternalDefinitionNode? ==> node.id < |definitions.externalDefinitions|)
            && (node.ExpansionOf? ==> node.id < expansions)
            && (node.ProofOf? ==> node.id < proofs)
            && (node.MonoOf? ==> node.id < monos))
      && ShapeValid(edge.key)
      && (|edge.sites| > 0
          || match edge.key.kind
             case DefinitionDependency(dependency) => dependency == DG.Parent
             case ExpansionUse => false
             case SelectionProof(_, _) => false
             case Mono(_, _) => false
             case _ => true)
  {
    assert edge.key.from == [edge.key.from, edge.key.to][0] && edge.key.to == [edge.key.from, edge.key.to][1];
    hide ShapeValid;
  }

  /* ---------- expansions ---------- */

  lemma {:induction false} ExpansionMeans(node: ExpansionNode, count: nat, definitions: DG.DefinitionGraph)
    ensures ExpansionValid(node, count, definitions) <==>
      && |node.key| > 0
      && (node.discoveredIn.Some? ==> node.discoveredIn.value < count)
      && (node.semanticParent.Some? ==> node.semanticParent.value < count)
      && (node.sourceCallParent.Some? ==> node.sourceCallParent.value < count)
      && (match node.macroDefinition
          case Some(LocalTarget(id)) => id < |definitions.definitions|
          case Some(ExternalTarget(id)) => id < |definitions.externalDefinitions|
          case None => true)
      && (node.sourceOwner.Some? ==> node.sourceOwner.value < |definitions.definitions|)
  {
  }

  /** The last part of a key repeats the node's fields, its macro by key; the rest is the key of the expansion that
      discovered it, else of its call-site parent, else of its semantic parent, and nothing where there is none. */
  lemma {:induction false} ExpansionKeyMeans(node: ExpansionNode, definitions: DG.DefinitionGraph,
                                             expansions: seq<ExpansionNode>)
    ensures LeafDescribes(node, definitions) && ExtendsParent(node, expansions) <==>
      && |node.key| > 0
      && var leaf := node.key[|node.key| - 1];
      && leaf.kind == node.kind && leaf.fragment == node.fragment && leaf.implementation == node.implementation
      && (match node.macroDefinition
          case None => leaf.macroDefinition == None
          case Some(LocalTarget(id)) =>
            id < |definitions.definitions| && leaf.macroDefinition == Some(Local(definitions.definitions[id].key))
          case Some(ExternalTarget(id)) =>
            id < |definitions.externalDefinitions|
            && leaf.macroDefinition == Some(External(definitions.externalDefinitions[id].key)))
      && match (node.discoveredIn, node.sourceCallParent, node.semanticParent)
         case (Some(p), _, _) =>
           p < |expansions| && expansions[p].id != node.id && node.key == expansions[p].key + [leaf]
         case (None, Some(p), _) =>
           p < |expansions| && expansions[p].id != node.id && node.key == expansions[p].key + [leaf]
         case (None, None, Some(p)) =>
           p < |expansions| && expansions[p].id != node.id && node.key == expansions[p].key + [leaf]
         case (None, None, None) => node.key == [leaf]
  {
    if |node.key| > 0 {
      assert node.key == node.key[..|node.key| - 1] + [node.key[|node.key| - 1]];
    }
  }

  /* ---------- monomorphic nodes ---------- */

  /** An instance and a static materialise the definition of their key, global assembly the local definition of that
      kind; vtables and allocations none. An allocation has a path, each part of which fits its relation, and an
      observation. */
  lemma {:induction false} MonoMeans(node: MonoNode, definitions: DG.DefinitionGraph)
    ensures MonoValid(node, definitions) <==>
      && (match node.materializedDefinition
          case None => true
          case Some(LocalTarget(id)) => id < |definitions.definitions|
          case Some(ExternalTarget(id)) => id < |definitions.externalDefinitions|)
      && (node.allocationObservation.Some? <==> node.key.Allocation?)
      && match (node.key, node.materializedDefinition)
         case (InstanceKey(instance, _), Some(LocalTarget(id))) =>
           instance.definition == Local(definitions.definitions[id].key)
         case (InstanceKey(instance, _), Some(ExternalTarget(id))) =>
           instance.definition == External(definitions.externalDefinitions[id].key)
         case (StaticKey(definition), Some(LocalTarget(id))) => definition == definitions.definitions[id].key
         case (GlobalAsmKey(definition), Some(LocalTarget(id))) =>
           definitions.definitions[id].kind == GlobalAsm && definition == definitions.definitions[id].key
         case (VTableKey(_, _), None) => true
         case (Allocation(allocation), None) =>
           && |allocation.path| > 0
           && (forall k | 0 <= k < |allocation.path| ::
                 match allocation.path[k].relation
                 case AllocationReference =>
                   allocation.path[k].site == AtAllocationReference || allocation.path[k].site == AtCompilerGenerated
                 case ConstAllocation => allocation.path[k].site != AtAllocationReference
                 case _ => false)
         case _ => false
  {
    assert forall a: AllocationKey :: node.key == Allocation(a) ==>
      forall k :: 0 <= k < |a.path| ==> a.path[k] in a.path;
  }

  /* ---------- roots ---------- */

  /** The root node of every reason. */
  lemma {:induction false} RootMeans(root: RootRecord, definitions: DG.DefinitionGraph, nodes: seq<MonoNode>)
    ensures RootNodeValid(root, definitions, nodes) <==>
      match root.node
      case MonoOf(id) =>
        && id < |nodes|
        && (match nodes[id].key
            case InstanceKey(instance, role) =>
              && role == Callable
              && (root.reason == StartInstance || root.reason == ExternalSymbol
                  || (instance.definition.Local? && (root.reason == MainRoot || root.reason == ExplicitEntry)))
            case StaticKey(_) =>
              root.reason == ExplicitEntry || root.reason == UsedAttribute || root.reason == ExternalSymbol
            case GlobalAsmKey(_) => root.reason == GlobalAssembly
            case _ => false)
      case DefinitionNode(id) =>
        && id < |definitions.definitions|
        && var kind, parent := definitions.definitions[id].kind, definitions.definitions[id].parent;
        && (match root.reason
           case ExplicitEntry => kind == Function || kind == Use
           case DownstreamSelection =>
             || kind == Trait || kind == Impl
             || ((kind == AssociatedType || kind == AssociatedFunction || kind == AssociatedConst)
                 && parent.Some? && parent.value < |definitions.definitions|
                 && (definitions.definitions[parent.value].kind == Trait
                     || definitions.definitions[parent.value].kind == Impl))
           case NativeLink =>
             || kind == ForeignModule
             || ((kind == Function || kind == Static)
                 && parent.Some? && parent.value < |definitions.definitions|
                 && definitions.definitions[parent.value].kind == ForeignModule)
           case _ => false)
      case _ => false
  {
  }

  /** No record twice, at most one main root and then one start instance, one root for each global assembly, and every
      node fit for its reason. */
  lemma {:induction false} RootsMean(roots: seq<RootRecord>, definitions: DG.DefinitionGraph, nodes: seq<MonoNode>)
    ensures RootsValid(roots, definitions, nodes) <==>
      && (forall i, j :: 0 <= i < j < |roots| ==> roots[i] != roots[j])
      && (forall i, j :: 0 <= i < j < |roots| && roots[i].reason == roots[j].reason ==>
            roots[i].reason != MainRoot && roots[i].reason != StartInstance)
      && ((exists i :: 0 <= i < |roots| && roots[i].reason == MainRoot)
          <==> exists i :: 0 <= i < |roots| && roots[i].reason == StartInstance)
      && |set i: nat | i < |roots| && roots[i].reason == GlobalAssembly|
        == |set i: nat | i < |nodes| && nodes[i].key.GlobalAsmKey?|
      && (forall i :: 0 <= i < |roots| ==> RootNodeValid(roots[i], definitions, nodes))
  {
    ReasonsCounted(roots, MainRoot);
    ReasonsCounted(roots, StartInstance);
    ReasonsCounted(roots, GlobalAssembly);
    AssembliesCounted(nodes);
    AtMostOne(roots, MainRoot);
    AtMostOne(roots, StartInstance);
    assert WithReason(roots, GlobalAssembly) == set i: nat | i < |roots| && roots[i].reason == GlobalAssembly;
    assert Assemblies(nodes) == set i: nat | i < |nodes| && nodes[i].key.GlobalAsmKey?;
    assert forall i :: 0 <= i < |roots| ==> roots[i] in roots;
    hide CountReason;
    hide CountGlobalAsm;
    hide RootNodeValid;
  }

  ghost function WithReason(roots: seq<RootRecord>, reason: RootReason): set<nat> {
    set i: nat | i < |roots| && roots[i].reason == reason
  }

  lemma {:induction false} ReasonsCounted(roots: seq<RootRecord>, reason: RootReason)
    ensures CountReason(roots, reason) == |WithReason(roots, reason)|
  {
    if roots != [] {
      var n := |roots| - 1;
      ReasonsCounted(roots[..n], reason);
      assert WithReason(roots, reason)
        == WithReason(roots[..n], reason) + if roots[n].reason == reason then {n} else {};
    } else {
      assert WithReason(roots, reason) == {};
    }
  }

  lemma {:induction false} AtMostOne(roots: seq<RootRecord>, reason: RootReason)
    ensures CountReason(roots, reason) <= 1 <==>
      forall i, j :: 0 <= i < j < |roots| && roots[i].reason == roots[j].reason ==> roots[i].reason != reason
    ensures CountReason(roots, reason) == 0 <==>
      !exists i :: 0 <= i < |roots| && roots[i].reason == reason
  {
    ReasonsCounted(roots, reason);
    hide CountReason;
    var found := WithReason(roots, reason);
    if i, j :| 0 <= i < j < |roots| && roots[i].reason == roots[j].reason == reason {
      SmallerSubset({i, j}, found);
    }
    if |found| > 1 {
      var i :| i in found;
      assert |found - {i}| == |found| - 1;
      var j :| j in found - {i};
      assert roots[i].reason == roots[j].reason == reason;
    }
    if i :| 0 <= i < |roots| && roots[i].reason == reason {
      assert i in found;
    }
    if |found| > 0 {
      var i :| i in found;
    }
  }

  ghost function Assemblies(nodes: seq<MonoNode>): set<nat> {
    set i: nat | i < |nodes| && nodes[i].key.GlobalAsmKey?
  }

  lemma {:induction false} AssembliesCounted(nodes: seq<MonoNode>)
    ensures CountGlobalAsm(nodes) == |Assemblies(nodes)|
  {
    if nodes != [] {
      var n := |nodes| - 1;
      AssembliesCounted(nodes[..n]);
      assert Assemblies(nodes) == Assemblies(nodes[..n]) + if nodes[n].key.GlobalAsmKey? then {n} else {};
    } else {
      assert Assemblies(nodes) == {};
    }
  }

  /* ---------- proofs ---------- */

  /** The ids are proofs of obligations. */
  ghost predicate ObligationIds(ids: seq<nat>, proofs: seq<ProofNode>) {
    forall i :: 0 <= i < |ids| ==> ids[i] < |proofs| && proofs[ids[i]].kind.Obligation?
  }

  lemma {:induction false} ObligationIdsMean(ids: seq<nat>, proofs: seq<ProofNode>)
    ensures AllObligations(ids, proofs) <==> ObligationIds(ids, proofs)
  {
    assert forall i :: 0 <= i < |ids| ==> ids[i] in ids;
  }

  /** An implementation stands with a user-defined source only, a builtin trait with a builtin one only. */
  lemma {:induction false} SelectionSourceMeans(source: SelectionSource, definitions: DG.DefinitionGraph)
    ensures SelectionSourceValid(source, definitions) <==>
      && (source.implementation.Some? <==> source.kind == UserDefined)
      && (source.builtinTrait.Some? <==> source.kind == Builtin)
      && (match source.implementation
          case None => true
          case Some(LocalTarget(id)) => id < |definitions.definitions|
          case Some(ExternalTarget(id)) => id < |definitions.externalDefinitions|)
      && (match source.builtinTrait
          case None => true
          case Some(BuiltinTraitTarget(_, LocalTarget(id))) => id < |definitions.definitions|
          case Some(BuiltinTraitTarget(_, ExternalTarget(id))) => id < |definitions.externalDefinitions|)
  {
  }

  /** A trace lists its root and everything it selected or fulfilled among its obligations, and proofs of the right
      kind. */
  lemma {:induction false} TraceMeans(trace: SolverTracePayload, proofs: seq<ProofNode>)
    ensures TraceValid(trace, proofs) <==>
      && trace.root in trace.obligations
      && trace.root < |proofs| && proofs[trace.root].kind.Obligation?
      && ObligationIds(trace.obligations, proofs)
      && ObligationIds(trace.traitSelections, proofs)
      && ObligationIds(trace.fulfillments, proofs)
      && (forall i :: 0 <= i < |trace.traitSelections| ==> trace.traitSelections[i] in trace.obligations)
      && (forall i :: 0 <= i < |trace.fulfillments| ==> trace.fulfillments[i] in trace.obligations)
      && (forall i :: 0 <= i < |trace.projections| ==>
            trace.projections[i] < |proofs| && proofs[trace.projections[i]].kind.Projection?)
      && (forall i :: 0 <= i < |trace.cycles| ==>
            trace.cycles[i] < |proofs| && proofs[trace.cycles[i]].kind.Cycle?)
  {
    ObligationIdsMean(trace.obligations, proofs);
    ObligationIdsMean(trace.traitSelections, proofs);
    ObligationIdsMean(trace.fulfillments, proofs);
    hide AllObligations;
    hide ObligationIds;
    assert forall i :: 0 <= i < |trace.traitSelections| ==> trace.traitSelections[i] in trace.traitSelections;
    assert forall i :: 0 <= i < |trace.fulfillments| ==> trace.fulfillments[i] in trace.fulfillments;
    assert forall i :: 0 <= i < |trace.projections| ==> trace.projections[i] in trace.projections;
    assert forall i :: 0 <= i < |trace.cycles| ==> trace.cycles[i] in trace.cycles;
  }

  lemma {:induction false} ObligationMeans(node: ProofNode, proofs: seq<ProofNode>, definitions: DG.DefinitionGraph)
    requires node.kind.Obligation?
    ensures ProofValid(node, proofs, definitions) <==>
      && node.key == ObligationKey(node.kind.environment, node.kind.predicateTerm)
      && (node.kind.selectionNested.Some? <==> node.kind.source.Some?)
      && (node.kind.source.Some? ==> SelectionSourceValid(node.kind.source.value, definitions))
      && (node.kind.selectionNested.Some? ==> ObligationIds(node.kind.selectionNested.value, proofs))
      && (node.kind.fulfillmentNested.Some? ==> ObligationIds(node.kind.fulfillmentNested.value, proofs))
      && (node.kind.queryTrace.Some? ==> TraceValid(node.kind.queryTrace.value, proofs))
  {
    if node.kind.selectionNested.Some? { ObligationIdsMean(node.kind.selectionNested.value, proofs); }
    if node.kind.fulfillmentNested.Some? { ObligationIdsMean(node.kind.fulfillmentNested.value, proofs); }
  }

  lemma {:induction false} ProjectionMeans(node: ProofNode, proofs: seq<ProofNode>, definitions: DG.DefinitionGraph)
    requires node.kind.Projection?
    ensures ProofValid(node, proofs, definitions) <==>
      && node.key == ProjectionKey(node.kind.environment, node.kind.alias)
      && |node.kind.owners| > 0
      && ObligationIds(node.kind.owners, proofs)
      && ObligationIds(node.kind.nested, proofs)
      && (node.kind.selectedTrait.Some? ==>
            node.kind.selectedTrait.value < |proofs| && proofs[node.kind.selectedTrait.value].kind.Obligation?)
      && (match node.kind.sourceKind
          case SelectedUserDefined =>
            node.kind.selectedTrait.Some? && node.kind.selectedImpl.Some? && node.kind.selectedItem.Some?
          case SelectedParameter =>
            node.kind.selectedTrait.Some? && node.kind.selectedImpl.None? && node.kind.selectedItem.None?
          case SelectedBuiltin =>
            node.kind.selectedTrait.Some? && node.kind.selectedImpl.None? && node.kind.selectedItem.None?
          case _ => node.kind.selectedTrait.None? && node.kind.selectedImpl.None? && node.kind.selectedItem.None?)
      && (forall target | target in [node.kind.selectedImpl, node.kind.selectedItem] ::
            match target
            case None => true
            case Some(LocalTarget(id)) => id < |definitions.definitions|
            case Some(ExternalTarget(id)) => id < |definitions.externalDefinitions|)
      && (node.kind.queryTrace.Some? <==> node.kind.normalizedResult.Some?)
      && (node.kind.queryTrace.Some? ==> TraceValid(node.kind.queryTrace.value, proofs))
  {
    ObligationIdsMean(node.kind.owners, proofs);
    ObligationIdsMean(node.kind.nested, proofs);
    var targets := [node.kind.selectedImpl, node.kind.selectedItem];
    assert targets[0] == node.kind.selectedImpl && targets[1] == node.kind.selectedItem;
    forall target: Option<DG.DefinitionTarget>
      ensures OptionalTargetValid(target, definitions) <==>
        match target
        case None => true
        case Some(LocalTarget(id)) => id < |definitions.definitions|
        case Some(ExternalTarget(id)) => id < |definitions.externalDefinitions|
    {
    }
    hide OptionalTargetValid;
    hide AllObligations;
    hide ObligationIds;
    hide TraceValid;
    assert (forall target | target in targets :: OptionalTargetValid(target, definitions)) <==>
      OptionalTargetValid(node.kind.selectedImpl, definitions)
      && OptionalTargetValid(node.kind.selectedItem, definitions);
    match node.kind.sourceKind
    case SelectedUserDefined =>
    case SelectedParameter =>
    case SelectedBuiltin =>
    case _ =>
  }

  lemma {:induction false} CycleMeans(node: ProofNode, proofs: seq<ProofNode>, definitions: DG.DefinitionGraph)
    requires node.kind.Cycle?
    ensures ProofValid(node, proofs, definitions) <==>
      && |node.kind.members| > 0
      && ObligationIds(node.kind.members, proofs)
      && node.key.CycleKey? && node.key.coinductive == node.kind.coinductive
      && |node.key.members| == |node.kind.members|
      && forall i :: 0 <= i < |node.kind.members| && node.kind.members[i] < |proofs| ==>
           node.key.members[i] == proofs[node.kind.members[i]].key
  {
    ObligationIdsMean(node.kind.members, proofs);
    assert forall i :: 0 <= i < |node.kind.members| ==> node.kind.members[i] in node.kind.members;
    if ObligationIds(node.kind.members, proofs) {
      var keys := MemberKeys(node.kind.members, proofs);
      if node.key.CycleKey? && |node.key.members| == |keys|
         && forall i :: 0 <= i < |keys| ==> node.key.members[i] == keys[i] {
        assert node.key.members == keys;
      }
    }
  }

  /** The selection proof has a source of the recorded kind. Only a user-defined one has a leaf, a defining node and an
      ancestor path, from its implementation up to a trait and through the defining and the finalizing node. */
  lemma {:induction false} AssociatedSelectionMeans(item: ProofNodeKind, proofs: seq<ProofNode>)
    requires item.AssociatedItem?
    ensures AssociatedSelectionMatches(item, proofs) <==>
      && item.selection < |proofs| && proofs[item.selection].kind.Obligation?
      && match proofs[item.selection].kind.source
         case None => false
         case Some(SelectionSource(kind, _, implementation, builtinTrait)) =>
           && kind == item.selectionKind
           && (implementation.Some? <==> kind == UserDefined) && (builtinTrait.Some? <==> kind == Builtin)
           && if kind == UserDefined then
                && item.leaf.Some? && item.definingNode.Some? && |item.ancestorPath| > 0
                && item.ancestorPath[0] == SpecializationNode(ImplSpecialization, implementation.value)
                && item.ancestorPath[|item.ancestorPath| - 1].kind == TraitSpecialization
                && item.definingNode.value in item.ancestorPath
                && (item.finalizingNode.Some? ==> item.finalizingNode.value in item.ancestorPath)
              else
                && item.leaf.None? && item.definingNode.None? && item.finalizingNode.None?
                && |item.ancestorPath| == 0
  {
  }

  lemma {:induction false} AssociatedItemMeans(node: ProofNode, proofs: seq<ProofNode>,
                                               definitions: DG.DefinitionGraph)
    requires node.kind.AssociatedItem?
    ensures ProofValid(node, proofs, definitions) <==>
      && node.key == AssociatedItemKey(node.kind.request, node.kind.rawInstance, node.kind.codegenInstance)
      && AssociatedSelectionMatches(node.kind, proofs)
      && (match node.kind.leaf
          case None => true
          case Some(LocalTarget(id)) => id < |definitions.definitions|
          case Some(ExternalTarget(id)) => id < |definitions.externalDefinitions|)
      && (forall n: SpecializationNode | n in node.kind.ancestorPath || node.kind.definingNode == Some(n)
                     || node.kind.finalizingNode == Some(n) ::
            match n.target
            case LocalTarget(id) => id < |definitions.definitions|
            case ExternalTarget(id) => id < |definitions.externalDefinitions|)
  {
    hide AssociatedSelectionMatches;
    forall n: SpecializationNode
      ensures
        n in OptionalNode(node.kind.definingNode) + OptionalNode(node.kind.finalizingNode) + node.kind.ancestorPath <==>
        n in node.kind.ancestorPath || node.kind.definingNode == Some(n) || node.kind.finalizingNode == Some(n)
    {
    }
  }

  /* ---------- counting edges ---------- */

  /** `k` is the one edge that passes the test. */
  ghost predicate Only(edges: seq<DependencyEdge>, test: DependencyEdge -> bool, k: nat) {
    k < |edges| && test(edges[k]) && forall m :: 0 <= m < |edges| && m != k ==> !test(edges[m])
  }

  lemma {:induction false} FilterEmpty(edges: seq<DependencyEdge>, test: DependencyEdge -> bool)
    ensures Filter(edges, test) == [] <==> forall m :: 0 <= m < |edges| ==> !test(edges[m])
  {
    if edges != [] {
      var n := |edges| - 1;
      FilterEmpty(edges[..n], test);
      assert forall m :: 0 <= m < n ==> edges[..n][m] == edges[m];
    }
  }

  lemma {:induction false} FilterOne(edges: seq<DependencyEdge>, test: DependencyEdge -> bool, k: nat)
    requires Only(edges, test, k)
    ensures Filter(edges, test) == [edges[k]]
  {
    var n := |edges| - 1;
    var init := edges[..n];
    assert forall m :: 0 <= m < n ==> init[m] == edges[m];
    if k == n {
      FilterEmpty(init, test);
    } else {
      FilterOne(init, test, k);
    }
  }

  lemma {:induction false} FilterOnly(edges: seq<DependencyEdge>, test: DependencyEdge -> bool) returns (k: nat)
    requires |Filter(edges, test)| == 1
    ensures Only(edges, test, k) && Filter(edges, test)[0] == edges[k]
  {
    var n := |edges| - 1;
    var init := edges[..n];
    assert forall m :: 0 <= m < n ==> init[m] == edges[m];
    if test(edges[n]) {
      k := n;
      FilterEmpty(init, test);
    } else {
      k := FilterOnly(init, test);
    }
  }

  /** The one filtered edge is good exactly when some edge passes, all that pass are good, and no two do. */
  lemma {:induction false} FilterGood(edges: seq<DependencyEdge>, test: DependencyEdge -> bool,
                                      good: DependencyEdge -> bool)
    ensures |Filter(edges, test)| == 1 && good(Filter(edges, test)[0]) <==>
      && (exists k :: 0 <= k < |edges| && test(edges[k]) && good(edges[k]))
      && (forall k :: 0 <= k < |edges| && test(edges[k]) ==> good(edges[k]))
      && (forall k, m :: 0 <= k < m < |edges| && test(edges[k]) ==> !test(edges[m]))
  {
    if |Filter(edges, test)| == 1 {
      var k := FilterOnly(edges, test);
    }
    hide Filter;
    if k :| 0 <= k < |edges| && test(edges[k]) && good(edges[k]) {
      if forall i, m :: 0 <= i < m < |edges| && test(edges[i]) ==> !test(edges[m]) {
        assert Only(edges, test, k);
        FilterOne(edges, test, k);
      }
    }
  }

  /** Exactly one edge of the kind leaves the node, to the target; none where there is no target. */
  lemma {:induction false} ExactTargetMeans(edges: seq<DependencyEdge>, from: GraphNode, kind: DependencyKind,
                                            target: Option<GraphNode>)
    ensures ExactTarget(edges, from, kind, target) <==>
      && (forall k :: 0 <= k < |edges| && edges[k].key.from == from && edges[k].key.kind == kind ==>
            target == Some(edges[k].key.to))
      && (target.Some? ==> exists k :: 0 <= k < |edges| && edges[k].key == DependencyKey(from, target.value, kind))
      && (forall k, m :: 0 <= k < m < |edges| && edges[k].key.from == edges[m].key.from == from ==>
            edges[k].key.kind != kind || edges[m].key.kind != kind)
  {
    var test := (e: DependencyEdge) => e.key.from == from && e.key.kind == kind;
    if target.Some? {
      FilterGood(edges, test, (e: DependencyEdge) => e.key.to == target.value);
      assert forall k :: 0 <= k < |edges| && test(edges[k]) && edges[k].key.to == target.value ==>
        edges[k].key == DependencyKey(from, target.value, kind);
    } else {
      FilterEmpty(edges, test);
    }
    hide Filter;
  }

  /** Likewise for the uses of an expansion by its owner. */
  lemma {:induction false} ExactUseMeans(edges: seq<DependencyEdge>, expansion: GraphNode, owner: Option<nat>)
    ensures ExactUse(edges, expansion, owner) <==>
      && (forall k :: 0 <= k < |edges| && edges[k].key.to == expansion && edges[k].key.kind == ExpansionUse ==>
            owner.Some? && edges[k].key.from == DefinitionNode(owner.value))
      && (owner.Some? ==> exists k ::
            0 <= k < |edges| && edges[k].key == DependencyKey(DefinitionNode(owner.value), expansion, ExpansionUse))
      && (forall k, m :: 0 <= k < m < |edges| && edges[k].key.to == edges[m].key.to == expansion ==>
            edges[k].key.kind != ExpansionUse || edges[m].key.kind != ExpansionUse)
  {
    var test := (e: DependencyEdge) => e.key.to == expansion && e.key.kind == ExpansionUse;
    if owner.Some? {
      FilterGood(edges, test, (e: DependencyEdge) => e.key.from == DefinitionNode(owner.value));
      assert forall k :: 0 <= k < |edges| && test(edges[k]) && edges[k].key.from == DefinitionNode(owner.value) ==>
        edges[k].key == DependencyKey(DefinitionNode(owner.value), expansion, ExpansionUse);
    } else {
      FilterEmpty(edges, test);
    }
    hide Filter;
  }

  /* ---------- selections ---------- */

  /** A direct call covers the sites of its selection; any other mono edge has the same sites. */
  lemma {:induction false} SitesMatchMeans(relation: MonoDependencyKind, proofSites: seq<ObservationSite>,
                                           monoSites: seq<ObservationSite>)
    ensures SelectionSitesMatch(relation, proofSites, monoSites) <==>
      if relation == DirectCall then
        forall p | p in proofSites :: exists m | m in monoSites ::
          || p == m
          || (p.Source? && m.Source? && m.range.start <= p.range.start && p.range.end <= m.range.end)
      else proofSites == monoSites
  {
  }

  /** The mono edge leaves the selecting node with the selected relation and collection, its sites match, and it leads
      to the callable node of the instance. */
  lemma {:induction false} CallsMeans(edge: DependencyEdge, mono: DependencyEdge, nodes: seq<MonoNode>,
                                      instance: MonoInstanceKey)
    requires edge.key.kind.SelectionProof?
    ensures CallsInstance(edge, mono, nodes, instance) <==>
      && mono.key.from == edge.key.from
      && mono.key.kind == Mono(edge.key.kind.relation, edge.key.kind.collection)
      && mono.key.to.MonoOf? && mono.key.to.id < |nodes|
      && nodes[mono.key.to.id].key == InstanceKey(instance, Callable)
      && SelectionSitesMatch(edge.key.kind.relation, edge.sites, mono.sites)
  {
    hide SelectionSitesMatch;
  }

  /** A selected associated item is joined to the one mono edge that calls its code, unless no edge does and the code is
      external and has no node, or the item has no leaf, is not user-defined and is called directly or through a vtable.
      A constant names its node itself, and a selection written in the source need not lead anywhere. */
  lemma {:induction false} JoinMeans(edge: DependencyEdge, proofs: seq<ProofNode>, nodes: seq<MonoNode>,
                                     edges: seq<DependencyEdge>)
    requires edge.key.kind.SelectionProof?
    ensures SelectionJoin(edge, proofs, nodes, edges) <==>
      && edge.key.from.MonoOf? && edge.key.to.ProofOf? && edge.key.to.id < |proofs|
      && var item := proofs[edge.key.to.id].kind;
      match edge.key.kind.relation
      case SourceAssociatedItem =>
        && edge.key.kind.collection == Mentioned && |edge.sites| > 0
        && (forall k :: 0 <= k < |edge.sites| ==> !edge.sites[k].AllocationOffset? && !edge.sites[k].VTableSlot?)
        && edge.key.from.id < |nodes| && nodes[edge.key.from.id].key.InstanceKey?
        && nodes[edge.key.from.id].key.role == Callable
        && (item.AssociatedItem? ==> item.rawInstance == item.codegenInstance)
      case ConstAllocation =>
        item.AssociatedItem? ==>
          edge.key.from.id < |nodes|
          && nodes[edge.key.from.id].key == InstanceKey(item.codegenInstance, ConstRole(None))
      case DirectCall => item.AssociatedItem? ==> CodegenJoin(edge, item, nodes, edges)
      case FunctionPointer => item.AssociatedItem? ==> CodegenJoin(edge, item, nodes, edges)
      case InlineAsmSymbol => item.AssociatedItem? ==> CodegenJoin(edge, item, nodes, edges)
      case VTableMethod => item.AssociatedItem? ==> CodegenJoin(edge, item, nodes, edges)
      case _ => !item.AssociatedItem?
  {
    assert forall k :: 0 <= k < |edge.sites| ==> edge.sites[k] in edge.sites;
    hide CodegenJoin;
    match edge.key.kind.relation
    case SourceAssociatedItem =>
    case ConstAllocation =>
    case DirectCall =>
    case FunctionPointer =>
    case InlineAsmSymbol =>
    case VTableMethod =>
    case _ =>
  }

  lemma {:induction false} CodegenJoinMeans(edge: DependencyEdge, item: ProofNodeKind, nodes: seq<MonoNode>,
                                            edges: seq<DependencyEdge>)
    requires edge.key.kind.SelectionProof? && item.AssociatedItem?
    ensures CodegenJoin(edge, item, nodes, edges) <==>
      && (forall k, m :: 0 <= k < m < |edges| && CallsInstance(edge, edges[k], nodes, item.codegenInstance) ==>
            !CallsInstance(edge, edges[m], nodes, item.codegenInstance))
      && (|| (exists k :: 0 <= k < |edges| && CallsInstance(edge, edges[k], nodes, item.codegenInstance))
          || (item.codegenInstance.definition.External?
              && forall i :: 0 <= i < |nodes| ==> nodes[i].key != InstanceKey(item.codegenInstance, Callable))
          || (item.leaf.None? && item.selectionKind != UserDefined
              && (edge.key.kind.relation == DirectCall || edge.key.kind.relation == VTableMethod)))
  {
    var test := (e: DependencyEdge) => CallsInstance(edge, e, nodes, item.codegenInstance);
    FilterEmpty(edges, test);
    FilterGood(edges, test, (e: DependencyEdge) => true);
    assert forall i :: 0 <= i < |nodes| ==> nodes[i] in nodes;
    hide Filter;
    hide CallsInstance;
  }
}
