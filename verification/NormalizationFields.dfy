/** The move into original coordinates said of the fields alone (src/definitions.rs, lines 396-419;
    src/input.rs, lines 1862-1951; src/rewrite.rs, lines 57-75). */
module NormalizationFields {
  import opened Wrappers
  import opened Text
  import opened Rewrite
  import opened GraphKeys
  import opened Grouping
  import opened DefinitionGraphs
  import opened Normalization
  import opened DependencyTypes
  import opened RangeNormalization

  /** A crate's range must be the whole rewritten text and becomes the whole original. */
  lemma {:induction false} CrateRangeMeans(coordinates: SourceRewrite, range: ByteRange, m: ByteRange)
    ensures coordinates.OriginalCrateRange(range) == Ok(m) <==>
      && |coordinates.source| < 0x1_0000_0000
      && range.start == 0 && range.end == |coordinates.source|
      && m.start == 0 && m.end == coordinates.originalLen
  {
  }

  /** Only the anchor of a written part and the invocation of an expanded one are moved, the anchor of a crate as the
      whole file; every other field stays. */
  lemma {:induction false} PartMoves(part: DefinitionKeyPart, coordinates: SourceRewrite, m: DefinitionKeyPart)
    ensures MapPart(part, coordinates) == Ok(m) <==>
      && m.kind == part.kind && m.name == part.name && m.sameRoleOrdinal == part.sameRoleOrdinal
      && (match part.origin
          case WrittenKey(anchor, unitKind) =>
            && m.origin.WrittenKey? && m.origin.unitKind == unitKind
            && (if part.kind == Crate then coordinates.OriginalCrateRange(anchor) == Ok(m.origin.anchor)
                else coordinates.OriginalRange(anchor) == Ok(m.origin.anchor))
          case ExpandedKey(range, role) =>
            && m.origin.ExpandedKey? && m.origin.generatedRole == role
            && coordinates.OriginalRange(range) == Ok(m.origin.invocationRange)
          case CompilerGeneratedKey(role) => m.origin == CompilerGeneratedKey(role)
          case InjectedKey(role) => m.origin == InjectedKey(role))
  {
    hide SourceRewrite.OriginalRange;
    hide SourceRewrite.OriginalCrateRange;
  }

  /** Of an origin, the unit range and the anchor or the invocation range move; units, kinds, roles, ordinals stay. */
  lemma {:induction false} OriginMoves(origin: DefinitionOrigin, kind: DefinitionKind, coordinates: SourceRewrite,
                                       m: DefinitionOrigin)
    ensures MapOrigin(origin, kind, coordinates) == Ok(m) <==>
      match origin
      case Written(unit, unitRange, anchor, unitKind, ordinal) =>
        && m.Written? && m.unit == unit && m.unitKind == unitKind && m.unitOrdinal == ordinal
        && (if kind == Crate then
              coordinates.OriginalCrateRange(unitRange) == Ok(m.unitRange)
              && coordinates.OriginalCrateRange(anchor) == Ok(m.anchor)
            else
              coordinates.OriginalRange(unitRange) == Ok(m.unitRange)
              && coordinates.OriginalRange(anchor) == Ok(m.anchor))
      case Expanded(invocation, range, role, ordinal) =>
        && m.Expanded? && m.invocation == invocation && m.generatedRole == role && m.ordinal == ordinal
        && coordinates.OriginalRange(range) == Ok(m.invocationRange)
      case CompilerGenerated(role, ordinal) => m == CompilerGenerated(role, ordinal)
      case Injected(role, ordinal) => m == Injected(role, ordinal)
  {
    hide SourceRewrite.OriginalRange;
    hide SourceRewrite.OriginalCrateRange;
  }

  /** A moved graph has the same definitions with every key part and the origin moved, and the same edges with every
      site moved. */
  lemma {:induction false} GraphMoves(graph: DefinitionGraph, coordinates: SourceRewrite)
    ensures GraphMaps(graph, coordinates) <==>
      && (forall i, k :: 0 <= i < |graph.definitions| && 0 <= k < |graph.definitions[i].key| ==>
            MapPart(graph.definitions[i].key[k], coordinates).Ok?)
      && (forall i :: 0 <= i < |graph.definitions| ==>
            MapOrigin(graph.definitions[i].origin, graph.definitions[i].kind, coordinates).Ok?)
      && (forall i, k :: 0 <= i < |graph.edges| && 0 <= k < |graph.edges[i].sites| ==>
            coordinates.OriginalRange(graph.edges[i].sites[k]).Ok?)
    ensures GraphMaps(graph, coordinates) ==>
      var ds, moved := graph.definitions, MappedDefinitions(graph.definitions, coordinates);
      |moved| == |ds| && forall i :: 0 <= i < |ds| ==>
        && moved[i].id == ds[i].id && moved[i].kind == ds[i].kind && moved[i].parent == ds[i].parent
        && MapOrigin(ds[i].origin, ds[i].kind, coordinates) == Ok(moved[i].origin)
        && |moved[i].key| == |ds[i].key|
        && forall k :: 0 <= k < |ds[i].key| ==> MapPart(ds[i].key[k], coordinates) == Ok(moved[i].key[k])
    ensures GraphMaps(graph, coordinates) ==>
      var edges, moved := graph.edges, Normalization.MappedEdges(graph.edges, coordinates);
      |moved| == |edges| && forall i :: 0 <= i < |edges| ==>
        && moved[i].key.from == edges[i].key.from && moved[i].key.to == edges[i].key.to
        && moved[i].key.kind == edges[i].key.kind
        && |moved[i].sites| == |edges[i].sites|
        && forall k :: 0 <= k < |edges[i].sites| ==>
             coordinates.OriginalRange(edges[i].sites[k]) == Ok(moved[i].sites[k])
  {
    hide SourceRewrite.OriginalRange;
    hide MapPart;
    hide MapOrigin;
    if GraphMaps(graph, coordinates) {
      forall i | 0 <= i < |graph.definitions|
        ensures DefinitionMaps(graph.definitions[i], coordinates)
      {
      }
      var moved := MappedDefinitions(graph.definitions, coordinates);
      assert forall i :: 0 <= i < |moved| ==> moved[i] == MappedDefinition(graph.definitions[i], coordinates);
    }
  }

  /* ---------- expansions, monomorphic nodes, observations ---------- */

  /** Of an expansion key part the four ranges move, as far as there are such; the macro's key and all else stay. */
  lemma {:induction false} ExpansionPartMoves(part: ExpansionKeyPart, coordinates: SourceRewrite, m: ExpansionKeyPart)
    ensures MapExpansionPart(part, coordinates) == Ok(m) <==>
      && m.kind == part.kind && m.fragment == part.fragment && m.implementation == part.implementation
      && m.macroDefinition == part.macroDefinition && m.sameRoleOrdinal == part.sameRoleOrdinal
      && (m.invocationRange.Some? <==> part.invocationRange.Some?)
      && (part.invocationRange.Some? && m.invocationRange.Some? ==>
            coordinates.OriginalRange(part.invocationRange.value) == Ok(m.invocationRange.value))
      && (m.nodeRange.Some? <==> part.nodeRange.Some?)
      && (part.nodeRange.Some? && m.nodeRange.Some? ==>
            coordinates.OriginalRange(part.nodeRange.value) == Ok(m.nodeRange.value))
      && (m.targetRange.Some? <==> part.targetRange.Some?)
      && (part.targetRange.Some? && m.targetRange.Some? ==>
            coordinates.OriginalRange(part.targetRange.value) == Ok(m.targetRange.value))
      && (m.selectedMacroRule.Some? <==> part.selectedMacroRule.Some?)
      && (part.selectedMacroRule.Some? && m.selectedMacroRule.Some? ==>
            coordinates.OriginalRange(part.selectedMacroRule.value) == Ok(m.selectedMacroRule.value))
  {
    hide SourceRewrite.OriginalRange;
  }

  /** Of an expansion only the parts of its key move. */
  lemma {:induction false} ExpansionMoves(node: ExpansionNode, coordinates: SourceRewrite)
    ensures ExpansionKeyMaps(node.key, coordinates) <==>
      forall k :: 0 <= k < |node.key| ==> MapExpansionPart(node.key[k], coordinates).Ok?
    ensures ExpansionKeyMaps(node.key, coordinates) ==>
      var m := MappedExpansion(node, coordinates);
      && m.id == node.id && m.kind == node.kind && m.fragment == node.fragment
      && m.implementation == node.implementation && m.discoveredIn == node.discoveredIn
      && m.semanticParent == node.semanticParent && m.sourceCallParent == node.sourceCallParent
      && m.writtenInvocation == node.writtenInvocation && m.sourceOwner == node.sourceOwner
      && m.macroDefinition == node.macroDefinition
      && |m.key| == |node.key|
      && forall k :: 0 <= k < |node.key| ==> MapExpansionPart(node.key[k], coordinates) == Ok(m.key[k])
  {
    hide MapExpansionPart;
  }

  /** Of a monomorphic node only the source sites in the path of an allocation move. */
  lemma {:induction false} MonoMoves(node: MonoNode, coordinates: SourceRewrite)
    ensures MonoMaps(node, coordinates) <==>
      (node.key.Allocation? ==> forall k :: 0 <= k < |node.key.allocation.path| ==>
         match node.key.allocation.path[k].site
         case AtSource(range) => coordinates.OriginalRange(range).Ok?
         case _ => true)
    ensures MonoMaps(node, coordinates) ==>
      var m := MappedMono(node, coordinates);
      && m.id == node.id && m.materializedDefinition == node.materializedDefinition
      && m.allocationObservation == node.allocationObservation
      && (!node.key.Allocation? ==> m.key == node.key)
      && (node.key.Allocation? ==>
            && m.key.Allocation? && m.key.allocation.root == node.key.allocation.root
            && |m.key.allocation.path| == |node.key.allocation.path|
            && forall k :: 0 <= k < |node.key.allocation.path| ==>
                 var part, moved := node.key.allocation.path[k], m.key.allocation.path[k];
                 && moved.relation == part.relation && moved.collection == part.collection
                 && moved.sameRoleOrdinal == part.sameRoleOrdinal
                 && match part.site
                    case AtSource(range) =>
                      moved.site.AtSource? && coordinates.OriginalRange(range) == Ok(moved.site.range)
                    case _ => moved.site == part.site)
  {
    hide SourceRewrite.OriginalRange;
    if node.key.Allocation? {
      var path := node.key.allocation.path;
      forall k | 0 <= k < |path|
        ensures MapPathPart(path[k], coordinates).Ok? <==>
          match path[k].site
          case AtSource(range) => coordinates.OriginalRange(range).Ok?
          case _ => true
      {
      }
      if MonoMaps(node, coordinates) {
        var moved := MappedPath(path, coordinates);
        assert forall k :: 0 <= k < |path| ==> MapPathPart(path[k], coordinates) == Ok(moved[k]);
      }
    }
  }

  /** Of an edge only its source sites move. */
  lemma {:induction false} ObservationMoves(edge: DependencyEdge, coordinates: SourceRewrite)
    ensures ObservationsMap(edge.sites, coordinates) <==>
      forall k :: 0 <= k < |edge.sites| ==>
        match edge.sites[k]
        case Source(range) => coordinates.OriginalRange(range).Ok?
        case _ => true
    ensures ObservationsMap(edge.sites, coordinates) ==>
      var m := MappedEdge(edge, coordinates);
      && m.key == edge.key && m.evidence == edge.evidence && |m.sites| == |edge.sites|
      && forall k :: 0 <= k < |edge.sites| ==>
           match edge.sites[k]
           case Source(range) => m.sites[k].Source? && coordinates.OriginalRange(range) == Ok(m.sites[k].range)
           case _ => m.sites[k] == edge.sites[k]
  {
    hide SourceRewrite.OriginalRange;
    forall k | 0 <= k < |edge.sites|
      ensures MapObservation(edge.sites[k], coordinates).Ok? <==>
        match edge.sites[k]
        case Source(range) => coordinates.OriginalRange(range).Ok?
        case _ => true
    {
    }
  }
}
