/** Moving the ranges of a whole dependency graph into original coordinates, and what that does to the verdict of its
    constructor (src/input.rs, lines 1764-1777; src/dependency_graph.rs, lines 571-751). */
module GraphMove {
  import opened Wrappers
  import opened Text
  import opened Ordering
  import opened Rewrite
  import opened Coordinates
  import opened GraphKeys
  import opened Grouping
  import opened DependencyTypes
  import opened AllocationPaths
  import opened GraphShapes
  import opened ProofRelations
  import opened Reachability
  import opened DependencyGraphs
  import opened RangeNormalization
  import opened EdgeKeys
  import Normalization
  import DG = DefinitionGraphs

  /* ---------- definitions ---------- */

  /** Two definition graphs the dependency graph cannot tell apart: the same keys, kinds, parents and externals. */
  ghost predicate DefinitionsAlike(a: DG.DefinitionGraph, b: DG.DefinitionGraph) {
    && |a.definitions| == |b.definitions| && a.externalDefinitions == b.externalDefinitions
    && forall i :: 0 <= i < |a.definitions| ==> DefinitionAlike(a.definitions[i], b.definitions[i])
  }

  predicate DefinitionAlike(d: DG.Definition, e: DG.Definition) {
    d.id == e.id && d.key == e.key && d.kind == e.kind && d.parent == e.parent
    && (d.origin.Expanded? <==> e.origin.Expanded?)
  }

  /** The collectors' view of a reduced run: keys already in original coordinates, ranges still in the reduced text. */
  function Keyed(definitions: DG.DefinitionGraph, coordinates: SourceRewrite): (r: DG.DefinitionGraph)
    requires Normalization.GraphMaps(definitions, coordinates)
    ensures r.edges == definitions.edges && r.externalDefinitions == definitions.externalDefinitions
  {
    definitions.(definitions := seq(|definitions.definitions|, i requires 0 <= i < |definitions.definitions| =>
      definitions.definitions[i].(key := Normalization.MappedKey(definitions.definitions[i].key, coordinates))))
  }

  /** The normalised graph of a definition graph. */
  ghost predicate MovesDefinitions(definitions: DG.DefinitionGraph, moved: DG.DefinitionGraph,
                                   coordinates: SourceRewrite) {
    && Normalization.GraphMaps(definitions, coordinates)
    && moved.definitions == Normalization.MappedDefinitions(definitions.definitions, coordinates)
    && moved.externalDefinitions == definitions.externalDefinitions
    && DG.Grouped(Normalization.MappedEdges(definitions.edges, coordinates), moved.edges)
  }

  lemma {:induction false} MovedAlike(definitions: DG.DefinitionGraph, moved: DG.DefinitionGraph,
                                      coordinates: SourceRewrite)
    requires MovesDefinitions(definitions, moved, coordinates)
    ensures DefinitionsAlike(Keyed(definitions, coordinates), moved)
  {
    hide SourceRewrite.OriginalRange;
    hide Normalization.KeyMaps;
    hide DG.Grouped;
  }

  /* ---------- nodes ---------- */

  lemma {:induction false} ReferencesAlike(a: DG.DefinitionGraph, b: DG.DefinitionGraph, target: DG.DefinitionTarget)
    requires DefinitionsAlike(a, b)
    ensures TargetValid(target, a) <==> TargetValid(target, b)
    ensures TargetValid(target, a) ==> ReferenceKey(a, target) == ReferenceKey(b, target)
  {
  }

  lemma {:induction false} ExpansionAlike(node: ExpansionNode, count: nat, a: DG.DefinitionGraph, b: DG.DefinitionGraph,
                                          coordinates: SourceRewrite)
    requires DefinitionsAlike(a, b) && ExpansionKeyMaps(node.key, coordinates)
    ensures ExpansionValid(node, count, a) <==> ExpansionValid(MappedExpansion(node, coordinates), count, b)
  {
    hide MapExpansionPart;
    assert |MappedExpansionKey(node.key, coordinates)| == |node.key|;
  }

  lemma {:induction false} ProofAlike(node: ProofNode, proofs: seq<ProofNode>, a: DG.DefinitionGraph,
                                      b: DG.DefinitionGraph)
    requires DefinitionsAlike(a, b)
    ensures ProofValid(node, proofs, a) <==> ProofValid(node, proofs, b)
  {
    forall target
      ensures TargetValid(target, a) <==> TargetValid(target, b)
    {
      ReferencesAlike(a, b, target);
    }
    hide TargetValid;
    hide DefinitionsAlike;
    hide AllObligations;
    hide OptionalTraceValid;
    hide AssociatedSelectionMatches;
    hide OptionalObligations;
    hide IsObligation;
  }

  lemma {:induction false} MonoAlike(node: MonoNode, a: DG.DefinitionGraph, b: DG.DefinitionGraph,
                                     coordinates: SourceRewrite)
    requires DefinitionsAlike(a, b) && MonoMaps(node, coordinates)
    ensures MonoValid(node, a) <==> MonoValid(MappedMono(node, coordinates), b)
  {
    if node.materializedDefinition.Some? {
      ReferencesAlike(a, b, node.materializedDefinition.value);
    }
    if node.key.Allocation? {
      PartsAlike(node.key.allocation.path, coordinates);
    }
  }

  lemma {:induction false} PartsAlike(path: seq<AllocationPathPart>, coordinates: SourceRewrite)
    requires PathMaps(path, coordinates)
    ensures (forall part | part in path :: PathPartValid(part))
      <==> forall part | part in MappedPath(path, coordinates) :: PathPartValid(part)
  {
    hide SourceRewrite.OriginalRange;
    var moved := MappedPath(path, coordinates);
    forall i | 0 <= i < |path|
      ensures PathPartValid(path[i]) <==> PathPartValid(moved[i])
    {
      assert MapPathPart(path[i], coordinates) == Ok(moved[i]);
    }
    hide PathPartValid;
    assert forall i :: 0 <= i < |path| ==> path[i] in path && moved[i] in moved;
  }

  predicate AllExpansionsMap(nodes: seq<ExpansionNode>, coordinates: SourceRewrite) {
    forall i :: 0 <= i < |nodes| ==> ExpansionKeyMaps(nodes[i].key, coordinates)
  }

  lemma {:induction false} ExpansionsAlike(nodes: seq<ExpansionNode>, a: DG.DefinitionGraph, b: DG.DefinitionGraph,
                                           coordinates: SourceRewrite)
    requires TiledRewrite(coordinates) && DefinitionsAlike(a, b) && AllExpansionsMap(nodes, coordinates)
    ensures ExpansionsValid(nodes, a) <==> ExpansionsValid(MappedExpansions(nodes, coordinates), b)
  {
    hide TiledRewrite;
    hide DefinitionsAlike;
    hide ExpansionKeyMaps;
    hide ExpansionValid;
    hide MappedExpansionKey;
    var moved := MappedExpansions(nodes, coordinates);
    assert Dense(nodes, ExpansionId) <==> Dense(moved, ExpansionId) by {
      assert forall i :: 0 <= i < |nodes| ==> ExpansionId(moved[i]) == ExpansionId(nodes[i]);
    }
    assert Distinct(ExpansionKeys(nodes)) <==> Distinct(ExpansionKeys(moved)) by {
      ExpansionKeysAlike(nodes, coordinates);
    }
    forall i | 0 <= i < |nodes|
      ensures nodes[i] in nodes && moved[i] in moved
      ensures ExpansionValid(nodes[i], |nodes|, a) <==> ExpansionValid(moved[i], |moved|, b)
    {
      ExpansionAlike(nodes[i], |nodes|, a, b, coordinates);
    }
    EachAlike(nodes, moved, (n: ExpansionNode) => ExpansionValid(n, |nodes|, a),
              (n: ExpansionNode) => ExpansionValid(n, |moved|, b));
  }

  lemma {:induction false} ExpansionKeysAlike(nodes: seq<ExpansionNode>, coordinates: SourceRewrite)
    requires TiledRewrite(coordinates) && AllExpansionsMap(nodes, coordinates)
    ensures Distinct(ExpansionKeys(nodes)) <==> Distinct(ExpansionKeys(MappedExpansions(nodes, coordinates)))
  {
    hide TiledRewrite;
    hide ExpansionKeyMaps;
    hide MappedExpansionKey;
    var moved := MappedExpansions(nodes, coordinates);
    forall i, j | 0 <= i < j < |nodes|
      ensures ExpansionKeys(moved)[i] == ExpansionKeys(moved)[j] <==> ExpansionKeys(nodes)[i] == ExpansionKeys(nodes)[j]
    {
      if moved[i].key == moved[j].key { ExpansionKeysStayDistinct(nodes[i].key, nodes[j].key, coordinates); }
    }
  }

  /** What holds of each element of one list exactly when it holds of the element beside it. */
  lemma {:induction false} EachAlike<S(!new), T(!new)>(a: seq<S>, b: seq<T>, p: S -> bool, q: T -> bool)
    requires |a| == |b| && forall i :: 0 <= i < |a| ==> (p(a[i]) <==> q(b[i]))
    ensures (forall x :: x in a ==> p(x)) <==> forall y :: y in b ==> q(y)
  {
    if forall x :: x in a ==> p(x) {
      forall y | y in b
        ensures q(y)
      {
        var i :| 0 <= i < |b| && b[i] == y;
        assert p(a[i]);
      }
    }
    if forall y :: y in b ==> q(y) {
      forall x | x in a
        ensures p(x)
      {
        var i :| 0 <= i < |a| && a[i] == x;
        assert q(b[i]);
      }
    }
  }

  lemma {:induction false} ProofsAlike(nodes: seq<ProofNode>, a: DG.DefinitionGraph, b: DG.DefinitionGraph)
    requires DefinitionsAlike(a, b)
    ensures ProofsValid(nodes, a) <==> ProofsValid(nodes, b)
  {
    hide DefinitionsAlike;
    hide ProofValid;
    forall n | n in nodes
      ensures ProofValid(n, nodes, a) <==> ProofValid(n, nodes, b)
    {
      ProofAlike(n, nodes, a, b);
    }
  }

  lemma {:induction false} MonosAlike(nodes: seq<MonoNode>, a: DG.DefinitionGraph, b: DG.DefinitionGraph,
                                      coordinates: SourceRewrite)
    requires TiledRewrite(coordinates) && DefinitionsAlike(a, b) && AllMonosMap(nodes, coordinates)
    ensures MonosValid(nodes, a) <==> MonosValid(MappedMonos(nodes, coordinates), b)
  {
    hide TiledRewrite;
    hide DefinitionsAlike;
    hide MonoMaps;
    hide MonoValid;
    hide MappedPath;
    hide GlobalAssemblyMatches;
    var moved := MappedMonos(nodes, coordinates);
    assert Dense(nodes, MonoId) <==> Dense(moved, MonoId) by {
      assert forall i :: 0 <= i < |nodes| ==> MonoId(moved[i]) == MonoId(nodes[i]);
    }
    MonoKeysAlike(nodes, coordinates);
    forall i | 0 <= i < |nodes|
      ensures MonoValid(nodes[i], a) <==> MonoValid(moved[i], b)
    {
      MonoAlike(nodes[i], a, b, coordinates);
    }
    EachAlike(nodes, moved, (n: MonoNode) => MonoValid(n, a), (n: MonoNode) => MonoValid(n, b));
    AssemblyAlike(nodes, a, b, coordinates);
  }

  lemma {:induction false} MonoKeysAlike(nodes: seq<MonoNode>, coordinates: SourceRewrite)
    requires TiledRewrite(coordinates) && AllMonosMap(nodes, coordinates)
    ensures Distinct(MonoKeys(nodes)) <==> Distinct(MonoKeys(MappedMonos(nodes, coordinates)))
  {
    hide TiledRewrite;
    hide MappedPath;
    hide PathMaps;
    var moved := MappedMonos(nodes, coordinates);
    forall i, j | 0 <= i < j < |nodes|
      ensures MonoKeys(moved)[i] == MonoKeys(moved)[j] <==> MonoKeys(nodes)[i] == MonoKeys(nodes)[j]
    {
      if nodes[i].key.Allocation? && nodes[j].key.Allocation? {
        PathInjective(nodes[i].key.allocation.path, nodes[j].key.allocation.path, coordinates);
      }
    }
  }

  lemma {:induction false} AssemblyAlike(nodes: seq<MonoNode>, a: DG.DefinitionGraph, b: DG.DefinitionGraph,
                                         coordinates: SourceRewrite)
    requires DefinitionsAlike(a, b) && AllMonosMap(nodes, coordinates)
    ensures GlobalAssemblyMatches(a, nodes) <==> GlobalAssemblyMatches(b, MappedMonos(nodes, coordinates))
  {
    hide MonoMaps;
    hide MappedPath;
    var moved := MappedMonos(nodes, coordinates);
    var ka := set d | d in a.definitions && d.kind == GlobalAsm :: d.key;
    var kb := set d | d in b.definitions && d.kind == GlobalAsm :: d.key;
    var na := set n | n in nodes && n.key.GlobalAsmKey? :: n.key.definition;
    var nb := set n | n in moved && n.key.GlobalAsmKey? :: n.key.definition;
    forall key
      ensures key in ka <==> key in kb
      ensures key in na <==> key in nb
    {
      AssemblyKeys(a, b, key);
      AssemblyKeys(b, a, key);
      AssemblyNodes(nodes, moved, key);
      AssemblyNodes(moved, nodes, key);
    }
    assert ka == kb && na == nb;
  }

  lemma {:induction false} AssemblyKeys(a: DG.DefinitionGraph, b: DG.DefinitionGraph, key: DefinitionKey)
    requires DefinitionsAlike(a, b) || DefinitionsAlike(b, a)
    ensures key in (set d | d in a.definitions && d.kind == GlobalAsm :: d.key)
      ==> key in set d | d in b.definitions && d.kind == GlobalAsm :: d.key
  {
    if d :| d in a.definitions && d.kind == GlobalAsm && d.key == key {
      var i :| 0 <= i < |a.definitions| && a.definitions[i] == d;
      assert b.definitions[i] in b.definitions && b.definitions[i].kind == GlobalAsm && b.definitions[i].key == key;
    }
  }

  lemma {:induction false} AssemblyNodes(a: seq<MonoNode>, b: seq<MonoNode>, key: DefinitionKey)
    requires |a| == |b| && forall i :: 0 <= i < |a| && (a[i].key.GlobalAsmKey? || b[i].key.GlobalAsmKey?) ==>
      a[i].key == b[i].key
    ensures key in (set n | n in a && n.key.GlobalAsmKey? :: n.key.definition)
      ==> key in set n | n in b && n.key.GlobalAsmKey? :: n.key.definition
  {
    if n :| n in a && n.key.GlobalAsmKey? && n.key.definition == key {
      var i :| 0 <= i < |a| && a[i] == n;
      assert b[i] in b && b[i].key == n.key;
    }
  }

  lemma {:induction false} RootsAlike(roots: seq<RootRecord>, nodes: seq<MonoNode>, a: DG.DefinitionGraph,
                                      b: DG.DefinitionGraph, coordinates: SourceRewrite)
    requires DefinitionsAlike(a, b) && AllMonosMap(nodes, coordinates)
    ensures RootsValid(roots, a, nodes) <==> RootsValid(roots, b, MappedMonos(nodes, coordinates))
  {
    hide DefinitionsAlike;
    hide MonoMaps;
    hide MappedPath;
    hide CountReason;
    hide RootNodeValid;
    var moved := MappedMonos(nodes, coordinates);
    CountAlike(nodes, moved);
    forall root | root in roots
      ensures RootNodeValid(root, a, nodes) <==> RootNodeValid(root, b, moved)
    {
      RootAlike(root, nodes, moved, a, b);
    }
  }

  lemma {:induction false} CountAlike(a: seq<MonoNode>, b: seq<MonoNode>)
    requires |a| == |b| && forall i :: 0 <= i < |a| ==> (a[i].key.GlobalAsmKey? <==> b[i].key.GlobalAsmKey?)
    ensures CountGlobalAsm(a) == CountGlobalAsm(b)
  {
    if a != [] {
      CountAlike(a[..|a| - 1], b[..|b| - 1]);
    }
  }

  lemma {:induction false} RootAlike(root: RootRecord, nodes: seq<MonoNode>, moved: seq<MonoNode>,
                                     a: DG.DefinitionGraph, b: DG.DefinitionGraph)
    requires DefinitionsAlike(a, b) && |moved| == |nodes|
    requires forall i :: 0 <= i < |nodes| ==>
      (nodes[i].key.Allocation? <==> moved[i].key.Allocation?)
      && (!nodes[i].key.Allocation? ==> moved[i].key == nodes[i].key)
    ensures RootNodeValid(root, a, nodes) <==> RootNodeValid(root, b, moved)
  {
  }

  /* ---------- edges ---------- */

  predicate SiteMoves(coordinates: SourceRewrite, before: ObservationSite, after: ObservationSite) {
    MapObservation(before, coordinates) == Ok(after)
  }

  /** The same connection, observed at exactly the moved sites. */
  ghost predicate EdgeMoved(coordinates: SourceRewrite, before: DependencyEdge, after: DependencyEdge) {
    && after.key == before.key
    && (forall s :: s in before.sites ==> MapObservation(s, coordinates).Ok?)
    && forall s' :: s' in after.sites <==> exists s :: s in before.sites && SiteMoves(coordinates, s, s')
  }

  ghost predicate EdgesMoved(coordinates: SourceRewrite, before: seq<DependencyEdge>, after: seq<DependencyEdge>) {
    |before| == |after| && forall i :: 0 <= i < |before| ==> EdgeMoved(coordinates, before[i], after[i])
  }

  /** What one list of observations says, moved, is what the other says. */
  ghost predicate ObservationsMoved(coordinates: SourceRewrite, before: seq<DependencyEdge>,
                                    after: seq<DependencyEdge>) {
    && (forall key :: HasKey(SiteItems(after), key) <==> HasKey(SiteItems(before), key))
    && (forall key, s :: HasSite(SiteItems(before), key, s) ==> MapObservation(s, coordinates).Ok?)
    && forall key, s' :: HasSite(SiteItems(after), key, s')
         <==> exists s :: HasSite(SiteItems(before), key, s) && SiteMoves(coordinates, s, s')
  }

  lemma {:induction false} MappedObserve(edges: seq<DependencyEdge>, coordinates: SourceRewrite)
    requires AllEdgesMap(edges, coordinates)
    ensures ObservationsMoved(coordinates, edges, MappedEdges(edges, coordinates))
  {
    var moved := MappedEdges(edges, coordinates);
    var a, b := SiteItems(edges), SiteItems(moved);
    forall i | 0 <= i < |edges|
      ensures a[i].key == b[i].key && |a[i].sites| == |b[i].sites|
      ensures forall k :: 0 <= k < |a[i].sites| ==> SiteMoves(coordinates, a[i].sites[k], b[i].sites[k])
    {
    }
    hide MapObservation;
    forall key
      ensures HasKey(b, key) <==> HasKey(a, key)
    {
      if HasKey(a, key) { var i :| 0 <= i < |a| && a[i].key == key; assert b[i].key == key; }
      if HasKey(b, key) { var i :| 0 <= i < |b| && b[i].key == key; assert a[i].key == key; }
    }
    forall key, s' | HasSite(b, key, s')
      ensures exists s :: HasSite(a, key, s) && SiteMoves(coordinates, s, s')
    {
      var i :| 0 <= i < |b| && b[i].key == key && s' in b[i].sites;
      var k :| 0 <= k < |b[i].sites| && b[i].sites[k] == s';
      assert HasSite(a, key, a[i].sites[k]) && SiteMoves(coordinates, a[i].sites[k], s');
    }
    forall key, s | HasSite(a, key, s)
      ensures MapObservation(s, coordinates).Ok? && HasSite(b, key, MapObservation(s, coordinates).value)
    {
      var i :| 0 <= i < |a| && a[i].key == key && s in a[i].sites;
      var k :| 0 <= k < |a[i].sites| && a[i].sites[k] == s;
      assert SiteMoves(coordinates, s, b[i].sites[k]) && b[i].sites[k] in b[i].sites;
    }
  }

  /** The connection a definition edge becomes. */
  function Lifted(key: DG.EdgeKey): DependencyKey {
    DependencyKey(DefinitionNode(key.from), TargetNode(key.to), DefinitionDependency(key.kind))
  }

  ghost predicate LiftedKey(edges: seq<DG.DefinitionEdge>, from: DG.EdgeKey, key: DependencyKey) {
    HasKey(edges, from) && Lifted(from) == key
  }

  ghost predicate LiftedSite(edges: seq<DG.DefinitionEdge>, from: DG.EdgeKey, range: ByteRange, key: DependencyKey,
                             site: ObservationSite) {
    HasSite(edges, from, range) && Lifted(from) == key && site == Source(range)
  }

  lemma {:induction false} DefinitionsLift(definitions: DG.DefinitionGraph, key: DependencyKey, site: ObservationSite)
    ensures HasKey(SiteItems(DefinitionEdges(definitions)), key)
      <==> exists from :: LiftedKey(definitions.edges, from, key)
    ensures HasSite(SiteItems(DefinitionEdges(definitions)), key, site)
      <==> exists from, range :: LiftedSite(definitions.edges, from, range, key, site)
  {
    KeysLift(definitions, key);
    SitesLift(definitions, key, site);
  }

  lemma {:induction false} KeysLift(definitions: DG.DefinitionGraph, key: DependencyKey)
    ensures HasKey(SiteItems(DefinitionEdges(definitions)), key)
      <==> exists from :: LiftedKey(definitions.edges, from, key)
  {
    var es, items := definitions.edges, SiteItems(DefinitionEdges(definitions));
    if HasKey(items, key) {
      var i :| 0 <= i < |items| && items[i].key == key;
      assert es[i].key == es[i].key;
      assert LiftedKey(es, es[i].key, key);
    }
    if from :| LiftedKey(es, from, key) {
      var i :| 0 <= i < |es| && es[i].key == from;
      assert items[i].key == key;
    }
  }

  lemma {:induction false} SitesLift(definitions: DG.DefinitionGraph, key: DependencyKey, site: ObservationSite)
    ensures HasSite(SiteItems(DefinitionEdges(definitions)), key, site)
      <==> exists from, range :: LiftedSite(definitions.edges, from, range, key, site)
  {
    var es, items := definitions.edges, SiteItems(DefinitionEdges(definitions));
    if HasSite(items, key, site) {
      var i :| 0 <= i < |items| && items[i].key == key && site in items[i].sites;
      var k :| 0 <= k < |items[i].sites| && items[i].sites[k] == site;
      assert es[i].sites[k] in es[i].sites;
      assert HasSite(es, es[i].key, es[i].sites[k]);
      assert LiftedSite(es, es[i].key, es[i].sites[k], key, site);
    }
    if from, range :| LiftedSite(es, from, range, key, site) {
      var i :| 0 <= i < |es| && es[i].key == from && range in es[i].sites;
      var k :| 0 <= k < |es[i].sites| && es[i].sites[k] == range;
      assert items[i].key == key && items[i].sites[k] == site;
    }
  }

  /** The edges of the normalised definition graph observe the moved sites. */
  lemma {:induction false} DefinitionsObserve(definitions: DG.DefinitionGraph, moved: DG.DefinitionGraph,
                                              coordinates: SourceRewrite)
    requires MovesDefinitions(definitions, moved, coordinates)
    ensures ObservationsMoved(coordinates, DefinitionEdges(definitions), DefinitionEdges(moved))
  {
    hide HasSite;
    hide HasKey;
    hide SourceRewrite.OriginalRange;
    hide DefinitionEdges;
    hide SiteItems;
    hide Normalization.SitesMap;
    hide Normalization.MappedSites;
    var es, mapped := definitions.edges, Normalization.MappedEdges(definitions.edges, coordinates);
    NormalFormObserves(mapped, moved.edges, DG.EdgeLe, RangeLe);
    var a, b := SiteItems(DefinitionEdges(definitions)), SiteItems(DefinitionEdges(moved));
    forall key
      ensures HasKey(b, key) <==> HasKey(a, key)
    {
      DefinitionsLift(definitions, key, ExternalSource);
      DefinitionsLift(moved, key, ExternalSource);
      forall from
        ensures LiftedKey(es, from, key) <==> LiftedKey(moved.edges, from, key)
      {
        Normalization.MappedHasKey(es, coordinates, from);
      }
    }
    forall key, s | HasSite(a, key, s)
      ensures MapObservation(s, coordinates).Ok? && HasSite(b, key, MapObservation(s, coordinates).value)
    {
      DefinitionsLift(definitions, key, s);
      var from, range :| LiftedSite(es, from, range, key, s);
      Normalization.SiteMaps(es, coordinates, from, range);
      var r := coordinates.OriginalRange(range).value;
      Normalization.MappedHasSite(es, coordinates, from, r);
      assert Normalization.MovesTo(coordinates, range, r);
      DefinitionsLift(moved, key, Source(r));
      assert LiftedSite(moved.edges, from, r, key, Source(r));
    }
    forall key, s' | HasSite(b, key, s')
      ensures exists s :: HasSite(a, key, s) && SiteMoves(coordinates, s, s')
    {
      DefinitionsLift(moved, key, s');
      var from, range' :| LiftedSite(moved.edges, from, range', key, s');
      Normalization.MappedHasSite(es, coordinates, from, range');
      var range :| HasSite(es, from, range) && Normalization.MovesTo(coordinates, range, range');
      DefinitionsLift(definitions, key, Source(range));
      assert LiftedSite(es, from, range, key, Source(range));
      assert SiteMoves(coordinates, Source(range), s');
    }
  }

  lemma {:induction false} BothObserve(d: seq<DependencyEdge>, d': seq<DependencyEdge>, a: seq<DependencyEdge>,
                                       a': seq<DependencyEdge>, coordinates: SourceRewrite)
    requires ObservationsMoved(coordinates, d, d') && ObservationsMoved(coordinates, a, a')
    ensures ObservationsMoved(coordinates, d + a, d' + a')
  {
    hide HasSite;
    hide HasKey;
    hide MapObservation;
    forall key
      ensures HasKey(SiteItems(d' + a'), key) <==> HasKey(SiteItems(d + a), key)
    {
      SeenInEither(d, a, key);
      SeenInEither(d', a', key);
    }
    forall key, s
      ensures HasSite(SiteItems(d + a), key, s) <==> HasSite(SiteItems(d), key, s) || HasSite(SiteItems(a), key, s)
      ensures HasSite(SiteItems(d' + a'), key, s) <==> HasSite(SiteItems(d'), key, s) || HasSite(SiteItems(a'), key, s)
    {
      SiteInEither(d, a, key, s);
      SiteInEither(d', a', key, s);
    }
  }

  /** Grouping moved observations gives the moved groups, in the same order. */
  lemma {:induction false} GroupsMoved(x: seq<DependencyEdge>, x': seq<DependencyEdge>, g: seq<DependencyEdge>,
                                       g': seq<DependencyEdge>, coordinates: SourceRewrite)
    requires ObservationsMoved(coordinates, x, x') && EdgesGrouped(x, g) && EdgesGrouped(x', g')
    ensures EdgesMoved(coordinates, g, g')
  {
    hide HasSite;
    hide HasKey;
    hide MapObservation;
    hide Sorted;
    DependencyOrder();
    KeysListed(SiteItems(x), SiteItems(g), DependencyLe, SiteLe);
    KeysListed(SiteItems(x'), SiteItems(g'), DependencyLe, SiteLe);
    var a, b := KeysOf(SiteItems(g)), KeysOf(SiteItems(g'));
    ListingUnique(a, b, Elements(a), DependencyLe);
    forall i | 0 <= i < |g|
      ensures EdgeMoved(coordinates, g[i], g'[i])
    {
      assert a[i] == g[i].key && b[i] == g'[i].key;
      GroupMoved(x, x', g, g', i, coordinates);
    }
  }

  lemma {:induction false} GroupMoved(x: seq<DependencyEdge>, x': seq<DependencyEdge>, g: seq<DependencyEdge>,
                                      g': seq<DependencyEdge>, i: nat, coordinates: SourceRewrite)
    requires ObservationsMoved(coordinates, x, x') && EdgesGrouped(x, g) && EdgesGrouped(x', g')
    requires i < |g| == |g'| && g'[i].key == g[i].key
    ensures EdgeMoved(coordinates, g[i], g'[i])
  {
    hide HasSite;
    hide HasKey;
    hide MapObservation;
    hide Sorted;
    hide Distinct;
    var key := g[i].key;
    assert SiteItems(g)[i] == Observed(key, g[i].sites) && SiteItems(g')[i] == Observed(key, g'[i].sites);
    assert forall s :: s in g[i].sites <==> HasSite(SiteItems(x), key, s);
    assert forall s :: s in g'[i].sites <==> HasSite(SiteItems(x'), key, s);
  }

  /* ---------- allocations ---------- */

  /** The same connections with the same sites, in whatever order. */
  ghost predicate SameSites(a: seq<DependencyEdge>, b: seq<DependencyEdge>) {
    SameKeys(a, b) && forall i, s {:trigger s in a[i].sites} {:trigger s in b[i].sites} :: 0 <= i < |a| ==>
      (s in a[i].sites <==> s in b[i].sites)
  }

  lemma {:induction false} PlacingSame(nodes: seq<MonoNode>, a: seq<DependencyEdge>, b: seq<DependencyEdge>, p: nat,
                                       i: nat)
    requires SameSites(a, b) && IsAllocation(nodes, i) && PathOf(nodes, i) != [] && p < |nodes|
    ensures OnlyPlacingEdge(nodes, a, p, i) <==> OnlyPlacingEdge(nodes, b, p, i)
  {
    hide SiteMatches;
    forall e: nat
      ensures PlacingEdge(nodes, a, p, i, e) <==> PlacingEdge(nodes, b, p, i, e)
    {
    }
    OnlyPlacingAlike(nodes, a, nodes, b, p, i);
  }

  lemma {:induction false} TargetsSame(nodes: seq<MonoNode>, a: seq<DependencyEdge>, b: seq<DependencyEdge>, role: Role)
    requires SameSites(a, b)
    ensures TargetsOf(nodes, a, role) == TargetsOf(nodes, b, role)
  {
    forall to: nat
      ensures AllocationPaths.Observed(nodes, a, role, to) <==> AllocationPaths.Observed(nodes, b, role, to)
    {
      ObservedSame(nodes, a, b, role, to);
      ObservedSame(nodes, b, a, role, to);
    }
  }

  lemma {:induction false} ObservedSame(nodes: seq<MonoNode>, a: seq<DependencyEdge>, b: seq<DependencyEdge>,
                                        role: Role, to: nat)
    requires SameSites(a, b)
    ensures AllocationPaths.Observed(nodes, a, role, to) ==> AllocationPaths.Observed(nodes, b, role, to)
  {
    if e :| e in a && Observes(nodes, e, role, to) {
      var i :| 0 <= i < |a| && a[i] == e;
      assert b[i] in b && Observes(nodes, b[i], role, to);
    }
  }

  lemma {:induction false} AllocationsSame(nodes: seq<MonoNode>, a: seq<DependencyEdge>, b: seq<DependencyEdge>)
    requires SameSites(a, b)
    ensures AllocationsValid(nodes, a) <==> AllocationsValid(nodes, b)
  {
    forall i, p: nat | 0 <= i < |nodes| && IsAllocation(nodes, i) && PathOf(nodes, i) != [] && p < |nodes|
      ensures OnlyPlacingEdge(nodes, a, p, i) <==> OnlyPlacingEdge(nodes, b, p, i)
    {
      PlacingSame(nodes, a, b, p, i);
    }
    forall i | 0 <= i < |a|
      ensures IncomingValid(nodes, a[i]) <==> IncomingValid(nodes, b[i])
    {
    }
    EachAlike(a, b, (e: DependencyEdge) => IncomingValid(nodes, e), (e: DependencyEdge) => IncomingValid(nodes, e));
    forall role: Role
      ensures TargetsOf(nodes, a, role) == TargetsOf(nodes, b, role)
    {
      TargetsSame(nodes, a, b, role);
    }
    hide OnlyPlacingEdge;
    hide IncomingValid;
    hide TargetsOf;
    hide HasRole;
    hide OnlyParent;
    hide SameSites;
    forall i | 0 <= i < |nodes| && IsAllocation(nodes, i)
      ensures Placed(nodes, a, i) <==> Placed(nodes, b, i)
    {
      PlacedSame(nodes, a, b, i);
    }
  }

  lemma {:induction false} PlacedSame(nodes: seq<MonoNode>, a: seq<DependencyEdge>, b: seq<DependencyEdge>, i: nat)
    requires IsAllocation(nodes, i)
    requires forall p: nat :: PathOf(nodes, i) != [] && p < |nodes| ==>
      (OnlyPlacingEdge(nodes, a, p, i) <==> OnlyPlacingEdge(nodes, b, p, i))
    ensures Placed(nodes, a, i) <==> Placed(nodes, b, i)
  {
    hide OnlyPlacingEdge;
    if PathOf(nodes, i) != [] {
      if p: nat :| OnlyParent(nodes, p, i) && OnlyPlacingEdge(nodes, a, p, i) {
        assert OnlyPlacingEdge(nodes, b, p, i);
      }
      if p: nat :| OnlyParent(nodes, p, i) && OnlyPlacingEdge(nodes, b, p, i) {
        assert OnlyPlacingEdge(nodes, a, p, i);
      }
    }
  }

  lemma {:induction false} AllocationsMoved(nodes: seq<MonoNode>, before: seq<DependencyEdge>,
                                            after: seq<DependencyEdge>, coordinates: SourceRewrite)
    requires TiledRewrite(coordinates) && AllMonosMap(nodes, coordinates) && EdgesMoved(coordinates, before, after)
    ensures AllocationsValid(nodes, before) <==> AllocationsValid(MappedMonos(nodes, coordinates), after)
  {
    hide TiledRewrite;
    hide MapObservation;
    hide MonoMaps;
    hide AllocationsValid;
    assert AllEdgesMap(before, coordinates) by {
      forall i, k | 0 <= i < |before| && 0 <= k < |before[i].sites|
        ensures MapObservation(before[i].sites[k], coordinates).Ok?
      {
        assert before[i].sites[k] in before[i].sites;
      }
    }
    AllocationsAlike(nodes, before, coordinates);
    forall i | 0 <= i < |before|
      ensures forall s' :: s' in MappedEdges(before, coordinates)[i].sites <==> s' in after[i].sites
    {
      MappedSame(coordinates, before[i], after[i]);
    }
    AllocationsSame(MappedMonos(nodes, coordinates), MappedEdges(before, coordinates), after);
  }

  lemma {:induction false} MappedSame(coordinates: SourceRewrite, before: DependencyEdge, after: DependencyEdge)
    requires EdgeMoved(coordinates, before, after) && ObservationsMap(before.sites, coordinates)
    ensures forall s' :: s' in MappedEdge(before, coordinates).sites <==> s' in after.sites
  {
    hide MapObservation;
    var moved := MappedObservations(before.sites, coordinates);
    forall s' | s' in moved
      ensures s' in after.sites
    {
      var k :| 0 <= k < |moved| && moved[k] == s';
      assert before.sites[k] in before.sites && SiteMoves(coordinates, before.sites[k], s');
    }
    forall s' | s' in after.sites
      ensures s' in moved
    {
      var s :| s in before.sites && SiteMoves(coordinates, s, s');
      var k :| 0 <= k < |before.sites| && before.sites[k] == s;
      assert moved[k] == s';
    }
  }

  /* ---------- selections of associated items ---------- */

  /** Containment after the move: what it was before, except that an empty range leaves a non-empty one whose end it is
      at a seam. */
  lemma {:induction false} ContainsMoved(coordinates: SourceRewrite, outer: ByteRange, inner: ByteRange)
    requires TiledRewrite(coordinates)
    requires coordinates.OriginalRange(outer).Ok? && coordinates.OriginalRange(inner).Ok?
    ensures coordinates.OriginalRange(outer).value.Contains(coordinates.OriginalRange(inner).value)
      <==> outer.Contains(inner) && !EndsAtSeam(coordinates, inner, outer)
  {
    hide SourceRewrite.OriginalRange;
    hide AtSeam;
    OriginalRangeTotal(coordinates, outer);
    OriginalRangeTotal(coordinates, inner);
    if !outer.IsEmpty() && !inner.IsEmpty() {
      OriginalRangeMonotone(coordinates, outer, inner);
    } else if outer.IsEmpty() {
      if inner.IsEmpty() && coordinates.OriginalRange(outer).value.Contains(coordinates.OriginalRange(inner).value) {
        OriginalRangeInjective(coordinates, outer, inner);
      }
    } else if outer.start <= inner.start <= outer.end {
      EmptyRangeContained(coordinates, outer, inner.start);
    } else {
      EmptyOutside(coordinates, outer, inner);
    }
  }

  /** `inner` is empty and sits at the end of the non-empty `outer`, where something was deleted. */
  ghost predicate EndsAtSeam(coordinates: SourceRewrite, inner: ByteRange, outer: ByteRange)
    requires TiledRewrite(coordinates)
  {
    inner.IsEmpty() && !outer.IsEmpty() && inner.start == outer.end && AtSeam(coordinates, inner.start)
  }

  lemma {:induction false} EmptyOutside(coordinates: SourceRewrite, outer: ByteRange, inner: ByteRange)
    requires TiledRewrite(coordinates)
    requires ValidRange(coordinates.source, outer) && ValidRange(coordinates.source, inner)
    requires !outer.IsEmpty() && inner.IsEmpty() && !(outer.start <= inner.start <= outer.end)
    ensures coordinates.OriginalRange(outer).Ok? && coordinates.OriginalRange(inner).Ok?
    ensures !coordinates.OriginalRange(outer).value.Contains(coordinates.OriginalRange(inner).value)
  {
    hide SourceRewrite.OriginalRange;
    hide PieceOffsets;
    OriginalRangeClosedForm(coordinates, outer);
    OriginalRangeClosedForm(coordinates, inner);
    PieceOffsetsAscend(coordinates.pieces, |coordinates.source|, coordinates.originalLen);
    var p := PieceOffsets(coordinates.pieces);
    if inner.start < outer.start {
      AscendingOrder(p, inner.start, outer.start);
    } else {
      var at := if inner.start < |p| then inner.start else |p| - 1;
      AscendingOrder(p, outer.end - 1, outer.end);
      AscendingOrder(p, outer.end, at);
    }
  }

  /** The site of a selection is covered by a site of a use, and will be after the move. */
  ghost predicate StaysCovered(coordinates: SourceRewrite, p: ObservationSite, m: ObservationSite)
    requires TiledRewrite(coordinates)
  {
    SiteCovered(p, m) && !(p.Source? && m.Source? && EndsAtSeam(coordinates, p.range, m.range))
  }

  lemma {:induction false} CoveredMoved(coordinates: SourceRewrite, p: ObservationSite, m: ObservationSite,
                                        p': ObservationSite, m': ObservationSite)
    requires TiledRewrite(coordinates) && SiteMoves(coordinates, p, p') && SiteMoves(coordinates, m, m')
    ensures SiteCovered(p', m') <==> StaysCovered(coordinates, p, m)
  {
    hide SourceRewrite.OriginalRange;
    hide TiledRewrite;
    hide AtSeam;
    if p.Source? && m.Source? {
      ContainsMoved(coordinates, m.range, p.range);
    }
  }

  /** Sites in order, each once. */
  ghost predicate Tidy(edge: DependencyEdge) {
    Sorted(edge.sites, SiteLe) && Distinct(edge.sites)
  }

  lemma {:induction false} SiteInjective(coordinates: SourceRewrite, a: ObservationSite, b: ObservationSite,
                                         moved: ObservationSite)
    requires TiledRewrite(coordinates) && SiteMoves(coordinates, a, moved) && SiteMoves(coordinates, b, moved)
    ensures a == b
  {
    hide SourceRewrite.OriginalRange;
    hide TiledRewrite;
    if moved.Source? {
      OriginalRangeInjective(coordinates, a.range, b.range);
    }
  }

  /** Lists of sites agree before the move exactly when they agree after it. */
  lemma {:induction false} SameListAlike(coordinates: SourceRewrite, a: DependencyEdge, b: DependencyEdge,
                                         a': DependencyEdge, b': DependencyEdge)
    requires TiledRewrite(coordinates) && EdgeMoved(coordinates, a, a') && EdgeMoved(coordinates, b, b')
    requires Tidy(a) && Tidy(b) && Tidy(a') && Tidy(b')
    ensures a.sites == b.sites <==> a'.sites == b'.sites
  {
    hide TiledRewrite;
    hide Sorted;
    hide Distinct;
    SiteOrder();
    if a.sites == b.sites {
      assert forall s :: s in a'.sites <==> s in Elements(b'.sites);
      ListingUnique(a'.sites, b'.sites, Elements(b'.sites), SiteLe);
    }
    if a'.sites == b'.sites {
      SitesBack(coordinates, a, b, a', b');
      SitesBack(coordinates, b, a, b', a');
      assert forall s :: s in a.sites <==> s in Elements(b.sites);
      ListingUnique(a.sites, b.sites, Elements(b.sites), SiteLe);
    }
  }

  lemma {:induction false} SitesBack(coordinates: SourceRewrite, a: DependencyEdge, b: DependencyEdge,
                                     a': DependencyEdge, b': DependencyEdge)
    requires TiledRewrite(coordinates) && EdgeMoved(coordinates, a, a') && EdgeMoved(coordinates, b, b')
    requires a'.sites == b'.sites
    ensures forall s :: s in a.sites ==> s in b.sites
  {
    hide TiledRewrite;
    hide MapObservation;
    forall s | s in a.sites
      ensures s in b.sites
    {
      var s' := MapObservation(s, coordinates).value;
      assert SiteMoves(coordinates, s, s');
      assert s' in a'.sites;
      var t :| t in b.sites && SiteMoves(coordinates, t, s');
      SiteInjective(coordinates, s, t, s');
    }
  }

  /** Each site of a selection stays covered by some site of the use. */
  ghost predicate StaysMatched(coordinates: SourceRewrite, proofSites: seq<ObservationSite>,
                               monoSites: seq<ObservationSite>)
    requires TiledRewrite(coordinates)
  {
    forall p :: p in proofSites ==> exists m :: m in monoSites && StaysCovered(coordinates, p, m)
  }

  /** Sites match after the move exactly when they match before it and, for a direct call, stay covered. */
  lemma {:induction false} SitesMatchMoved(coordinates: SourceRewrite, relation: MonoDependencyKind, p: DependencyEdge,
                                           m: DependencyEdge, p': DependencyEdge, m': DependencyEdge)
    requires TiledRewrite(coordinates) && EdgeMoved(coordinates, p, p') && EdgeMoved(coordinates, m, m')
    requires Tidy(p) && Tidy(m) && Tidy(p') && Tidy(m')
    ensures SelectionSitesMatch(relation, p'.sites, m'.sites) <==>
      SelectionSitesMatch(relation, p.sites, m.sites)
      && (relation == DirectCall ==> StaysMatched(coordinates, p.sites, m.sites))
  {
    hide TiledRewrite;
    hide Tidy;
    hide MapObservation;
    hide SiteCovered;
    hide EndsAtSeam;
    if relation != DirectCall {
      SameListAlike(coordinates, p, m, p', m');
    } else {
      forall s | s in p.sites
        ensures (exists t :: t in m.sites && StaysCovered(coordinates, s, t))
          <==> exists t' | t' in m'.sites :: SiteCovered(MapObservation(s, coordinates).value, t')
      {
        CoverMoved(coordinates, m, m', s);
      }
      forall s | s in p.sites
        ensures MapObservation(s, coordinates).value in p'.sites
      {
        assert SiteMoves(coordinates, s, MapObservation(s, coordinates).value);
      }
    }
  }

  lemma {:induction false} CoverMoved(coordinates: SourceRewrite, m: DependencyEdge, m': DependencyEdge,
                                      s: ObservationSite)
    requires TiledRewrite(coordinates) && EdgeMoved(coordinates, m, m') && MapObservation(s, coordinates).Ok?
    ensures (exists t :: t in m.sites && StaysCovered(coordinates, s, t))
      <==> exists t' | t' in m'.sites :: SiteCovered(MapObservation(s, coordinates).value, t')
  {
    hide TiledRewrite;
    hide MapObservation;
    hide SiteCovered;
    hide StaysCovered;
    var s' := MapObservation(s, coordinates).value;
    assert SiteMoves(coordinates, s, s');
    if t :| t in m.sites && StaysCovered(coordinates, s, t) {
      var t' := MapObservation(t, coordinates).value;
      assert SiteMoves(coordinates, t, t') && t' in m'.sites;
      CoveredMoved(coordinates, s, t, s', t');
    }
    if t' :| t' in m'.sites && SiteCovered(s', t') {
      var t :| t in m.sites && SiteMoves(coordinates, t, t');
      CoveredMoved(coordinates, s, t, s', t');
    }
  }

  /** The instances among two lists of nodes are the same. */
  ghost predicate InstancesAlike(a: seq<MonoNode>, b: seq<MonoNode>) {
    |a| == |b| && forall i :: 0 <= i < |a| && (a[i].key.InstanceKey? || b[i].key.InstanceKey?) ==> a[i].key == b[i].key
  }

  lemma {:induction false} FilterCount(a: seq<DependencyEdge>, b: seq<DependencyEdge>, test: DependencyEdge -> bool,
                                       test': DependencyEdge -> bool)
    requires |a| == |b| && forall i :: 0 <= i < |a| ==> (test(a[i]) <==> test'(b[i]))
    ensures |Filter(a, test)| == |Filter(b, test')|
    decreases |a|
  {
    if a != [] {
      FilterCount(a[..|a| - 1], b[..|b| - 1], test, test');
    }
  }

  /** A direct call one of whose sites will not be covered by a site of `m` after the move. */
  ghost predicate Uncovers(coordinates: SourceRewrite, p: DependencyEdge, m: DependencyEdge)
    requires TiledRewrite(coordinates)
  {
    p.key.kind.SelectionProof? && p.key.kind.relation == DirectCall && !StaysMatched(coordinates, p.sites, m.sites)
  }

  /** An edge calls the selected instance after the move exactly when it does before and does not come uncovered. */
  lemma {:induction false} CallMoved(coordinates: SourceRewrite, p: DependencyEdge, m: DependencyEdge,
                                     p': DependencyEdge, m': DependencyEdge, a: seq<MonoNode>, b: seq<MonoNode>,
                                     instance: MonoInstanceKey)
    requires TiledRewrite(coordinates) && EdgeMoved(coordinates, p, p') && EdgeMoved(coordinates, m, m')
    requires Tidy(p) && Tidy(m) && Tidy(p') && Tidy(m') && InstancesAlike(a, b) && p.key.kind.SelectionProof?
    ensures CallsInstance(p', m', b, instance) <==> CallsInstance(p, m, a, instance) && !Uncovers(coordinates, p, m)
  {
    SitesMatchMoved(coordinates, p.key.kind.relation, p, m, p', m');
    hide SelectionSitesMatch;
    hide TiledRewrite;
    hide StaysMatched;
    hide MapObservation;
  }

  /** The same edges match a selection before and after. */
  ghost predicate MatchesAlike(p: DependencyEdge, p': DependencyEdge, a: seq<MonoNode>, b: seq<MonoNode>,
                               before: seq<DependencyEdge>, after: seq<DependencyEdge>, instance: MonoInstanceKey)
    requires p.key.kind.SelectionProof? && p'.key == p.key && |after| == |before|
  {
    forall k :: 0 <= k < |before| ==>
      (CallsInstance(p', after[k], b, instance) <==> CallsInstance(p, before[k], a, instance))
  }

  /** The edges that match a selection are the same before and after the move exactly when none comes uncovered. */
  lemma {:induction false} MatchesKept(coordinates: SourceRewrite, p: DependencyEdge, p': DependencyEdge,
                                       a: seq<MonoNode>, b: seq<MonoNode>, before: seq<DependencyEdge>,
                                       after: seq<DependencyEdge>, instance: MonoInstanceKey)
    requires TiledRewrite(coordinates) && EdgeMoved(coordinates, p, p') && EdgesMoved(coordinates, before, after)
    requires Tidy(p) && Tidy(p') && AllTidy(before) && AllTidy(after) && InstancesAlike(a, b)
    requires p.key.kind.SelectionProof?
    ensures p'.key == p.key
    ensures forall k :: 0 <= k < |before| ==>
      (CallsInstance(p', after[k], b, instance) <==>
        CallsInstance(p, before[k], a, instance) && !Uncovers(coordinates, p, before[k]))
    ensures MatchesAlike(p, p', a, b, before, after, instance)
      <==> forall k :: 0 <= k < |before| && CallsInstance(p, before[k], a, instance) ==>
        !Uncovers(coordinates, p, before[k])
  {
    hide Tidy;
    hide EdgeMoved;
    hide CallsInstance;
    hide Uncovers;
    hide TiledRewrite;
    assert p'.key == p.key by { SameKey(coordinates, p, p'); }
    forall k | 0 <= k < |before|
      ensures CallsInstance(p', after[k], b, instance)
        <==> CallsInstance(p, before[k], a, instance) && !Uncovers(coordinates, p, before[k])
    {
      assert before[k] in before && after[k] in after;
      CallMoved(coordinates, p, before[k], p', after[k], a, b, instance);
    }
  }

  ghost predicate AllTidy(edges: seq<DependencyEdge>) {
    forall e :: e in edges ==> Tidy(e)
  }

  /** No connection is listed twice. */
  ghost predicate DistinctEdges(edges: seq<DependencyEdge>) {
    forall i, j :: 0 <= i < j < |edges| ==> edges[i].key != edges[j].key
  }

  /** Among different edges and nodes a selection has at most one match. */
  lemma {:induction false} OneMatch(p: DependencyEdge, nodes: seq<MonoNode>, edges: seq<DependencyEdge>,
                                    instance: MonoInstanceKey, i: nat, j: nat)
    requires DistinctEdges(edges) && Distinct(MonoKeys(nodes)) && p.key.kind.SelectionProof? && i < |edges|
    requires j < |edges|
    requires CallsInstance(p, edges[i], nodes, instance) && CallsInstance(p, edges[j], nodes, instance)
    ensures i == j
  {
    hide SelectionSitesMatch;
    var x, y := edges[i].key.to.id, edges[j].key.to.id;
    assert MonoKeys(nodes)[x] == MonoKeys(nodes)[y];
    assert x == y;
    assert edges[i].key == edges[j].key;
  }

  lemma {:induction false} FilterNone(edges: seq<DependencyEdge>, test: DependencyEdge -> bool)
    requires forall i :: 0 <= i < |edges| ==> !test(edges[i])
    ensures Filter(edges, test) == []
    decreases |edges|
  {
    if edges != [] {
      FilterNone(edges[..|edges| - 1], test);
    }
  }

  lemma {:induction false} FilterOne(edges: seq<DependencyEdge>, test: DependencyEdge -> bool, k: nat)
    requires k < |edges| && forall i :: 0 <= i < |edges| ==> (test(edges[i]) <==> i == k)
    ensures Filter(edges, test) == [edges[k]]
    decreases |edges|
  {
    var n := |edges| - 1;
    if k == n {
      FilterNone(edges[..n], test);
    } else {
      FilterOne(edges[..n], test, k);
    }
  }

  /** A direct call of a concrete associated item whose only counterpart comes uncovered. */
  ghost predicate LosesCall(coordinates: SourceRewrite, p: DependencyEdge, item: ProofNodeKind, nodes: seq<MonoNode>,
                            edges: seq<DependencyEdge>)
    requires TiledRewrite(coordinates)
    requires p.key.kind.SelectionProof? && item.AssociatedItem?
  {
    && (item.leaf.Some? || item.selectionKind == UserDefined)
    && exists k ::
      0 <= k < |edges| && CallsInstance(p, edges[k], nodes, item.codegenInstance) && Uncovers(coordinates, p, edges[k])
  }

  lemma {:induction false} CodegenMoved(coordinates: SourceRewrite, p: DependencyEdge, p': DependencyEdge,
                                        item: ProofNodeKind, a: seq<MonoNode>, b: seq<MonoNode>,
                                        before: seq<DependencyEdge>, after: seq<DependencyEdge>)
    requires TiledRewrite(coordinates) && EdgeMoved(coordinates, p, p') && EdgesMoved(coordinates, before, after)
    requires Tidy(p) && Tidy(p') && AllTidy(before) && AllTidy(after) && DistinctEdges(before) && Distinct(MonoKeys(a))
    requires InstancesAlike(a, b) && p.key.kind.SelectionProof? && item.AssociatedItem?
    ensures p'.key == p.key
    ensures CodegenJoin(p', item, b, after)
      <==> CodegenJoin(p, item, a, before) && !LosesCall(coordinates, p, item, a, before)
  {
    hide Tidy;
    hide EdgeMoved;
    hide CallsInstance;
    hide Uncovers;
    hide TiledRewrite;
    hide Filter;
    hide Distinct;
    hide DistinctEdges;
    hide InstancesAlike;
    var instance := item.codegenInstance;
    MatchesKept(coordinates, p, p', a, b, before, after, instance);
    NoInstanceAlike(a, b, instance);
    NoInstanceAlike(b, a, instance);
    if k :| 0 <= k < |before| && CallsInstance(p, before[k], a, instance) && Uncovers(coordinates, p, before[k]) {
      MatchLost(coordinates, p, p', item, a, b, before, after, k);
    } else {
      FilterCount(before, after, (e: DependencyEdge) => CallsInstance(p, e, a, instance),
                  (e: DependencyEdge) => CallsInstance(p', e, b, instance));
    }
  }

  lemma {:induction false} MatchLost(coordinates: SourceRewrite, p: DependencyEdge, p': DependencyEdge,
                                     item: ProofNodeKind, a: seq<MonoNode>, b: seq<MonoNode>,
                                     before: seq<DependencyEdge>, after: seq<DependencyEdge>, k: nat)
    requires TiledRewrite(coordinates) && |before| == |after| && p'.key == p.key
    requires DistinctEdges(before) && Distinct(MonoKeys(a)) && InstancesAlike(a, b)
    requires p.key.kind.SelectionProof? && item.AssociatedItem? && k < |before|
    requires CallsInstance(p, before[k], a, item.codegenInstance) && Uncovers(coordinates, p, before[k])
    requires forall i :: 0 <= i < |before| ==> (CallsInstance(p', after[i], b, item.codegenInstance) <==>
      CallsInstance(p, before[i], a, item.codegenInstance) && !Uncovers(coordinates, p, before[i]))
    ensures CodegenJoin(p, item, a, before)
    ensures CodegenJoin(p', item, b, after) <==> item.leaf.None? && item.selectionKind != UserDefined
  {
    var instance := item.codegenInstance;
    assert p.key.kind.relation == DirectCall;
    assert exists n | n in b :: n.key == InstanceKey(instance, Callable) by {
      var id := before[k].key.to.id;
      assert a[id].key == InstanceKey(instance, Callable) && b[id] in b;
    }
    hide CallsInstance;
    hide Uncovers;
    hide Distinct;
    hide DistinctEdges;
    hide InstancesAlike;
    forall i | 0 <= i < |before|
      ensures CallsInstance(p, before[i], a, instance) <==> i == k
    {
      if CallsInstance(p, before[i], a, instance) {
        OneMatch(p, a, before, instance, i, k);
      }
    }
    FilterOne(before, (e: DependencyEdge) => CallsInstance(p, e, a, instance), k);
    FilterNone(after, (e: DependencyEdge) => CallsInstance(p', e, b, instance));
  }

  lemma {:induction false} SameKey(coordinates: SourceRewrite, before: DependencyEdge, after: DependencyEdge)
    requires EdgeMoved(coordinates, before, after)
    ensures after.key == before.key && (after.sites == [] <==> before.sites == [])
  {
    if before.sites != [] {
      assert before.sites[0] in before.sites;
      assert SiteMoves(coordinates, before.sites[0], MapObservation(before.sites[0], coordinates).value);
      assert MapObservation(before.sites[0], coordinates).value in after.sites;
    }
    if after.sites != [] {
      assert after.sites[0] in after.sites;
      var s :| s in before.sites && SiteMoves(coordinates, s, after.sites[0]);
    }
  }

  lemma {:induction false} NoInstanceAlike(a: seq<MonoNode>, b: seq<MonoNode>, instance: MonoInstanceKey)
    requires InstancesAlike(a, b) || InstancesAlike(b, a)
    ensures (forall n | n in a :: n.key != InstanceKey(instance, Callable)) ==>
      forall n | n in b :: n.key != InstanceKey(instance, Callable)
  {
    if forall n | n in a :: n.key != InstanceKey(instance, Callable) {
      forall n | n in b
        ensures n.key != InstanceKey(instance, Callable)
      {
        var i :| 0 <= i < |b| && b[i] == n;
        assert a[i] in a;
      }
    }
  }

  lemma {:induction false} SourceJoinAlike(coordinates: SourceRewrite, p: DependencyEdge, p': DependencyEdge,
                                           proof: ProofNode, a: seq<MonoNode>, b: seq<MonoNode>)
    requires EdgeMoved(coordinates, p, p') && InstancesAlike(a, b)
    ensures SourceItemJoin(p, proof, a) <==> SourceItemJoin(p', proof, b)
  {
    hide SourceRewrite.OriginalRange;
    SameKey(coordinates, p, p');
    var Plain := (s: ObservationSite) => s.Source? || s.ExternalSource? || s.SiteCompilerGenerated?;
    if forall s | s in p.sites :: Plain(s) {
      assert forall s' :: s' in p'.sites ==> Plain(s');
    }
    if forall s' | s' in p'.sites :: Plain(s') {
      forall s | s in p.sites
        ensures Plain(s)
      {
        assert SiteMoves(coordinates, s, MapObservation(s, coordinates).value);
        assert MapObservation(s, coordinates).value in p'.sites;
      }
    }
  }

  /** A selection whose join the move breaks. */
  ghost predicate CallLost(coordinates: SourceRewrite, p: DependencyEdge, proofs: seq<ProofNode>, nodes: seq<MonoNode>,
                           edges: seq<DependencyEdge>)
    requires TiledRewrite(coordinates)
  {
    && p.key.kind.SelectionProof? && p.key.kind.relation == DirectCall
    && p.key.to.ProofOf? && p.key.to.id < |proofs| && proofs[p.key.to.id].kind.AssociatedItem?
    && LosesCall(coordinates, p, proofs[p.key.to.id].kind, nodes, edges)
  }

  /** A selection is joined after the move exactly when it is before and its call is not lost. */
  lemma {:induction false} JoinMoved(coordinates: SourceRewrite, i: nat, proofs: seq<ProofNode>, a: seq<MonoNode>,
                                     b: seq<MonoNode>, before: seq<DependencyEdge>, after: seq<DependencyEdge>)
    requires TiledRewrite(coordinates) && EdgesMoved(coordinates, before, after) && InstancesAlike(a, b) && i < |before|
    requires AllTidy(before) && AllTidy(after) && DistinctEdges(before) && Distinct(MonoKeys(a))
    ensures SelectionJoin(after[i], proofs, b, after) <==>
      SelectionJoin(before[i], proofs, a, before) && !CallLost(coordinates, before[i], proofs, a, before)
  {
    var p, p' := before[i], after[i];
    assert p in before && p' in after && EdgeMoved(coordinates, p, p');
    SameKey(coordinates, p, p');
    hide Tidy;
    hide TiledRewrite;
    hide EdgeMoved;
    hide CodegenJoin;
    hide SourceItemJoin;
    hide Uncovers;
    hide CallsInstance;
    hide Distinct;
    hide DistinctEdges;
    if p.key.kind.SelectionProof? && p.key.to.ProofOf? && p.key.to.id < |proofs| {
      var proof := proofs[p.key.to.id];
      SourceJoinAlike(coordinates, p, p', proof, a, b);
      if proof.kind.AssociatedItem? {
        CodegenMoved(coordinates, p, p', proof.kind, a, b, before, after);
        if p.key.kind.relation != DirectCall { OnlyCallsLost(coordinates, p); }
      }
    }
  }

  lemma {:induction false} OnlyCallsLost(coordinates: SourceRewrite, p: DependencyEdge)
    requires TiledRewrite(coordinates)
    requires p.key.kind.SelectionProof? && p.key.kind.relation != DirectCall
    ensures forall m :: !Uncovers(coordinates, p, m)
  {
  }

  /* ---------- expansions and materialisations ---------- */

  lemma {:induction false} ChainAlike(a: seq<ExpansionNode>, b: seq<ExpansionNode>,
                                      relation: ExpansionNode -> Option<nat>, id: nat, steps: nat)
    requires |a| == |b| && forall i :: 0 <= i < |a| ==> relation(a[i]) == relation(b[i])
    ensures After(a, relation, id, steps) == After(b, relation, id, steps)
    decreases steps
  {
    if steps > 0 {
      ChainAlike(a, b, relation, id, steps - 1);
    }
  }

  lemma {:induction false} RelationAlike(a: seq<ExpansionNode>, b: seq<ExpansionNode>,
                                         relation: ExpansionNode -> Option<nat>)
    requires |a| == |b| && forall i :: 0 <= i < |a| ==> a[i].id == b[i].id && relation(a[i]) == relation(b[i])
    ensures RelationAcyclic(a, relation) <==> RelationAcyclic(b, relation)
  {
    hide After;
    forall id: nat, steps: nat
      ensures After(a, relation, id, steps) == After(b, relation, id, steps)
    {
      ChainAlike(a, b, relation, id, steps);
    }
  }

  lemma {:induction false} ExpansionEdgesAlike(nodes: seq<ExpansionNode>, i: nat, a: DG.DefinitionGraph,
                                               b: DG.DefinitionGraph, before: seq<DependencyEdge>,
                                               after: seq<DependencyEdge>, coordinates: SourceRewrite)
    requires TiledRewrite(coordinates) && DefinitionsAlike(a, b) && AllExpansionsMap(nodes, coordinates)
    requires SameKeys(before, after)
    requires i < |nodes|
    ensures ExpansionEdgesValid(nodes[i], a, nodes, before)
      <==> ExpansionEdgesValid(MappedExpansions(nodes, coordinates)[i], b, MappedExpansions(nodes, coordinates), after)
  {
    var node, moved := nodes[i], MappedExpansions(nodes, coordinates)[i];
    ExtensionKept(nodes, coordinates, i);
    LeafAlike(node, a, b, coordinates);
    hide TiledRewrite;
    hide ExpansionKeyMaps;
    hide MappedExpansionKey;
    hide ExtendsParent;
    hide LeafDescribes;
    hide ExactTarget;
    hide ExactUse;
    hide SameKeys;
    var self := ExpansionOf(node.id);
    ExactTargetAlike(before, after, self, ExpansionDiscoveredIn, OptionalExpansion(node.discoveredIn));
    ExactTargetAlike(before, after, self, ExpansionSemanticParent, OptionalExpansion(node.semanticParent));
    ExactTargetAlike(before, after, self, ExpansionSourceCallParent, OptionalExpansion(node.sourceCallParent));
    ExactTargetAlike(before, after, self, MacroDefinitionOf,
                     if node.macroDefinition.Some? then Some(TargetNode(node.macroDefinition.value)) else None);
    ExactUseAlike(before, after, self, node.sourceOwner);
  }

  lemma {:induction false} LeafAlike(node: ExpansionNode, a: DG.DefinitionGraph, b: DG.DefinitionGraph,
                                     coordinates: SourceRewrite)
    requires DefinitionsAlike(a, b) && ExpansionKeyMaps(node.key, coordinates)
    ensures LeafDescribes(node, a) <==> LeafDescribes(MappedExpansion(node, coordinates), b)
  {
    hide MapOptional;
    if node.macroDefinition.Some? {
      ReferencesAlike(a, b, node.macroDefinition.value);
    }
    if node.key != [] {
      var k := |node.key| - 1;
      assert MapExpansionPart(node.key[k], coordinates) == Ok(MappedExpansionKey(node.key, coordinates)[k]);
    }
  }

  lemma {:induction false} JoinedAlike(g: DependencyGraph, g': DependencyGraph, coordinates: SourceRewrite)
    requires TiledRewrite(coordinates) && DefinitionsAlike(g.definitions, g'.definitions) && SameKeys(g.edges, g'.edges)
    requires AllExpansionsMap(g.expansions, coordinates) && g'.expansions == MappedExpansions(g.expansions, coordinates)
    ensures ExpansionsJoined(g) <==> ExpansionsJoined(g')
  {
    hide TiledRewrite;
    hide ExpansionKeyMaps;
    hide MappedExpansionKey;
    hide ExpansionEdgesValid;
    hide GeneratedOnce;
    hide RelationAcyclic;
    hide SameKeys;
    var a, b := g.expansions, g'.expansions;
    forall i | 0 <= i < |a|
      ensures ExpansionEdgesValid(a[i], g.definitions, a, g.edges)
        <==> ExpansionEdgesValid(b[i], g'.definitions, b, g'.edges)
    {
      ExpansionEdgesAlike(a, i, g.definitions, g'.definitions, g.edges, g'.edges, coordinates);
    }
    EachAlike(a, b, (n: ExpansionNode) => ExpansionEdgesValid(n, g.definitions, a, g.edges),
              (n: ExpansionNode) => ExpansionEdgesValid(n, g'.definitions, b, g'.edges));
    RelationAlike(a, b, DiscoveredIn);
    RelationAlike(a, b, SemanticParent);
    RelationAlike(a, b, SourceCallParent);
    var ds, es := g.definitions.definitions, g'.definitions.definitions;
    forall i | 0 <= i < |ds|
      ensures GeneratedOnce(ds[i], g.edges) <==> GeneratedOnce(es[i], g'.edges)
    {
      GeneratedAlike(g.edges, g'.edges, ds[i], es[i]);
    }
    EachAlike(ds, es, (d: DG.Definition) => GeneratedOnce(d, g.edges),
              (d: DG.Definition) => GeneratedOnce(d, g'.edges));
  }

  lemma {:induction false} MaterializationsAlike(g: DependencyGraph, g': DependencyGraph, coordinates: SourceRewrite)
    requires SameKeys(g.edges, g'.edges)
    requires AllMonosMap(g.monoNodes, coordinates) && g'.monoNodes == MappedMonos(g.monoNodes, coordinates)
    ensures MaterializationsValid(g) <==> MaterializationsValid(g')
  {
    hide MonoMaps;
    hide MappedPath;
    hide MaterializationValid;
    hide SameKeys;
    var a, b := g.monoNodes, g'.monoNodes;
    forall i | 0 <= i < |a|
      ensures MaterializationValid(a[i], g.edges) <==> MaterializationValid(b[i], g'.edges)
    {
      MaterializationAlike(a[i], b[i], g.edges, g'.edges);
    }
    EachAlike(a, b, (n: MonoNode) => MaterializationValid(n, g.edges),
              (n: MonoNode) => MaterializationValid(n, g'.edges));
  }

  lemma {:induction false} MaterializationAlike(n: MonoNode, m: MonoNode, before: seq<DependencyEdge>,
                                                after: seq<DependencyEdge>)
    requires SameKeys(before, after) && m.id == n.id && m.materializedDefinition == n.materializedDefinition
    ensures MaterializationValid(n, before) <==> MaterializationValid(m, after)
  {
    ExactTargetAlike(before, after, MonoOf(n.id), MaterializesDefinition,
      if n.materializedDefinition.Some? then Some(TargetNode(n.materializedDefinition.value)) else None);
  }
}
