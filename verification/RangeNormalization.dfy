/** The in-place normalisers of expansions, monomorphic nodes and observations (src/input.rs, lines 1899-1951). */
module RangeNormalization {
  import opened Wrappers
  import opened Text
  import opened Rewrite
  import opened Coordinates
  import opened GraphKeys
  import opened DependencyTypes
  import opened AllocationPaths
  import GraphShapes

  /* ---------- expansions ---------- */

  function MapOptional(range: Option<ByteRange>, coordinates: SourceRewrite): Result<Option<ByteRange>, RewriteError> {
    match range
    case None => Ok(None)
    case Some(r) => match coordinates.OriginalRange(r) case Ok(mapped) => Ok(Some(mapped)) case Err(e) => Err(e)
  }

  /** The four ranges of a part, moved in the order they are listed. */
  function MapExpansionPart(part: ExpansionKeyPart,
                            coordinates: SourceRewrite): Result<ExpansionKeyPart, RewriteError> {
    var invocation := MapOptional(part.invocationRange, coordinates);
    var node := MapOptional(part.nodeRange, coordinates);
    var target := MapOptional(part.targetRange, coordinates);
    var rule := MapOptional(part.selectedMacroRule, coordinates);
    if invocation.Err? then Err(invocation.error)
    else if node.Err? then Err(node.error)
    else if target.Err? then Err(target.error)
    else if rule.Err? then Err(rule.error)
    else Ok(part.(invocationRange := invocation.value, nodeRange := node.value, targetRange := target.value,
                  selectedMacroRule := rule.value))
  }

  predicate ExpansionKeyMaps(key: ExpansionKey, coordinates: SourceRewrite) {
    forall i :: 0 <= i < |key| ==> MapExpansionPart(key[i], coordinates).Ok?
  }

  function MappedExpansionKey(key: ExpansionKey, coordinates: SourceRewrite): (r: ExpansionKey)
    requires ExpansionKeyMaps(key, coordinates)
    ensures |r| == |key| && forall i :: 0 <= i < |key| ==> MapExpansionPart(key[i], coordinates) == Ok(r[i])
  {
    seq(|key|, i requires 0 <= i < |key| => MapExpansionPart(key[i], coordinates).value)
  }

  function MappedExpansion(node: ExpansionNode, coordinates: SourceRewrite): ExpansionNode
    requires ExpansionKeyMaps(node.key, coordinates)
  {
    node.(key := MappedExpansionKey(node.key, coordinates))
  }

  method NormalizeExpansionKey(key: ExpansionKey, coordinates: SourceRewrite)
    returns (r: Result<ExpansionKey, RewriteError>)
    ensures r.Ok? <==> ExpansionKeyMaps(key, coordinates)
    ensures r.Ok? ==> r.value == MappedExpansionKey(key, coordinates)
  {
    var parts := key;
    for i := 0 to |parts|
      invariant |parts| == |key|
      invariant forall k :: 0 <= k < i ==> MapExpansionPart(key[k], coordinates) == Ok(parts[k])
      invariant forall k :: i <= k < |key| ==> parts[k] == key[k]
    {
      var mapped := MapExpansionPart(parts[i], coordinates);
      if mapped.Err? {
        return Err(mapped.error);
      }
      parts := parts[i := mapped.value];
    }
    r := Ok(parts);
  }

  /** `normalize_expansion_ranges`: all keys are moved, or the first unmappable range is reported. */
  method NormalizeExpansionRanges(expansions: array<ExpansionNode>, coordinates: SourceRewrite)
    returns (r: Result<(), RewriteError>)
    modifies expansions
    ensures r.Ok? <==> forall i :: 0 <= i < expansions.Length ==> ExpansionKeyMaps(old(expansions[i]).key, coordinates)
    ensures r.Ok? ==> forall i :: 0 <= i < expansions.Length ==>
      ExpansionKeyMaps(old(expansions[i]).key, coordinates)
      && expansions[i] == MappedExpansion(old(expansions[i]), coordinates)
  {
    for i := 0 to expansions.Length
      invariant forall k :: 0 <= k < i ==>
        ExpansionKeyMaps(old(expansions[k]).key, coordinates)
        && expansions[k] == MappedExpansion(old(expansions[k]), coordinates)
      invariant forall k :: i <= k < expansions.Length ==> expansions[k] == old(expansions[k])
    {
      var key := NormalizeExpansionKey(expansions[i].key, coordinates);
      if key.Err? {
        return Err(key.error);
      }
      expansions[i] := expansions[i].(key := key.value);
    }
    r := Ok(());
  }

  lemma {:induction false} OptionalInjective(a: Option<ByteRange>, b: Option<ByteRange>, coordinates: SourceRewrite)
    requires TiledRewrite(coordinates)
    requires MapOptional(a, coordinates).Ok? && MapOptional(a, coordinates) == MapOptional(b, coordinates)
    ensures a == b
  {
    hide SourceRewrite.OriginalRange;
    hide TiledRewrite;
    if a.Some? && b.Some? {
      OriginalRangeInjective(coordinates, a.value, b.value);
    }
  }

  lemma {:induction false} ExpansionPartInjective(a: ExpansionKeyPart, b: ExpansionKeyPart,
                                                  coordinates: SourceRewrite)
    requires TiledRewrite(coordinates)
    requires MapExpansionPart(a, coordinates).Ok?
    requires MapExpansionPart(a, coordinates) == MapExpansionPart(b, coordinates)
    ensures a == b
  {
    hide MapOptional;
    hide TiledRewrite;
    OptionalInjective(a.invocationRange, b.invocationRange, coordinates);
    OptionalInjective(a.nodeRange, b.nodeRange, coordinates);
    OptionalInjective(a.targetRange, b.targetRange, coordinates);
    OptionalInjective(a.selectedMacroRule, b.selectedMacroRule, coordinates);
  }

  /** Different expansion keys stay different. */
  lemma {:induction false} ExpansionKeysStayDistinct(a: ExpansionKey, b: ExpansionKey, coordinates: SourceRewrite)
    requires TiledRewrite(coordinates) && ExpansionKeyMaps(a, coordinates) && ExpansionKeyMaps(b, coordinates)
    requires MappedExpansionKey(a, coordinates) == MappedExpansionKey(b, coordinates)
    ensures a == b
  {
    hide MapExpansionPart;
    hide TiledRewrite;
    assert |a| == |MappedExpansionKey(a, coordinates)| == |b|;
    forall i | 0 <= i < |a|
      ensures a[i] == b[i]
    {
      assert MapExpansionPart(a[i], coordinates) == Ok(MappedExpansionKey(a, coordinates)[i]);
      assert MapExpansionPart(b[i], coordinates) == Ok(MappedExpansionKey(b, coordinates)[i]);
      ExpansionPartInjective(a[i], b[i], coordinates);
    }
  }

  function MappedExpansions(nodes: seq<ExpansionNode>, coordinates: SourceRewrite): (r: seq<ExpansionNode>)
    requires forall i :: 0 <= i < |nodes| ==> ExpansionKeyMaps(nodes[i].key, coordinates)
    ensures |r| == |nodes| && forall i :: 0 <= i < |nodes| ==> r[i] == MappedExpansion(nodes[i], coordinates)
  {
    seq(|nodes|, i requires 0 <= i < |nodes| => MappedExpansion(nodes[i], coordinates))
  }

  /** A child key extends its parent's by one part before normalisation exactly when it does after. */
  lemma {:induction false} ExtensionKept(nodes: seq<ExpansionNode>, coordinates: SourceRewrite, i: nat)
    requires TiledRewrite(coordinates) && i < |nodes|
    requires forall j :: 0 <= j < |nodes| ==> ExpansionKeyMaps(nodes[j].key, coordinates)
    ensures GraphShapes.ExtendsParent(MappedExpansions(nodes, coordinates)[i], MappedExpansions(nodes, coordinates))
      <==> GraphShapes.ExtendsParent(nodes[i], nodes)
  {
    hide MapExpansionPart;
    hide TiledRewrite;
    var mapped := MappedExpansions(nodes, coordinates);
    var parent := GraphShapes.IdentityParent(nodes[i]);
    if parent.Some? && parent.value < |nodes| && |nodes[i].key| == |nodes[parent.value].key| + 1 {
      var prefix := nodes[i].key[..|nodes[i].key| - 1];
      assert forall k :: 0 <= k < |prefix| ==> prefix[k] == nodes[i].key[k];
      assert MappedExpansionKey(nodes[i].key, coordinates)[..|prefix|] == MappedExpansionKey(prefix, coordinates);
      if MappedExpansionKey(prefix, coordinates) == mapped[parent.value].key {
        ExpansionKeysStayDistinct(prefix, nodes[parent.value].key, coordinates);
      }
    }
  }

  /* ---------- monomorphic nodes and observations ---------- */

  function MapPathSite(site: AllocationPathSite, coordinates: SourceRewrite): Result<AllocationPathSite, RewriteError> {
    match site
    case AtSource(range) =>
      (match coordinates.OriginalRange(range) case Ok(mapped) => Ok(AtSource(mapped)) case Err(e) => Err(e))
    case _ => Ok(site)
  }

  function MapPathPart(part: AllocationPathPart, coordinates: SourceRewrite): Result<AllocationPathPart, RewriteError> {
    match MapPathSite(part.site, coordinates)
    case Ok(site) => Ok(part.(site := site))
    case Err(e) => Err(e)
  }

  predicate PathMaps(path: seq<AllocationPathPart>, coordinates: SourceRewrite) {
    forall i :: 0 <= i < |path| ==> MapPathPart(path[i], coordinates).Ok?
  }

  function MappedPath(path: seq<AllocationPathPart>, coordinates: SourceRewrite): (r: seq<AllocationPathPart>)
    requires PathMaps(path, coordinates)
    ensures |r| == |path| && forall i :: 0 <= i < |path| ==> MapPathPart(path[i], coordinates) == Ok(r[i])
  {
    seq(|path|, i requires 0 <= i < |path| => MapPathPart(path[i], coordinates).value)
  }

  predicate MonoMaps(node: MonoNode, coordinates: SourceRewrite) {
    node.key.Allocation? ==> PathMaps(node.key.allocation.path, coordinates)
  }

  function MappedMono(node: MonoNode, coordinates: SourceRewrite): MonoNode
    requires MonoMaps(node, coordinates)
  {
    if node.key.Allocation? then
      var path := MappedPath(node.key.allocation.path, coordinates);
      node.(key := Allocation(AllocationKey(node.key.allocation.root, path)))
    else node
  }

  method NormalizePath(path: seq<AllocationPathPart>, coordinates: SourceRewrite)
    returns (r: Result<seq<AllocationPathPart>, RewriteError>)
    ensures r.Ok? <==> PathMaps(path, coordinates)
    ensures r.Ok? ==> r.value == MappedPath(path, coordinates)
  {
    var parts := path;
    for i := 0 to |parts|
      invariant |parts| == |path|
      invariant forall k :: 0 <= k < i ==> MapPathPart(path[k], coordinates) == Ok(parts[k])
      invariant forall k :: i <= k < |path| ==> parts[k] == path[k]
    {
      var mapped := MapPathPart(parts[i], coordinates);
      if mapped.Err? {
        return Err(mapped.error);
      }
      parts := parts[i := mapped.value];
    }
    r := Ok(parts);
  }

  /** `normalize_mono_ranges`. */
  method NormalizeMonoRanges(nodes: array<MonoNode>, coordinates: SourceRewrite) returns (r: Result<(), RewriteError>)
    modifies nodes
    ensures r.Ok? <==> forall i :: 0 <= i < nodes.Length ==> MonoMaps(old(nodes[i]), coordinates)
    ensures r.Ok? ==> forall i :: 0 <= i < nodes.Length ==>
      MonoMaps(old(nodes[i]), coordinates) && nodes[i] == MappedMono(old(nodes[i]), coordinates)
  {
    for i := 0 to nodes.Length
      invariant forall k :: 0 <= k < i ==>
        MonoMaps(old(nodes[k]), coordinates) && nodes[k] == MappedMono(old(nodes[k]), coordinates)
      invariant forall k :: i <= k < nodes.Length ==> nodes[k] == old(nodes[k])
    {
      if nodes[i].key.Allocation? {
        var path := NormalizePath(nodes[i].key.allocation.path, coordinates);
        if path.Err? {
          return Err(path.error);
        }
        nodes[i] := nodes[i].(key := Allocation(AllocationKey(nodes[i].key.allocation.root, path.value)));
      }
    }
    r := Ok(());
  }

  function MapObservation(site: ObservationSite, coordinates: SourceRewrite): Result<ObservationSite, RewriteError> {
    match site
    case Source(range) =>
      (match coordinates.OriginalRange(range) case Ok(mapped) => Ok(Source(mapped)) case Err(e) => Err(e))
    case _ => Ok(site)
  }

  predicate ObservationsMap(sites: seq<ObservationSite>, coordinates: SourceRewrite) {
    forall i :: 0 <= i < |sites| ==> MapObservation(sites[i], coordinates).Ok?
  }

  function MappedObservations(sites: seq<ObservationSite>, coordinates: SourceRewrite): (r: seq<ObservationSite>)
    requires ObservationsMap(sites, coordinates)
    ensures |r| == |sites| && forall i :: 0 <= i < |sites| ==> MapObservation(sites[i], coordinates) == Ok(r[i])
  {
    seq(|sites|, i requires 0 <= i < |sites| => MapObservation(sites[i], coordinates).value)
  }

  function MappedEdge(edge: DependencyEdge, coordinates: SourceRewrite): DependencyEdge
    requires ObservationsMap(edge.sites, coordinates)
  {
    edge.(sites := MappedObservations(edge.sites, coordinates))
  }

  method NormalizeObservations(sites: seq<ObservationSite>, coordinates: SourceRewrite)
    returns (r: Result<seq<ObservationSite>, RewriteError>)
    ensures r.Ok? <==> ObservationsMap(sites, coordinates)
    ensures r.Ok? ==> r.value == MappedObservations(sites, coordinates)
  {
    var moved := sites;
    for i := 0 to |moved|
      invariant |moved| == |sites|
      invariant forall k :: 0 <= k < i ==> MapObservation(sites[k], coordinates) == Ok(moved[k])
      invariant forall k :: i <= k < |sites| ==> moved[k] == sites[k]
    {
      var mapped := MapObservation(moved[i], coordinates);
      if mapped.Err? {
        return Err(mapped.error);
      }
      moved := moved[i := mapped.value];
    }
    r := Ok(moved);
  }

  /** `normalize_observation_ranges`. */
  method NormalizeObservationRanges(edges: array<DependencyEdge>, coordinates: SourceRewrite)
    returns (r: Result<(), RewriteError>)
    modifies edges
    ensures r.Ok? <==> forall i :: 0 <= i < edges.Length ==> ObservationsMap(old(edges[i]).sites, coordinates)
    ensures r.Ok? ==> forall i :: 0 <= i < edges.Length ==>
      ObservationsMap(old(edges[i]).sites, coordinates) && edges[i] == MappedEdge(old(edges[i]), coordinates)
  {
    for i := 0 to edges.Length
      invariant forall k :: 0 <= k < i ==>
        ObservationsMap(old(edges[k]).sites, coordinates) && edges[k] == MappedEdge(old(edges[k]), coordinates)
      invariant forall k :: i <= k < edges.Length ==> edges[k] == old(edges[k])
    {
      var sites := NormalizeObservations(edges[i].sites, coordinates);
      if sites.Err? {
        return Err(sites.error);
      }
      edges[i] := edges[i].(sites := sites.value);
    }
    r := Ok(());
  }

  /* ---------- allocations stay placed ---------- */

  predicate AllMonosMap(nodes: seq<MonoNode>, coordinates: SourceRewrite) {
    forall i :: 0 <= i < |nodes| ==> MonoMaps(nodes[i], coordinates)
  }

  predicate AllEdgesMap(edges: seq<DependencyEdge>, coordinates: SourceRewrite) {
    forall i :: 0 <= i < |edges| ==> ObservationsMap(edges[i].sites, coordinates)
  }

  function MappedMonos(nodes: seq<MonoNode>, coordinates: SourceRewrite): (r: seq<MonoNode>)
    requires AllMonosMap(nodes, coordinates)
    ensures |r| == |nodes| && forall i :: 0 <= i < |nodes| ==> r[i] == MappedMono(nodes[i], coordinates)
  {
    seq(|nodes|, i requires 0 <= i < |nodes| => MappedMono(nodes[i], coordinates))
  }

  function MappedEdges(edges: seq<DependencyEdge>, coordinates: SourceRewrite): (r: seq<DependencyEdge>)
    requires AllEdgesMap(edges, coordinates)
    ensures |r| == |edges| && forall i :: 0 <= i < |edges| ==> r[i] == MappedEdge(edges[i], coordinates)
  {
    seq(|edges|, i requires 0 <= i < |edges| => MappedEdge(edges[i], coordinates))
  }

  lemma {:induction false} PathSiteInjective(a: AllocationPathSite, b: AllocationPathSite, coordinates: SourceRewrite)
    requires TiledRewrite(coordinates) && MapPathSite(a, coordinates).Ok? && MapPathSite(b, coordinates).Ok?
    ensures MapPathSite(a, coordinates) == MapPathSite(b, coordinates) <==> a == b
  {
    hide SourceRewrite.OriginalRange;
    hide TiledRewrite;
    if a.AtSource? && b.AtSource? && MapPathSite(a, coordinates) == MapPathSite(b, coordinates) {
      OriginalRangeInjective(coordinates, a.range, b.range);
    }
  }

  lemma {:induction false} PathInjective(a: seq<AllocationPathPart>, b: seq<AllocationPathPart>,
                                         coordinates: SourceRewrite)
    requires TiledRewrite(coordinates) && PathMaps(a, coordinates) && PathMaps(b, coordinates)
    ensures MappedPath(a, coordinates) == MappedPath(b, coordinates) <==> a == b
  {
    hide MapPathSite;
    hide TiledRewrite;
    if MappedPath(a, coordinates) == MappedPath(b, coordinates) {
      assert |a| == |MappedPath(a, coordinates)| == |b|;
      forall i | 0 <= i < |a|
        ensures a[i] == b[i]
      {
        assert MapPathPart(a[i], coordinates) == Ok(MappedPath(a, coordinates)[i]);
        assert MapPathPart(b[i], coordinates) == Ok(MappedPath(b, coordinates)[i]);
        PathSiteInjective(a[i].site, b[i].site, coordinates);
      }
    }
  }

  lemma {:induction false} PathPrefix(path: seq<AllocationPathPart>, k: nat, coordinates: SourceRewrite)
    requires PathMaps(path, coordinates) && k <= |path|
    ensures PathMaps(path[..k], coordinates) && MappedPath(path, coordinates)[..k] == MappedPath(path[..k], coordinates)
  {
    hide MapPathPart;
    assert forall i :: 0 <= i < k ==> path[..k][i] == path[i];
  }

  lemma {:induction false} MappedAllocation(nodes: seq<MonoNode>, coordinates: SourceRewrite, i: nat)
    requires AllMonosMap(nodes, coordinates)
    ensures IsAllocation(MappedMonos(nodes, coordinates), i) <==> IsAllocation(nodes, i)
    ensures IsAllocation(nodes, i) ==>
      && PathMaps(PathOf(nodes, i), coordinates)
      && PathOf(MappedMonos(nodes, coordinates), i) == MappedPath(PathOf(nodes, i), coordinates)
      && MappedMonos(nodes, coordinates)[i].key.allocation.root == nodes[i].key.allocation.root
  {
    hide PathMaps;
    hide MappedPath;
    if i < |nodes| {
      assert MonoMaps(nodes[i], coordinates);
    }
  }

  lemma {:induction false} PrecedesAlike(nodes: seq<MonoNode>, coordinates: SourceRewrite, p: nat, i: nat)
    requires TiledRewrite(coordinates) && AllMonosMap(nodes, coordinates)
    requires IsAllocation(nodes, i) && PathOf(nodes, i) != []
    ensures IsAllocation(MappedMonos(nodes, coordinates), i) && PathOf(MappedMonos(nodes, coordinates), i) != []
    ensures CanPrecede(MappedMonos(nodes, coordinates), p, i) <==> CanPrecede(nodes, p, i)
  {
    hide TiledRewrite;
    hide AllMonosMap;
    hide PathMaps;
    hide KeyMatchesRoot;
    MappedAllocation(nodes, coordinates, i);
    MappedAllocation(nodes, coordinates, p);
    var path := PathOf(nodes, i);
    PathPrefix(path, |path| - 1, coordinates);
    if IsAllocation(nodes, p) {
      PathInjective(PathOf(nodes, p), path[..|path| - 1], coordinates);
    }
  }

  lemma {:induction false} SiteMatchesAlike(expected: AllocationPathSite, actual: ObservationSite,
                                            coordinates: SourceRewrite)
    requires TiledRewrite(coordinates) && MapPathSite(expected, coordinates).Ok?
    requires MapObservation(actual, coordinates).Ok?
    ensures SiteMatches(MapPathSite(expected, coordinates).value, MapObservation(actual, coordinates).value)
      <==> SiteMatches(expected, actual)
  {
    hide SourceRewrite.OriginalRange;
    hide TiledRewrite;
    if expected.AtSource? && actual.Source?
       && coordinates.OriginalRange(expected.range) == coordinates.OriginalRange(actual.range) {
      OriginalRangeInjective(coordinates, expected.range, actual.range);
    }
  }

  lemma {:induction false} PathSiteAlike(relation: MonoDependencyKind, site: ObservationSite,
                                         coordinates: SourceRewrite)
    requires MapObservation(site, coordinates).Ok?
    ensures PathSite(relation, site).None? <==> PathSite(relation, MapObservation(site, coordinates).value).None?
    ensures PathSite(relation, site).Some? ==>
      && MapPathSite(PathSite(relation, site).value, coordinates).Ok?
      && PathSite(relation, MapObservation(site, coordinates).value)
        == Some(MapPathSite(PathSite(relation, site).value, coordinates).value)
  {
    hide SourceRewrite.OriginalRange;
  }

  lemma {:induction false} LastMaps(nodes: seq<MonoNode>, coordinates: SourceRewrite, i: nat)
    requires AllMonosMap(nodes, coordinates) && IsAllocation(nodes, i) && PathOf(nodes, i) != []
    ensures IsAllocation(MappedMonos(nodes, coordinates), i) && PathOf(MappedMonos(nodes, coordinates), i) != []
    ensures MapPathSite(LastPart(nodes, i).site, coordinates).Ok?
    ensures LastPart(MappedMonos(nodes, coordinates), i) ==
      LastPart(nodes, i).(site := MapPathSite(LastPart(nodes, i).site, coordinates).value)
  {
    hide MapPathSite;
    hide AllMonosMap;
    MappedAllocation(nodes, coordinates, i);
    var path := PathOf(nodes, i);
    assert MapPathPart(path[|path| - 1], coordinates) == Ok(MappedPath(path, coordinates)[|path| - 1]);
  }

  lemma {:induction false} PlacingAlike(nodes: seq<MonoNode>, edges: seq<DependencyEdge>, coordinates: SourceRewrite,
                                        p: nat, i: nat, e: nat)
    requires TiledRewrite(coordinates) && AllMonosMap(nodes, coordinates) && AllEdgesMap(edges, coordinates)
    requires IsAllocation(nodes, i) && PathOf(nodes, i) != [] && p < |nodes|
    ensures IsAllocation(MappedMonos(nodes, coordinates), i) && PathOf(MappedMonos(nodes, coordinates), i) != []
    ensures PlacingEdge(MappedMonos(nodes, coordinates), MappedEdges(edges, coordinates), p, i, e)
      <==> PlacingEdge(nodes, edges, p, i, e)
  {
    LastMaps(nodes, coordinates, i);
    hide MapPathSite;
    hide MapObservation;
    hide SiteMatches;
    hide TiledRewrite;
    hide AllMonosMap;
    hide LastPart;
    if e < |edges| {
      var sites, moved := edges[e].sites, MappedObservations(edges[e].sites, coordinates);
      var last := LastPart(nodes, i).site;
      forall k | 0 <= k < |sites|
        ensures SiteMatches(MapPathSite(last, coordinates).value, moved[k]) <==> SiteMatches(last, sites[k])
      {
        assert MapObservation(sites[k], coordinates) == Ok(moved[k]);
        SiteMatchesAlike(last, sites[k], coordinates);
      }
      SomeAlike(sites, moved, last, MapPathSite(last, coordinates).value);
      assert MappedEdges(edges, coordinates)[e] == MappedEdge(edges[e], coordinates);
      assert MappedMonos(nodes, coordinates)[p].id == nodes[p].id;
      assert MappedMonos(nodes, coordinates)[i].id == nodes[i].id;
    }
  }

  lemma {:induction false} SomeAlike(sites: seq<ObservationSite>, moved: seq<ObservationSite>,
                                     last: AllocationPathSite, last': AllocationPathSite)
    requires |moved| == |sites|
    requires forall k :: 0 <= k < |sites| ==> (SiteMatches(last', moved[k]) <==> SiteMatches(last, sites[k]))
    ensures (exists s :: s in moved && SiteMatches(last', s)) <==> (exists s :: s in sites && SiteMatches(last, s))
  {
    hide SiteMatches;
    if s :| s in moved && SiteMatches(last', s) {
      var k :| 0 <= k < |moved| && moved[k] == s;
      assert sites[k] in sites;
    }
    if s :| s in sites && SiteMatches(last, s) {
      var k :| 0 <= k < |sites| && sites[k] == s;
      assert moved[k] in moved;
    }
  }

  lemma {:induction false} PlacedAlike(nodes: seq<MonoNode>, edges: seq<DependencyEdge>, coordinates: SourceRewrite,
                                       i: nat)
    requires TiledRewrite(coordinates) && AllMonosMap(nodes, coordinates) && AllEdgesMap(edges, coordinates)
    requires IsAllocation(nodes, i)
    ensures IsAllocation(MappedMonos(nodes, coordinates), i)
    ensures Placed(MappedMonos(nodes, coordinates), MappedEdges(edges, coordinates), i) <==> Placed(nodes, edges, i)
  {
    MappedAllocation(nodes, coordinates, i);
    hide TiledRewrite;
    hide AllMonosMap;
    hide AllEdgesMap;
    hide CanPrecede;
    hide PlacingEdge;
    hide MappedPath;
    var n', e' := MappedMonos(nodes, coordinates), MappedEdges(edges, coordinates);
    if PathOf(nodes, i) != [] {
      forall p: nat
        ensures CanPrecede(n', p, i) <==> CanPrecede(nodes, p, i)
      {
        PrecedesAlike(nodes, coordinates, p, i);
      }
      forall p: nat | p < |nodes|
        ensures OnlyPlacingEdge(n', e', p, i) <==> OnlyPlacingEdge(nodes, edges, p, i)
      {
        forall e: nat
          ensures PlacingEdge(n', e', p, i, e) <==> PlacingEdge(nodes, edges, p, i, e)
        {
          PlacingAlike(nodes, edges, coordinates, p, i, e);
        }
        OnlyPlacingAlike(n', e', nodes, edges, p, i);
      }
      forall p: nat
        ensures OnlyParent(n', p, i) <==> OnlyParent(nodes, p, i)
        ensures OnlyParent(nodes, p, i) ==> p < |nodes|
      {
        if CanPrecede(nodes, p, i) { BelowLength(nodes, p, i); }
      }
    }
  }

  lemma {:induction false} OnlyPlacingAlike(n': seq<MonoNode>, e': seq<DependencyEdge>, nodes: seq<MonoNode>,
                                            edges: seq<DependencyEdge>, p: nat, i: nat)
    requires IsAllocation(nodes, i) && PathOf(nodes, i) != [] && p < |nodes|
    requires IsAllocation(n', i) && PathOf(n', i) != [] && p < |n'|
    requires forall e: nat :: PlacingEdge(n', e', p, i, e) <==> PlacingEdge(nodes, edges, p, i, e)
    ensures OnlyPlacingEdge(n', e', p, i) <==> OnlyPlacingEdge(nodes, edges, p, i)
  {
    hide PlacingEdge;
  }

  lemma {:induction false} IncomingAlike(nodes: seq<MonoNode>, edge: DependencyEdge, coordinates: SourceRewrite)
    requires AllMonosMap(nodes, coordinates) && ObservationsMap(edge.sites, coordinates)
    ensures IncomingValid(MappedMonos(nodes, coordinates), MappedEdge(edge, coordinates))
      <==> IncomingValid(nodes, edge)
  {
    hide AllMonosMap;
    hide MapObservation;
    hide PathSite;
    hide MappedMono;
    if edge.key.to.MonoOf? {
      MappedAllocation(nodes, coordinates, edge.key.to.id);
    }
    if edge.key.kind.Mono? {
      var relation, sites, moved := edge.key.kind.relation, edge.sites, MappedObservations(edge.sites, coordinates);
      forall k | 0 <= k < |sites|
        ensures PathSite(relation, moved[k]).Some? <==> PathSite(relation, sites[k]).Some?
      {
        assert MapObservation(sites[k], coordinates) == Ok(moved[k]);
        PathSiteAlike(relation, sites[k], coordinates);
      }
      AllAlike(sites, moved, relation);
    }
  }

  lemma {:induction false} AllAlike(sites: seq<ObservationSite>, moved: seq<ObservationSite>,
                                    relation: MonoDependencyKind)
    requires |moved| == |sites|
    requires forall k :: 0 <= k < |sites| ==>
      (PathSite(relation, moved[k]).Some? <==> PathSite(relation, sites[k]).Some?)
    ensures (forall s :: s in moved ==> PathSite(relation, s).Some?)
      <==> (forall s :: s in sites ==> PathSite(relation, s).Some?)
  {
    hide PathSite;
    if forall s :: s in moved ==> PathSite(relation, s).Some? {
      forall s | s in sites
        ensures PathSite(relation, s).Some?
      {
        var k :| 0 <= k < |sites| && sites[k] == s;
        assert moved[k] in moved;
      }
    }
    if forall s :: s in sites ==> PathSite(relation, s).Some? {
      forall s | s in moved
        ensures PathSite(relation, s).Some?
      {
        var k :| 0 <= k < |moved| && moved[k] == s;
        assert sites[k] in sites;
      }
    }
  }

  function MappedRole(role: Role, coordinates: SourceRewrite): Role
    requires MapPathSite(role.site, coordinates).Ok?
  {
    role.(site := MapPathSite(role.site, coordinates).value)
  }

  /** The roles an allocation holds after normalisation are the images of those before. */
  lemma {:induction false} RoleAlike(nodes: seq<MonoNode>, coordinates: SourceRewrite, i: nat, role: Role)
    requires TiledRewrite(coordinates) && AllMonosMap(nodes, coordinates) && MapPathSite(role.site, coordinates).Ok?
    ensures HasRole(MappedMonos(nodes, coordinates), i, MappedRole(role, coordinates)) <==> HasRole(nodes, i, role)
  {
    MappedAllocation(nodes, coordinates, i);
    hide TiledRewrite;
    hide AllMonosMap;
    hide CanPrecede;
    hide MapPathSite;
    hide MappedPath;
    hide LastPart;
    var n' := MappedMonos(nodes, coordinates);
    if IsAllocation(nodes, i) && PathOf(nodes, i) != [] {
      LastMaps(nodes, coordinates, i);
      PathSiteInjective(LastPart(nodes, i).site, role.site, coordinates);
      forall p: nat
        ensures OnlyParent(n', p, i) <==> OnlyParent(nodes, p, i)
      {
        OnlyParentAlike(nodes, coordinates, p, i);
      }
      forall p: nat | OnlyParent(nodes, p, i)
        ensures p < |nodes|
        ensures (RoleBelow(n', p, i) == MappedRole(role, coordinates) <==> RoleBelow(nodes, p, i) == role)
      {
        BelowLength(nodes, p, i);
        assert n'[p].id == nodes[p].id;
      }
    }
  }

  lemma {:induction false} OnlyParentAlike(nodes: seq<MonoNode>, coordinates: SourceRewrite, p: nat, i: nat)
    requires TiledRewrite(coordinates) && AllMonosMap(nodes, coordinates)
    requires IsAllocation(nodes, i) && PathOf(nodes, i) != []
    ensures IsAllocation(MappedMonos(nodes, coordinates), i) && PathOf(MappedMonos(nodes, coordinates), i) != []
    ensures OnlyParent(MappedMonos(nodes, coordinates), p, i) <==> OnlyParent(nodes, p, i)
  {
    hide TiledRewrite;
    hide AllMonosMap;
    hide CanPrecede;
    forall q: nat
      ensures IsAllocation(MappedMonos(nodes, coordinates), i) && PathOf(MappedMonos(nodes, coordinates), i) != []
      ensures CanPrecede(MappedMonos(nodes, coordinates), q, i) <==> CanPrecede(nodes, q, i)
    {
      PrecedesAlike(nodes, coordinates, q, i);
    }
  }

  lemma {:induction false} RoleComesFrom(nodes: seq<MonoNode>, coordinates: SourceRewrite, i: nat, role': Role)
    returns (role: Role)
    requires TiledRewrite(coordinates) && AllMonosMap(nodes, coordinates)
    requires HasRole(MappedMonos(nodes, coordinates), i, role')
    ensures MapPathSite(role.site, coordinates).Ok? && role' == MappedRole(role, coordinates) && HasRole(nodes, i, role)
  {
    MappedAllocation(nodes, coordinates, i);
    hide TiledRewrite;
    hide AllMonosMap;
    hide CanPrecede;
    hide MapPathSite;
    hide MappedPath;
    hide LastPart;
    var n' := MappedMonos(nodes, coordinates);
    var p: nat :| OnlyParent(n', p, i) && role' == RoleBelow(n', p, i);
    OnlyParentAlike(nodes, coordinates, p, i);
    BelowLength(nodes, p, i);
    LastMaps(nodes, coordinates, i);
    role := RoleBelow(nodes, p, i);
    assert n'[p].id == nodes[p].id;
  }

  lemma {:induction false} ObservesAlike(nodes: seq<MonoNode>, edge: DependencyEdge, coordinates: SourceRewrite,
                                         role: Role, to: nat)
    requires TiledRewrite(coordinates) && AllMonosMap(nodes, coordinates) && ObservationsMap(edge.sites, coordinates)
    requires MapPathSite(role.site, coordinates).Ok?
    ensures Observes(MappedMonos(nodes, coordinates), MappedEdge(edge, coordinates), MappedRole(role, coordinates), to)
      <==> Observes(nodes, edge, role, to)
  {
    hide TiledRewrite;
    hide AllMonosMap;
    hide MapObservation;
    hide MapPathSite;
    hide PathSite;
    hide MappedMono;
    MappedAllocation(nodes, coordinates, to);
    var sites, moved := edge.sites, MappedObservations(edge.sites, coordinates);
    var site' := MapPathSite(role.site, coordinates).value;
    forall k | 0 <= k < |sites|
      ensures PathSite(role.relation, moved[k]) == Some(site') <==> PathSite(role.relation, sites[k]) == Some(role.site)
    {
      assert MapObservation(sites[k], coordinates) == Ok(moved[k]);
      PathSiteAlike(role.relation, sites[k], coordinates);
      if PathSite(role.relation, sites[k]).Some? {
        PathSiteInjective(PathSite(role.relation, sites[k]).value, role.site, coordinates);
      }
    }
    SeenAlike(sites, moved, role.relation, role.site, site');
  }

  lemma {:induction false} SeenAlike(sites: seq<ObservationSite>, moved: seq<ObservationSite>,
                                     relation: MonoDependencyKind, site: AllocationPathSite,
                                     site': AllocationPathSite)
    requires |moved| == |sites|
    requires forall k :: 0 <= k < |sites| ==>
      (PathSite(relation, moved[k]) == Some(site') <==> PathSite(relation, sites[k]) == Some(site))
    ensures (exists s :: s in moved && PathSite(relation, s) == Some(site'))
      <==> (exists s :: s in sites && PathSite(relation, s) == Some(site))
  {
    hide PathSite;
    if s :| s in moved && PathSite(relation, s) == Some(site') {
      var k :| 0 <= k < |moved| && moved[k] == s;
      assert sites[k] in sites;
    }
    if s :| s in sites && PathSite(relation, s) == Some(site) {
      var k :| 0 <= k < |sites| && sites[k] == s;
      assert moved[k] in moved;
    }
  }

  lemma {:induction false} TargetsAlike(nodes: seq<MonoNode>, edges: seq<DependencyEdge>, coordinates: SourceRewrite,
                                        role: Role)
    requires TiledRewrite(coordinates) && AllMonosMap(nodes, coordinates) && AllEdgesMap(edges, coordinates)
    requires MapPathSite(role.site, coordinates).Ok?
    ensures TargetsOf(MappedMonos(nodes, coordinates), MappedEdges(edges, coordinates), MappedRole(role, coordinates))
      == TargetsOf(nodes, edges, role)
  {
    hide TiledRewrite;
    hide AllMonosMap;
    hide Observes;
    hide MapPathSite;
    hide ObservationsMap;
    hide MappedObservations;
    var n', e', role' :=
      MappedMonos(nodes, coordinates), MappedEdges(edges, coordinates), MappedRole(role, coordinates);
    forall to: nat
      ensures Observed(n', e', role', to) <==> Observed(nodes, edges, role, to)
    {
      forall k | 0 <= k < |edges|
        ensures Observes(n', e'[k], role', to) <==> Observes(nodes, edges[k], role, to)
      {
        ObservesAlike(nodes, edges[k], coordinates, role, to);
      }
      if Observed(n', e', role', to) {
        var e :| e in e' && Observes(n', e, role', to);
        var k :| 0 <= k < |e'| && e'[k] == e;
        assert edges[k] in edges;
      }
      if Observed(nodes, edges, role, to) {
        var e :| e in edges && Observes(nodes, e, role, to);
        var k :| 0 <= k < |edges| && edges[k] == e;
        assert e'[k] in e';
      }
    }
  }

  lemma {:induction false} OrdinalAlike(nodes: seq<MonoNode>, coordinates: SourceRewrite, i: nat)
    requires AllMonosMap(nodes, coordinates)
    ensures OrdinalOf(MappedMonos(nodes, coordinates), i) == OrdinalOf(nodes, i)
  {
    hide AllMonosMap;
    hide MappedPath;
    MappedAllocation(nodes, coordinates, i);
    if IsAllocation(nodes, i) && PathOf(nodes, i) != [] {
      LastMaps(nodes, coordinates, i);
    }
  }

  /** Moving the ranges of nodes and edges alike neither makes nor breaks an allocation's placement. */
  lemma {:induction false} AllocationsAlike(nodes: seq<MonoNode>, edges: seq<DependencyEdge>,
                                            coordinates: SourceRewrite)
    requires TiledRewrite(coordinates) && AllMonosMap(nodes, coordinates) && AllEdgesMap(edges, coordinates)
    ensures AllocationsValid(MappedMonos(nodes, coordinates), MappedEdges(edges, coordinates))
      <==> AllocationsValid(nodes, edges)
  {
    hide TiledRewrite;
    hide AllMonosMap;
    hide AllEdgesMap;
    hide Placed;
    hide IncomingValid;
    hide OrdinalsFit;
    hide IsAllocation;
    hide MappedMono;
    var n', e' := MappedMonos(nodes, coordinates), MappedEdges(edges, coordinates);
    forall i | 0 <= i < |nodes|
      ensures IsAllocation(n', i) <==> IsAllocation(nodes, i)
      ensures IsAllocation(nodes, i) ==> (Placed(n', e', i) <==> Placed(nodes, edges, i))
    {
      MappedAllocation(nodes, coordinates, i);
      if IsAllocation(nodes, i) { PlacedAlike(nodes, edges, coordinates, i); }
    }
    AllIncomingAlike(nodes, edges, coordinates);
    OrdinalsAlike(nodes, edges, coordinates);
  }

  lemma {:induction false} AllIncomingAlike(nodes: seq<MonoNode>, edges: seq<DependencyEdge>,
                                            coordinates: SourceRewrite)
    requires AllMonosMap(nodes, coordinates) && AllEdgesMap(edges, coordinates)
    ensures (forall e :: e in MappedEdges(edges, coordinates) ==> IncomingValid(MappedMonos(nodes, coordinates), e))
      <==> (forall e :: e in edges ==> IncomingValid(nodes, e))
  {
    hide AllMonosMap;
    hide IncomingValid;
    hide ObservationsMap;
    hide MappedObservations;
    var n', e' := MappedMonos(nodes, coordinates), MappedEdges(edges, coordinates);
    forall k | 0 <= k < |edges|
      ensures IncomingValid(n', e'[k]) <==> IncomingValid(nodes, edges[k])
    {
      IncomingAlike(nodes, edges[k], coordinates);
    }
    if forall e :: e in e' ==> IncomingValid(n', e) {
      forall e | e in edges
        ensures IncomingValid(nodes, e)
      {
        var k :| 0 <= k < |edges| && edges[k] == e;
        assert e'[k] in e';
      }
    }
    if forall e :: e in edges ==> IncomingValid(nodes, e) {
      forall e | e in e'
        ensures IncomingValid(n', e)
      {
        var k :| 0 <= k < |e'| && e'[k] == e;
        assert edges[k] in edges;
      }
    }
  }

  lemma {:induction false} OrdinalsAlike(nodes: seq<MonoNode>, edges: seq<DependencyEdge>, coordinates: SourceRewrite)
    requires TiledRewrite(coordinates) && AllMonosMap(nodes, coordinates) && AllEdgesMap(edges, coordinates)
    ensures OrdinalsFit(MappedMonos(nodes, coordinates), MappedEdges(edges, coordinates)) <==> OrdinalsFit(nodes, edges)
  {
    hide TiledRewrite;
    hide AllMonosMap;
    hide AllEdgesMap;
    hide HasRole;
    hide TargetsOf;
    hide OrdinalOf;
    hide MapPathSite;
    hide MappedMono;
    var n', e' := MappedMonos(nodes, coordinates), MappedEdges(edges, coordinates);
    forall i: nat
      ensures OrdinalOf(n', i) == OrdinalOf(nodes, i)
    {
      OrdinalAlike(nodes, coordinates, i);
    }
    if OrdinalsFit(nodes, edges) {
      forall i, role' | 0 <= i < |n'| && HasRole(n', i, role')
        ensures OrdinalOf(n', i) < |TargetsOf(n', e', role')|
      {
        var role := RoleComesFrom(nodes, coordinates, i, role');
        TargetsAlike(nodes, edges, coordinates, role);
      }
      forall i, j, role' | 0 <= i < j < |n'| && HasRole(n', i, role') && HasRole(n', j, role')
        ensures OrdinalOf(n', i) != OrdinalOf(n', j)
      {
        var role := RoleComesFrom(nodes, coordinates, i, role');
        RoleAlike(nodes, coordinates, j, role);
      }
    }
    if OrdinalsFit(n', e') {
      forall i, role | 0 <= i < |nodes| && HasRole(nodes, i, role)
        ensures OrdinalOf(nodes, i) < |TargetsOf(nodes, edges, role)|
      {
        RoleMaps(nodes, coordinates, i, role);
        RoleAlike(nodes, coordinates, i, role);
        TargetsAlike(nodes, edges, coordinates, role);
      }
      forall i, j, role | 0 <= i < j < |nodes| && HasRole(nodes, i, role) && HasRole(nodes, j, role)
        ensures OrdinalOf(nodes, i) != OrdinalOf(nodes, j)
      {
        RoleMaps(nodes, coordinates, i, role);
        RoleAlike(nodes, coordinates, i, role);
        RoleAlike(nodes, coordinates, j, role);
      }
    }
  }

  lemma {:induction false} RoleMaps(nodes: seq<MonoNode>, coordinates: SourceRewrite, i: nat, role: Role)
    requires AllMonosMap(nodes, coordinates) && HasRole(nodes, i, role)
    ensures MapPathSite(role.site, coordinates).Ok?
  {
    hide AllMonosMap;
    hide MapPathSite;
    LastMaps(nodes, coordinates, i);
  }
}
