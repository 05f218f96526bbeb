/** Moving a reduced run's graph back into original coordinates (src/definitions.rs, lines 396-419;
    src/input.rs, lines 1862-1951). */
module Normalization {
  import opened Wrappers
  import opened Text
  import opened Ordering
  import opened Rewrite
  import opened Coordinates
  import opened GraphKeys
  import opened Grouping
  import opened DefinitionGraphs
  import Definitions

  /* ---------- keys and origins ---------- */

  function MapPart(part: DefinitionKeyPart, coordinates: SourceRewrite): Result<DefinitionKeyPart, RewriteError> {
    match Definitions.NormalizeOriginKey(part.origin, part.kind, coordinates)
    case Ok(origin) => Ok(part.(origin := origin))
    case Err(e) => Err(e)
  }

  predicate KeyMaps(key: DefinitionKey, coordinates: SourceRewrite) {
    forall i :: 0 <= i < |key| ==> MapPart(key[i], coordinates).Ok?
  }

  function MappedKey(key: DefinitionKey, coordinates: SourceRewrite): (r: DefinitionKey)
    requires KeyMaps(key, coordinates)
    ensures |r| == |key| && forall i :: 0 <= i < |key| ==> MapPart(key[i], coordinates) == Ok(r[i])
  {
    seq(|key|, i requires 0 <= i < |key| => MapPart(key[i], coordinates).value)
  }

  /** `normalize_definition_key`, part by part. */
  method NormalizeDefinitionKey(key: DefinitionKey, coordinates: SourceRewrite)
    returns (r: Result<DefinitionKey, RewriteError>)
    ensures r.Ok? <==> KeyMaps(key, coordinates)
    ensures r.Ok? ==> r.value == MappedKey(key, coordinates)
  {
    var parts := key;
    for i := 0 to |parts|
      invariant |parts| == |key|
      invariant forall k :: 0 <= k < i ==> MapPart(key[k], coordinates) == Ok(parts[k])
      invariant forall k :: i <= k < |key| ==> parts[k] == key[k]
    {
      var mapped := MapPart(parts[i], coordinates);
      if mapped.Err? {
        return Err(mapped.error);
      }
      parts := parts[i := mapped.value];
    }
    r := Ok(parts);
  }

  /** The origin of a graph definition, with its unit range. */
  function MapOrigin(origin: DefinitionOrigin, kind: DefinitionKind,
                     coordinates: SourceRewrite): Result<DefinitionOrigin, RewriteError> {
    match origin
    case Written(unit, unitRange, anchor, unitKind, ordinal) =>
      var mappedUnit :=
        if kind == Crate then coordinates.OriginalCrateRange(unitRange) else coordinates.OriginalRange(unitRange);
      var mappedAnchor :=
        if kind == Crate then coordinates.OriginalCrateRange(anchor) else coordinates.OriginalRange(anchor);
      if mappedUnit.Err? then Err(mappedUnit.error)
      else if mappedAnchor.Err? then Err(mappedAnchor.error)
      else Ok(Written(unit, mappedUnit.value, mappedAnchor.value, unitKind, ordinal))
    case Expanded(invocation, range, role, ordinal) =>
      (match coordinates.OriginalRange(range)
       case Ok(mapped) => Ok(Expanded(invocation, mapped, role, ordinal))
       case Err(e) => Err(e))
    case CompilerGenerated(_, _) => Ok(origin)
    case Injected(_, _) => Ok(origin)
  }

  predicate DefinitionMaps(d: Definition, coordinates: SourceRewrite) {
    KeyMaps(d.key, coordinates) && MapOrigin(d.origin, d.kind, coordinates).Ok?
  }

  function MappedDefinition(d: Definition, coordinates: SourceRewrite): Definition
    requires DefinitionMaps(d, coordinates)
  {
    d.(key := MappedKey(d.key, coordinates), origin := MapOrigin(d.origin, d.kind, coordinates).value)
  }

  predicate SitesMap(sites: seq<ByteRange>, coordinates: SourceRewrite) {
    forall i :: 0 <= i < |sites| ==> coordinates.OriginalRange(sites[i]).Ok?
  }

  function MappedSites(sites: seq<ByteRange>, coordinates: SourceRewrite): (r: seq<ByteRange>)
    requires SitesMap(sites, coordinates)
    ensures |r| == |sites| && forall i :: 0 <= i < |sites| ==> coordinates.OriginalRange(sites[i]) == Ok(r[i])
  {
    seq(|sites|, i requires 0 <= i < |sites| => coordinates.OriginalRange(sites[i]).value)
  }

  /* ---------- the graph ---------- */

  predicate GraphMaps(graph: DefinitionGraph, coordinates: SourceRewrite) {
    && (forall i :: 0 <= i < |graph.definitions| ==> DefinitionMaps(graph.definitions[i], coordinates))
    && (forall i :: 0 <= i < |graph.edges| ==> SitesMap(graph.edges[i].sites, coordinates))
  }

  function MappedDefinitions(ds: seq<Definition>, coordinates: SourceRewrite): (r: seq<Definition>)
    requires forall i :: 0 <= i < |ds| ==> DefinitionMaps(ds[i], coordinates)
    ensures |r| == |ds| && forall i :: 0 <= i < |ds| ==> r[i] == MappedDefinition(ds[i], coordinates)
  {
    seq(|ds|, i requires 0 <= i < |ds| => MappedDefinition(ds[i], coordinates))
  }

  function MappedEdges(edges: seq<DefinitionEdge>, coordinates: SourceRewrite): (r: seq<DefinitionEdge>)
    requires forall i :: 0 <= i < |edges| ==> SitesMap(edges[i].sites, coordinates)
    ensures |r| == |edges|
    ensures forall i :: 0 <= i < |edges| ==>
      r[i].key == edges[i].key && r[i].sites == MappedSites(edges[i].sites, coordinates)
  {
    seq(|edges|, i requires 0 <= i < |edges| => Observed(edges[i].key, MappedSites(edges[i].sites, coordinates)))
  }

  /** A child of kind `Crate` written in the source: its anchor is moved as a crate range, the site of its
      parent edge as an ordinary one. */
  predicate WrittenCrateChild(d: Definition) {
    d.parent.Some? && d.kind == Crate && d.origin.Written?
  }

  predicate WholeFileKept(coordinates: SourceRewrite) {
    |coordinates.source| < U32_LIMIT &&
    coordinates.OriginalRange(ByteRange(0, |coordinates.source|)) == Ok(ByteRange(0, coordinates.originalLen))
  }

  /* ---------- mapping keeps what the constructor checks ---------- */

  /** A leaf part and the origin it describes are moved alike. */
  lemma {:induction false} OriginAndKeyAgree(origin: DefinitionOrigin, kind: DefinitionKind,
                                             coordinates: SourceRewrite)
    requires MapOrigin(origin, kind, coordinates).Ok?
    ensures Definitions.NormalizeOriginKey(origin.Key(), kind, coordinates)
      == Ok(MapOrigin(origin, kind, coordinates).value.Key())
  {
    hide SourceRewrite.OriginalRange;
  }

  lemma {:induction false} MapPartInjective(a: DefinitionKeyPart, b: DefinitionKeyPart, coordinates: SourceRewrite)
    requires TiledRewrite(coordinates)
    requires MapPart(a, coordinates).Ok? && MapPart(a, coordinates) == MapPart(b, coordinates)
    ensures a == b
  {
    hide SourceRewrite.OriginalRange;
    hide TiledRewrite;
    match (a.origin, b.origin)
    case (WrittenKey(x, _), WrittenKey(y, _)) => if a.kind != Crate { OriginalRangeInjective(coordinates, x, y); }
    case (ExpandedKey(x, _), ExpandedKey(y, _)) => OriginalRangeInjective(coordinates, x, y);
    case _ =>
  }

  /** Different keys stay different. */
  lemma {:induction false} MappedKeyInjective(a: DefinitionKey, b: DefinitionKey, coordinates: SourceRewrite)
    requires TiledRewrite(coordinates) && KeyMaps(a, coordinates) && KeyMaps(b, coordinates)
    requires MappedKey(a, coordinates) == MappedKey(b, coordinates)
    ensures a == b
  {
    hide MapPart;
    hide TiledRewrite;
    assert |a| == |MappedKey(a, coordinates)| == |b|;
    forall i | 0 <= i < |a|
      ensures a[i] == b[i]
    {
      assert MapPart(a[i], coordinates) == Ok(MappedKey(a, coordinates)[i]);
      assert MapPart(b[i], coordinates) == Ok(MappedKey(b, coordinates)[i]);
      MapPartInjective(a[i], b[i], coordinates);
    }
  }

  /** A key that extends another by one part still does after mapping. */
  lemma {:induction false} MappedKeyExtends(key: DefinitionKey, parent: DefinitionKey, coordinates: SourceRewrite)
    requires key != [] && key[..|key| - 1] == parent && KeyMaps(key, coordinates)
    ensures KeyMaps(parent, coordinates)
    ensures MappedKey(key, coordinates)[..|key| - 1] == MappedKey(parent, coordinates)
  {
    hide MapPart;
    assert forall i :: 0 <= i < |parent| ==> parent[i] == key[i];
  }

  lemma {:induction false} MappedDefinitionValid(ds: seq<Definition>, coordinates: SourceRewrite, i: nat)
    requires forall j :: 0 <= j < |ds| ==> DefinitionMaps(ds[j], coordinates)
    requires i < |ds| && DefinitionValid(ds, i)
    ensures DefinitionValid(MappedDefinitions(ds, coordinates), i)
  {
    hide MapPart;
    hide MapOrigin;
    var d, m := ds[i], MappedDefinition(ds[i], coordinates);
    var last := |d.key| - 1;
    OriginAndKeyAgree(d.origin, d.kind, coordinates);
    assert MapPart(d.key[last], coordinates) == Ok(m.key[last]);
    LeafMaps(d.key[last], d.origin, d.kind, coordinates);
    if d.parent.Some? {
      MappedKeyExtends(d.key, ds[d.parent.value].key, coordinates);
    }
  }

  lemma {:induction false} LeafMaps(part: DefinitionKeyPart, origin: DefinitionOrigin, kind: DefinitionKind,
                                    coordinates: SourceRewrite)
    requires part.kind == kind && part.origin == origin.Key() && OrdinalAgrees(origin, part)
    requires MapOrigin(origin, kind, coordinates).Ok? && MapPart(part, coordinates).Ok?
    ensures MapPart(part, coordinates).value.kind == kind
    ensures MapPart(part, coordinates).value.origin == MapOrigin(origin, kind, coordinates).value.Key()
    ensures OrdinalAgrees(MapOrigin(origin, kind, coordinates).value, MapPart(part, coordinates).value)
  {
    hide SourceRewrite.OriginalRange;
  }

  lemma {:induction false} MappedRootValid(ds: seq<Definition>, coordinates: SourceRewrite)
    requires forall j :: 0 <= j < |ds| ==> DefinitionMaps(ds[j], coordinates)
    requires RootValid(ds)
    ensures RootValid(MappedDefinitions(ds, coordinates))
  {
    hide MapPart;
    hide SourceRewrite.OriginalRange;
    var r :| 0 <= r < |ds|
      && ds[r].parent.None?
      && (forall i | 0 <= i < |ds| :: i != r ==> ds[i].parent.Some?)
      && ds[r].kind == Crate
      && |ds[r].key| == 1
      && ds[r].origin.Written? && ds[r].origin.unitKind == CrateRoot;
    var m := MappedDefinitions(ds, coordinates);
    assert m[r] == MappedDefinition(ds[r], coordinates);
  }

  /** The local-definition checks hold after mapping. */
  lemma {:induction false} MappedLocalsValid(ds: seq<Definition>, coordinates: SourceRewrite)
    requires TiledRewrite(coordinates) && LocalsValid(ds)
    requires forall j :: 0 <= j < |ds| ==> DefinitionMaps(ds[j], coordinates)
    ensures LocalsValid(MappedDefinitions(ds, coordinates))
    ensures SortBy(MappedDefinitions(ds, coordinates), DefinitionLe) == MappedDefinitions(ds, coordinates)
  {
    hide RootValid;
    hide DefinitionValid;
    hide KeyMaps;
    hide MapOrigin;
    hide TiledRewrite;
    var m := MappedDefinitions(ds, coordinates);
    MappedRootValid(ds, coordinates);
    forall i | 0 <= i < |m|
      ensures DefinitionValid(m, i)
    {
      MappedDefinitionValid(ds, coordinates, i);
    }
    forall i, j | 0 <= i < j < |m|
      ensures m[i].key != m[j].key
    {
      assert DefinitionKeys(ds)[i] != DefinitionKeys(ds)[j];
      if m[i].key == m[j].key {
        MappedKeyInjective(ds[i].key, ds[j].key, coordinates);
      }
    }
    hide DefinitionMaps;
    hide LocalsValid;
    LocalsHold(m);
  }

  lemma {:induction false} MappedEdgeValid(edge: DefinitionEdge, coordinates: SourceRewrite, locals: nat,
                                           externals: nat)
    requires TiledRewrite(coordinates) && EdgeValid(edge, locals, externals) && SitesMap(edge.sites, coordinates)
    ensures EdgeValid(Observed(edge.key, MappedSites(edge.sites, coordinates)), locals, externals)
  {
    hide SourceRewrite.OriginalRange;
    hide TiledRewrite;
    var moved := MappedSites(edge.sites, coordinates);
    forall s | s in moved
      ensures s.start <= s.end
    {
      var i :| 0 <= i < |moved| && moved[i] == s;
      assert coordinates.OriginalRange(edge.sites[i]) == Ok(moved[i]);
      OriginalRangeTotal(coordinates, edge.sites[i]);
    }
  }

  lemma {:induction false} MappedHasKey(edges: seq<DefinitionEdge>, coordinates: SourceRewrite, key: EdgeKey)
    requires forall i :: 0 <= i < |edges| ==> SitesMap(edges[i].sites, coordinates)
    ensures HasKey(MappedEdges(edges, coordinates), key) <==> HasKey(edges, key)
  {
    hide SitesMap;
    var m := MappedEdges(edges, coordinates);
    if HasKey(edges, key) {
      var i :| 0 <= i < |edges| && edges[i].key == key;
      assert m[i].key == key;
    }
    if HasKey(m, key) {
      var i :| 0 <= i < |m| && m[i].key == key;
      assert edges[i].key == key;
    }
  }

  ghost predicate MovesTo(coordinates: SourceRewrite, before: ByteRange, after: ByteRange) {
    coordinates.OriginalRange(before) == Ok(after)
  }

  /** The mapped sites of a key are the images of its sites. */
  lemma {:induction false} MappedHasSite(edges: seq<DefinitionEdge>, coordinates: SourceRewrite, key: EdgeKey,
                                         site: ByteRange)
    requires forall i :: 0 <= i < |edges| ==> SitesMap(edges[i].sites, coordinates)
    ensures HasSite(MappedEdges(edges, coordinates), key, site)
      <==> exists before :: HasSite(edges, key, before) && MovesTo(coordinates, before, site)
  {
    hide SourceRewrite.OriginalRange;
    var m := MappedEdges(edges, coordinates);
    if HasSite(m, key, site) {
      var i :| 0 <= i < |m| && m[i].key == key && site in m[i].sites;
      var k :| 0 <= k < |m[i].sites| && m[i].sites[k] == site;
      assert coordinates.OriginalRange(edges[i].sites[k]) == Ok(MappedSites(edges[i].sites, coordinates)[k]);
      assert edges[i].sites[k] in edges[i].sites;
      assert MovesTo(coordinates, edges[i].sites[k], site);
      assert HasSite(edges, key, edges[i].sites[k]);
    }
    if before :| HasSite(edges, key, before) && MovesTo(coordinates, before, site) {
      var i :| 0 <= i < |edges| && edges[i].key == key && before in edges[i].sites;
      var k :| 0 <= k < |edges[i].sites| && edges[i].sites[k] == before;
      assert m[i].sites[k] == site;
      assert m[i].key == key && site in m[i].sites;
    }
  }

  /** The expected parent site after mapping is the image of the one before, unless the child is a written
      crate and the rewrite cut the file. */
  lemma {:induction false} ExpectedSitesMap(d: Definition, coordinates: SourceRewrite)
    requires DefinitionMaps(d, coordinates) && ExpectedSites(d.origin) != []
    requires SitesMap(ExpectedSites(d.origin), coordinates)
    ensures |ExpectedSites(MappedDefinition(d, coordinates).origin)| == 1
    ensures coordinates.OriginalRange(ExpectedSites(d.origin)[0])
      == Ok(ExpectedSites(MappedDefinition(d, coordinates).origin)[0])
      <==> !(d.kind == Crate && d.origin.Written?) || WholeFileKept(coordinates)
  {
    hide SourceRewrite.OriginalRange;
    hide KeyMaps;
  }

  lemma {:induction false} KeylessDefinition(d: Definition, coordinates: SourceRewrite)
    requires DefinitionMaps(d, coordinates) && ExpectedSites(d.origin) == []
    ensures ExpectedSites(MappedDefinition(d, coordinates).origin) == []
  {
  }

  lemma {:induction false} MappedParentLinked(d: Definition, edges: seq<DefinitionEdge>, coordinates: SourceRewrite)
    requires DefinitionMaps(d, coordinates) && ParentLinked(d, edges)
    requires forall i :: 0 <= i < |edges| ==> SitesMap(edges[i].sites, coordinates)
    ensures ParentLinked(MappedDefinition(d, coordinates), MappedEdges(edges, coordinates))
      <==> !WrittenCrateChild(d) || WholeFileKept(coordinates)
  {
    hide MapOrigin;
    hide KeyMaps;
    hide SitesMap;
    hide ExpectedSites;
    hide MappedSites;
    var m, moved := MappedDefinition(d, coordinates), MappedEdges(edges, coordinates);
    forall target
      ensures HasKey(moved, EdgeKey(d.id, target, Parent)) <==> HasKey(edges, EdgeKey(d.id, target, Parent))
    {
      MappedHasKey(edges, coordinates, EdgeKey(d.id, target, Parent));
    }
    if d.parent.Some? {
      MappedSitesLinked(d, edges, coordinates, EdgeKey(d.id, LocalTarget(d.parent.value), Parent));
    }
  }

  lemma {:induction false} MappedSitesLinked(d: Definition, edges: seq<DefinitionEdge>, coordinates: SourceRewrite,
                                             key: EdgeKey)
    requires DefinitionMaps(d, coordinates)
    requires forall i :: 0 <= i < |edges| ==> SitesMap(edges[i].sites, coordinates)
    requires forall site :: HasSite(edges, key, site) <==> site in ExpectedSites(d.origin)
    ensures
      var moved, expected := MappedEdges(edges, coordinates), ExpectedSites(MappedDefinition(d, coordinates).origin);
      (forall site :: HasSite(moved, key, site) <==> site in expected)
      <==> !(d.kind == Crate && d.origin.Written?) || WholeFileKept(coordinates)
  {
    hide KeyMaps;
    hide MapOrigin;
    hide HasSite;
    hide MappedSites;
    hide WholeFileKept;
    var moved := MappedEdges(edges, coordinates);
    var expected := ExpectedSites(MappedDefinition(d, coordinates).origin);
    forall site
      ensures HasSite(moved, key, site)
        <==> exists before :: HasSite(edges, key, before) && MovesTo(coordinates, before, site)
    {
      MappedHasSite(edges, coordinates, key, site);
    }
    if ExpectedSites(d.origin) == [] {
      KeylessDefinition(d, coordinates);
      forall site
        ensures !HasSite(moved, key, site)
      {
      }
      NoSitesNoAnchor(d.origin);
    } else {
      ExpectedIsOne(d.origin);
      var anchor := ExpectedSites(d.origin)[0];
      assert ExpectedSites(d.origin) == [anchor];
      assert HasSite(edges, key, anchor);
      SiteMaps(edges, coordinates, key, anchor);
      ExpectedSitesMap(d, coordinates);
      var image := coordinates.OriginalRange(anchor).value;
      assert MovesTo(coordinates, anchor, image);
      forall site
        ensures HasSite(moved, key, site) <==> site == image
      {
      }
      assert expected == [expected[0]];
      assert (forall site :: HasSite(moved, key, site) <==> site in expected) <==> image == expected[0] by {
        assert HasSite(moved, key, image);
        assert expected[0] in expected;
      }
    }
  }

  lemma {:induction false} NoSitesNoAnchor(origin: DefinitionOrigin)
    requires ExpectedSites(origin) == []
    ensures !origin.Written?
  {
  }

  lemma {:induction false} ExpectedIsOne(origin: DefinitionOrigin)
    requires ExpectedSites(origin) != []
    ensures |ExpectedSites(origin)| == 1
  {
  }

  lemma {:induction false} SiteMaps(edges: seq<DefinitionEdge>, coordinates: SourceRewrite, key: EdgeKey,
                                    site: ByteRange)
    requires forall i :: 0 <= i < |edges| ==> SitesMap(edges[i].sites, coordinates)
    requires HasSite(edges, key, site)
    ensures coordinates.OriginalRange(site).Ok?
  {
    hide SourceRewrite.OriginalRange;
    var i :| 0 <= i < |edges| && edges[i].key == key && site in edges[i].sites;
    var k :| 0 <= k < |edges[i].sites| && edges[i].sites[k] == site;
  }

  /** Rebuilding from the moved parts of an accepted graph succeeds except for a written crate child under a
      rewrite that cut the file at an end. */
  lemma {:induction false} MappedAcceptance(graph: DefinitionGraph, coordinates: SourceRewrite)
    requires TiledRewrite(coordinates) && Accepted(graph) && GraphMaps(graph, coordinates)
    ensures Accepts(MappedDefinitions(graph.definitions, coordinates), graph.externalDefinitions,
                    MappedEdges(graph.edges, coordinates))
      <==> WholeFileKept(coordinates) || forall d :: d in graph.definitions ==> !WrittenCrateChild(d)
    ensures SortBy(MappedDefinitions(graph.definitions, coordinates), DefinitionLe)
      == MappedDefinitions(graph.definitions, coordinates)
    ensures SortBy(graph.externalDefinitions, ExternalLe) == graph.externalDefinitions
  {
    hide DefinitionMaps;
    hide TiledRewrite;
    hide ParentLinked;
    hide WholeFileKept;
    hide SitesMap;
    hide EdgeValid;
    hide WrittenCrateChild;
    hide MappedSites;
    MappedLocalsValid(graph.definitions, coordinates);
    SortedStays(graph.externalDefinitions, ExternalLe);
    var ds, es := MappedDefinitions(graph.definitions, coordinates), MappedEdges(graph.edges, coordinates);
    forall i | 0 <= i < |es|
      ensures EdgeValid(es[i], |ds|, |graph.externalDefinitions|)
    {
      MappedEdgeValid(graph.edges[i], coordinates, |ds|, |graph.externalDefinitions|);
      assert es[i] == Observed(graph.edges[i].key, MappedSites(graph.edges[i].sites, coordinates));
    }
    forall i | 0 <= i < |ds|
      ensures ParentLinked(ds[i], es) <==> !WrittenCrateChild(graph.definitions[i]) || WholeFileKept(coordinates)
    {
      assert graph.definitions[i] in graph.definitions;
      MappedParentLinked(graph.definitions[i], graph.edges, coordinates);
    }
    AllLinked(graph.definitions, ds, es, WholeFileKept(coordinates));
  }

  lemma {:induction false} AllLinked(before: seq<Definition>, after: seq<Definition>, edges: seq<DefinitionEdge>,
                                     whole: bool)
    requires |after| == |before|
    requires forall i :: 0 <= i < |after| ==>
      (ParentLinked(after[i], edges) <==> !WrittenCrateChild(before[i]) || whole)
    ensures (forall d :: d in after ==> ParentLinked(d, edges))
      <==> whole || forall d :: d in before ==> !WrittenCrateChild(d)
  {
    hide ParentLinked;
    hide WrittenCrateChild;
    if forall d :: d in after ==> ParentLinked(d, edges) {
      if !whole {
        forall d | d in before
          ensures !WrittenCrateChild(d)
        {
          var i :| 0 <= i < |before| && before[i] == d;
          assert after[i] in after;
        }
      }
    }
    if whole || forall d :: d in before ==> !WrittenCrateChild(d) {
      forall d | d in after
        ensures ParentLinked(d, edges)
      {
        var i :| 0 <= i < |after| && after[i] == d;
        assert before[i] in before;
      }
    }
  }

  /* ---------- the graphs the collector builds ---------- */

  /** The collector gives the kind `Crate` to the crate's own root and to nothing else. */
  predicate OnlyRootIsCrate(graph: DefinitionGraph) {
    forall d :: d in graph.definitions && d.kind == Crate ==> d.parent.None?
  }

  /** An anchor of the crate spans the rewritten text; any other range lies in it, on char boundaries. */
  predicate AnchorFits(range: ByteRange, kind: DefinitionKind, coordinates: SourceRewrite) {
    if kind == Crate then range.start == 0 && range.end == |coordinates.source|
    else ValidRange(coordinates.source, range)
  }

  predicate PartFits(part: DefinitionKeyPart, coordinates: SourceRewrite) {
    match part.origin
    case WrittenKey(anchor, _) => AnchorFits(anchor, part.kind, coordinates)
    case ExpandedKey(range, _) => ValidRange(coordinates.source, range)
    case _ => true
  }

  predicate OriginFits(origin: DefinitionOrigin, kind: DefinitionKind, coordinates: SourceRewrite) {
    match origin
    case Written(_, unitRange, anchor, _, _) =>
      AnchorFits(unitRange, kind, coordinates) && AnchorFits(anchor, kind, coordinates)
    case Expanded(_, range, _, _) => ValidRange(coordinates.source, range)
    case _ => true
  }

  predicate DefinitionFits(d: Definition, coordinates: SourceRewrite) {
    (forall i :: 0 <= i < |d.key| ==> PartFits(d.key[i], coordinates)) && OriginFits(d.origin, d.kind, coordinates)
  }

  predicate RangesFit(graph: DefinitionGraph, coordinates: SourceRewrite) {
    && (forall i :: 0 <= i < |graph.definitions| ==> DefinitionFits(graph.definitions[i], coordinates))
    && (forall i, k :: 0 <= i < |graph.edges| && 0 <= k < |graph.edges[i].sites| ==>
          ValidRange(coordinates.source, graph.edges[i].sites[k]))
  }

  /** Everything maps exactly when every range lies in the rewritten text. */
  lemma {:induction false} FittingMaps(graph: DefinitionGraph, coordinates: SourceRewrite)
    requires TiledRewrite(coordinates)
    ensures GraphMaps(graph, coordinates) <==> RangesFit(graph, coordinates)
  {
    forall range: ByteRange
      ensures coordinates.OriginalRange(range).Ok? <==> ValidRange(coordinates.source, range)
    {
      OriginalRangeTotal(coordinates, range);
    }
    hide SourceRewrite.OriginalRange;
    forall i | 0 <= i < |graph.definitions|
      ensures DefinitionMaps(graph.definitions[i], coordinates) <==> DefinitionFits(graph.definitions[i], coordinates)
    {
      var d := graph.definitions[i];
      assert forall k :: 0 <= k < |d.key| ==> (MapPart(d.key[k], coordinates).Ok? <==> PartFits(d.key[k], coordinates));
    }
    forall i | 0 <= i < |graph.edges|
      ensures SitesMap(graph.edges[i].sites, coordinates)
        <==> forall k :: 0 <= k < |graph.edges[i].sites| ==> ValidRange(coordinates.source, graph.edges[i].sites[k])
    {
    }
  }

  /** An accepted graph of the collector is accepted again after the move, as soon as its ranges lie in the text. */
  lemma {:induction false} CollectedGraphMoves(graph: DefinitionGraph, coordinates: SourceRewrite)
    requires TiledRewrite(coordinates) && Accepted(graph) && OnlyRootIsCrate(graph) && RangesFit(graph, coordinates)
    ensures GraphMaps(graph, coordinates)
    ensures Accepts(MappedDefinitions(graph.definitions, coordinates), graph.externalDefinitions,
                    MappedEdges(graph.edges, coordinates))
  {
    hide TiledRewrite;
    hide Accepted;
    hide RangesFit;
    hide GraphMaps;
    hide Accepts;
    hide WholeFileKept;
    FittingMaps(graph, coordinates);
    MappedAcceptance(graph, coordinates);
  }

  method NormalizeDefinitions(ds: seq<Definition>, coordinates: SourceRewrite)
    returns (r: Result<seq<Definition>, RewriteError>)
    ensures r.Ok? <==> forall i :: 0 <= i < |ds| ==> DefinitionMaps(ds[i], coordinates)
    ensures r.Ok? ==> r.value == MappedDefinitions(ds, coordinates)
  {
    var definitions := ds;
    for i := 0 to |definitions|
      invariant |definitions| == |ds|
      invariant forall k :: 0 <= k < i ==>
        DefinitionMaps(ds[k], coordinates) && definitions[k] == MappedDefinition(ds[k], coordinates)
      invariant forall k :: i <= k < |ds| ==> definitions[k] == ds[k]
    {
      var key := NormalizeDefinitionKey(definitions[i].key, coordinates);
      if key.Err? {
        return Err(key.error);
      }
      var origin := MapOrigin(definitions[i].origin, definitions[i].kind, coordinates);
      if origin.Err? {
        return Err(origin.error);
      }
      definitions := definitions[i := definitions[i].(key := key.value, origin := origin.value)];
    }
    r := Ok(definitions);
  }

  method NormalizeSites(sites: seq<ByteRange>, coordinates: SourceRewrite)
    returns (r: Result<seq<ByteRange>, RewriteError>)
    ensures r.Ok? <==> SitesMap(sites, coordinates)
    ensures r.Ok? ==> r.value == MappedSites(sites, coordinates)
  {
    var moved := sites;
    for i := 0 to |moved|
      invariant |moved| == |sites|
      invariant forall k :: 0 <= k < i ==> coordinates.OriginalRange(sites[k]) == Ok(moved[k])
      invariant forall k :: i <= k < |sites| ==> moved[k] == sites[k]
    {
      var site := coordinates.OriginalRange(moved[i]);
      if site.Err? {
        return Err(site.error);
      }
      moved := moved[i := site.value];
    }
    r := Ok(moved);
  }

  method NormalizeEdges(es: seq<DefinitionEdge>, coordinates: SourceRewrite)
    returns (r: Result<seq<DefinitionEdge>, RewriteError>)
    ensures r.Ok? <==> forall i :: 0 <= i < |es| ==> SitesMap(es[i].sites, coordinates)
    ensures r.Ok? ==> r.value == MappedEdges(es, coordinates)
  {
    var edges := es;
    for i := 0 to |edges|
      invariant |edges| == |es|
      invariant forall k :: 0 <= k < i ==>
        SitesMap(es[k].sites, coordinates) && edges[k] == Observed(es[k].key, MappedSites(es[k].sites, coordinates))
      invariant forall k :: i <= k < |es| ==> edges[k] == es[k]
    {
      var sites := NormalizeSites(edges[i].sites, coordinates);
      if sites.Err? {
        return Err(sites.error);
      }
      edges := edges[i := Observed(edges[i].key, sites.value)];
    }
    r := Ok(edges);
  }

  datatype DependencyError = Coordinates(rewrite: RewriteError) | InvalidGraph

  /** `normalize_definition_graph`: on an accepted graph it fails exactly when a range lies outside the
      rewritten text, or a written `Crate` child meets a rewrite that cut the file at an end. */
  method NormalizeDefinitionGraph(graph: DefinitionGraph, coordinates: SourceRewrite)
    returns (r: Result<DefinitionGraph, DependencyError>)
    requires TiledRewrite(coordinates) && Accepted(graph)
    ensures r.Ok? <==>
      GraphMaps(graph, coordinates)
      && (WholeFileKept(coordinates) || forall d :: d in graph.definitions ==> !WrittenCrateChild(d))
    ensures OnlyRootIsCrate(graph) ==> (r.Ok? <==> RangesFit(graph, coordinates))
    ensures r.Err? && r.error.Coordinates? <==> !GraphMaps(graph, coordinates)
    ensures r.Ok? ==>
      GraphMaps(graph, coordinates) && r.value.definitions == MappedDefinitions(graph.definitions, coordinates)
    ensures r.Ok? ==> r.value.externalDefinitions == graph.externalDefinitions
    ensures r.Ok? ==> Grouped(MappedEdges(graph.edges, coordinates), r.value.edges)
    ensures r.Ok? ==> Accepted(r.value)
  {
    FittingMaps(graph, coordinates);
    var definitions := NormalizeDefinitions(graph.definitions, coordinates);
    if definitions.Err? {
      return Err(DependencyError.Coordinates(definitions.error));
    }
    var edges := NormalizeEdges(graph.edges, coordinates);
    if edges.Err? {
      return Err(DependencyError.Coordinates(edges.error));
    }
    MappedAcceptance(graph, coordinates);
    var rebuilt := New(definitions.value, graph.externalDefinitions, edges.value);
    if rebuilt.Err? {
      return Err(InvalidGraph);
    }
    r := Ok(rebuilt.value);
  }

  const FILE := ByteRange(0, 1)
  const ROOT_PART := DefinitionKeyPart(Crate, WrittenKey(FILE, CrateRoot), None, 0)
  const CHILD_PART := DefinitionKeyPart(Crate, WrittenKey(FILE, Item), None, 0)
  const ROOT := Definition(0, [ROOT_PART], Crate, None, Written(0, FILE, FILE, CrateRoot, 0))
  const CHILD := Definition(1, [ROOT_PART, CHILD_PART], Crate, Some(0), Written(1, FILE, FILE, Item, 0))
  const LINK: DefinitionEdge := Observed(EdgeKey(1, LocalTarget(0), Parent), [FILE])

  /** The exception is real: with the first of two bytes deleted, a written child of kind `Crate` turns an
      accepted graph whose ranges all map into one the constructor rejects. */
  lemma {:induction false} CrateChildRejected() returns (graph: DefinitionGraph, coordinates: SourceRewrite)
    ensures TiledRewrite(coordinates) && Accepted(graph) && GraphMaps(graph, coordinates)
    ensures !Accepts(MappedDefinitions(graph.definitions, coordinates), graph.externalDefinitions,
                     MappedEdges(graph.edges, coordinates))
  {
    hide TiledRewrite;
    hide Accepts;
    hide GraphMaps;
    hide Accepted;
    hide WholeFileKept;
    coordinates := SourceRewrite([66], [SourcePiece(FILE, ByteRange(1, 2))], 2);
    graph := DefinitionGraph([ROOT, CHILD], [], [LINK]);
    SmallRewrite(coordinates);
    SmallGraphAccepted(graph);
    SmallGraphMaps(graph, coordinates);
    assert CHILD in graph.definitions && WrittenCrateChild(CHILD);
    MappedAcceptance(graph, coordinates);
  }

  lemma {:induction false} SmallGraphAccepted(graph: DefinitionGraph)
    requires graph == DefinitionGraph([ROOT, CHILD], [], [LINK])
    ensures Accepted(graph)
  {
    var ds := graph.definitions;
    SmallLocalsValid(ds);
    assert ExternalsValid([]);
    hide LocalsValid;
    hide ExternalsValid;
    assert ParentLinked(ROOT, graph.edges);
    OneLink(CHILD, graph.edges);
    hide ParentLinked;
    assert EdgeValid(LINK, 2, 0);
  }

  lemma {:induction false} SmallLocalsValid(ds: seq<Definition>)
    requires ds == [ROOT, CHILD]
    ensures LocalsValid(ds)
  {
    assert RootValid(ds) by { assert ds[0] == ROOT; }
    hide RootValid;
    assert DefinitionValid(ds, 0);
    assert CHILD.key[..1] == ROOT.key;
    assert DefinitionValid(ds, 1);
    hide DefinitionValid;
    assert |DefinitionKeys(ds)[0]| != |DefinitionKeys(ds)[1]|;
  }

  lemma {:induction false} SmallGraphMaps(graph: DefinitionGraph, coordinates: SourceRewrite)
    requires graph == DefinitionGraph([ROOT, CHILD], [], [LINK])
    requires coordinates.OriginalRange(FILE).Ok? && coordinates.OriginalCrateRange(FILE).Ok?
    ensures GraphMaps(graph, coordinates)
  {
    hide SourceRewrite.OriginalRange;
    hide SourceRewrite.OriginalCrateRange;
    assert MapPart(ROOT_PART, coordinates).Ok? && MapPart(CHILD_PART, coordinates).Ok?;
    hide MapPart;
    assert DefinitionMaps(ROOT, coordinates);
    assert DefinitionMaps(CHILD, coordinates);
    hide DefinitionMaps;
    assert SitesMap(LINK.sites, coordinates);
  }

  lemma {:induction false} SmallRewrite(coordinates: SourceRewrite)
    requires coordinates == SourceRewrite([66], [SourcePiece(FILE, ByteRange(1, 2))], 2)
    ensures TiledRewrite(coordinates) && !WholeFileKept(coordinates)
    ensures coordinates.OriginalRange(FILE).Ok? && coordinates.OriginalCrateRange(FILE).Ok?
  {
    assert coordinates.pieces[..0] == [] && Tiles([], 0, 1);
    assert Tiles(coordinates.pieces, 1, 2);
    OriginalRangeClosedForm(coordinates, ByteRange(0, 1));
    assert ValidRange(coordinates.source, ByteRange(0, 1));
    assert PieceOffsets(coordinates.pieces) == [1];
  }

  lemma {:induction false} OneLink(child: Definition, edges: seq<DefinitionEdge>)
    requires child.parent.Some? && ExpectedSites(child.origin) != []
    requires edges
      == [Observed(EdgeKey(child.id, LocalTarget(child.parent.value), Parent), ExpectedSites(child.origin))]
    ensures ParentLinked(child, edges)
  {
    assert edges[0].key == EdgeKey(child.id, LocalTarget(child.parent.value), Parent);
  }
}
