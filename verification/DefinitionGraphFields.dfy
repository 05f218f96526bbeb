/** What the definition graph's constructor demands and returns, said of the fields alone
    (src/graph.rs, lines 176-408). */
module DefinitionGraphFields {
  import opened Wrappers
  import opened Text
  import opened Ordering
  import opened Rewrite
  import opened GraphKeys
  import opened Grouping
  import opened DefinitionGraphs

  /** One definition has no parent; it is a written crate root with a one-part key. */
  lemma {:induction false} RootMeans(ds: seq<Definition>)
    ensures RootValid(ds) <==>
      && (exists r :: 0 <= r < |ds| && ds[r].parent.None?)
      && (forall i, j :: 0 <= i < j < |ds| ==> ds[i].parent.Some? || ds[j].parent.Some?)
      && (forall r :: 0 <= r < |ds| && ds[r].parent.None? ==>
            ds[r].kind == Crate && |ds[r].key| == 1 && ds[r].origin.Written? && ds[r].origin.unitKind == CrateRoot)
  {
  }

  /** The last part of a key repeats the definition's own fields; the rest is the key of an earlier parent. */
  lemma {:induction false} DefinitionMeans(ds: seq<Definition>, i: nat)
    requires i < |ds| && ds[i].id == i
    ensures DefinitionValid(ds, i) <==>
      && |ds[i].key| > 0
      && var part := ds[i].key[|ds[i].key| - 1];
      && part.kind == ds[i].kind
      && (match ds[i].origin
          case Written(_, _, anchor, unitKind, _) => part.origin == WrittenKey(anchor, unitKind)
          case Expanded(_, range, role, ordinal) =>
            part.origin == ExpandedKey(range, role) && part.sameRoleOrdinal == ordinal
          case CompilerGenerated(role, ordinal) =>
            part.origin == CompilerGeneratedKey(role) && part.sameRoleOrdinal == ordinal
          case Injected(role, ordinal) =>
            part.origin == InjectedKey(role) && part.sameRoleOrdinal == ordinal)
      && (ds[i].parent.Some? ==>
            ds[i].parent.value < i && ds[i].key == ds[ds[i].parent.value].key + [part])
  {
    if |ds[i].key| > 0 {
      assert ds[i].key == ds[i].key[..|ds[i].key| - 1] + [ds[i].key[|ds[i].key| - 1]];
    }
  }

  /** Ids from 0, one root, sound definitions, no key twice. */
  lemma {:induction false} LocalsMean(ds: seq<Definition>)
    ensures LocalsValid(ds) <==>
      && (forall i :: 0 <= i < |ds| ==> ds[i].id == i)
      && RootValid(ds)
      && (forall i :: 0 <= i < |ds| ==> DefinitionValid(ds, i))
      && (forall i, j :: 0 <= i < j < |ds| ==> ds[i].key != ds[j].key)
  {
    hide RootValid;
    hide DefinitionValid;
    assert forall i :: 0 <= i < |ds| ==> DefinitionKeys(ds)[i] == ds[i].key;
  }

  lemma {:induction false} ExternalsMean(es: seq<ExternalDefinition>)
    ensures ExternalsValid(es) <==>
      && (forall i :: 0 <= i < |es| ==> es[i].id == i)
      && (forall i, j :: 0 <= i < j < |es| ==> es[i].key != es[j].key)
  {
    assert forall i :: 0 <= i < |es| ==> ExternalKeys(es)[i] == es[i].key;
  }

  /** End points in range, sites not reversed, and at least one unless it is a parent edge. */
  lemma {:induction false} EdgeMeans(edge: DefinitionEdge, locals: nat, externals: nat)
    ensures EdgeValid(edge, locals, externals) <==>
      && edge.key.from < locals
      && (edge.key.to.LocalTarget? ==> edge.key.to.id < locals)
      && (edge.key.to.ExternalTarget? ==> edge.key.to.id < externals)
      && (forall k :: 0 <= k < |edge.sites| ==> edge.sites[k].start <= edge.sites[k].end)
      && (edge.key.kind == Parent || |edge.sites| > 0)
  {
    assert forall k :: 0 <= k < |edge.sites| ==> edge.sites[k] in edge.sites;
  }

  /** The one parent edge of a child names its parent; together its observations carry the anchor of a written
      definition, the invocation of an expanded one, and nothing for the others. */
  lemma {:induction false} ParentLinkMeans(d: Definition, edges: seq<DefinitionEdge>)
    ensures ParentLinked(d, edges) <==>
      && (forall k :: 0 <= k < |edges| && edges[k].key.from == d.id && edges[k].key.kind == Parent ==>
            && d.parent.Some? && edges[k].key.to == LocalTarget(d.parent.value)
            && (forall m :: 0 <= m < |edges[k].sites| ==>
                  match d.origin
                  case Written(_, _, anchor, _, _) => edges[k].sites[m] == anchor
                  case Expanded(_, range, _, _) => edges[k].sites[m] == range
                  case CompilerGenerated(_, _) => false
                  case Injected(_, _) => false))
      && (d.parent.Some? ==>
            exists k :: 0 <= k < |edges| && edges[k].key == EdgeKey(d.id, LocalTarget(d.parent.value), Parent)
              && (match d.origin
                  case Written(_, _, anchor, _, _) => anchor in edges[k].sites
                  case Expanded(_, range, _, _) => range in edges[k].sites
                  case CompilerGenerated(_, _) => true
                  case Injected(_, _) => true))
  {
    if ParentLinked(d, edges) {
      LinkedOnly(d, edges);
      if d.parent.Some? { LinkFound(d, edges); }
    }
    if OnlyExpected(d, edges) && (d.parent.Some? ==> ExpectedFound(d, edges)) {
      FoundIsLinked(d, edges);
    }
    OnlyMeans(d, edges);
    FoundMeans(d, edges);
    hide ParentLinked;
    hide OnlyExpected;
    hide ExpectedFound;
    match d.origin
    case Written(_, _, _, _, _) =>
    case Expanded(_, _, _, _) =>
    case CompilerGenerated(_, _) =>
    case Injected(_, _) =>
  }

  lemma {:induction false} OnlyMeans(d: Definition, edges: seq<DefinitionEdge>)
    ensures OnlyExpected(d, edges) <==>
      forall k :: 0 <= k < |edges| && edges[k].key.from == d.id && edges[k].key.kind == Parent ==>
        && d.parent.Some? && edges[k].key.to == LocalTarget(d.parent.value)
        && forall m :: 0 <= m < |edges[k].sites| ==>
             match d.origin
             case Written(_, _, anchor, _, _) => edges[k].sites[m] == anchor
             case Expanded(_, range, _, _) => edges[k].sites[m] == range
             case CompilerGenerated(_, _) => false
             case Injected(_, _) => false
  {
    forall site
      ensures site in ExpectedSites(d.origin) <==>
        match d.origin
        case Written(_, _, anchor, _, _) => site == anchor
        case Expanded(_, range, _, _) => site == range
        case CompilerGenerated(_, _) => false
        case Injected(_, _) => false
    {
    }
    match d.origin
    case Written(_, _, _, _, _) =>
    case Expanded(_, _, _, _) =>
    case CompilerGenerated(_, _) =>
    case Injected(_, _) =>
  }

  lemma {:induction false} FoundMeans(d: Definition, edges: seq<DefinitionEdge>)
    ensures d.parent.Some? ==>
      (ExpectedFound(d, edges) <==>
       exists k :: 0 <= k < |edges| && edges[k].key == EdgeKey(d.id, LocalTarget(d.parent.value), Parent)
         && (match d.origin
             case Written(_, _, anchor, _, _) => anchor in edges[k].sites
             case Expanded(_, range, _, _) => range in edges[k].sites
             case CompilerGenerated(_, _) => true
             case Injected(_, _) => true))
  {
    assert forall k :: 0 <= k < |edges| ==>
      ((forall site :: site in ExpectedSites(d.origin) ==> site in edges[k].sites) <==>
       match d.origin
       case Written(_, _, anchor, _, _) => anchor in edges[k].sites
       case Expanded(_, range, _, _) => range in edges[k].sites
       case CompilerGenerated(_, _) => true
       case Injected(_, _) => true);
  }

  ghost predicate OnlyExpected(d: Definition, edges: seq<DefinitionEdge>) {
    forall k :: 0 <= k < |edges| && edges[k].key.from == d.id && edges[k].key.kind == Parent ==>
      && d.parent.Some? && edges[k].key.to == LocalTarget(d.parent.value)
      && forall m :: 0 <= m < |edges[k].sites| ==> edges[k].sites[m] in ExpectedSites(d.origin)
  }

  ghost predicate ExpectedFound(d: Definition, edges: seq<DefinitionEdge>)
    requires d.parent.Some?
  {
    exists k :: (0 <= k < |edges| && edges[k].key == EdgeKey(d.id, LocalTarget(d.parent.value), Parent)
                 && forall site :: site in ExpectedSites(d.origin) ==> site in edges[k].sites)
  }

  lemma {:induction false} FoundIsLinked(d: Definition, edges: seq<DefinitionEdge>)
    requires OnlyExpected(d, edges) && (d.parent.Some? ==> ExpectedFound(d, edges))
    ensures ParentLinked(d, edges)
  {
    if d.parent.Some? {
      var key := EdgeKey(d.id, LocalTarget(d.parent.value), Parent);
      var k :| 0 <= k < |edges| && edges[k].key == key
        && forall site :: site in ExpectedSites(d.origin) ==> site in edges[k].sites;
      assert HasKey(edges, key);
      forall site
        ensures HasSite(edges, key, site) <==> site in ExpectedSites(d.origin)
      {
      }
    }
  }

  lemma {:induction false} LinkedOnly(d: Definition, edges: seq<DefinitionEdge>)
    requires ParentLinked(d, edges)
    ensures OnlyExpected(d, edges)
  {
    forall k | 0 <= k < |edges| && edges[k].key.from == d.id && edges[k].key.kind == Parent
      ensures d.parent.Some? && edges[k].key.to == LocalTarget(d.parent.value)
      ensures forall m :: 0 <= m < |edges[k].sites| ==> edges[k].sites[m] in ExpectedSites(d.origin)
    {
      assert edges[k].key == EdgeKey(d.id, edges[k].key.to, Parent);
      assert HasKey(edges, EdgeKey(d.id, edges[k].key.to, Parent));
      forall m | 0 <= m < |edges[k].sites|
        ensures edges[k].sites[m] in ExpectedSites(d.origin)
      {
        assert HasSite(edges, edges[k].key, edges[k].sites[m]);
      }
    }
  }

  lemma {:induction false} LinkFound(d: Definition, edges: seq<DefinitionEdge>)
    requires ParentLinked(d, edges) && d.parent.Some?
    ensures ExpectedFound(d, edges)
  {
    var key := EdgeKey(d.id, LocalTarget(d.parent.value), Parent);
    assert HasKey(edges, key);
    if ExpectedSites(d.origin) == [] {
      var k :| 0 <= k < |edges| && edges[k].key == key;
    } else {
      var site := ExpectedSites(d.origin)[0];
      assert site in ExpectedSites(d.origin) && HasSite(edges, key, site);
      var k :| 0 <= k < |edges| && edges[k].key == key && site in edges[k].sites;
      assert forall other :: other in ExpectedSites(d.origin) ==> other in edges[k].sites;
    }
  }

  /* ---------- the orders ---------- */

  const DEPENDENCY_KINDS: seq<DefinitionDependencyKind> :=
    [Parent, SignatureType, ReturnType, GenericDefault, DefinitionDependencyKind.Predicate, FieldType, Discriminant,
     VisibilityPath, SuperTrait, ImplSelfType, ImplementedTrait, AssociatedTypeBound, OpaqueHiddenType, ConstExpression,
     ValuePath, TypePath, MacroPath, PatternConstructor, ImportLeaf, MethodTarget, AssociatedItemTarget,
     OverloadedOperator, DerefTarget, IndexTarget, CallableTrait, ResolvedGenericArgument, AdjustmentType,
     ClosureCaptureType, FieldTarget, OpaqueSource]

  lemma {:induction false} DependencyKindsRanked(kind: DefinitionDependencyKind)
    ensures |DEPENDENCY_KINDS| == 30 && DependencyRank(kind) < 30 && DEPENDENCY_KINDS[DependencyRank(kind)] == kind
  {
  }

  /** Edges go by start, then by target, local ones first, then by kind as declared. */
  lemma {:induction false} EdgesCompared(a: EdgeKey, b: EdgeKey)
    ensures EdgeLe(a, b) && a != b <==>
      || a.from < b.from
      || (a.from == b.from && a.to.LocalTarget? && b.to.ExternalTarget?)
      || (a.from == b.from && a.to.LocalTarget? == b.to.LocalTarget? && a.to.id < b.to.id)
      || (a.from == b.from && a.to == b.to && DependencyRank(a.kind) < DependencyRank(b.kind))
  {
    if a.kind != b.kind && DependencyRank(a.kind) == DependencyRank(b.kind) { RankInjective(a.kind, b.kind); }
    hide DependencyRank;
    var x, y := EdgeCode(a), EdgeCode(b);
    assert x[1] == TargetCode(a.to)[0] && y[1] == TargetCode(b.to)[0];
    assert x[2] == a.to.id && y[2] == b.to.id && x[3] == DependencyRank(a.kind) && y[3] == DependencyRank(b.kind);
    if a != b {
      var k := if a.from != b.from then 0 else if x[1] != y[1] then 1 else if x[2] != y[2] then 2 else 3;
      if x[k] < y[k] { FirstDifference(x, y, k); } else { FirstDifference(y, x, k); }
    }
  }

  /** Sites go by start, then by end. */
  lemma {:induction false} SitesCompared(a: ByteRange, b: ByteRange)
    ensures RangeLe(a, b) <==> a.start < b.start || (a.start == b.start && a.end <= b.end)
  {
  }

  /** Sorting by id loses nothing and puts lower ids first. */
  lemma {:induction false} SortedById(ds: seq<Definition>, es: seq<ExternalDefinition>)
    ensures
      var sorted := SortBy(ds, DefinitionLe);
      multiset(sorted) == multiset(ds) && forall i, j | 0 <= i < j < |sorted| :: sorted[i].id <= sorted[j].id
    ensures
      var sorted := SortBy(es, ExternalLe);
      multiset(sorted) == multiset(es) && forall i, j | 0 <= i < j < |sorted| :: sorted[i].id <= sorted[j].id
  {
    SortSorts(ds, DefinitionLe);
    SortSorts(es, ExternalLe);
  }
}
