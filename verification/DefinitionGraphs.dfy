/** The validating constructor of the definition graph (src/graph.rs, lines 176-408). */
module DefinitionGraphs {
  import opened Wrappers
  import opened Text
  import opened Ordering
  import opened Rewrite
  import opened GraphKeys
  import opened Grouping

  datatype DefinitionTarget = LocalTarget(id: nat) | ExternalTarget(id: nat)

  datatype DefinitionDependencyKind =
    | Parent | SignatureType | ReturnType | GenericDefault | Predicate | FieldType | Discriminant
    | VisibilityPath | SuperTrait | ImplSelfType | ImplementedTrait | AssociatedTypeBound
    | OpaqueHiddenType | ConstExpression | ValuePath | TypePath | MacroPath | PatternConstructor
    | ImportLeaf | MethodTarget | AssociatedItemTarget | OverloadedOperator | DerefTarget
    | IndexTarget | CallableTrait | ResolvedGenericArgument | AdjustmentType | ClosureCaptureType
    | FieldTarget | OpaqueSource

  function DependencyRank(kind: DefinitionDependencyKind): nat {
    match kind
    case Parent => 0
    case SignatureType => 1
    case ReturnType => 2
    case GenericDefault => 3
    case Predicate => 4
    case FieldType => 5
    case Discriminant => 6
    case VisibilityPath => 7
    case SuperTrait => 8
    case ImplSelfType => 9
    case ImplementedTrait => 10
    case AssociatedTypeBound => 11
    case OpaqueHiddenType => 12
    case ConstExpression => 13
    case ValuePath => 14
    case TypePath => 15
    case MacroPath => 16
    case PatternConstructor => 17
    case ImportLeaf => 18
    case MethodTarget => 19
    case AssociatedItemTarget => 20
    case OverloadedOperator => 21
    case DerefTarget => 22
    case IndexTarget => 23
    case CallableTrait => 24
    case ResolvedGenericArgument => 25
    case AdjustmentType => 26
    case ClosureCaptureType => 27
    case FieldTarget => 28
    case OpaqueSource => 29
  }

  datatype Definition =
    Definition(id: nat, key: DefinitionKey, kind: DefinitionKind, parent: Option<nat>, origin: DefinitionOrigin)

  datatype ExternalDefinition = ExternalDefinition(id: nat, key: ExternalDefinitionKey, path: string)

  datatype EdgeKey = EdgeKey(from: nat, to: DefinitionTarget, kind: DefinitionDependencyKind)

  /** A definition edge: its end points and kind, and its sites. */
  type DefinitionEdge = Observed<EdgeKey, ByteRange>

  datatype DefinitionGraph = DefinitionGraph(
    definitions: seq<Definition>, externalDefinitions: seq<ExternalDefinition>, edges: seq<DefinitionEdge>)

  datatype GraphError = InvalidDefinition | InvalidExternalDefinition | InvalidEdge

  /* ---------- derived orders ---------- */

  function TargetCode(target: DefinitionTarget): seq<nat> {
    match target
    case LocalTarget(id) => [0, id]
    case ExternalTarget(id) => [1, id]
  }

  function EdgeCode(key: EdgeKey): seq<nat> {
    [key.from] + TargetCode(key.to) + [DependencyRank(key.kind)]
  }

  predicate EdgeLe(a: EdgeKey, b: EdgeKey) {
    LexLe(EdgeCode(a), EdgeCode(b))
  }

  lemma {:induction false} RankInjective(a: DefinitionDependencyKind, b: DefinitionDependencyKind)
    requires DependencyRank(a) == DependencyRank(b)
    ensures a == b
  {
  }

  lemma {:induction false} EdgeOrder()
    ensures TotalOrder(EdgeLe)
  {
    LexOrders(EdgeCode, EdgeLe);
    forall a: EdgeKey, b: EdgeKey | EdgeCode(a) == EdgeCode(b)
      ensures a == b
    {
      assert EdgeCode(a)[0] == a.from && EdgeCode(b)[0] == b.from;
      assert EdgeCode(a)[1..3] == TargetCode(a.to) && EdgeCode(b)[1..3] == TargetCode(b.to);
      assert TargetCode(a.to)[0] == TargetCode(b.to)[0] && TargetCode(a.to)[1] == TargetCode(b.to)[1];
      assert EdgeCode(a)[3] == DependencyRank(a.kind) && EdgeCode(b)[3] == DependencyRank(b.kind);
      RankInjective(a.kind, b.kind);
    }
  }

  predicate DefinitionLe(a: Definition, b: Definition) {
    a.id <= b.id
  }

  predicate ExternalLe(a: ExternalDefinition, b: ExternalDefinition) {
    a.id <= b.id
  }

  /* ---------- what the constructor checks ---------- */

  /** Exactly one parentless definition, a written crate root with a one-part key. */
  predicate RootValid(ds: seq<Definition>) {
    exists r | 0 <= r < |ds| ::
      && ds[r].parent.None?
      && (forall i | 0 <= i < |ds| :: i != r ==> ds[i].parent.Some?)
      && ds[r].kind == Crate
      && |ds[r].key| == 1
      && ds[r].origin.Written? && ds[r].origin.unitKind == CrateRoot
  }

  predicate OrdinalAgrees(origin: DefinitionOrigin, part: DefinitionKeyPart) {
    match origin
    case Written(_, _, _, _, _) => true
    case Expanded(_, _, _, ordinal) => ordinal == part.sameRoleOrdinal
    case CompilerGenerated(_, ordinal) => ordinal == part.sameRoleOrdinal
    case Injected(_, ordinal) => ordinal == part.sameRoleOrdinal
  }

  /** Parent before child, leaf part describing the definition, key extending the parent's by one part. */
  predicate DefinitionValid(ds: seq<Definition>, i: nat)
    requires i < |ds|
  {
    var d := ds[i];
    && (d.parent.Some? ==> d.parent.value < d.id && d.parent.value < |ds|)
    && d.key != []
    && d.key[|d.key| - 1].kind == d.kind
    && d.key[|d.key| - 1].origin == d.origin.Key()
    && (d.parent.Some? ==>
          && |d.key| == |ds[d.parent.value].key| + 1
          && d.key[..|d.key| - 1] == ds[d.parent.value].key)
    && OrdinalAgrees(d.origin, d.key[|d.key| - 1])
  }

  function DefinitionKeys(ds: seq<Definition>): (keys: seq<DefinitionKey>)
    ensures |keys| == |ds| && forall i :: 0 <= i < |ds| ==> keys[i] == ds[i].key
  {
    seq(|ds|, i requires 0 <= i < |ds| => ds[i].key)
  }

  function ExternalKeys(es: seq<ExternalDefinition>): (keys: seq<ExternalDefinitionKey>)
    ensures |keys| == |es| && forall i :: 0 <= i < |es| ==> keys[i] == es[i].key
  {
    seq(|es|, i requires 0 <= i < |es| => es[i].key)
  }

  /** The checks on local definitions, on the list sorted by id. */
  ghost predicate LocalsValid(ds: seq<Definition>) {
    && (forall i :: 0 <= i < |ds| ==> ds[i].id == i)
    && RootValid(ds)
    && (forall i :: 0 <= i < |ds| ==> DefinitionValid(ds, i))
    && Distinct(DefinitionKeys(ds))
  }

  /** Valid definitions in id order with different keys pass, and the sort leaves them. */
  lemma {:induction false} LocalsHold(ds: seq<Definition>)
    requires RootValid(ds) && forall i :: 0 <= i < |ds| ==> ds[i].id == i && DefinitionValid(ds, i)
    requires forall i, j :: 0 <= i < j < |ds| ==> ds[i].key != ds[j].key
    ensures LocalsValid(ds) && SortBy(ds, DefinitionLe) == ds
  {
    hide RootValid;
    hide DefinitionValid;
    SortedStays(ds, DefinitionLe);
  }

  ghost predicate ExternalsValid(es: seq<ExternalDefinition>) {
    && (forall i :: 0 <= i < |es| ==> es[i].id == i)
    && Distinct(ExternalKeys(es))
  }

  predicate EdgeValid(edge: DefinitionEdge, locals: nat, externals: nat) {
    && edge.key.from < locals
    && (match edge.key.to case LocalTarget(id) => id < locals case ExternalTarget(id) => id < externals)
    && (forall s :: s in edge.sites ==> s.start <= s.end)
    && (edge.key.kind != Parent ==> edge.sites != [])
  }

  /** The sites a parent edge must carry. */
  function ExpectedSites(origin: DefinitionOrigin): seq<ByteRange> {
    match origin
    case Written(_, _, anchor, _, _) => [anchor]
    case Expanded(_, range, _, _) => [range]
    case CompilerGenerated(_, _) => []
    case Injected(_, _) => []
  }

  /** In terms of the observations alone: a child is linked to its parent and to nothing else, at exactly
      the expected sites; the root is linked to nothing. */
  ghost predicate ParentLinked(d: Definition, edges: seq<DefinitionEdge>) {
    && (forall target ::
          HasKey(edges, EdgeKey(d.id, target, Parent)) <==> d.parent.Some? && target == LocalTarget(d.parent.value))
    && (d.parent.Some? ==>
          var key := EdgeKey(d.id, LocalTarget(d.parent.value), Parent);
          forall site :: HasSite(edges, key, site) <==> site in ExpectedSites(d.origin))
  }

  ghost predicate Accepts(definitions: seq<Definition>, externals: seq<ExternalDefinition>,
                          edges: seq<DefinitionEdge>) {
    && LocalsValid(SortBy(definitions, DefinitionLe))
    && ExternalsValid(SortBy(externals, ExternalLe))
    && (forall i :: 0 <= i < |edges| ==> EdgeValid(edges[i], |definitions|, |externals|))
    && (forall d :: d in definitions ==> ParentLinked(d, edges))
  }

  /* ---------- the constructor ---------- */

  predicate LocalIdsDense(ds: seq<Definition>) {
    forall i | 0 <= i < |ds| :: ds[i].id == i
  }

  predicate ExternalIdsDense(es: seq<ExternalDefinition>) {
    forall i | 0 <= i < |es| :: es[i].id == i
  }

  method CheckLocals(ds: seq<Definition>) returns (valid: bool)
    requires LocalIdsDense(ds)
    ensures valid <==> LocalsValid(ds)
  {
    if !RootValid(ds) {
      return false;
    }
    if exists i | 0 <= i < |ds| :: !DefinitionValid(ds, i) {
      return false;
    }
    DistinctCount(DefinitionKeys(ds));
    valid := |Elements(DefinitionKeys(ds))| == |ds|;
  }

  method CheckExternals(es: seq<ExternalDefinition>) returns (valid: bool)
    requires ExternalIdsDense(es)
    ensures valid <==> ExternalsValid(es)
  {
    DistinctCount(ExternalKeys(es));
    valid := |Elements(ExternalKeys(es))| == |es|;
  }

  /** The parent-edge checks on the grouped edges. */
  predicate LinkChecked(d: Definition, grouped: seq<DefinitionEdge>) {
    match d.parent
    case None => forall e | e in grouped :: !(e.key.from == d.id && e.key.kind == Parent)
    case Some(parent) =>
      && (exists e | e in grouped :: e.key == EdgeKey(d.id, LocalTarget(parent), Parent))
      && (forall e | e in grouped :: e.key.from == d.id && e.key.kind == Parent ==>
            e.key.to == LocalTarget(parent) && e.sites == ExpectedSites(d.origin))
  }

  ghost predicate Grouped(edges: seq<DefinitionEdge>, grouped: seq<DefinitionEdge>) {
    NormalForm(edges, grouped, EdgeLe, RangeLe)
  }

  lemma {:induction false} ListIsExpected(sites: seq<ByteRange>, origin: DefinitionOrigin)
    requires Distinct(sites)
    ensures sites == ExpectedSites(origin) <==> forall s :: s in sites <==> s in ExpectedSites(origin)
  {
    var expected := ExpectedSites(origin);
    if forall s :: s in sites <==> s in expected {
      assert Elements(sites) == Elements(expected);
      DistinctSize(sites);
      DistinctSize(expected);
      if expected != [] { assert sites[0] in sites; }
    }
  }

  lemma {:induction false} GroupedSite(edges: seq<DefinitionEdge>, grouped: seq<DefinitionEdge>, e: DefinitionEdge)
    requires Grouped(edges, grouped) && e in grouped
    ensures HasKey(edges, e.key) && Distinct(e.sites)
    ensures forall s :: s in e.sites <==> HasSite(edges, e.key, s)
  {
    var i :| 0 <= i < |grouped| && grouped[i] == e;
    assert HasKey(grouped, e.key);
  }

  lemma {:induction false} GroupedFind(edges: seq<DefinitionEdge>, grouped: seq<DefinitionEdge>, key: EdgeKey)
    returns (e: DefinitionEdge)
    requires Grouped(edges, grouped) && HasKey(edges, key)
    ensures e in grouped && e.key == key
  {
    assert HasKey(grouped, key);
    var i :| 0 <= i < |grouped| && grouped[i].key == key;
    e := grouped[i];
  }

  /** Checking the grouped edges decides the property of the observations. */
  lemma {:induction false} LinkCheckDecides(d: Definition, edges: seq<DefinitionEdge>, grouped: seq<DefinitionEdge>)
    requires Grouped(edges, grouped)
    ensures LinkChecked(d, grouped) <==> ParentLinked(d, edges)
  {
    if LinkChecked(d, grouped) {
      CheckedIsLinked(d, edges, grouped);
    }
    if ParentLinked(d, edges) {
      LinkedIsChecked(d, edges, grouped);
    }
  }

  lemma {:induction false} CheckedIsLinked(d: Definition, edges: seq<DefinitionEdge>, grouped: seq<DefinitionEdge>)
    requires Grouped(edges, grouped) && LinkChecked(d, grouped)
    ensures ParentLinked(d, edges)
  {
    forall target
      ensures HasKey(edges, EdgeKey(d.id, target, Parent)) <==> d.parent.Some? && target == LocalTarget(d.parent.value)
    {
      if HasKey(edges, EdgeKey(d.id, target, Parent)) {
        var e := GroupedFind(edges, grouped, EdgeKey(d.id, target, Parent));
      }
      if d.parent.Some? && target == LocalTarget(d.parent.value) {
        var e :| e in grouped && e.key == EdgeKey(d.id, target, Parent);
        GroupedSite(edges, grouped, e);
      }
    }
    if d.parent.Some? {
      var e :| e in grouped && e.key == EdgeKey(d.id, LocalTarget(d.parent.value), Parent);
      GroupedSite(edges, grouped, e);
    }
  }

  lemma {:induction false} LinkedIsChecked(d: Definition, edges: seq<DefinitionEdge>, grouped: seq<DefinitionEdge>)
    requires Grouped(edges, grouped) && ParentLinked(d, edges)
    ensures LinkChecked(d, grouped)
  {
    forall e | e in grouped && e.key.from == d.id && e.key.kind == Parent
      ensures d.parent.Some? && e.key.to == LocalTarget(d.parent.value) && e.sites == ExpectedSites(d.origin)
    {
      GroupedSite(edges, grouped, e);
      assert e.key == EdgeKey(d.id, e.key.to, Parent);
      ListIsExpected(e.sites, d.origin);
    }
    if d.parent.Some? {
      var e := GroupedFind(edges, grouped, EdgeKey(d.id, LocalTarget(d.parent.value), Parent));
    }
  }

  lemma {:induction false} RangeOrder()
    ensures TotalOrder(RangeLe)
  {
  }

  /** A graph as `DefinitionGraph::new` returns it. */
  ghost predicate Accepted(graph: DefinitionGraph) {
    && LocalsValid(graph.definitions)
    && ExternalsValid(graph.externalDefinitions)
    && (forall i :: 0 <= i < |graph.edges| ==>
          EdgeValid(graph.edges[i], |graph.definitions|, |graph.externalDefinitions|))
    && (forall d :: d in graph.definitions ==> ParentLinked(d, graph.edges))
  }

  /** A parent link is a property of the observations, so grouping the edges keeps it. */
  lemma {:induction false} LinkObserves(d: Definition, edges: seq<DefinitionEdge>, grouped: seq<DefinitionEdge>)
    requires Grouped(edges, grouped) && ParentLinked(d, edges)
    ensures ParentLinked(d, grouped)
  {
    hide HasSite;
    hide HasKey;
    NormalFormObserves(edges, grouped, EdgeLe, RangeLe);
  }

  lemma {:induction false} GroupedValid(edges: seq<DefinitionEdge>, grouped: seq<DefinitionEdge>, locals: nat,
                                        externals: nat, g: nat)
    requires Grouped(edges, grouped) && g < |grouped|
    requires forall i :: 0 <= i < |edges| ==> EdgeValid(edges[i], locals, externals)
    ensures EdgeValid(grouped[g], locals, externals)
  {
    var edge := grouped[g];
    GroupedSite(edges, grouped, edge);
    var i :| 0 <= i < |edges| && edges[i].key == edge.key;
    assert EdgeValid(edges[i], locals, externals);
    if edges[i].sites != [] {
      assert HasSite(edges, edge.key, edges[i].sites[0]);
    }
    forall s | s in edge.sites
      ensures s.start <= s.end
    {
      var j :| 0 <= j < |edges| && edges[j].key == edge.key && s in edges[j].sites;
      assert EdgeValid(edges[j], locals, externals);
    }
  }

  lemma {:induction false} GroupedAccepted(definitions: seq<Definition>, externals: seq<ExternalDefinition>,
                                           edges: seq<DefinitionEdge>, graph: DefinitionGraph)
    requires Accepts(definitions, externals, edges)
    requires graph.definitions == SortBy(definitions, DefinitionLe)
    requires graph.externalDefinitions == SortBy(externals, ExternalLe)
    requires Grouped(edges, graph.edges)
    ensures Accepted(graph)
  {
    hide LocalsValid;
    hide ExternalsValid;
    hide ParentLinked;
    hide EdgeValid;
    SortSorts(definitions, DefinitionLe);
    SortSorts(externals, ExternalLe);
    forall i | 0 <= i < |graph.edges|
      ensures EdgeValid(graph.edges[i], |graph.definitions|, |graph.externalDefinitions|)
    {
      GroupedValid(edges, graph.edges, |definitions|, |externals|, i);
    }
    forall d | d in graph.definitions
      ensures ParentLinked(d, graph.edges)
    {
      LinkObserves(d, edges, graph.edges);
    }
  }

  /** The parts of an accepted graph are accepted again. */
  lemma {:induction false} AcceptedAgain(graph: DefinitionGraph)
    requires Accepted(graph)
    ensures Accepts(graph.definitions, graph.externalDefinitions, graph.edges)
  {
    SortedStays(graph.definitions, DefinitionLe);
    SortedStays(graph.externalDefinitions, ExternalLe);
  }

  /** `DefinitionGraph::new` accepts exactly the acceptable parts and returns them sorted and grouped. */
  method New(definitions: seq<Definition>, externals: seq<ExternalDefinition>, edges: seq<DefinitionEdge>)
    returns (r: Result<DefinitionGraph, GraphError>)
    ensures r.Ok? <==> Accepts(definitions, externals, edges)
    ensures r.Ok? ==> r.value.definitions == SortBy(definitions, DefinitionLe)
    ensures r.Ok? ==> r.value.externalDefinitions == SortBy(externals, ExternalLe)
    ensures r.Ok? ==> Grouped(edges, r.value.edges)
    ensures r.Ok? ==> Accepted(r.value)
    ensures
      var ds, es := SortBy(definitions, DefinitionLe), SortBy(externals, ExternalLe);
      var dense := forall i | 0 <= i < |ds| :: ds[i].id == i;
      var externalDense := forall i | 0 <= i < |es| :: es[i].id == i;
      && (r == Err(InvalidDefinition) <==> !dense || (externalDense && !LocalsValid(ds)))
      && (r == Err(InvalidExternalDefinition)
          <==> dense && (!externalDense || (LocalsValid(ds) && !ExternalsValid(es))))
  {
    var ds := SortBy(definitions, DefinitionLe);
    var es := SortBy(externals, ExternalLe);
    SortSorts(definitions, DefinitionLe);
    SortSorts(externals, ExternalLe);
    if !LocalIdsDense(ds) {
      return Err(InvalidDefinition);
    }
    if !ExternalIdsDense(es) {
      return Err(InvalidExternalDefinition);
    }
    var ok := CheckLocals(ds);
    if !ok {
      return Err(InvalidDefinition);
    }
    ok := CheckExternals(es);
    if !ok {
      return Err(InvalidExternalDefinition);
    }
    if exists i | 0 <= i < |edges| :: !EdgeValid(edges[i], |ds|, |es|) {
      return Err(InvalidEdge);
    }
    EdgeOrder();
    RangeOrder();
    var grouped := Group(edges, EdgeLe, RangeLe);
    forall d | d in definitions
      ensures LinkChecked(d, grouped) <==> ParentLinked(d, edges)
    {
      LinkCheckDecides(d, edges, grouped);
    }
    if exists d | d in ds :: !LinkChecked(d, grouped) {
      return Err(InvalidEdge);
    }
    r := Ok(DefinitionGraph(ds, es, grouped));
    GroupedAccepted(definitions, externals, edges, r.value);
  }
}
