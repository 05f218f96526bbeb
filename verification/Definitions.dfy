/** Raw definitions of one compiler run, and what their identities and ordinals are meant to be
    (src/definitions.rs, lines 82-107 and 1041-1280). */
module Definitions {
  import opened Wrappers
  import opened Text
  import opened Ordering
  import opened Rewrite
  import opened GraphKeys

  datatype DefinitionError = IncompleteDefinition | InvalidSource

  datatype SourceUnitIdentityKind = WrittenUnit(unitKind: WrittenUnitKind) | TemplateComponent | MatcherElement

  datatype ProductSource = ProductSource(kind: SourceUnitIdentityKind, range: ByteRange)

  type ProductBasis = Option<seq<ProductSource>>

  datatype RawDefinition = RawDefinition(
    compilerId: nat, parent: Option<nat>, kind: DefinitionKind, origin: DefinitionOrigin,
    productBasis: ProductBasis, name: Option<string>, structuralOrdinal: u32)

  function UnitKindRank(kind: WrittenUnitKind): nat {
    match kind
    case CrateRoot => 0
    case InlineModule => 1
    case Item => 2
    case TraitMember => 3
    case ImplMember => 4
    case UseItem => 5
    case UseLeaf => 6
    case MacroDefinition => 7
    case MacroInvocation => 8
    case NestedItem => 9
    case MacroRule => 10
    case NoEffectCfgAttr => 11
    case InactiveCfgComponent => 12
  }

  function IdentityKindRank(kind: SourceUnitIdentityKind): nat {
    match kind
    case WrittenUnit(k) => UnitKindRank(k)
    case TemplateComponent => 13
    case MatcherElement => 14
  }

  predicate SourceBefore(a: ProductSource, b: ProductSource) {
    || IdentityKindRank(a.kind) < IdentityKindRank(b.kind)
    || (IdentityKindRank(a.kind) == IdentityKindRank(b.kind) && a.range != b.range && RangeLe(a.range, b.range))
  }

  /* ---------- original coordinates ---------- */

  function NormalizeOriginKey(origin: DefinitionOriginKey, kind: DefinitionKind, coordinates: SourceRewrite)
    : Result<DefinitionOriginKey, RewriteError>
  {
    match origin
    case WrittenKey(anchor, unitKind) =>
      var mapped := if kind == Crate then coordinates.OriginalCrateRange(anchor) else coordinates.OriginalRange(anchor);
      (match mapped case Ok(range) => Ok(WrittenKey(range, unitKind)) case Err(e) => Err(e))
    case ExpandedKey(range, role) =>
      (match coordinates.OriginalRange(range) case Ok(mapped) => Ok(ExpandedKey(mapped, role)) case Err(e) => Err(e))
    case CompilerGeneratedKey(_) => Ok(origin)
    case InjectedKey(_) => Ok(origin)
  }

  function NormalizeSources(sources: seq<ProductSource>,
                            coordinates: SourceRewrite): Result<seq<ProductSource>, RewriteError> {
    if sources == [] then Ok([])
    else
      match coordinates.OriginalRange(sources[0].range)
      case Err(e) => Err(e)
      case Ok(range) =>
        match NormalizeSources(sources[1..], coordinates)
        case Err(e) => Err(e)
        case Ok(rest) => Ok([sources[0].(range := range)] + rest)
  }

  predicate WellFormedBasis(basis: ProductBasis) {
    basis.Some? ==>
      && (forall k :: 0 <= k < |basis.value| ==> !basis.value[k].range.IsEmpty())
      && (forall k :: 0 <= k < |basis.value| - 1 ==> SourceBefore(basis.value[k], basis.value[k + 1]))
  }

  /** A definition as identity sees it: everything in original coordinates, `ordinal` the compiler's. */
  datatype View = View(
    compilerId: nat, parent: Option<nat>, kind: DefinitionKind, origin: DefinitionOriginKey,
    basis: ProductBasis, name: Option<string>, ordinal: u32)

  function ViewOf(d: RawDefinition, coordinates: Option<SourceRewrite>): Result<View, DefinitionError> {
    var origin :=
      if coordinates.Some? then NormalizeOriginKey(d.origin.Key(), d.kind, coordinates.value) else Ok(d.origin.Key());
    var basis: Result<ProductBasis, RewriteError> :=
      if coordinates.Some? && d.productBasis.Some? then
        match NormalizeSources(d.productBasis.value, coordinates.value)
        case Ok(sources) => Ok(Some(sources))
        case Err(e) => Err(e)
      else Ok(d.productBasis);
    if origin.Err? || basis.Err? then Err(InvalidSource)
    else if !WellFormedBasis(basis.value) then Err(IncompleteDefinition)
    else Ok(View(d.compilerId, d.parent, d.kind, origin.value, basis.value, d.name, d.structuralOrdinal))
  }

  ghost predicate Viewed(defs: seq<RawDefinition>, coordinates: Option<SourceRewrite>, vs: seq<View>) {
    |vs| == |defs| && forall i :: 0 <= i < |defs| ==> ViewOf(defs[i], coordinates) == Ok(vs[i])
  }

  ghost function ViewsOf(defs: seq<RawDefinition>, coordinates: Option<SourceRewrite>): (vs: seq<View>)
    requires Viewable(defs, coordinates)
    ensures |vs| == |defs| && Viewed(defs, coordinates, vs)
  {
    seq(|defs|, i requires 0 <= i < |defs| => ViewOf(defs[i], coordinates).value)
  }

  ghost predicate Viewable(defs: seq<RawDefinition>, coordinates: Option<SourceRewrite>) {
    forall i :: 0 <= i < |defs| ==> ViewOf(defs[i], coordinates).Ok?
  }

  /* ---------- parents ---------- */

  /** The map from compiler ids to indices; a later entry replaces an earlier one. */
  function ById(vs: seq<View>): (m: map<nat, nat>)
    ensures forall id :: id in m ==> m[id] < |vs| && vs[m[id]].compilerId == id
    ensures forall i :: 0 <= i < |vs| ==> vs[i].compilerId in m
  {
    if vs == [] then map[]
    else ById(vs[..|vs| - 1])[vs[|vs| - 1].compilerId := |vs| - 1]
  }

  /** Index of the parent: `None` for a root, `Some(None)` when it is missing. */
  function ParentIndex(vs: seq<View>, i: nat): (r: Option<Option<nat>>)
    requires i < |vs|
    ensures r.Some? && r.value.Some? ==> r.value.value < |vs|
  {
    match vs[i].parent
    case None => None
    case Some(id) => if id in ById(vs) then Some(Some(ById(vs)[id])) else Some(None)
  }

  ghost predicate Within(vs: seq<View>, i: nat, steps: nat)
    requires i < |vs|
    decreases steps
  {
    && steps > 0
    && match ParentIndex(vs, i)
       case None => true
       case Some(p) => p.Some? && Within(vs, p.value, steps - 1)
  }

  /** The parent chain of `i` ends at a root inside the input. */
  ghost predicate Inside(vs: seq<View>, i: nat) {
    i < |vs| && exists steps: nat :: Within(vs, i, steps)
  }

  ghost function StepsOf(vs: seq<View>, i: nat): (steps: nat)
    requires Inside(vs, i)
    ensures Within(vs, i, steps)
  {
    var steps: nat :| Within(vs, i, steps);
    steps
  }

  lemma {:induction false} InsideParent(vs: seq<View>, i: nat)
    requires i < |vs|
    ensures Inside(vs, i)
      <==> ParentIndex(vs, i).None? || (ParentIndex(vs, i).value.Some? && Inside(vs, ParentIndex(vs, i).value.value))
  {
    if Inside(vs, i) {
      var steps := StepsOf(vs, i);
      if ParentIndex(vs, i).Some? {
        assert Within(vs, ParentIndex(vs, i).value.value, steps - 1);
      }
    }
    if ParentIndex(vs, i).None? {
      assert Within(vs, i, 1);
    } else if ParentIndex(vs, i).value.Some? && Inside(vs, ParentIndex(vs, i).value.value) {
      assert Within(vs, i, StepsOf(vs, ParentIndex(vs, i).value.value) + 1);
    }
  }

  /* ---------- private cohorts and identities ---------- */

  predicate SamePrivate(vs: seq<View>, i: nat, j: nat)
    requires i < |vs| && j < |vs|
  {
    && vs[i].parent == vs[j].parent
    && vs[i].origin == vs[j].origin
    && vs[i].basis == vs[j].basis
    && vs[i].kind == vs[j].kind
    && vs[i].name == vs[j].name
  }

  ghost predicate PrivateSeparated(vs: seq<View>) {
    forall i, j :: 0 <= i < |vs| && 0 <= j < |vs| && i != j && SamePrivate(vs, i, j) ==> vs[i].ordinal != vs[j].ordinal
  }

  ghost function PrivateBelow(vs: seq<View>, i: nat): set<nat>
    requires i < |vs|
  {
    set j | 0 <= j < |vs| && SamePrivate(vs, i, j) && vs[j].ordinal < vs[i].ordinal
  }

  /** Position of `i` in its product cohort, in compiler order. */
  ghost function PrivateRank(vs: seq<View>, i: nat): (r: nat)
    requires i < |vs|
    ensures r <= |vs|
  {
    SubsetSize(PrivateBelow(vs, i), |vs|);
    |PrivateBelow(vs, i)|
  }

  datatype IdentityPart = IdentityPart(
    kind: DefinitionKind, origin: DefinitionOriginKey, basis: ProductBasis, name: Option<string>, cohortOrdinal: nat)

  type IdentityKey = seq<IdentityPart>

  ghost function PartOf(vs: seq<View>, i: nat): IdentityPart
    requires i < |vs|
  {
    IdentityPart(vs[i].kind, vs[i].origin, vs[i].basis, vs[i].name, PrivateRank(vs, i))
  }

  ghost function IdentityWithin(vs: seq<View>, i: nat, steps: nat): (key: IdentityKey)
    requires i < |vs| && Within(vs, i, steps)
    ensures key != [] && key[|key| - 1] == PartOf(vs, i)
    decreases steps
  {
    match ParentIndex(vs, i)
    case None => [PartOf(vs, i)]
    case Some(p) => IdentityWithin(vs, p.value, steps - 1) + [PartOf(vs, i)]
  }

  lemma {:induction false} IdentityUnique(vs: seq<View>, i: nat, m: nat, n: nat)
    requires i < |vs| && Within(vs, i, m) && Within(vs, i, n)
    ensures IdentityWithin(vs, i, m) == IdentityWithin(vs, i, n)
    decreases m
  {
    match ParentIndex(vs, i)
    case None =>
    case Some(p) => IdentityUnique(vs, p.value, m - 1, n - 1);
  }

  ghost function IdentityOf(vs: seq<View>, i: nat): (key: IdentityKey)
    requires Inside(vs, i)
  {
    IdentityWithin(vs, i, StepsOf(vs, i))
  }

  /** A root's identity is its part; any other identity extends the parent's by one part. */
  lemma {:induction false} IdentityStep(vs: seq<View>, i: nat)
    requires Inside(vs, i)
    ensures ParentIndex(vs, i).None? ==> IdentityOf(vs, i) == [PartOf(vs, i)]
    ensures ParentIndex(vs, i).Some? ==>
      && ParentIndex(vs, i).value.Some? && Inside(vs, ParentIndex(vs, i).value.value)
      && IdentityOf(vs, i) == IdentityOf(vs, ParentIndex(vs, i).value.value) + [PartOf(vs, i)]
  {
    InsideParent(vs, i);
    if ParentIndex(vs, i).Some? {
      var p := ParentIndex(vs, i).value.value;
      IdentityUnique(vs, p, StepsOf(vs, i) - 1, StepsOf(vs, p));
    }
  }

  lemma {:induction false} PrivateRankStrict(vs: seq<View>, i: nat, j: nat)
    requires i < |vs| && j < |vs| && SamePrivate(vs, i, j) && vs[i].ordinal < vs[j].ordinal
    ensures PrivateRank(vs, i) < PrivateRank(vs, j)
  {
    assert i in PrivateBelow(vs, j) && i !in PrivateBelow(vs, i);
    assert PrivateBelow(vs, i) <= PrivateBelow(vs, j);
    SmallerSubset(PrivateBelow(vs, i), PrivateBelow(vs, j));
  }

  /** Distinct definitions have distinct identities. */
  lemma {:induction false} IdentitiesDistinct(vs: seq<View>, i: nat, m: nat, j: nat, n: nat)
    requires PrivateSeparated(vs)
    requires i < |vs| && j < |vs| && Within(vs, i, m) && Within(vs, j, n)
    requires IdentityWithin(vs, i, m) == IdentityWithin(vs, j, n)
    ensures i == j
    decreases m
  {
    var a, b := IdentityWithin(vs, i, m), IdentityWithin(vs, j, n);
    assert a[..|a| - 1] == b[..|b| - 1];
    assert PartOf(vs, i) == PartOf(vs, j);
    if ParentIndex(vs, i).Some? && ParentIndex(vs, j).Some? {
      var p, q := ParentIndex(vs, i).value.value, ParentIndex(vs, j).value.value;
      assert a[..|a| - 1] == IdentityWithin(vs, p, m - 1);
      assert b[..|b| - 1] == IdentityWithin(vs, q, n - 1);
      IdentitiesDistinct(vs, p, m - 1, q, n - 1);
    }
    assert vs[i].parent == vs[j].parent;
    if vs[i].ordinal < vs[j].ordinal { PrivateRankStrict(vs, i, j); }
    if vs[j].ordinal < vs[i].ordinal { PrivateRankStrict(vs, j, i); }
  }

  /* ---------- public cohorts and ordinals ---------- */

  ghost predicate AllInside(vs: seq<View>) {
    forall i :: 0 <= i < |vs| ==> Inside(vs, i)
  }

  ghost function ParentIdentity(vs: seq<View>, i: nat): Option<IdentityKey>
    requires AllInside(vs) && i < |vs|
  {
    match ParentIndex(vs, i)
    case None => None
    case Some(p) => if p.Some? then Some(IdentityOf(vs, p.value)) else None
  }

  ghost predicate SamePublic(vs: seq<View>, i: nat, j: nat)
    requires AllInside(vs) && i < |vs| && j < |vs|
  {
    && ParentIdentity(vs, i) == ParentIdentity(vs, j)
    && vs[i].origin == vs[j].origin
    && vs[i].kind == vs[j].kind
    && vs[i].name == vs[j].name
  }

  ghost function PublicBelow(vs: seq<View>, i: nat): set<nat>
    requires AllInside(vs) && i < |vs|
  {
    set j | 0 <= j < |vs| && SamePublic(vs, i, j) && vs[j].ordinal < vs[i].ordinal
  }

  ghost function PublicRank(vs: seq<View>, i: nat): (r: nat)
    requires AllInside(vs) && i < |vs|
    ensures r <= |vs|
  {
    SubsetSize(PublicBelow(vs, i), |vs|);
    |PublicBelow(vs, i)|
  }

  type Universe = map<IdentityKey, u32>

  /** The ordinal a run gives to definition `i`: its rank in compiler order in the original run,
      the recorded one in a run that is compared against an expected universe. */
  ghost function Assigned(vs: seq<View>, expected: Option<Universe>, i: nat): nat
    requires AllInside(vs) && i < |vs|
    requires expected.Some? ==> IdentityOf(vs, i) in expected.value
  {
    match expected
    case None => PublicRank(vs, i)
    case Some(universe) => universe[IdentityOf(vs, i)]
  }

  /** What `assign_structural_ordinals` demands of its input. */
  ghost predicate Accepts(vs: seq<View>, expected: Option<Universe>) {
    && PrivateSeparated(vs)
    && AllInside(vs)
    && match expected
       case None =>
         forall i, j :: 0 <= i < |vs| && 0 <= j < |vs| && i != j && SamePublic(vs, i, j) ==>
           vs[i].ordinal != vs[j].ordinal
       case Some(universe) =>
         && (forall i :: 0 <= i < |vs| ==> IdentityOf(vs, i) in universe)
         && forall i, j :: 0 <= i < |vs| && 0 <= j < |vs| && i != j && SamePublic(vs, i, j) ==>
              universe[IdentityOf(vs, i)] != universe[IdentityOf(vs, j)]
  }

  /** The universe a run records: every identity with its assigned ordinal, and nothing else. */
  ghost predicate Records(vs: seq<View>, expected: Option<Universe>, universe: Universe)
    requires Accepts(vs, expected)
  {
    && (forall i :: 0 <= i < |vs| ==>
          IdentityOf(vs, i) in universe && universe[IdentityOf(vs, i)] == Assigned(vs, expected, i))
    && (forall key :: key in universe ==> IdentityOfSomebody(vs, key, Indices(|vs|)))
  }

  ghost predicate IdentityOfSomebody(vs: seq<View>, key: IdentityKey, among: set<nat>)
    requires AllInside(vs)
  {
    exists i :: i in among && i < |vs| && IdentityOf(vs, i) == key
  }
}
