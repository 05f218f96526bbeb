/** Cohorts, identities and ordinals of definitions, said of the fields of the definitions alone
    (src/definitions.rs, lines 1041-1254). */
module IdentityFields {
  import opened Wrappers
  import opened Text
  import opened Ordering
  import opened Rewrite
  import opened GraphKeys
  import opened Definitions

  /** The origin identity sees: a written anchor and an invocation range are moved where there are coordinates, the
      anchor of a crate as the whole file. */
  ghost predicate OriginSeen(d: RawDefinition, coordinates: Option<SourceRewrite>, v: View) {
    match d.origin
    case Written(_, _, anchor, unitKind, _) =>
      && v.origin.WrittenKey? && v.origin.unitKind == unitKind
      && (match coordinates
          case None => v.origin.anchor == anchor
          case Some(rewrite) =>
            if d.kind == Crate then rewrite.OriginalCrateRange(anchor) == Ok(v.origin.anchor)
            else rewrite.OriginalRange(anchor) == Ok(v.origin.anchor))
    case Expanded(_, range, role, _) =>
      && v.origin.ExpandedKey? && v.origin.generatedRole == role
      && (match coordinates
          case None => v.origin.invocationRange == range
          case Some(rewrite) => rewrite.OriginalRange(range) == Ok(v.origin.invocationRange))
    case CompilerGenerated(role, _) => v.origin == CompilerGeneratedKey(role)
    case Injected(role, _) => v.origin == InjectedKey(role)
  }

  /** The basis identity sees: each source moved where there are coordinates, none of them empty and all in strictly
      ascending order. */
  ghost predicate BasisSeen(d: RawDefinition, coordinates: Option<SourceRewrite>, v: View) {
    && (v.basis.Some? <==> d.productBasis.Some?)
    && (v.basis.Some? && d.productBasis.Some? ==>
          && |v.basis.value| == |d.productBasis.value|
          && (forall k :: 0 <= k < |v.basis.value| ==>
                && v.basis.value[k].kind == d.productBasis.value[k].kind
                && v.basis.value[k].range.start != v.basis.value[k].range.end
                && (match coordinates
                    case None => v.basis.value[k].range == d.productBasis.value[k].range
                    case Some(rewrite) =>
                      rewrite.OriginalRange(d.productBasis.value[k].range) == Ok(v.basis.value[k].range)))
          && (forall k :: 0 <= k < |v.basis.value| - 1 ==> SourceBefore(v.basis.value[k], v.basis.value[k + 1])))
  }

  /** A definition is seen exactly when its origin and basis are, with all other fields as they are. */
  lemma {:induction false} ViewMeans(d: RawDefinition, coordinates: Option<SourceRewrite>, v: View)
    ensures ViewOf(d, coordinates) == Ok(v) <==>
      && OriginSeen(d, coordinates, v) && BasisSeen(d, coordinates, v)
      && v.compilerId == d.compilerId && v.parent == d.parent && v.kind == d.kind && v.name == d.name
      && v.ordinal == d.structuralOrdinal
  {
    OriginMeans(d, coordinates, v);
    BasisMeans(d, coordinates, v);
    hide NormalizeOriginKey;
    hide NormalizeSources;
    hide WellFormedBasis;
    hide OriginSeen;
    hide BasisSeen;
  }

  lemma {:induction false} OriginMeans(d: RawDefinition, coordinates: Option<SourceRewrite>, v: View)
    ensures OriginSeen(d, coordinates, v) <==>
      if coordinates.None? then v.origin == d.origin.Key()
      else NormalizeOriginKey(d.origin.Key(), d.kind, coordinates.value) == Ok(v.origin)
  {
    hide SourceRewrite.OriginalRange;
    hide SourceRewrite.OriginalCrateRange;
  }

  lemma {:induction false} BasisMeans(d: RawDefinition, coordinates: Option<SourceRewrite>, v: View)
    ensures BasisSeen(d, coordinates, v) <==>
      && WellFormedBasis(v.basis)
      && if coordinates.None? || d.productBasis.None? then v.basis == d.productBasis
         else v.basis.Some? && NormalizeSources(d.productBasis.value, coordinates.value) == Ok(v.basis.value)
  {
    hide SourceRewrite.OriginalRange;
    hide SourceBefore;
    if d.productBasis.Some? && v.basis.Some? {
      if coordinates.Some? {
        SourcesMean(d.productBasis.value, coordinates.value, v.basis.value);
        hide NormalizeSources;
      } else if BasisSeen(d, coordinates, v) {
        assert v.basis.value == d.productBasis.value;
      }
    }
  }

  /** Product sources go by kind, written units first and by their own kind, then by range. */
  lemma {:induction false} SourcesCompared(a: ProductSource, b: ProductSource)
    ensures SourceBefore(a, b) <==>
      || (a.kind.WrittenUnit? && !b.kind.WrittenUnit?)
      || (a.kind == TemplateComponent && b.kind == MatcherElement)
      || (a.kind.WrittenUnit? && b.kind.WrittenUnit? && UnitKindRank(a.kind.unitKind) < UnitKindRank(b.kind.unitKind))
      || (a.kind == b.kind && a.range.start < b.range.start)
      || (a.kind == b.kind && a.range.start == b.range.start && a.range.end < b.range.end)
  {
    if a.kind.WrittenUnit? && b.kind.WrittenUnit? {
      UnitKindsDiffer(a.kind.unitKind, b.kind.unitKind);
    }
  }

  lemma {:induction false} UnitKindsDiffer(a: WrittenUnitKind, b: WrittenUnitKind)
    ensures a == b || UnitKindRank(a) != UnitKindRank(b)
  {
  }

  ghost predicate SourcesMoved(before: seq<ProductSource>, coordinates: SourceRewrite, after: seq<ProductSource>) {
    && |after| == |before|
    && forall k :: 0 <= k < |after| ==>
         after[k].kind == before[k].kind && coordinates.OriginalRange(before[k].range) == Ok(after[k].range)
  }

  lemma {:induction false} SourcesMean(before: seq<ProductSource>, coordinates: SourceRewrite,
                                       after: seq<ProductSource>)
    ensures NormalizeSources(before, coordinates) == Ok(after) <==> SourcesMoved(before, coordinates, after)
    decreases |before|
  {
    hide SourceRewrite.OriginalRange;
    if before != [] && after != [] {
      SourcesMean(before[1..], coordinates, after[1..]);
      assert after == [after[0]] + after[1..];
      if SourcesMoved(before, coordinates, after) {
        assert SourcesMoved(before[1..], coordinates, after[1..]);
      }
      if NormalizeSources(before, coordinates) == Ok(after) {
        var rest := NormalizeSources(before[1..], coordinates).value;
        assert after[1..] == rest;
      }
    }
  }

  /* ---------- parents ---------- */

  lemma {:induction false} LastWins(vs: seq<View>, q: nat)
    requires q < |vs|
    ensures vs[q].compilerId in ById(vs) && q <= ById(vs)[vs[q].compilerId]
    decreases |vs|
  {
    var n := |vs| - 1;
    if vs[n].compilerId != vs[q].compilerId {
      LastWins(vs[..n], q);
    }
  }

  /** The parent of a definition is the last one with the compiler id it names. */
  lemma {:induction false} ParentMeans(vs: seq<View>, i: nat, p: nat)
    requires i < |vs|
    ensures ParentIndex(vs, i) == Some(Some(p)) <==>
      && p < |vs| && vs[i].parent == Some(vs[p].compilerId)
      && forall q :: p < q < |vs| ==> vs[q].compilerId != vs[p].compilerId
    ensures ParentIndex(vs, i) == None <==> vs[i].parent == None
  {
    forall q: nat | q < |vs|
      ensures q <= ById(vs)[vs[q].compilerId]
    {
      LastWins(vs, q);
    }
    hide ById;
  }

  /** `chain` leads from `i` up to a definition without a parent. */
  ghost predicate Ancestors(vs: seq<View>, i: nat, chain: seq<nat>) {
    && chain != [] && chain[0] == i && (forall k :: 0 <= k < |chain| ==> chain[k] < |vs|)
    && vs[chain[|chain| - 1]].parent == None
    && forall k :: 0 <= k < |chain| - 1 ==> ParentIndex(vs, chain[k]) == Some(Some(chain[k + 1]))
  }

  lemma {:induction false} WithinChain(vs: seq<View>, i: nat, steps: nat) returns (chain: seq<nat>)
    requires i < |vs| && Within(vs, i, steps)
    ensures Ancestors(vs, i, chain)
    decreases steps
  {
    match ParentIndex(vs, i)
    case None => chain := [i];
    case Some(p) =>
      var rest := WithinChain(vs, p.value, steps - 1);
      chain := [i] + rest;
      assert forall k :: 0 < k < |chain| ==> chain[k] == rest[k - 1];
  }

  lemma {:induction false} ChainWithin(vs: seq<View>, i: nat, chain: seq<nat>)
    requires i < |vs| && Ancestors(vs, i, chain)
    ensures Within(vs, i, |chain|)
    decreases |chain|
  {
    if |chain| > 1 {
      var rest := chain[1..];
      assert forall k :: 0 <= k < |rest| ==> rest[k] == chain[k + 1];
      assert ParentIndex(vs, chain[0]) == Some(Some(chain[0 + 1]));
      ChainWithin(vs, chain[1], rest);
    }
  }

  /** A definition is inside exactly when a finite chain of parents leads to one that has none. */
  lemma {:induction false} InsideMeans(vs: seq<View>, i: nat)
    requires i < |vs|
    ensures Inside(vs, i) <==> exists chain :: Ancestors(vs, i, chain)
  {
    if Inside(vs, i) {
      var chain := WithinChain(vs, i, StepsOf(vs, i));
    }
    if chain :| Ancestors(vs, i, chain) {
      ChainWithin(vs, i, chain);
    }
  }

  /* ---------- identities ---------- */

  /** The identity of a definition is its parent's, if any, followed by its own kind, origin, basis and name and the
      number of definitions that agree with it in all of these and in the parent and precede it in compiler order. */
  lemma {:induction false} IdentityMeans(vs: seq<View>, i: nat)
    requires Inside(vs, i)
    ensures vs[i].parent.None? ==> |IdentityOf(vs, i)| == 1
    ensures forall p :: 0 <= p < |vs| && ParentIndex(vs, i) == Some(Some(p)) ==>
      Inside(vs, p) && IdentityOf(vs, i)[..|IdentityOf(vs, i)| - 1] == IdentityOf(vs, p)
    ensures IdentityOf(vs, i)[|IdentityOf(vs, i)| - 1] ==
      IdentityPart(
        vs[i].kind, vs[i].origin, vs[i].basis, vs[i].name,
        |set j | 0 <= j < |vs| && vs[j].parent == vs[i].parent && vs[j].origin == vs[i].origin
                 && vs[j].basis == vs[i].basis && vs[j].kind == vs[i].kind && vs[j].name == vs[i].name
                 && vs[j].ordinal < vs[i].ordinal|)
  {
    IdentityStep(vs, i);
    assert PrivateBelow(vs, i) ==
      set j | 0 <= j < |vs| && vs[j].parent == vs[i].parent && vs[j].origin == vs[i].origin
              && vs[j].basis == vs[i].basis && vs[j].kind == vs[i].kind && vs[j].name == vs[i].name
              && vs[j].ordinal < vs[i].ordinal;
  }

  /** Definitions have the same parent identity exactly when they name the same parent. */
  lemma {:induction false} SameParent(vs: seq<View>, i: nat, j: nat)
    requires PrivateSeparated(vs) && AllInside(vs) && i < |vs| && j < |vs|
    ensures ParentIdentity(vs, i) == ParentIdentity(vs, j) <==> vs[i].parent == vs[j].parent
  {
    InsideParent(vs, i);
    InsideParent(vs, j);
    assert Inside(vs, i) && Inside(vs, j);
    if ParentIndex(vs, i).Some? && ParentIndex(vs, j).Some? {
      var p, q := ParentIndex(vs, i).value.value, ParentIndex(vs, j).value.value;
      if IdentityOf(vs, p) == IdentityOf(vs, q) {
        IdentitiesDistinct(vs, p, StepsOf(vs, p), q, StepsOf(vs, q));
      }
    }
  }

  lemma {:induction false} SamePublicMeans(vs: seq<View>, i: nat, j: nat)
    requires PrivateSeparated(vs) && AllInside(vs) && i < |vs| && j < |vs|
    ensures SamePublic(vs, i, j) <==>
      && vs[i].parent == vs[j].parent && vs[i].origin == vs[j].origin && vs[i].kind == vs[j].kind
      && vs[i].name == vs[j].name
  {
    SameParent(vs, i, j);
  }

  /* ---------- an original run ---------- */

  /** An original run is accepted exactly when every parent chain ends and definitions that agree in parent, origin,
      kind and name differ in their compiler ordinals. */
  lemma {:induction false} OriginalAcceptance(vs: seq<View>)
    ensures Accepts(vs, None) <==>
      && AllInside(vs)
      && forall i, j |
           && 0 <= i < |vs| && 0 <= j < |vs| && i != j && vs[i].parent == vs[j].parent
           && vs[i].origin == vs[j].origin && vs[i].kind == vs[j].kind && vs[i].name == vs[j].name ::
           vs[i].ordinal != vs[j].ordinal
  {
    if PrivateSeparated(vs) && AllInside(vs) {
      forall i: nat, j: nat | i < |vs| && j < |vs|
        ensures SamePublic(vs, i, j) <==>
          vs[i].parent == vs[j].parent && vs[i].origin == vs[j].origin && vs[i].kind == vs[j].kind
          && vs[i].name == vs[j].name
      {
        SamePublicMeans(vs, i, j);
      }
      hide SamePublic;
    }
  }

  /** The ordinal an original run gives: how many definitions with the same parent, origin, kind and name precede in
      compiler order. */
  lemma {:induction false} OriginalOrdinal(vs: seq<View>, i: nat)
    requires Accepts(vs, None) && i < |vs|
    ensures Assigned(vs, None, i) ==
      |set j | 0 <= j < |vs| && vs[j].parent == vs[i].parent && vs[j].origin == vs[i].origin
               && vs[j].kind == vs[i].kind && vs[j].name == vs[i].name && vs[j].ordinal < vs[i].ordinal|
  {
    forall j: nat | j < |vs|
      ensures SamePublic(vs, i, j) <==>
        vs[i].parent == vs[j].parent && vs[i].origin == vs[j].origin && vs[i].kind == vs[j].kind
        && vs[i].name == vs[j].name
    {
      SamePublicMeans(vs, i, j);
    }
    hide SamePublic;
    assert PublicBelow(vs, i) ==
      set j | 0 <= j < |vs| && vs[j].parent == vs[i].parent && vs[j].origin == vs[i].origin
              && vs[j].kind == vs[i].kind && vs[j].name == vs[i].name && vs[j].ordinal < vs[i].ordinal;
  }

  /** The same for the definitions the run was given. */
  lemma {:induction false} OriginalRun(ds: seq<RawDefinition>, i: nat)
    requires Viewable(ds, None) && Accepts(ViewsOf(ds, None), None) && i < |ds|
    ensures Assigned(ViewsOf(ds, None), None, i) ==
      |set j | 0 <= j < |ds| && ds[j].parent == ds[i].parent && ds[j].origin.Key() == ds[i].origin.Key()
               && ds[j].kind == ds[i].kind && ds[j].name == ds[i].name
               && ds[j].structuralOrdinal < ds[i].structuralOrdinal|
  {
    var vs := ViewsOf(ds, None);
    OriginalOrdinal(vs, i);
    forall j | 0 <= j < |ds|
      ensures vs[j].parent == ds[j].parent && vs[j].origin == ds[j].origin.Key() && vs[j].kind == ds[j].kind
      ensures vs[j].name == ds[j].name && vs[j].ordinal == ds[j].structuralOrdinal
    {
      assert ViewOf(ds[j], None) == Ok(vs[j]);
    }
    hide ViewOf;
    hide DefinitionOrigin.Key;
    hide Assigned;
    hide Accepts;
    assert
      (set j | 0 <= j < |ds| && ds[j].parent == ds[i].parent && ds[j].origin.Key() == ds[i].origin.Key()
               && ds[j].kind == ds[i].kind && ds[j].name == ds[i].name
               && ds[j].structuralOrdinal < ds[i].structuralOrdinal)
      == (set j | 0 <= j < |vs| && vs[j].parent == vs[i].parent && vs[j].origin == vs[i].origin
                  && vs[j].kind == vs[i].kind && vs[j].name == vs[i].name && vs[j].ordinal < vs[i].ordinal);
  }

  /** Acceptance is decided name by name. */
  lemma {:induction false} NamesApart(vs: seq<View>)
    requires AllInside(vs)
    ensures Accepts(vs, None) <==> forall name :: SeparatedAs(vs, name)
  {
    OriginalAcceptance(vs);
    if forall name :: SeparatedAs(vs, name) {
      forall i, j | 0 <= i < |vs| && 0 <= j < |vs| && i != j && vs[i].parent == vs[j].parent
        && vs[i].origin == vs[j].origin && vs[i].kind == vs[j].kind && vs[i].name == vs[j].name
        ensures vs[i].ordinal != vs[j].ordinal
      {
        assert SeparatedAs(vs, vs[i].name);
      }
    }
  }

  ghost predicate SeparatedAs(vs: seq<View>, name: Option<string>) {
    forall i, j |
      && 0 <= i < |vs| && 0 <= j < |vs| && i != j && vs[i].name == name && vs[j].name == name
      && vs[i].parent == vs[j].parent && vs[i].origin == vs[j].origin && vs[i].kind == vs[j].kind ::
      vs[i].ordinal != vs[j].ordinal
  }

  /** Definitions of other names never affect an ordinal: it stays the same whatever compiler ordinals, origins and
      kinds they have, or whether they are there at all, as long as those of its own name stay in place. */
  lemma {:induction false} OtherNamesIrrelevant(vs: seq<View>, ws: seq<View>, i: nat)
    requires Accepts(vs, None) && Accepts(ws, None) && i < |vs| && i < |ws|
    requires forall j :: 0 <= j < |vs| && vs[j].name == vs[i].name ==> j < |ws| && ws[j] == vs[j]
    requires forall j :: 0 <= j < |ws| && ws[j].name == vs[i].name ==> j < |vs| && ws[j] == vs[j]
    ensures Assigned(vs, None, i) == Assigned(ws, None, i)
  {
    OriginalOrdinal(vs, i);
    OriginalOrdinal(ws, i);
    assert ws[i] == vs[i];
    assert
      (set j | 0 <= j < |vs| && vs[j].parent == vs[i].parent && vs[j].origin == vs[i].origin
               && vs[j].kind == vs[i].kind && vs[j].name == vs[i].name && vs[j].ordinal < vs[i].ordinal)
      == (set j | 0 <= j < |ws| && ws[j].parent == ws[i].parent && ws[j].origin == ws[i].origin
                  && ws[j].kind == ws[i].kind && ws[j].name == ws[i].name && ws[j].ordinal < ws[i].ordinal);
  }

  /* ---------- a compared run ---------- */

  /** A compared run is accepted exactly when every parent chain ends, definitions that agree in parent, origin, basis,
      kind and name differ in their compiler ordinals, the universe records every identity, and definitions that agree
      in parent, origin, kind and name have different recorded ordinals. */
  lemma {:induction false} ComparedAcceptance(vs: seq<View>, universe: Universe)
    requires AllInside(vs)
    ensures Accepts(vs, Some(universe)) <==>
      && (forall i, j |
            && 0 <= i < |vs| && 0 <= j < |vs| && i != j && vs[i].parent == vs[j].parent
            && vs[i].origin == vs[j].origin && vs[i].basis == vs[j].basis && vs[i].kind == vs[j].kind
            && vs[i].name == vs[j].name :: vs[i].ordinal != vs[j].ordinal)
      && (forall i :: 0 <= i < |vs| ==> IdentityOf(vs, i) in universe)
      && forall i, j |
           && 0 <= i < |vs| && 0 <= j < |vs| && i != j && vs[i].parent == vs[j].parent
           && vs[i].origin == vs[j].origin && vs[i].kind == vs[j].kind && vs[i].name == vs[j].name ::
           universe[IdentityOf(vs, i)] != universe[IdentityOf(vs, j)]
  {
    hide IdentityOf;
    hide Inside;
    if PrivateSeparated(vs) {
      forall i: nat, j: nat | i < |vs| && j < |vs|
        ensures SamePublic(vs, i, j) <==>
          vs[i].parent == vs[j].parent && vs[i].origin == vs[j].origin && vs[i].kind == vs[j].kind
          && vs[i].name == vs[j].name
      {
        SamePublicMeans(vs, i, j);
      }
    }
    hide SamePublic;
  }
}
