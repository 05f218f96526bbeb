/** The canonical numbering said of the fields of the definitions alone (src/definitions.rs, lines 1288-1393). */
module NumberingFields {
  import opened Wrappers
  import opened Text
  import opened Ordering
  import opened GraphKeys
  import opened Definitions
  import opened Forests
  import opened Canonical
  import DefinitionGraphs

  /* ---------- the order of siblings ---------- */

  const DEFINITION_KINDS: seq<DefinitionKind> :=
    [Crate, Module, Function, Static, Const, TypeAlias, OpaqueType, Struct, Enum, Union, Variant, Field, Constructor,
     Trait, TraitAlias, AssociatedType, AssociatedFunction, AssociatedConst, Impl, TypeParameter, ConstParameter,
     LifetimeParameter, ExternCrate, Use, ForeignModule, ForeignType, GlobalAsm, Closure, Coroutine, CoroutineClosure,
     SyntheticCoroutineBody, AnonymousConst, InlineConst, Macro]

  const GENERATED_ROLES: seq<GeneratedRole> :=
    [AnonymousAssociatedType, GeneratedAnonymousConst, GeneratedCoroutine, CoroutineBody, GeneratedCoroutineClosure,
     ElidedLifetime, NestedStatic, OpaqueLifetime, GeneratedOpaqueType]

  const UNIT_KINDS: seq<WrittenUnitKind> :=
    [CrateRoot, InlineModule, Item, TraitMember, ImplMember, UseItem, UseLeaf, MacroDefinition, MacroInvocation,
     NestedItem, MacroRule, NoEffectCfgAttr, InactiveCfgComponent]

  /** The ranks follow the declarations. */
  lemma {:induction false} KindsRanked(kind: DefinitionKind)
    ensures |DEFINITION_KINDS| == 34 && DefinitionKindRank(kind) < 34
    ensures DEFINITION_KINDS[DefinitionKindRank(kind)] == kind
  {
  }

  lemma {:induction false} RolesRanked(role: GeneratedRole)
    ensures |GENERATED_ROLES| == 9 && RoleRank(role) < 9 && GENERATED_ROLES[RoleRank(role)] == role
  {
  }

  lemma {:induction false} UnitKindsRanked(kind: WrittenUnitKind)
    ensures |UNIT_KINDS| == 13 && UnitKindRank(kind) < 13 && UNIT_KINDS[UnitKindRank(kind)] == kind
  {
  }

  /** Written origins compare by unit, unit range, anchor, unit kind, unit ordinal. */
  lemma {:induction false} WrittenCompared(definitions: seq<RawDefinition>, i: nat, j: nat)
    requires i < |definitions| && j < |definitions|
    requires definitions[i].origin.Written? && definitions[j].origin.Written?
    ensures
      var a, b := definitions[i].origin, definitions[j].origin;
      (|| a.unit < b.unit
       || (a.unit == b.unit
           && (|| a.unitRange.start < b.unitRange.start
               || (a.unitRange.start == b.unitRange.start
                   && (|| a.unitRange.end < b.unitRange.end
                       || (a.unitRange.end == b.unitRange.end
                           && (|| a.anchor.start < b.anchor.start
                               || (a.anchor.start == b.anchor.start
                                   && (|| a.anchor.end < b.anchor.end
                                       || (a.anchor.end == b.anchor.end
                                           && (|| UnitKindRank(a.unitKind) < UnitKindRank(b.unitKind)
                                               || (a.unitKind == b.unitKind && a.unitOrdinal < b.unitOrdinal))))))))))))
      ==> SiblingOrder(definitions)(i, j) && !SiblingOrder(definitions)(j, i)
  {
    var a, b := definitions[i].origin, definitions[j].origin;
    var k :=
      if a.unit != b.unit then 1
      else if a.unitRange.start != b.unitRange.start then 2
      else if a.unitRange.end != b.unitRange.end then 3
      else if a.anchor.start != b.anchor.start then 4
      else if a.anchor.end != b.anchor.end then 5
      else if a.unitKind != b.unitKind then 6
      else 7;
    if OriginCode(a)[k] < OriginCode(b)[k] {
      FirstDifference(SiblingCode(definitions, i), SiblingCode(definitions, j), k);
    }
  }

  /** Expanded origins compare by invocation, its range, the role, none before any, and the ordinal. */
  lemma {:induction false} ExpandedCompared(definitions: seq<RawDefinition>, i: nat, j: nat)
    requires i < |definitions| && j < |definitions|
    requires definitions[i].origin.Expanded? && definitions[j].origin.Expanded?
    ensures
      var a, b := definitions[i].origin, definitions[j].origin;
      (|| a.invocation < b.invocation
       || (a.invocation == b.invocation
           && (|| a.invocationRange.start < b.invocationRange.start
               || (a.invocationRange.start == b.invocationRange.start
                   && (|| a.invocationRange.end < b.invocationRange.end
                       || (a.invocationRange.end == b.invocationRange.end
                           && (|| (a.generatedRole.None? && b.generatedRole.Some?)
                               || (a.generatedRole.Some? && b.generatedRole.Some?
                                   && RoleRank(a.generatedRole.value) < RoleRank(b.generatedRole.value))
                               || (a.generatedRole == b.generatedRole && a.ordinal < b.ordinal))))))))
      ==> SiblingOrder(definitions)(i, j) && !SiblingOrder(definitions)(j, i)
  {
    var a, b := definitions[i].origin, definitions[j].origin;
    var k :=
      if a.invocation != b.invocation then 1
      else if a.invocationRange.start != b.invocationRange.start then 2
      else if a.invocationRange.end != b.invocationRange.end then 3
      else if a.generatedRole.Some? != b.generatedRole.Some? then 4
      else if a.generatedRole != b.generatedRole then 5
      else if a.generatedRole.Some? then 6
      else 5;
    if OriginCode(a)[k] < OriginCode(b)[k] {
      FirstDifference(SiblingCode(definitions, i), SiblingCode(definitions, j), k);
    }
  }

  lemma {:induction false} GeneratedCompared(definitions: seq<RawDefinition>, i: nat, j: nat)
    requires i < |definitions| && j < |definitions|
    requires definitions[i].origin.CompilerGenerated? && definitions[j].origin.CompilerGenerated?
    ensures
      var a, b := definitions[i].origin, definitions[j].origin;
      RoleRank(a.role) < RoleRank(b.role) || (a.role == b.role && a.ordinal < b.ordinal)
      ==> SiblingOrder(definitions)(i, j) && !SiblingOrder(definitions)(j, i)
  {
    var a, b := definitions[i].origin, definitions[j].origin;
    var k := if a.role != b.role then 1 else 2;
    if OriginCode(a)[k] < OriginCode(b)[k] {
      FirstDifference(SiblingCode(definitions, i), SiblingCode(definitions, j), k);
    }
  }

  lemma {:induction false} InjectedCompared(definitions: seq<RawDefinition>, i: nat, j: nat)
    requires i < |definitions| && j < |definitions|
    requires definitions[i].origin.Injected? && definitions[j].origin.Injected?
    ensures
      var a, b := definitions[i].origin, definitions[j].origin;
      || (a.injectedRole == InjectedExternCrate && b.injectedRole == PreludeImport)
      || (a.injectedRole == b.injectedRole && a.ordinal < b.ordinal)
      ==> SiblingOrder(definitions)(i, j) && !SiblingOrder(definitions)(j, i)
  {
    var a, b := definitions[i].origin, definitions[j].origin;
    var k := if a.injectedRole != b.injectedRole then 1 else 2;
    if OriginCode(a)[k] < OriginCode(b)[k] {
      FirstDifference(SiblingCode(definitions, i), SiblingCode(definitions, j), k);
    }
  }

  /** Written before expanded before compiler-generated before injected. */
  lemma {:induction false} OriginsCompared(definitions: seq<RawDefinition>, i: nat, j: nat)
    requires i < |definitions| && j < |definitions|
    ensures
      var a, b := definitions[i].origin, definitions[j].origin;
      || (a.Written? && !b.Written?)
      || (a.Expanded? && (b.CompilerGenerated? || b.Injected?))
      || (a.CompilerGenerated? && b.Injected?)
      ==> SiblingOrder(definitions)(i, j) && !SiblingOrder(definitions)(j, i)
  {
    var a, b := SiblingCode(definitions, i), SiblingCode(definitions, j);
    if a[0] < b[0] {
      FirstDifference(a, b, 0);
    }
  }

  /** With the same origin the kind decides, then the name by its characters, none before any, then the ordinal. */
  lemma {:induction false} KindsCompared(definitions: seq<RawDefinition>, i: nat, j: nat)
    requires i < |definitions| && j < |definitions| && definitions[i].origin == definitions[j].origin
    requires DefinitionKindRank(definitions[i].kind) < DefinitionKindRank(definitions[j].kind)
    ensures SiblingOrder(definitions)(i, j) && !SiblingOrder(definitions)(j, i)
  {
    hide OriginCode;
    hide DefinitionKindRank;
    hide NameCode;
    FirstDifference(SiblingCode(definitions, i), SiblingCode(definitions, j), |OriginCode(definitions[i].origin)|);
  }

  lemma {:induction false} NamesCompared(definitions: seq<RawDefinition>, i: nat, j: nat, m: nat)
    requires i < |definitions| && j < |definitions| && definitions[i].origin == definitions[j].origin
    requires definitions[i].kind == definitions[j].kind && definitions[j].name.Some?
    requires
      var t := definitions[j].name.value;
      || definitions[i].name.None?
      || var s := definitions[i].name.value;
         m <= |s| && m < |t| && s[..m] == t[..m] && (m == |s| || s[m] < t[m])
    ensures SiblingOrder(definitions)(i, j) && !SiblingOrder(definitions)(j, i)
  {
    var a, b := definitions[i], definitions[j];
    var head := OriginCode(a.origin) + [DefinitionKindRank(a.kind)];
    if a.name.None? {
      BehindHead(head, NameCode(a.name), [a.structuralOrdinal], NameCode(b.name), [b.structuralOrdinal], 0);
    } else {
      NamesDiffer(a.name.value, b.name.value, m);
      BehindHead(head, NameCode(a.name), [a.structuralOrdinal], NameCode(b.name), [b.structuralOrdinal], m + 1);
    }
  }

  lemma {:induction false} OrdinalsCompared(definitions: seq<RawDefinition>, i: nat, j: nat)
    requires i < |definitions| && j < |definitions| && definitions[i].origin == definitions[j].origin
    requires definitions[i].kind == definitions[j].kind && definitions[i].name == definitions[j].name
    requires definitions[i].structuralOrdinal < definitions[j].structuralOrdinal
    ensures SiblingOrder(definitions)(i, j) && !SiblingOrder(definitions)(j, i)
  {
    hide OriginCode;
    hide DefinitionKindRank;
    hide NameCode;
    FirstDifference(SiblingCode(definitions, i), SiblingCode(definitions, j), |SiblingCode(definitions, i)| - 1);
  }

  lemma {:induction false} BehindHead(head: seq<nat>, a: seq<nat>, x: seq<nat>, b: seq<nat>, y: seq<nat>, k: nat)
    requires k < |a| && k < |b| && (forall m :: 0 <= m < k ==> a[m] == b[m]) && a[k] < b[k]
    ensures LexLe(head + a + x, head + b + y) && !LexLe(head + b + y, head + a + x)
  {
    FirstDifference(head + a + x, head + b + y, |head| + k);
  }

  lemma {:induction false} NamesDiffer(s: string, t: string, m: nat)
    requires m <= |s| && m < |t| && s[..m] == t[..m] && (m == |s| || s[m] < t[m])
    ensures |NameCode(Some(s))| > m + 1 && |NameCode(Some(t))| > m + 1
    ensures forall k :: 0 <= k <= m ==> NameCode(Some(s))[k] == NameCode(Some(t))[k]
    ensures NameCode(Some(s))[m + 1] < NameCode(Some(t))[m + 1]
  {
    var a, b := NameCode(Some(s)), NameCode(Some(t));
    assert |a| == |s| + 2 && |b| == |t| + 2 && a[0] == b[0];
    forall k | 0 < k <= m
      ensures a[k] == b[k]
    {
      assert s[..m][k - 1] == t[..m][k - 1];
      assert a[k] == s[k - 1] as int + 1 && b[k] == t[k - 1] as int + 1;
    }
    assert b[m + 1] == t[m] as int + 1;
    assert a[m + 1] == if m == |s| then 0 else s[m] as int + 1;
    hide NameCode;
  }

  /* ---------- the numbering ---------- */

  /** The entry of a definition: its fields, the key of its parent's entry with its own part, its parent's number. */
  ghost predicate EntryOf(definitions: seq<RawDefinition>, n: Numbering, i: nat)
    requires i < |definitions|
  {
    var d := definitions[i];
    && d.compilerId in n.localIds
    && var k := n.localIds[d.compilerId];
    && k < |n.output| == |n.productBases|
    && n.output[k].id == k && n.output[k].kind == d.kind && n.output[k].origin == d.origin
    && n.productBases[k] == d.productBasis
    && |n.output[k].key| > 0
    && var part := n.output[k].key[|n.output[k].key| - 1];
    && part.kind == d.kind && part.name == d.name && part.sameRoleOrdinal == d.structuralOrdinal
    && (match d.origin
        case Written(_, _, anchor, unitKind, _) => part.origin == WrittenKey(anchor, unitKind)
        case Expanded(_, range, role, _) => part.origin == ExpandedKey(range, role)
        case CompilerGenerated(role, _) => part.origin == CompilerGeneratedKey(role)
        case Injected(role, _) => part.origin == InjectedKey(role))
    && if d.parent.Some? && d.parent.value in n.localIds then
         && n.output[k].parent == Some(n.localIds[d.parent.value]) && n.localIds[d.parent.value] < k
         && n.output[k].key == n.output[n.localIds[d.parent.value]].key + [part]
       else n.output[k].parent.None? && n.output[k].key == [part]
  }

  lemma {:induction false} ListedOnly(definitions: seq<RawDefinition>, ps: Parents, order: seq<nat>, n: Numbering,
                                      id: nat)
    requires Numbered(definitions, ps, order, n) && id in n.localIds
    ensures exists j :: 0 <= j < |definitions| && definitions[j].compilerId == id
  {
    assert NumberOf(definitions, order, id, n.localIds[id]);
    assert definitions[order[n.localIds[id]]].compilerId == id;
  }

  lemma {:induction false} EntryFields(definitions: seq<RawDefinition>, ps: Parents, order: seq<nat>, n: Numbering,
                                       k: nat)
    requires |ps| == |definitions| && UniqueIds(definitions) && Links(definitions, ps)
    requires Numbered(definitions, ps, order, n) && k < |order|
    ensures order[k] < |definitions| && EntryOf(definitions, n, order[k])
    ensures n.localIds[definitions[order[k]].compilerId] == k
  {
    assert NumberedAt(definitions, ps, order, n, k);
    var i := order[k];
    assert LinkedAt(definitions, ps, i);
    forall id | id in n.localIds
      ensures exists j :: 0 <= j < |definitions| && definitions[j].compilerId == id
    {
      ListedOnly(definitions, ps, order, n, id);
    }
    if ps[i].Some? {
      assert NumberedAt(definitions, ps, order, n, n.output[k].parent.value);
    }
  }

  /** Every definition has its own number and its entry. */
  lemma {:induction false} NumberingMeans(definitions: seq<RawDefinition>, ps: Parents, depth: seq<nat>,
                                          order: seq<nat>, n: Numbering)
    requires |ps| == |definitions| && Forest(ps, depth) && UniqueIds(definitions) && Links(definitions, ps)
    requires CanonicalOrder(definitions, ps, depth, order) && Numbered(definitions, ps, order, n)
    ensures |n.output| == |n.productBases| == |definitions|
    ensures forall i :: 0 <= i < |definitions| ==> EntryOf(definitions, n, i)
    ensures n.localIds.Keys == set i | 0 <= i < |definitions| :: definitions[i].compilerId
    ensures forall id, other :: id in n.localIds && other in n.localIds && n.localIds[id] == n.localIds[other] ==>
      id == other
  {
    LocalIdsBijective(definitions, ps, depth, order, n);
    forall i | 0 <= i < |definitions|
      ensures EntryOf(definitions, n, i)
    {
      assert NumberOfDefinition(definitions, order, n, i);
      EntryFields(definitions, ps, order, n, n.localIds[definitions[i].compilerId]);
    }
    hide EntryOf;
    hide Forest;
    hide CanonicalOrder;
    var ids := set i | 0 <= i < |definitions| :: definitions[i].compilerId;
    forall id
      ensures id in n.localIds <==> id in ids
    {
      if id in n.localIds { ListedOnly(definitions, ps, order, n, id); }
      if i :| 0 <= i < |definitions| && definitions[i].compilerId == id {
        assert NumberOfDefinition(definitions, order, n, i);
      }
    }
    forall id, other | id in n.localIds && other in n.localIds && n.localIds[id] == n.localIds[other]
      ensures id == other
    {
      assert NumberOf(definitions, order, id, n.localIds[id]) && NumberOf(definitions, order, other, n.localIds[id]);
    }
  }

  /** Entry `a` is entry `k` or one of the entries above it. */
  ghost predicate AtOrAbove(output: seq<DefinitionGraphs.Definition>, a: nat, k: nat)
    decreases k
  {
    || a == k
    || (k < |output| && output[k].parent.Some? && output[k].parent.value < k
        && AtOrAbove(output, a, output[k].parent.value))
  }

  lemma {:induction false} ChainAbove(definitions: seq<RawDefinition>, ps: Parents, depth: seq<nat>, order: seq<nat>,
                                      n: Numbering, k: nat, i: nat)
    requires Forest(ps, depth) && Numbered(definitions, ps, order, n) && k < |order|
    requires order[k] < |ps| && i in Chain(ps, depth, order[k])
    ensures exists a :: 0 <= a < |order| && order[a] == i && AtOrAbove(n.output, a, k)
    decreases k
  {
    assert NumberedAt(definitions, ps, order, n, k);
    if i != order[k] {
      var p := n.output[k].parent.value;
      ChainAbove(definitions, ps, depth, order, n, p, i);
      var a :| 0 <= a < |order| && order[a] == i && AtOrAbove(n.output, a, p);
      assert AtOrAbove(n.output, a, k);
    }
  }

  /** The numbering goes depth first: every entry but the first has its parent at or above the entry just before. */
  lemma {:induction false} NumberingDepthFirst(definitions: seq<RawDefinition>, ps: Parents, depth: seq<nat>,
                                               order: seq<nat>, n: Numbering, k: nat)
    requires Forest(ps, depth) && Numbered(definitions, ps, order, n) && Distinct(order)
    requires CanonicalOrder(definitions, ps, depth, order) && 0 < k < |order|
    ensures n.output[0].parent.None?
    ensures n.output[k].parent.Some? && AtOrAbove(n.output, n.output[k].parent.value, k - 1)
  {
    Hangs(definitions, ps, depth, order, k);
    hide CanonicalOrder;
    assert NumberedAt(definitions, ps, order, n, k) && NumberedAt(definitions, ps, order, n, 0);
    var p := n.output[k].parent.value;
    hide Distinct;
    hide Numbered;
    ChainAbove(definitions, ps, depth, order, n, k - 1, order[p]);
    var a :| 0 <= a < |order| && order[a] == order[p] && AtOrAbove(n.output, a, k - 1);
    SameIndex(order, a, p);
  }

  lemma {:induction false} SameIndex(order: seq<nat>, a: nat, b: nat)
    requires Distinct(order) && a < |order| && b < |order| && order[a] == order[b]
    ensures a == b
  {
  }

  lemma {:induction false} Hangs(definitions: seq<RawDefinition>, ps: Parents, depth: seq<nat>, order: seq<nat>, k: nat)
    requires Forest(ps, depth) && CanonicalOrder(definitions, ps, depth, order) && 0 < k < |order|
    ensures order[0] < |ps| && order[k - 1] < |ps| && order[k] < |ps|
    ensures ps[order[0]].None? && ps[order[k]].Some? && ps[order[k]].value in Chain(ps, depth, order[k - 1])
  {
    hide Chain;
    var rest := order[1..];
    assert rest[k - 1] == order[k];
    if k > 1 { assert rest[k - 2] == order[k - 1] && HangsBelow(ps, depth, rest[k - 1], rest[k - 2]); }
    else { assert HangsBelow(ps, depth, rest[0], order[0]); }
  }

  /** Children of one definition are numbered in their order. */
  lemma {:induction false} SiblingsNumbered(definitions: seq<RawDefinition>, ps: Parents, depth: seq<nat>,
                                            order: seq<nat>, n: Numbering, i: nat, j: nat)
    requires |ps| == |definitions| && Forest(ps, depth) && UniqueIds(definitions) && Links(definitions, ps)
    requires CanonicalOrder(definitions, ps, depth, order) && Numbered(definitions, ps, order, n)
    requires i < |definitions| && j < |definitions| && !SiblingOrder(definitions)(j, i)
    requires definitions[i].parent.Some? && definitions[i].parent == definitions[j].parent
    requires definitions[i].parent.value in n.localIds
    ensures definitions[i].compilerId in n.localIds && definitions[j].compilerId in n.localIds
    ensures n.localIds[definitions[i].compilerId] < n.localIds[definitions[j].compilerId]
  {
    LocalIdsBijective(definitions, ps, depth, order, n);
    assert NumberOfDefinition(definitions, order, n, i) && NumberOfDefinition(definitions, order, n, j);
    hide Numbered;
    SameParentIndex(definitions, ps, order, n, i, j);
    Sibling(definitions, ps, order, n.localIds[definitions[j].compilerId], n.localIds[definitions[i].compilerId]);
  }

  lemma {:induction false} SameParentIndex(definitions: seq<RawDefinition>, ps: Parents, order: seq<nat>, n: Numbering,
                                           i: nat, j: nat)
    requires |ps| == |definitions| && UniqueIds(definitions) && Links(definitions, ps)
    requires Numbered(definitions, ps, order, n) && i < |definitions| && j < |definitions|
    requires definitions[i].parent.Some? && definitions[i].parent == definitions[j].parent
    requires definitions[i].parent.value in n.localIds
    ensures ps[i].Some? && ps[i] == ps[j]
  {
    ListedOnly(definitions, ps, order, n, definitions[i].parent.value);
    hide Numbered;
    assert LinkedAt(definitions, ps, i) && LinkedAt(definitions, ps, j);
  }

  lemma {:induction false} Sibling(definitions: seq<RawDefinition>, ps: Parents, order: seq<nat>, k: nat, l: nat)
    requires k < |order| && l < |order| && order[k] < |ps| && order[l] < |ps|
    requires SiblingsOrdered(ps, order, SiblingOrder(definitions))
    requires ps[order[k]].Some? && ps[order[k]] == ps[order[l]] && !SiblingOrder(definitions)(order[k], order[l])
    ensures l < k
  {
    SiblingOrderTotal(definitions);
    hide SiblingOrder;
  }
}
