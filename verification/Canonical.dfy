/** Canonical numbering of the definitions of one run (src/definitions.rs, lines 1288-1393). */
module Canonical {
  import opened Wrappers
  import opened Text
  import opened Ordering
  import opened GraphKeys
  import opened Definitions
  import opened Forests
  import DefinitionGraphs
  import IdentityAssignment
  import IdentityStability
  import Rewrite

  const CRATE_ID: nat := 0

  datatype Numbering = Numbering(
    output: seq<DefinitionGraphs.Definition>, localIds: map<nat, nat>, productBases: seq<ProductBasis>)

  /* ---------- the order of siblings ---------- */

  function DefinitionKindRank(kind: DefinitionKind): nat {
    match kind
    case Crate => 0 case Module => 1 case Function => 2 case Static => 3 case Const => 4
    case TypeAlias => 5 case OpaqueType => 6 case Struct => 7 case Enum => 8 case Union => 9
    case Variant => 10 case Field => 11 case Constructor => 12 case Trait => 13 case TraitAlias => 14
    case AssociatedType => 15 case AssociatedFunction => 16 case AssociatedConst => 17 case Impl => 18
    case TypeParameter => 19 case ConstParameter => 20 case LifetimeParameter => 21 case ExternCrate => 22
    case Use => 23 case ForeignModule => 24 case ForeignType => 25 case GlobalAsm => 26 case Closure => 27
    case Coroutine => 28 case CoroutineClosure => 29 case SyntheticCoroutineBody => 30
    case AnonymousConst => 31 case InlineConst => 32 case Macro => 33
  }

  function RoleRank(role: GeneratedRole): nat {
    match role
    case AnonymousAssociatedType => 0 case GeneratedAnonymousConst => 1 case GeneratedCoroutine => 2
    case CoroutineBody => 3 case GeneratedCoroutineClosure => 4 case ElidedLifetime => 5
    case NestedStatic => 6 case OpaqueLifetime => 7 case GeneratedOpaqueType => 8
  }

  function OptionalRoleCode(role: Option<GeneratedRole>): seq<nat> {
    match role case None => [0] case Some(r) => [1, RoleRank(r)]
  }

  function OriginCode(origin: DefinitionOrigin): seq<nat> {
    match origin
    case Written(unit, unitRange, anchor, unitKind, unitOrdinal) =>
      [0, unit, unitRange.start, unitRange.end, anchor.start, anchor.end, UnitKindRank(unitKind), unitOrdinal]
    case Expanded(invocation, range, role, ordinal) =>
      [1, invocation, range.start, range.end] + OptionalRoleCode(role) + [ordinal]
    case CompilerGenerated(role, ordinal) => [2, RoleRank(role), ordinal]
    case Injected(role, ordinal) => [3, if role == InjectedExternCrate then 0 else 1, ordinal]
  }

  /** Characters shifted past the terminator, so that a prefix sorts before what it begins. */
  function NameCode(name: Option<string>): seq<nat> {
    match name
    case None => [0]
    case Some(s) => [1] + seq(|s|, i requires 0 <= i < |s| => s[i] as int + 1) + [0]
  }

  /** Origin, then kind, then name, then ordinal: the comparison of `append`'s children. */
  function SiblingCode(definitions: seq<RawDefinition>, i: nat): seq<nat> {
    if i < |definitions| then
      var d := definitions[i];
      OriginCode(d.origin) + [DefinitionKindRank(d.kind)] + NameCode(d.name) + [d.structuralOrdinal]
    else []
  }

  function SiblingOrder(definitions: seq<RawDefinition>): (nat, nat) -> bool {
    (a: nat, b: nat) => LexLe(SiblingCode(definitions, a), SiblingCode(definitions, b))
  }

  lemma {:induction false} SiblingOrderTotal(definitions: seq<RawDefinition>)
    ensures TotalPreorder(SiblingOrder(definitions))
  {
    LexOrders((a: nat) => SiblingCode(definitions, a), SiblingOrder(definitions));
  }

  /* ---------- the parent forest ---------- */

  ghost predicate UniqueIds(definitions: seq<RawDefinition>) {
    forall i, j :: 0 <= i < j < |definitions| ==> definitions[i].compilerId != definitions[j].compilerId
  }

  /** `ps[i]` is the index of the parent of `i`, absent when there is none in the input. */
  ghost predicate Links(definitions: seq<RawDefinition>, ps: Parents) {
    && |ps| == |definitions|
    && forall i :: 0 <= i < |ps| ==> LinkedAt(definitions, ps, i)
  }

  ghost predicate LinkedAt(definitions: seq<RawDefinition>, ps: Parents, i: nat)
    requires i < |ps| == |definitions|
  {
    match ps[i]
    case Some(p) => p < |definitions| && definitions[i].parent == Some(definitions[p].compilerId)
    case None =>
      definitions[i].parent.Some? ==>
        forall j :: 0 <= j < |definitions| ==> definitions[j].compilerId != definitions[i].parent.value
  }

  /** The crate root is present and every definition's parents lead to it. */
  ghost predicate RootedAtCrate(definitions: seq<RawDefinition>, ps: Parents)
    requires |ps| == |definitions|
  {
    exists root :: 0 <= root < |ps| && definitions[root].compilerId == CRATE_ID && forall i :: 0 <= i < |ps| ==>
      Reaches(ps, root, i)
  }

  /** The crate root, if present, is not below itself. */
  ghost predicate CrateAtTop(definitions: seq<RawDefinition>, ps: Parents)
    requires |ps| == |definitions|
  {
    forall root :: 0 <= root < |ps| && definitions[root].compilerId == CRATE_ID ==> AtTop(ps, root)
  }

  /* ---------- what a numbering is ---------- */

  function Part(d: RawDefinition): DefinitionKeyPart {
    DefinitionKeyPart(d.kind, d.origin.Key(), d.name, d.structuralOrdinal)
  }

  /** Output entry `k` is definition `order[k]`, below the entry of its parent. */
  ghost predicate NumberedAt(definitions: seq<RawDefinition>, ps: Parents, order: seq<nat>, n: Numbering, k: nat)
    requires |n.output| == |n.productBases| == |order| && |ps| == |definitions| && k < |order|
  {
    && order[k] < |definitions|
    && var d, o := definitions[order[k]], n.output[k];
    && o.id == k && o.kind == d.kind && o.origin == d.origin && n.productBases[k] == d.productBasis
    && d.compilerId in n.localIds && n.localIds[d.compilerId] == k
    && match ps[order[k]]
       case None => o.parent.None? && o.key == [Part(d)]
       case Some(p) =>
         && o.parent.Some? && o.parent.value < k && order[o.parent.value] == p
         && o.key == n.output[o.parent.value].key + [Part(d)]
  }

  ghost predicate NumberOf(definitions: seq<RawDefinition>, order: seq<nat>, id: nat, k: nat) {
    k < |order| && order[k] < |definitions| && definitions[order[k]].compilerId == id
  }

  ghost predicate Numbered(definitions: seq<RawDefinition>, ps: Parents, order: seq<nat>, n: Numbering) {
    && |n.output| == |n.productBases| == |order| && |ps| == |definitions|
    && (forall k :: 0 <= k < |order| ==> NumberedAt(definitions, ps, order, n, k))
    && (forall id :: id in n.localIds ==> NumberOf(definitions, order, id, n.localIds[id]))
  }

  /** A preorder of the whole forest with siblings in order. */
  ghost predicate CanonicalOrder(definitions: seq<RawDefinition>, ps: Parents, depth: seq<nat>, order: seq<nat>)
    requires Forest(ps, depth)
  {
    && Distinct(order)
    && |order| == |definitions|
    && (forall i: nat :: i in order <==> i < |definitions|)
    && (order != [] ==> order[0] < |ps| && ps[order[0]].None? && PreorderAfter(ps, depth, order[0], order[1..]))
    && SiblingsOrdered(ps, order, SiblingOrder(definitions))
  }

  /* ---------- children ---------- */

  /** `children` lists, under each compiler id, the definitions with that parent. */
  ghost predicate GroupsChildren(definitions: seq<RawDefinition>, upTo: nat, children: map<nat, seq<nat>>)
    requires upTo <= |definitions|
  {
    && (forall id :: id in children ==> Distinct(children[id]))
    && (forall id, i: nat {:trigger i in children[id]} :: id in children ==>
          (i in children[id] <==> i < upTo && definitions[i].parent == Some(id)))
    && (forall i :: 0 <= i < upTo && definitions[i].parent.Some? ==> definitions[i].parent.value in children)
  }

  method GroupChildren(definitions: seq<RawDefinition>) returns (children: map<nat, seq<nat>>)
    ensures GroupsChildren(definitions, |definitions|, children)
  {
    children := map[];
    for i := 0 to |definitions|
      invariant GroupsChildren(definitions, i, children)
    {
      if definitions[i].parent.Some? {
        var id := definitions[i].parent.value;
        var before := if id in children then children[id] else [];
        assert i !in before;
        children := children[id := before + [i]];
      }
    }
  }

  /** Sorting every list in place, in whatever order the map hands them out. */
  method SortChildren(definitions: seq<RawDefinition>, grouped: map<nat, seq<nat>>)
    returns (children: map<nat, seq<nat>>)
    requires GroupsChildren(definitions, |definitions|, grouped)
    ensures GroupsChildren(definitions, |definitions|, children)
    ensures forall id :: id in children ==> Sorted(children[id], SiblingOrder(definitions))
  {
    children := grouped;
    var todo := grouped.Keys;
    while todo != {}
      invariant todo <= children.Keys
      invariant GroupsChildren(definitions, |definitions|, children)
      invariant forall id :: id in children && id !in todo ==> Sorted(children[id], SiblingOrder(definitions))
      decreases todo
    {
      var id :| id in todo;
      SiblingOrderTotal(definitions);
      SortSorts(children[id], SiblingOrder(definitions));
      DistinctStays(children[id], SortBy(children[id], SiblingOrder(definitions)));
      children := children[id := SortBy(children[id], SiblingOrder(definitions))];
      todo := todo - {id};
    }
  }

  ghost function Kids(definitions: seq<RawDefinition>, children: map<nat, seq<nat>>): (kids: seq<seq<nat>>)
    ensures |kids| == |definitions|
    ensures forall i :: 0 <= i < |kids| ==>
      kids[i] == if definitions[i].compilerId in children then children[definitions[i].compilerId] else []
  {
    seq(|definitions|, i requires 0 <= i < |definitions| =>
      if definitions[i].compilerId in children then children[definitions[i].compilerId] else [])
  }

  lemma {:induction false} KidsListChildren(definitions: seq<RawDefinition>, ps: Parents,
                                            children: map<nat, seq<nat>>)
    requires UniqueIds(definitions) && Links(definitions, ps) && GroupsChildren(definitions, |definitions|, children)
    ensures ListsChildren(ps, Kids(definitions, children))
  {
    var kids := Kids(definitions, children);
    forall i, c: nat | 0 <= i < |ps|
      ensures c in kids[i] <==> c < |ps| && ps[c] == Some(i)
    {
      var id := definitions[i].compilerId;
      if c < |ps| {
        assert LinkedAt(definitions, ps, c);
        if definitions[c].parent == Some(id) {
          assert ps[c].Some?;
          assert definitions[ps[c].value].compilerId == definitions[i].compilerId;
          assert ps[c].value == i;
        }
        assert ps[c] == Some(i) <==> definitions[c].parent == Some(id);
      }
    }
  }

  /* ---------- the recursive numbering ---------- */

  /** The first definition to be numbered has no parent there; any other comes after its parent. */
  ghost predicate JoinsUnder(definitions: seq<RawDefinition>, ps: Parents, order: seq<nat>, index: nat) {
    && index < |definitions| == |ps|
    && match ps[index]
       case None => order == []
       case Some(p) => p in order && p < |definitions| && definitions[index].parent == Some(definitions[p].compilerId)
  }

  /** Below the root the map of children and the parent links are the ones the walk follows. */
  ghost predicate FollowsLinks(definitions: seq<RawDefinition>, children: map<nat, seq<nat>>, ps: Parents,
                               depth: seq<nat>, kids: seq<seq<nat>>, root: nat)
    requires Forest(ps, depth)
  {
    && |kids| == |ps| == |definitions|
    && forall i :: 0 <= i < |ps| && root in Chain(ps, depth, i) ==>
         && kids[i] == Kids(definitions, children)[i]
         && (i != root ==> ps[i].Some? && definitions[i].parent == Some(definitions[ps[i].value].compilerId))
  }

  lemma {:induction false} NumberedGrows(definitions: seq<RawDefinition>, ps: Parents, order: seq<nat>, n: Numbering,
                                         index: nat, n': Numbering)
    requires Numbered(definitions, ps, order, n) && UniqueIds(definitions)
    requires index < |definitions| && index !in order && JoinsUnder(definitions, ps, order, index)
    requires
      var raw := definitions[index];
      var parent :=
        if raw.parent.Some? && raw.parent.value in n.localIds then Some(n.localIds[raw.parent.value]) else None;
      var key := (if parent.Some? && parent.value < |n.output| then n.output[parent.value].key else []) + [Part(raw)];
      && n'.localIds == n.localIds[raw.compilerId := |n.output|]
      && n'.output == n.output + [DefinitionGraphs.Definition(|n.output|, key, raw.kind, parent, raw.origin)]
      && n'.productBases == n.productBases + [raw.productBasis]
    ensures Numbered(definitions, ps, order + [index], n')
  {
    var raw, order' := definitions[index], order + [index];
    forall k | 0 <= k < |order|
      ensures NumberedAt(definitions, ps, order', n', k)
    {
      assert NumberedAt(definitions, ps, order, n, k);
      assert order[k] in order;
      assert definitions[order[k]].compilerId != raw.compilerId;
    }
    if ps[index].Some? {
      var p := ps[index].value;
      var m :| 0 <= m < |order| && order[m] == p;
      assert NumberedAt(definitions, ps, order, n, m);
      assert n.localIds[definitions[p].compilerId] == m;
    }
    assert NumberedAt(definitions, ps, order', n', |order|);
  }

  lemma {:induction false} WalkRemains(prefix: seq<nat>, walk: seq<nat>, rest: seq<nat>, whole: seq<nat>)
    requires prefix + (walk + rest) == whole && Distinct(whole)
    ensures (prefix + walk) + rest == whole && Distinct(prefix + walk)
  {
    assert (prefix + walk) + rest == whole;
    assert forall k :: 0 <= k < |prefix + walk| ==> (prefix + walk)[k] == whole[k];
  }

  /** `append`: numbers `index`, then its children's subtrees in sibling order. */
  method Append(index: nat, definitions: seq<RawDefinition>, children: map<nat, seq<nat>>, n: Numbering,
                ghost ps: Parents, ghost depth: seq<nat>, ghost kids: seq<seq<nat>>, ghost root: nat,
                ghost order: seq<nat>)
    returns (n': Numbering)
    requires |definitions| <= U32_LIMIT && UniqueIds(definitions) && Forest(ps, depth) && ListsChildren(ps, kids)
    requires FollowsLinks(definitions, children, ps, depth, kids, root)
    requires Numbered(definitions, ps, order, n) && index < |definitions| && root in Chain(ps, depth, index)
    requires JoinsUnder(definitions, ps, order, index)
    requires Distinct(order + Walk(ps, depth, kids, index))
    ensures Numbered(definitions, ps, order + Walk(ps, depth, kids, index), n')
    decreases |Subtree(ps, depth, index)|
  {
    hide Subtree;
    hide Chain;
    hide Numbered;
    hide Distinct;
    hide ListsChildren;
    ghost var whole := order + Walk(ps, depth, kids, index);
    var raw := definitions[index];
    n' := AppendOne(index, definitions, n, ps, order, whole);
    ghost var done := order + [index];
    if raw.compilerId in children {
      var indices := children[raw.compilerId];
      ghost var walked := done;
      StartWalk(order, index, WalkFrom(ps, depth, kids, index, 0));
      for k := 0 to |indices|
        invariant indices == kids[index]
        invariant Numbered(definitions, ps, walked, n') && index in walked
        invariant walked + WalkFrom(ps, depth, kids, index, k) == whole
      {
        ChildAt(ps, depth, kids, index, k);
        ChainStep(ps, depth, indices[k], root);
        RootAlone(ps, depth, root, index, indices[k]);
        WalkRemains(walked, Walk(ps, depth, kids, indices[k]), WalkFrom(ps, depth, kids, index, k + 1), whole);
        n' := Append(indices[k], definitions, children, n', ps, depth, kids, root, walked);
        walked := walked + Walk(ps, depth, kids, indices[k]);
      }
      assert walked == whole;
    } else {
      assert done + [] == done;
      assert whole == done;
    }
  }

  /** The root of a chain is nobody's child along it. */
  lemma {:induction false} RootAlone(ps: Parents, depth: seq<nat>, root: nat, i: nat, c: nat)
    requires Forest(ps, depth) && i < |ps| && c < |ps| && ps[c] == Some(i) && root in Chain(ps, depth, i)
    ensures c != root
  {
    hide Chain;
    ChainDepth(ps, depth, i, root);
  }

  lemma {:induction false} StartWalk(order: seq<nat>, index: nat, rest: seq<nat>)
    ensures (order + [index]) + rest == order + ([index] + rest)
    ensures index in order + [index]
  {
    assert (order + [index])[|order|] == index;
  }

  lemma {:induction false} ChildAt(ps: Parents, depth: seq<nat>, kids: seq<seq<nat>>, i: nat, k: nat)
    requires Forest(ps, depth) && ListsChildren(ps, kids) && i < |ps| && k < |kids[i]|
    ensures kids[i][k] < |ps| && ps[kids[i][k]] == Some(i)
    ensures |Subtree(ps, depth, kids[i][k])| < |Subtree(ps, depth, i)|
    ensures WalkFrom(ps, depth, kids, i, k) == Walk(ps, depth, kids, kids[i][k]) + WalkFrom(ps, depth, kids, i, k + 1)
  {
    assert kids[i][k] in kids[i];
    ChildSubtree(ps, depth, i, kids[i][k]);
  }

  /** The pushes at the head of `append`. */
  method AppendOne(index: nat, definitions: seq<RawDefinition>, n: Numbering, ghost ps: Parents, ghost order: seq<nat>,
                   ghost whole: seq<nat>)
    returns (n': Numbering)
    requires |definitions| <= U32_LIMIT && UniqueIds(definitions)
    requires Numbered(definitions, ps, order, n) && JoinsUnder(definitions, ps, order, index)
    requires |whole| > |order| && whole[..|order|] == order && whole[|order|] == index && Distinct(whole)
    ensures Numbered(definitions, ps, order + [index], n')
  {
    var raw := definitions[index];
    var id := |n.output|;
    var parent :=
      if raw.parent.Some? && raw.parent.value in n.localIds then Some(n.localIds[raw.parent.value]) else None;
    var parts := if parent.Some? && parent.value < |n.output| then n.output[parent.value].key else [];
    n' := Numbering(
      n.output + [DefinitionGraphs.Definition(id, parts + [Part(raw)], raw.kind, parent, raw.origin)],
      n.localIds[raw.compilerId := id],
      n.productBases + [raw.productBasis]);
    assert forall k :: 0 <= k < |order| ==> order[k] == whole[k];
    NumberedGrows(definitions, ps, order, n, index, n');
  }

  method FindCrate(definitions: seq<RawDefinition>) returns (root: Option<nat>)
    ensures root.Some? ==> root.value < |definitions| && definitions[root.value].compilerId == CRATE_ID
    ensures root.None? ==> forall i :: 0 <= i < |definitions| ==> definitions[i].compilerId != CRATE_ID
  {
    for i := 0 to |definitions|
      invariant forall k :: 0 <= k < i ==> definitions[k].compilerId != CRATE_ID
    {
      if definitions[i].compilerId == CRATE_ID {
        return Some(i);
      }
    }
    root := None;
  }

  /** `canonicalize_definitions`, on definitions with unique compiler ids of which the crate root is not below itself:
      otherwise the recursion would not end. Parent cycles elsewhere are never walked and show in the length. */
  method Canonicalize(definitions: seq<RawDefinition>, ghost ps: Parents)
    returns (r: Result<Numbering, DefinitionError>, ghost depth: seq<nat>, ghost order: seq<nat>)
    requires |definitions| <= U32_LIMIT && |ps| == |definitions| && UniqueIds(definitions) && Links(definitions, ps)
    requires CrateAtTop(definitions, ps)
    ensures r.Ok? <==> RootedAtCrate(definitions, ps)
    ensures r.Ok? ==>
      Forest(ps, depth) && CanonicalOrder(definitions, ps, depth, order) && Numbered(definitions, ps, order, r.value)
  {
    hide Walk;
    hide Chain;
    hide Reaches;
    hide Numbered;
    hide CanonicalOrder;
    hide ListsChildren;
    hide FollowsLinks;
    hide JoinsUnder;
    hide Links;
    hide Sorted;
    depth, order := [], [];
    var root := FindCrate(definitions);
    if root.None? {
      return Err(IncompleteDefinition), depth, order;
    }
    assert AtTop(ps, root.value);
    var complete := ParentsPresent(definitions, root.value, ps);
    if !complete {
      SomebodyLost(definitions, ps, root.value);
      return Err(IncompleteDefinition), depth, order;
    }
    var children := ChildrenOf(definitions, ps);
    ghost var below, kids := TreeBelow(ps, root.value), KidsBelow(ps, Kids(definitions, children), root.value);
    depth := DepthBelow(ps, root.value);
    BelowForest(ps, Kids(definitions, children), root.value);
    StartBelow(definitions, children, ps, root.value);
    WalkBelow(ps, depth, kids, root.value);
    order := Walk(below, depth, kids, root.value);
    NothingNumbered(definitions, below);
    assert [] + order == order;
    var n := Append(root.value, definitions, children, Numbering([], map[], []), below, depth, kids, root.value, []);
    NumberedSize(definitions, below, order, n);
    CompleteList(order, |definitions|);
    OnlyCrate(definitions, ps, root.value);
    if |n.output| != |definitions| {
      return Err(IncompleteDefinition), depth, order;
    }
    LinksInside(definitions, ps, root.value);
    NothingCut(ps, root.value);
    RootedParents(ps, root.value);
    KidsSorted(definitions, children, ps, root.value);
    WalkIsCanonical(definitions, ps, depth, kids, root.value);
    r := Ok(n);
  }

  lemma {:induction false} LinksInside(definitions: seq<RawDefinition>, ps: Parents, i: nat)
    requires |ps| == |definitions| && Links(definitions, ps) && i < |ps|
    ensures ps[i].Some? ==> ps[i].value < |ps| && definitions[i].parent == Some(definitions[ps[i].value].compilerId)
  {
    assert LinkedAt(definitions, ps, i);
  }

  lemma {:induction false} RootedParents(ps: Parents, root: nat)
    requires root < |ps| && forall i :: 0 <= i < |ps| ==> Reaches(ps, root, i)
    ensures forall i :: 0 <= i < |ps| && i != root ==> ps[i].Some?
  {
    forall i | 0 <= i < |ps| && i != root
      ensures ps[i].Some?
    {
      NotRootHasParent(ps, root, i);
    }
  }

  /** The lists the walk meets are among the sorted ones. */
  lemma {:induction false} KidsSorted(definitions: seq<RawDefinition>, children: map<nat, seq<nat>>, ps: Parents,
                                      root: nat)
    requires |ps| == |definitions|
    requires forall j :: 0 <= j < |definitions| ==> Sorted(Kids(definitions, children)[j], SiblingOrder(definitions))
    ensures forall j :: 0 <= j < |definitions| ==>
      Sorted(KidsBelow(ps, Kids(definitions, children), root)[j], SiblingOrder(definitions))
  {
  }

  /** What the first call of `append` needs. */
  lemma {:induction false} StartBelow(definitions: seq<RawDefinition>, children: map<nat, seq<nat>>, ps: Parents,
                                      root: nat)
    requires |ps| == |definitions| && Links(definitions, ps) && AtTop(ps, root)
    requires Forest(TreeBelow(ps, root), DepthBelow(ps, root))
    ensures FollowsLinks(definitions, children, TreeBelow(ps, root), DepthBelow(ps, root),
                         KidsBelow(ps, Kids(definitions, children), root), root)
    ensures root in Chain(TreeBelow(ps, root), DepthBelow(ps, root), root)
    ensures JoinsUnder(definitions, TreeBelow(ps, root), [], root)
  {
    hide Chain;
    hide Reaches;
    hide Links;
    var below, depth := TreeBelow(ps, root), DepthBelow(ps, root);
    forall i | 0 <= i < |ps| && root in Chain(below, depth, i)
      ensures Reaches(ps, root, i)
      ensures i != root ==> below[i].Some? && definitions[i].parent == Some(definitions[below[i].value].compilerId)
    {
      BelowReaches(ps, depth, root, i);
      LinksInside(definitions, ps, i);
      if i != root { NotRootHasParent(ps, root, i); }
    }
    RootReaches(ps, root);
    BelowReaches(ps, depth, root, root);
  }

  method ParentsPresent(definitions: seq<RawDefinition>, root: nat, ghost ps: Parents) returns (complete: bool)
    requires |ps| == |definitions| && Links(definitions, ps) && root < |definitions|
    ensures complete <==> forall i :: 0 <= i < |ps| && i != root ==> ps[i].Some?
  {
    var ids := set d | d in definitions :: d.compilerId;
    OrphansAgree(definitions, ps, ids);
    complete := !exists i | 0 <= i < |definitions| ::
      i != root && (definitions[i].parent.None? || definitions[i].parent.value !in ids);
  }

  /** There is one crate root, so being rooted at it is every node reaching it. */
  lemma {:induction false} OnlyCrate(definitions: seq<RawDefinition>, ps: Parents, root: nat)
    requires |ps| == |definitions| && UniqueIds(definitions) && root < |definitions|
    requires definitions[root].compilerId == CRATE_ID
    ensures RootedAtCrate(definitions, ps) <==> forall i :: 0 <= i < |ps| ==> Reaches(ps, root, i)
  {
    hide Reaches;
    assert forall other :: 0 <= other < |ps| && definitions[other].compilerId == CRATE_ID ==> other == root;
  }

  lemma {:induction false} SomebodyLost(definitions: seq<RawDefinition>, ps: Parents, root: nat)
    requires |ps| == |definitions| && UniqueIds(definitions) && root < |definitions|
    requires definitions[root].compilerId == CRATE_ID
    requires !forall i :: 0 <= i < |ps| && i != root ==> ps[i].Some?
    ensures !RootedAtCrate(definitions, ps)
  {
    hide Reaches;
    OnlyCrate(definitions, ps, root);
    if RootedAtCrate(definitions, ps) {
      RootedParents(ps, root);
    }
  }

  method ChildrenOf(definitions: seq<RawDefinition>, ghost ps: Parents) returns (children: map<nat, seq<nat>>)
    requires UniqueIds(definitions) && Links(definitions, ps)
    ensures ListsChildren(ps, Kids(definitions, children))
    ensures forall j :: 0 <= j < |definitions| ==> Sorted(Kids(definitions, children)[j], SiblingOrder(definitions))
  {
    var grouped := GroupChildren(definitions);
    children := SortChildren(definitions, grouped);
    KidsListChildren(definitions, ps, children);
  }

  lemma {:induction false} NothingNumbered(definitions: seq<RawDefinition>, ps: Parents)
    requires |ps| == |definitions|
    ensures Numbered(definitions, ps, [], Numbering([], map[], []))
  {
  }

  lemma {:induction false} NumberedSize(definitions: seq<RawDefinition>, ps: Parents, order: seq<nat>, n: Numbering)
    requires Numbered(definitions, ps, order, n)
    ensures |n.output| == |order|
  {
  }

  lemma {:induction false} WalkIsCanonical(definitions: seq<RawDefinition>, ps: Parents, depth: seq<nat>,
                                           kids: seq<seq<nat>>, root: nat)
    requires |ps| == |definitions| && Forest(ps, depth) && ListsChildren(ps, kids) && root < |ps|
    requires forall j :: 0 <= j < |ps| && j != root ==> ps[j].Some?
    requires forall j :: 0 <= j < |kids| ==> Sorted(kids[j], SiblingOrder(definitions))
    ensures CanonicalOrder(definitions, ps, depth, Walk(ps, depth, kids, root))
  {
    hide Walk;
    hide PreorderAfter;
    hide Sorted;
    hide SiblingsOrdered;
    RootParentless(ps, depth, root);
    WalkCovers(ps, depth, kids, root);
    WalkPreorder(ps, depth, kids, root);
    WalkSiblings(ps, depth, kids, root, SiblingOrder(definitions));
  }

  /** A definition without a parent in the id map is one without a link. */
  lemma {:induction false} OrphansAgree(definitions: seq<RawDefinition>, ps: Parents, ids: set<nat>)
    requires |ps| == |definitions| && Links(definitions, ps) && (ids == set d | d in definitions :: d.compilerId)
    ensures forall i :: 0 <= i < |ps| ==>
      (ps[i].None? <==> definitions[i].parent.None? || definitions[i].parent.value !in ids)
  {
    forall i | 0 <= i < |ps|
      ensures ps[i].None? <==> definitions[i].parent.None? || definitions[i].parent.value !in ids
    {
      assert LinkedAt(definitions, ps, i);
      if ps[i].Some? {
        assert definitions[ps[i].value] in definitions;
      } else if definitions[i].parent.Some? {
        forall d | d in definitions
          ensures d.compilerId != definitions[i].parent.value
        {
          var j :| 0 <= j < |definitions| && definitions[j] == d;
        }
      }
    }
  }

  /* ---------- what the numbering guarantees ---------- */

  /** The id map is a bijection between the definitions and `0..n`. */
  lemma {:induction false} LocalIdsBijective(definitions: seq<RawDefinition>, ps: Parents, depth: seq<nat>,
                                             order: seq<nat>, n: Numbering)
    requires |ps| == |definitions| && Forest(ps, depth) && UniqueIds(definitions)
    requires CanonicalOrder(definitions, ps, depth, order) && Numbered(definitions, ps, order, n)
    ensures |n.output| == |definitions|
    ensures forall i :: 0 <= i < |definitions| ==> NumberOfDefinition(definitions, order, n, i)
    ensures forall k :: 0 <= k < |definitions| ==> DefinitionNumbered(definitions, order, n, k)
  {
    forall k | 0 <= k < |order|
      ensures 0 <= order[k] < |definitions| && definitions[order[k]].compilerId in n.localIds
      ensures n.localIds[definitions[order[k]].compilerId] == k
    {
      assert NumberedAt(definitions, ps, order, n, k);
    }
    forall i | 0 <= i < |definitions|
      ensures NumberOfDefinition(definitions, order, n, i)
    {
      assert i in order;
      var k :| 0 <= k < |order| && order[k] == i;
      assert n.localIds[definitions[order[k]].compilerId] == k;
    }
  }

  ghost predicate NumberOfDefinition(definitions: seq<RawDefinition>, order: seq<nat>, n: Numbering, i: nat)
    requires i < |definitions|
  {
    && definitions[i].compilerId in n.localIds
    && n.localIds[definitions[i].compilerId] < |order|
    && order[n.localIds[definitions[i].compilerId]] == i
  }

  ghost predicate DefinitionNumbered(definitions: seq<RawDefinition>, order: seq<nat>, n: Numbering, k: nat) {
    && k < |order| && order[k] < |definitions|
    && definitions[order[k]].compilerId in n.localIds && n.localIds[definitions[order[k]].compilerId] == k
  }

  /** Siblings never share a key part. */
  ghost predicate SiblingsDiffer(definitions: seq<RawDefinition>, ps: Parents)
    requires |ps| == |definitions|
  {
    forall i, j :: 0 <= i < |ps| && 0 <= j < |ps| && i != j && ps[i] == ps[j] ==>
      Part(definitions[i]) != Part(definitions[j])
  }

  /** Every origin that carries an ordinal carries the structural one. */
  predicate OrdinalsRecorded(definitions: seq<RawDefinition>) {
    forall i :: 0 <= i < |definitions| ==> DefinitionGraphs.OrdinalAgrees(definitions[i].origin, Part(definitions[i]))
  }

  lemma {:induction false} KeysDistinct(definitions: seq<RawDefinition>, ps: Parents, order: seq<nat>, n: Numbering,
                                        k: nat, l: nat)
    requires Numbered(definitions, ps, order, n) && SiblingsDiffer(definitions, ps)
    requires k < |order| && l < |order| && Distinct(order)
    requires n.output[k].key == n.output[l].key
    ensures k == l
    decreases k
  {
    assert NumberedAt(definitions, ps, order, n, k) && NumberedAt(definitions, ps, order, n, l);
    var a, b := n.output[k].key, n.output[l].key;
    assert a[|a| - 1] == Part(definitions[order[k]]) && b[|b| - 1] == Part(definitions[order[l]]);
    KeyLengths(definitions, ps, order, n, k);
    KeyLengths(definitions, ps, order, n, l);
    if ps[order[k]].Some? && ps[order[l]].Some? {
      var p, q := n.output[k].parent.value, n.output[l].parent.value;
      assert a[..|a| - 1] == n.output[p].key && b[..|b| - 1] == n.output[q].key;
      KeysDistinct(definitions, ps, order, n, p, q);
    }
    assert ps[order[k]] == ps[order[l]];
  }

  lemma {:induction false} KeyLengths(definitions: seq<RawDefinition>, ps: Parents, order: seq<nat>, n: Numbering,
                                      k: nat)
    requires Numbered(definitions, ps, order, n) && k < |order|
    ensures order[k] < |ps| && (ps[order[k]].None? <==> |n.output[k].key| == 1)
  {
    assert NumberedAt(definitions, ps, order, n, k);
    if ps[order[k]].Some? {
      assert NumberedAt(definitions, ps, order, n, n.output[k].parent.value);
    }
  }

  ghost predicate CrateRooted(definitions: seq<RawDefinition>, ps: Parents)
    requires |ps| == |definitions|
  {
    && RootedAtCrate(definitions, ps)
    && forall i :: 0 <= i < |ps| && ps[i].None? ==>
         definitions[i].kind == Crate && definitions[i].origin.Written? && definitions[i].origin.unitKind == CrateRoot
  }

  /** The local-definition checks of the graph constructor cannot fail on a canonical numbering. */
  lemma {:induction false} CanonicalLocalsValid(definitions: seq<RawDefinition>, ps: Parents, depth: seq<nat>,
                                                order: seq<nat>, n: Numbering)
    requires |ps| == |definitions| && Forest(ps, depth) && CrateRooted(definitions, ps)
    requires SiblingsDiffer(definitions, ps) && OrdinalsRecorded(definitions)
    requires CanonicalOrder(definitions, ps, depth, order) && Numbered(definitions, ps, order, n)
    ensures DefinitionGraphs.LocalsValid(n.output)
    ensures SortBy(n.output, DefinitionGraphs.DefinitionLe) == n.output
  {
    var ds := n.output;
    assert |ds| == |order|;
    assert Distinct(order);
    hide CrateRooted;
    hide CanonicalOrder;
    hide Numbered;
    hide SiblingsDiffer;
    hide OrdinalsRecorded;
    hide Forest;
    hide DefinitionGraphs.DefinitionValid;
    hide DefinitionGraphs.RootValid;
    hide DefinitionGraphs.LocalsValid;
    hide Distinct;
    forall k | 0 <= k < |ds|
      ensures ds[k].id == k && DefinitionGraphs.DefinitionValid(ds, k)
    {
      EntryValid(definitions, ps, order, n, k);
    }
    CanonicalRoot(definitions, ps, depth, order, n);
    forall k, l | 0 <= k < l < |ds|
      ensures ds[k].key != ds[l].key
    {
      if ds[k].key == ds[l].key { KeysDistinct(definitions, ps, order, n, k, l); }
    }
    DefinitionGraphs.LocalsHold(ds);
  }

  lemma {:induction false} EntryValid(definitions: seq<RawDefinition>, ps: Parents, order: seq<nat>, n: Numbering,
                                      k: nat)
    requires Numbered(definitions, ps, order, n) && OrdinalsRecorded(definitions) && k < |order|
    ensures n.output[k].id == k && DefinitionGraphs.DefinitionValid(n.output, k)
  {
    assert NumberedAt(definitions, ps, order, n, k);
    var o := n.output[k];
    assert o.key[|o.key| - 1] == Part(definitions[order[k]]);
    if o.parent.Some? {
      assert o.key[..|o.key| - 1] == n.output[o.parent.value].key;
    }
  }

  lemma {:induction false} CanonicalRoot(definitions: seq<RawDefinition>, ps: Parents, depth: seq<nat>,
                                         order: seq<nat>, n: Numbering)
    requires |ps| == |definitions| && Forest(ps, depth) && CrateRooted(definitions, ps)
    requires CanonicalOrder(definitions, ps, depth, order) && Numbered(definitions, ps, order, n)
    ensures DefinitionGraphs.RootValid(n.output)
  {
    hide PreorderAfter;
    hide SiblingsOrdered;
    hide Reaches;
    var root :| 0 <= root < |ps| && definitions[root].compilerId == CRATE_ID && forall i :: 0 <= i < |ps| ==>
      Reaches(ps, root, i);
    RootedParents(ps, root);
    RootParentless(ps, depth, root);
    assert root in order;
    var r :| 0 <= r < |order| && order[r] == root;
    assert NumberedAt(definitions, ps, order, n, r);
    forall i | 0 <= i < |n.output| && i != r
      ensures n.output[i].parent.Some?
    {
      assert NumberedAt(definitions, ps, order, n, i);
    }
  }

  /* ---------- after a successful ordinal assignment ---------- */

  /** What the assignment leaves behind is a forest whose siblings have different key parts. */
  lemma {:induction false} AssignedForest(before: seq<RawDefinition>, coordinates: Option<Rewrite.SourceRewrite>,
                                          vs: seq<View>, expected: Option<Universe>, now: seq<RawDefinition>)
    returns (ps: Parents, depth: seq<nat>)
    requires Viewed(before, coordinates, vs) && Accepts(vs, expected) && |now| == |vs|
    requires UniqueIds(before)
    requires forall i :: 0 <= i < |vs| ==> IdentityAssignment.OverwrittenAt(vs, expected, before, now, i)
    ensures UniqueIds(now) && Links(now, ps) && Forest(ps, depth)
    ensures forall i :: 0 <= i < |ps| ==> (ps[i].None? <==> now[i].parent.None?)
    ensures SiblingsDiffer(now, ps) && OrdinalsRecorded(now)
  {
    hide ViewOf;
    hide Assigned;
    hide SamePublic;
    hide PrivateSeparated;
    hide IdentityAssignment.OverwrittenAt;
    hide ParentIdentity;
    hide Part;
    hide LinkedAt;
    hide ParentIndex;
    hide Inside;
    hide ParentList;
    hide DepthList;
    ps, depth := ParentList(vs), DepthList(vs);
    forall i | 0 <= i < |vs|
      ensures KeptFields(before[i], now[i], vs[i]) && DefinitionGraphs.OrdinalAgrees(now[i].origin, Part(now[i]))
    {
      AssignedKeeps(before, coordinates, vs, expected, now, i);
    }
    forall i | 0 <= i < |vs|
      ensures ps[i].None? <==> now[i].parent.None?
      ensures ps[i].Some? ==> ps[i].value < |ps| && depth[i] == depth[ps[i].value] + 1
      ensures LinkedAt(now, ps, i)
    {
      ViewForest(vs, i);
      LinkKept(vs, now, ps, i);
    }
    forall i, j | 0 <= i < |ps| && 0 <= j < |ps| && i != j && ps[i] == ps[j]
      ensures Part(now[i]) != Part(now[j])
    {
      PartsSeparate(before, coordinates, vs, expected, now, i, j);
    }
  }

  ghost function ParentList(vs: seq<View>): (ps: Parents)
    requires AllInside(vs)
    ensures |ps| == |vs|
  {
    seq(|vs|, i requires 0 <= i < |vs| => match ParentIndex(vs, i) case None => None case Some(p) => p)
  }

  ghost function DepthList(vs: seq<View>): (depth: seq<nat>)
    requires AllInside(vs)
    ensures |depth| == |vs|
  {
    seq(|vs|, i requires 0 <= i < |vs| => |IdentityOf(vs, i)|)
  }

  lemma {:induction false} ViewForest(vs: seq<View>, i: nat)
    requires AllInside(vs) && i < |vs|
    ensures ParentList(vs)[i].None? <==> vs[i].parent.None?
    ensures
      var p := ParentList(vs)[i];
      p.Some? ==>
        p.value < |vs| && vs[i].parent == Some(vs[p.value].compilerId) && DepthList(vs)[i] == DepthList(vs)[p.value] + 1
  {
    hide PartOf;
    hide IdentityOf;
    IdentityStep(vs, i);
  }

  lemma {:induction false} LinkKept(vs: seq<View>, now: seq<RawDefinition>, ps: Parents, i: nat)
    requires |ps| == |now| == |vs| && i < |vs|
    requires forall j :: 0 <= j < |vs| ==> now[j].parent == vs[j].parent && now[j].compilerId == vs[j].compilerId
    requires ps[i].None? <==> vs[i].parent.None?
    requires ps[i].Some? ==> ps[i].value < |vs| && vs[i].parent == Some(vs[ps[i].value].compilerId)
    ensures LinkedAt(now, ps, i)
  {
  }

  predicate KeptFields(before: RawDefinition, now: RawDefinition, view: View) {
    && now.compilerId == before.compilerId == view.compilerId
    && now.parent == before.parent == view.parent
    && now.kind == before.kind == view.kind
    && now.name == before.name == view.name
    && now.origin.Key() == before.origin.Key()
  }

  lemma {:induction false} AssignedKeeps(before: seq<RawDefinition>, coordinates: Option<Rewrite.SourceRewrite>,
                                         vs: seq<View>, expected: Option<Universe>, now: seq<RawDefinition>, i: nat)
    requires Viewed(before, coordinates, vs) && Accepts(vs, expected) && |now| == |vs| && i < |vs|
    requires IdentityAssignment.OverwrittenAt(vs, expected, before, now, i)
    ensures KeptFields(before[i], now[i], vs[i])
    ensures DefinitionGraphs.OrdinalAgrees(now[i].origin, Part(now[i]))
  {
    hide NormalizeOriginKey;
    hide NormalizeSources;
    hide WellFormedBasis;
    hide Accepts;
    hide Assigned;
    assert ViewOf(before[i], coordinates) == Ok(vs[i]);
  }

  /** Siblings with the same public description received different ordinals. */
  lemma {:induction false} PartsSeparate(before: seq<RawDefinition>, coordinates: Option<Rewrite.SourceRewrite>,
                                         vs: seq<View>, expected: Option<Universe>, now: seq<RawDefinition>, i: nat,
                                         j: nat)
    requires Viewed(before, coordinates, vs) && Accepts(vs, expected) && |now| == |vs| && i < |vs| && j < |vs| && i != j
    requires IdentityAssignment.OverwrittenAt(vs, expected, before, now, i)
    requires IdentityAssignment.OverwrittenAt(vs, expected, before, now, j)
    requires ParentList(vs)[i] == ParentList(vs)[j]
    ensures Part(now[i]) != Part(now[j])
  {
    if Part(now[i]) == Part(now[j]) {
      InsideParent(vs, i);
      InsideParent(vs, j);
      OrdinalsSeparate(before, coordinates, vs, expected, now, i, j);
    }
  }

  lemma {:induction false} OrdinalsSeparate(before: seq<RawDefinition>, coordinates: Option<Rewrite.SourceRewrite>,
                                            vs: seq<View>, expected: Option<Universe>, now: seq<RawDefinition>,
                                            i: nat, j: nat)
    requires Viewed(before, coordinates, vs) && Accepts(vs, expected) && |now| == |vs| && i < |vs| && j < |vs| && i != j
    requires IdentityAssignment.OverwrittenAt(vs, expected, before, now, i)
    requires IdentityAssignment.OverwrittenAt(vs, expected, before, now, j)
    requires ParentIndex(vs, i) == ParentIndex(vs, j)
    requires now[i].kind == now[j].kind && now[i].name == now[j].name && now[i].origin.Key() == now[j].origin.Key()
    ensures now[i].structuralOrdinal != now[j].structuralOrdinal
  {
    AssignedKeeps(before, coordinates, vs, expected, now, i);
    AssignedKeeps(before, coordinates, vs, expected, now, j);
    SameOriginView(before[i], before[j], coordinates, vs[i], vs[j]);
    hide ViewOf;
    hide ParentIndex;
    hide Within;
    hide PublicRank;
    assert SamePublic(vs, i, j);
    AssignedSeparates(vs, expected, i, j);
  }

  lemma {:induction false} SameOriginView(a: RawDefinition, b: RawDefinition,
                                          coordinates: Option<Rewrite.SourceRewrite>, va: View, vb: View)
    requires ViewOf(a, coordinates) == Ok(va) && ViewOf(b, coordinates) == Ok(vb)
    requires a.kind == b.kind && a.origin.Key() == b.origin.Key()
    ensures va.origin == vb.origin
  {
    hide NormalizeOriginKey;
    hide NormalizeSources;
    hide WellFormedBasis;
  }

  lemma {:induction false} AssignedSeparates(vs: seq<View>, expected: Option<Universe>, i: nat, j: nat)
    requires Accepts(vs, expected) && i < |vs| && j < |vs| && i != j && SamePublic(vs, i, j)
    ensures Assigned(vs, expected, i) != Assigned(vs, expected, j)
  {
    if expected.None? {
      IdentityStability.PublicRankSeparates(vs, i, j);
    }
  }

  /** Assignment, then numbering, then the local checks of the graph constructor: on a single-rooted input
      with unique compiler ids, nothing after the assignment can fail. */
  method NumberAssigned(definitions: array<RawDefinition>, coordinates: Option<Rewrite.SourceRewrite>,
                        expected: Option<Universe>)
    returns (r: Result<Numbering, DefinitionError>)
    requires definitions.Length <= U32_LIMIT && UniqueIds(definitions[..])
    requires SingleCrateRoot(definitions[..])
    modifies definitions
    ensures r.Ok?
      <==> Viewable(old(definitions[..]), coordinates) && Accepts(ViewsOf(old(definitions[..]), coordinates), expected)
    ensures r.Ok? ==> DefinitionGraphs.LocalsValid(r.value.output) && |r.value.output| == definitions.Length
  {
    ghost var before := definitions[..];
    var universe := IdentityAssignment.AssignStructuralOrdinals(definitions, coordinates, expected);
    if universe.Err? {
      return Err(universe.error);
    }
    ghost var now := definitions[..];
    ghost var ps, depth := AssignedForest(before, coordinates, ViewsOf(before, coordinates), expected, now);
    RootStays(before, coordinates, ViewsOf(before, coordinates), expected, now, ps, depth);
    ghost var order;
    r, depth, order := Canonicalize(definitions[..], ps);
    LocalIdsBijective(now, ps, depth, order, r.value);
    CanonicalLocalsValid(now, ps, depth, order, r.value);
  }

  /** One definition without a parent: the crate root, written as such. */
  ghost predicate SingleCrateRoot(definitions: seq<RawDefinition>) {
    exists root :: 0 <= root < |definitions| && IsCrateRoot(definitions[root])
      && forall i :: 0 <= i < |definitions| && i != root ==> definitions[i].parent.Some?
  }

  predicate IsCrateRoot(d: RawDefinition) {
    d.compilerId == CRATE_ID && d.parent.None? && d.kind == Crate && d.origin.Written? && d.origin.unitKind == CrateRoot
  }

  lemma {:induction false} RootStays(before: seq<RawDefinition>, coordinates: Option<Rewrite.SourceRewrite>,
                                     vs: seq<View>, expected: Option<Universe>, now: seq<RawDefinition>,
                                     ps: Parents, depth: seq<nat>)
    requires Viewed(before, coordinates, vs) && Accepts(vs, expected) && |now| == |vs| == |ps|
    requires Forest(ps, depth) && UniqueIds(now)
    requires forall i :: 0 <= i < |vs| ==> IdentityAssignment.OverwrittenAt(vs, expected, before, now, i)
    requires forall i :: 0 <= i < |ps| ==> (ps[i].None? <==> now[i].parent.None?)
    requires SingleCrateRoot(before)
    ensures CrateRooted(now, ps) && CrateAtTop(now, ps)
  {
    hide Reaches;
    hide ViewOf;
    hide Accepts;
    hide Assigned;
    forall i | 0 <= i < |vs|
      ensures now[i].parent == before[i].parent && now[i].compilerId == before[i].compilerId
      ensures now[i].kind == before[i].kind
      ensures before[i].origin.Written? ==> now[i].origin == before[i].origin
    {
      assert IdentityAssignment.OverwrittenAt(vs, expected, before, now, i);
    }
    var root :| 0 <= root < |before| && IsCrateRoot(before[root])
      && forall i :: 0 <= i < |before| && i != root ==> before[i].parent.Some?;
    assert now[root].compilerId == CRATE_ID;
    RootParentless(ps, depth, root);
    forall i | 0 <= i < |ps|
      ensures Reaches(ps, root, i)
    {
      ForestReaches(ps, depth, root, i);
    }
  }
}
