/** `assign_structural_ordinals` as it runs: cohorts, memoised identity paths, lookup and overwrite
    (src/definitions.rs, lines 1041-1254). */
module IdentityAssignment {
  import opened Wrappers
  import opened Text
  import opened Ordering
  import opened Rewrite
  import opened GraphKeys
  import opened Definitions
  import opened IdentityFields

  method CollectViews(definitions: seq<RawDefinition>, coordinates: Option<SourceRewrite>)
    returns (r: Result<seq<View>, DefinitionError>)
    ensures r.Ok? <==> Viewable(definitions, coordinates)
    ensures r.Ok? ==> Viewed(definitions, coordinates, r.value)
  {
    var views: seq<View> := [];
    for i := 0 to |definitions|
      invariant |views| == i
      invariant forall k :: 0 <= k < i ==> ViewOf(definitions[k], coordinates) == Ok(views[k])
    {
      var view := ViewOf(definitions[i], coordinates);
      if view.Err? {
        return Err(view.error);
      }
      views := views + [view.value];
    }
    r := Ok(views);
  }

  /* ---------- private ordinals ---------- */

  datatype CohortKey = CohortKey(
    parent: Option<nat>, origin: DefinitionOriginKey, basis: ProductBasis, kind: DefinitionKind, name: Option<string>)

  function CohortOf(vs: seq<View>, i: nat): CohortKey {
    if i < |vs| then CohortKey(vs[i].parent, vs[i].origin, vs[i].basis, vs[i].kind, vs[i].name)
    else CohortKey(None, CompilerGeneratedKey(NestedStatic), None, Crate, None)
  }

  function OrdinalAt(vs: seq<View>, i: nat): nat {
    if i < |vs| then vs[i].ordinal else 0
  }

  predicate AscendingOrdinals(vs: seq<View>, members: seq<nat>) {
    forall a, b :: 0 <= a < b < |members| ==> OrdinalAt(vs, members[a]) < OrdinalAt(vs, members[b])
  }

  /** Sorts a cohort by compiler ordinal; fails when two members share one. */
  method SortByOrdinal(vs: seq<View>, members: seq<nat>) returns (r: Option<seq<nat>>)
    requires Distinct(members)
    ensures r.None? <==> SharedOrdinal(vs, members)
    ensures r.Some? ==> AscendingOrdinals(vs, r.value) && forall i :: i in r.value <==> i in members
  {
    var le := (a: nat, b: nat) => OrdinalAt(vs, a) <= OrdinalAt(vs, b);
    var sorted := SortBy(members, le);
    SortSorts(members, le);
    DistinctKeysPermutation(members, sorted, (i: nat) => i);
    var strict := StrictOrdinals(vs, sorted);
    OrdinalsSeparate(vs, members, sorted);
    r := if strict then Some(sorted) else None;
  }

  /** The adjacent comparison after the sort. */
  method StrictOrdinals(vs: seq<View>, sorted: seq<nat>) returns (strict: bool)
    requires Sorted(sorted, (a: nat, b: nat) => OrdinalAt(vs, a) <= OrdinalAt(vs, b))
    ensures strict <==> AscendingOrdinals(vs, sorted)
  {
    var le := (a: nat, b: nat) => OrdinalAt(vs, a) <= OrdinalAt(vs, b);
    for k := 0 to |sorted|
      invariant AscendingOrdinals(vs, sorted[..k])
    {
      if k > 0 {
        assert le(sorted[k - 1], sorted[k]) && sorted[..k][k - 1] == sorted[k - 1];
        if OrdinalAt(vs, sorted[k - 1]) == OrdinalAt(vs, sorted[k]) {
          return false;
        }
      }
    }
    assert sorted[..|sorted|] == sorted;
    strict := true;
  }

  ghost predicate SharedOrdinal(vs: seq<View>, members: seq<nat>) {
    exists a, b :: a in members && b in members && a != b && OrdinalAt(vs, a) == OrdinalAt(vs, b)
  }

  lemma {:induction false} OrdinalsSeparate(vs: seq<View>, members: seq<nat>, sorted: seq<nat>)
    requires Distinct(sorted) && Sorted(sorted, (a: nat, b: nat) => OrdinalAt(vs, a) <= OrdinalAt(vs, b))
    requires forall i :: i in sorted <==> i in members
    ensures AscendingOrdinals(vs, sorted) <==> !SharedOrdinal(vs, members)
  {
    var le := (a: nat, b: nat) => OrdinalAt(vs, a) <= OrdinalAt(vs, b);
    if AscendingOrdinals(vs, sorted) {
      forall a, b | a in members && b in members && a != b
        ensures OrdinalAt(vs, a) != OrdinalAt(vs, b)
      {
        assert a in sorted && b in sorted;
        var x :| 0 <= x < |sorted| && sorted[x] == a;
        var y :| 0 <= y < |sorted| && sorted[y] == b;
      }
    } else {
      var x, y :| 0 <= x < y < |sorted| && OrdinalAt(vs, sorted[x]) >= OrdinalAt(vs, sorted[y]);
      assert le(sorted[x], sorted[y]);
      assert sorted[x] in sorted && sorted[y] in sorted;
    }
  }

  lemma {:induction false} CohortRank(vs: seq<View>, sorted: seq<nat>, k: nat)
    requires k < |sorted| && AscendingOrdinals(vs, sorted) && sorted[k] < |vs|
    requires forall j: nat :: j in sorted <==> j < |vs| && SamePrivate(vs, sorted[k], j)
    ensures PrivateRank(vs, sorted[k]) == k
  {
    var ordinal := (j: nat) => OrdinalAt(vs, j);
    RankIsPosition(sorted, ordinal, k);
    assert Below(sorted, ordinal, ordinal(sorted[k])) == PrivateBelow(vs, sorted[k]);
  }

  /** The ranks of one sorted cohort. */
  method NumberCohort(vs: seq<View>, sorted: seq<nat>, ranks: seq<nat>) returns (ranks': seq<nat>)
    requires |ranks| == |vs| && AscendingOrdinals(vs, sorted)
    requires forall i: nat, j: nat :: i in sorted ==> i < |vs| && (j in sorted <==> j < |vs| && SamePrivate(vs, i, j))
    ensures |ranks'| == |vs|
    ensures forall i :: 0 <= i < |vs| ==> ranks'[i] == if i in sorted then PrivateRank(vs, i) else ranks[i]
  {
    ranks' := ranks;
    for k := 0 to |sorted|
      invariant |ranks'| == |vs|
      invariant forall i :: 0 <= i < |vs| ==> ranks'[i] == if i in sorted[..k] then PrivateRank(vs, i) else ranks[i]
    {
      assert sorted[k] in sorted;
      CohortRank(vs, sorted, k);
      ranks' := ranks'[sorted[k] := k];
      assert sorted[..k + 1] == sorted[..k] + [sorted[k]];
    }
    assert sorted[..|sorted|] == sorted;
  }

  /** The grouping by product cohort, free of the closure that computed it. */
  ghost predicate Cohorts(vs: seq<View>, groups: map<CohortKey, seq<nat>>) {
    && (forall i :: 0 <= i < |vs| ==> CohortOf(vs, i) in groups && i in groups[CohortOf(vs, i)])
    && (forall key :: key in groups ==> Distinct(groups[key]))
    && (forall key, i {:trigger i in groups[key]} :: key in groups && i in groups[key] ==>
          i < |vs| && CohortOf(vs, i) == key)
  }

  method GroupCohorts(vs: seq<View>) returns (groups: map<CohortKey, seq<nat>>)
    ensures Cohorts(vs, groups)
  {
    ghost var keyOf := (i: nat) => CohortOf(vs, i);
    groups := GroupBy(|vs|, (i: nat) => CohortOf(vs, i));
    assert Partitions(|vs|, keyOf, groups);
    forall i | 0 <= i < |vs|
      ensures CohortOf(vs, i) in groups && i in groups[CohortOf(vs, i)]
    {
      assert keyOf(i) in groups;
    }
    forall key, i | key in groups && i in groups[key]
      ensures i < |vs| && CohortOf(vs, i) == key
    {
      assert keyOf(i) == key;
    }
  }

  lemma {:induction false} GroupIsCohort(vs: seq<View>, groups: map<CohortKey, seq<nat>>, key: CohortKey)
    requires Cohorts(vs, groups) && key in groups
    ensures forall i: nat, j: nat :: i in groups[key] ==>
      i < |vs| && (j in groups[key] <==> j < |vs| && SamePrivate(vs, i, j))
  {
    forall i: nat, j: nat | i in groups[key]
      ensures i < |vs| && (j in groups[key] <==> j < |vs| && SamePrivate(vs, i, j))
    {
      if j < |vs| { CohortIffSamePrivate(vs, i, j); }
    }
  }

  lemma {:induction false} CohortIffSamePrivate(vs: seq<View>, i: nat, j: nat)
    requires i < |vs| && j < |vs|
    ensures CohortOf(vs, i) == CohortOf(vs, j) <==> SamePrivate(vs, i, j)
  {
  }

  method PrivateOrdinals(vs: seq<View>) returns (r: Option<seq<nat>>)
    ensures r.None? <==> !PrivateSeparated(vs)
    ensures r.Some? ==> |r.value| == |vs| && forall i :: 0 <= i < |vs| ==> r.value[i] == PrivateRank(vs, i)
  {
    var cohorts := GroupCohorts(vs);
    var ranks: seq<nat> := seq(|vs|, _ => 0);
    var todo := cohorts.Keys;
    while todo != {}
      invariant todo <= cohorts.Keys && |ranks| == |vs|
      invariant forall i :: 0 <= i < |vs| && CohortOf(vs, i) !in todo ==> ranks[i] == PrivateRank(vs, i)
      invariant forall i, j ::
        0 <= i < |vs| && 0 <= j < |vs| && CohortOf(vs, i) !in todo && i != j && SamePrivate(vs, i, j) ==>
        vs[i].ordinal != vs[j].ordinal
      decreases todo
    {
      var key :| key in todo;
      GroupIsCohort(vs, cohorts, key);
      var members := cohorts[key];
      var sorted := SortByOrdinal(vs, members);
      if sorted.None? {
        var a, b :| a in members && b in members && a != b && OrdinalAt(vs, a) == OrdinalAt(vs, b);
        assert SamePrivate(vs, a, b);
        return None;
      }
      ranks := NumberCohort(vs, sorted.value, ranks);
      todo := todo - {key};
    }
    r := Some(ranks);
  }

  /* ---------- identity paths ---------- */

  method ByCompilerId(vs: seq<View>) returns (m: map<nat, nat>)
    ensures m == ById(vs)
  {
    m := map[];
    for i := 0 to |vs|
      invariant m == ById(vs[..i])
    {
      assert vs[..i + 1][..i] == vs[..i];
      m := m[vs[i].compilerId := i];
    }
    assert vs[..|vs|] == vs;
  }

  /** The entry reached from `i` by `n` parent steps. */
  ghost function Up(vs: seq<View>, i: nat, n: nat): Option<nat>
    requires i < |vs|
    decreases n
  {
    if n == 0 then Some(i)
    else
      match ParentIndex(vs, i)
      case None => None
      case Some(p) => if p.Some? then Up(vs, p.value, n - 1) else None
  }

  lemma {:induction false} UpOneMore(vs: seq<View>, i: nat, n: nat, j: nat)
    requires i < |vs| && j < |vs| && Up(vs, i, n) == Some(j)
    ensures Up(vs, i, n + 1) == Up(vs, j, 1)
    decreases n
  {
    if n > 0 {
      UpOneMore(vs, ParentIndex(vs, i).value.value, n - 1, j);
    }
  }

  lemma {:induction false} UpShortens(vs: seq<View>, i: nat, n: nat, j: nat, steps: nat)
    requires i < |vs| && j < |vs| && Up(vs, i, n) == Some(j) && Within(vs, i, steps)
    ensures n < steps && Within(vs, j, steps - n)
    decreases n
  {
    if n > 0 {
      UpShortens(vs, ParentIndex(vs, i).value.value, n - 1, j, steps - 1);
    }
  }

  /** An entry above itself has no chain that ends. */
  lemma {:induction false} CycleNeverEnds(vs: seq<View>, i: nat, n: nat, steps: nat)
    requires i < |vs| && n > 0 && Up(vs, i, n) == Some(i)
    ensures !Within(vs, i, steps)
    decreases steps
  {
    if Within(vs, i, steps) {
      UpShortens(vs, i, n, i, steps);
      CycleNeverEnds(vs, i, n, steps - n);
    }
  }

  /** Everything being computed lies strictly below `index`. */
  ghost predicate AllBelow(vs: seq<View>, active: set<nat>, index: nat) {
    index < |vs| && forall a :: a in active ==> a < |vs| && IsBelow(vs, a, index)
  }

  ghost predicate IsBelow(vs: seq<View>, a: nat, index: nat)
    requires a < |vs|
  {
    exists n: nat :: n > 0 && Up(vs, a, n) == Some(index)
  }

  lemma {:induction false} ActiveMeansCycle(vs: seq<View>, active: set<nat>, index: nat)
    requires AllBelow(vs, active, index) && index in active
    ensures !Inside(vs, index)
  {
    assert IsBelow(vs, index, index);
    var n: nat :| n > 0 && Up(vs, index, n) == Some(index);
    forall steps: nat
      ensures !Within(vs, index, steps)
    {
      CycleNeverEnds(vs, index, n, steps);
    }
  }

  lemma {:induction false} BelowParent(vs: seq<View>, active: set<nat>, index: nat, parent: nat)
    requires AllBelow(vs, active, index) && ParentIndex(vs, index) == Some(Some(parent))
    ensures AllBelow(vs, active + {index}, parent)
  {
    forall a | a in active + {index}
      ensures a < |vs| && IsBelow(vs, a, parent)
    {
      if a in active {
        var n: nat :| n > 0 && Up(vs, a, n) == Some(index);
        UpOneMore(vs, a, n, index);
        assert Up(vs, index, 1) == Some(parent);
        assert Up(vs, a, n + 1) == Some(parent);
      } else {
        assert Up(vs, index, 1) == Some(parent);
      }
    }
  }

  /** Memoised entries hold the identity the reference definition gives them. */
  ghost predicate Memo(vs: seq<View>, memo: seq<Option<IdentityKey>>) {
    && |memo| == |vs|
    && forall i :: 0 <= i < |vs| && memo[i].Some? ==> Inside(vs, i) && memo[i].value == IdentityOf(vs, i)
  }

  predicate Extends(memo: seq<Option<IdentityKey>>, memo': seq<Option<IdentityKey>>) {
    |memo| == |memo'| && forall i :: 0 <= i < |memo| && memo[i].Some? ==> memo'[i] == memo[i]
  }

  /** The inner `identity`: memo lookup, cycle check, parent first, then one more part. */
  method Identity(index: nat, vs: seq<View>, ranks: seq<nat>, byCompilerId: map<nat, nat>,
                  memo: seq<Option<IdentityKey>>, active: set<nat>)
    returns (r: Option<IdentityKey>, memo': seq<Option<IdentityKey>>)
    requires byCompilerId == ById(vs) && |ranks| == |vs|
    requires forall i :: 0 <= i < |vs| ==> ranks[i] == PrivateRank(vs, i)
    requires Memo(vs, memo) && AllBelow(vs, active, index)
    ensures r.Some? <==> Inside(vs, index)
    ensures r.Some? ==> r.value == IdentityOf(vs, index)
    ensures r.Some? ==> Memo(vs, memo') && Extends(memo, memo') && memo'[index].Some?
    decreases |vs| - |active|
  {
    if memo[index].Some? {
      return memo[index], memo;
    }
    if index in active {
      ActiveMeansCycle(vs, active, index);
      return None, memo;
    }
    InsideParent(vs, index);
    var parts: IdentityKey := [];
    memo' := memo;
    if vs[index].parent.Some? {
      if vs[index].parent.value !in byCompilerId {
        return None, memo;
      }
      var parent := byCompilerId[vs[index].parent.value];
      BelowParent(vs, active, index, parent);
      RoomLeft(vs, active, index, parent);
      var above;
      above, memo' := Identity(parent, vs, ranks, byCompilerId, memo, active + {index});
      if above.None? {
        return None, memo;
      }
      parts := above.value;
    }
    IdentityStep(vs, index);
    var key := parts + [IdentityPart(vs[index].kind, vs[index].origin, vs[index].basis, vs[index].name, ranks[index])];
    memo' := memo'[index := Some(key)];
    r := Some(key);
  }

  lemma {:induction false} RoomLeft(vs: seq<View>, active: set<nat>, index: nat, parent: nat)
    requires AllBelow(vs, active + {index}, parent) && index !in active
    ensures |active| < |active + {index}| <= |vs|
  {
    SubsetSize(active + {index}, |vs|);
  }

  method AllIdentities(vs: seq<View>, ranks: seq<nat>, byCompilerId: map<nat, nat>)
    returns (r: Option<seq<IdentityKey>>)
    requires byCompilerId == ById(vs) && |ranks| == |vs|
    requires forall i :: 0 <= i < |vs| ==> ranks[i] == PrivateRank(vs, i)
    ensures r.Some? <==> AllInside(vs)
    ensures r.Some? ==> |r.value| == |vs| && forall i :: 0 <= i < |vs| ==> r.value[i] == IdentityOf(vs, i)
  {
    var memo: seq<Option<IdentityKey>> := seq(|vs|, _ => None);
    for index := 0 to |vs|
      invariant Memo(vs, memo)
      invariant forall i :: 0 <= i < index ==> memo[i].Some?
    {
      var key, memo' := Identity(index, vs, ranks, byCompilerId, memo, {});
      if key.None? {
        return None;
      }
      memo := memo';
    }
    r := Some(seq(|vs|, i requires 0 <= i < |vs| => memo[i].value));
  }

  /* ---------- public ordinals ---------- */

  datatype PublicKey = PublicKey(parent: Option<IdentityKey>, origin: DefinitionOriginKey, kind: DefinitionKind,
                                 name: Option<string>)

  /** Cohort of `i`, its parent's identity read from the computed identities. */
  function PublicOf(vs: seq<View>, byCompilerId: map<nat, nat>, identities: seq<IdentityKey>, i: nat): PublicKey {
    if i < |vs| then
      var parent :=
        match vs[i].parent
        case None => None
        case Some(id) =>
          if id in byCompilerId && byCompilerId[id] < |identities| then Some(identities[byCompilerId[id]]) else None;
      PublicKey(parent, vs[i].origin, vs[i].kind, vs[i].name)
    else PublicKey(None, CompilerGeneratedKey(NestedStatic), Crate, None)
  }

  /** Everything computed before the public cohorts are numbered. */
  ghost predicate Prepared(vs: seq<View>, byCompilerId: map<nat, nat>, identities: seq<IdentityKey>) {
    && PrivateSeparated(vs)
    && AllInside(vs)
    && byCompilerId == ById(vs)
    && |identities| == |vs|
    && forall i :: 0 <= i < |vs| ==> identities[i] == IdentityOf(vs, i)
  }

  lemma {:induction false} PublicIffSamePublic(vs: seq<View>, byCompilerId: map<nat, nat>,
                                               identities: seq<IdentityKey>, i: nat, j: nat)
    requires Prepared(vs, byCompilerId, identities) && i < |vs| && j < |vs|
    ensures PublicOf(vs, byCompilerId, identities, i) == PublicOf(vs, byCompilerId, identities, j)
      <==> SamePublic(vs, i, j)
  {
    InsideParent(vs, i);
    InsideParent(vs, j);
    assert Inside(vs, i) && Inside(vs, j);
  }

  ghost predicate Grouped(groups: map<PublicKey, seq<nat>>, i: nat) {
    exists key :: key in groups && i in groups[key]
  }

  ghost predicate PublicGroups(vs: seq<View>, groups: map<PublicKey, seq<nat>>) {
    && AllInside(vs)
    && (forall key :: key in groups ==> Distinct(groups[key]))
    && (forall key, i {:trigger i in groups[key]} :: key in groups && i in groups[key] ==> i < |vs|)
    && (forall i: nat :: i < |vs| ==> Grouped(groups, i))
    && (forall key, i: nat, j: nat {:trigger i in groups[key], j in groups[key]} ::
          key in groups && i in groups[key] && j < |vs| ==>
          (j in groups[key] <==> SamePublic(vs, i, j)))
    && (forall k1, k2, i: nat {:trigger i in groups[k1], i in groups[k2]} ::
          k1 in groups && k2 in groups && i in groups[k1] && i in groups[k2] ==> k1 == k2)
  }

  method GroupPublic(vs: seq<View>, byCompilerId: map<nat, nat>, identities: seq<IdentityKey>)
    returns (groups: map<PublicKey, seq<nat>>)
    requires Prepared(vs, byCompilerId, identities)
    ensures PublicGroups(vs, groups)
  {
    ghost var keyOf := (i: nat) => PublicOf(vs, byCompilerId, identities, i);
    groups := GroupBy(|vs|, (i: nat) => PublicOf(vs, byCompilerId, identities, i));
    assert Partitions(|vs|, keyOf, groups);
    forall i: nat | i < |vs|
      ensures Grouped(groups, i)
    {
      assert keyOf(i) in groups;
    }
    forall k1, k2, i: nat | k1 in groups && k2 in groups && i in groups[k1] && i in groups[k2]
      ensures k1 == k2
    {
      assert keyOf(i) == k1 && keyOf(i) == k2;
    }
    forall key, i: nat, j: nat | key in groups && i in groups[key] && j < |vs|
      ensures i < |vs| && (j in groups[key] <==> SamePublic(vs, i, j))
    {
      assert keyOf(i) == key && (j in groups[key] <==> keyOf(j) == key);
      PublicIffSamePublic(vs, byCompilerId, identities, i, j);
    }
  }

  lemma {:induction false} PublicRankIsPosition(vs: seq<View>, sorted: seq<nat>, k: nat)
    requires AllInside(vs) && k < |sorted| && AscendingOrdinals(vs, sorted) && sorted[k] < |vs|
    requires forall j: nat :: j in sorted <==> j < |vs| && SamePublic(vs, sorted[k], j)
    ensures PublicRank(vs, sorted[k]) == k
  {
    var ordinal := (j: nat) => OrdinalAt(vs, j);
    RankIsPosition(sorted, ordinal, k);
    assert Below(sorted, ordinal, ordinal(sorted[k])) == PublicBelow(vs, sorted[k]);
  }

  /** A definition with its assigned ordinal, in the record and inside its origin. */
  function Overwritten(d: RawDefinition, ordinal: u32): RawDefinition {
    d.(structuralOrdinal := ordinal, origin := d.origin.WithOrdinal(ordinal))
  }

  /** `done` entries carry their final ordinal, in the slice and in the universe; others are untouched. */
  ghost predicate Overwriting(vs: seq<View>, expected: Option<Universe>, old_: seq<RawDefinition>,
                              now: seq<RawDefinition>, universe: Universe, done: set<nat>)
    requires AllInside(vs)
  {
    && |now| == |old_| == |vs|
    && (forall i :: i in done ==> i < |vs| && Final(vs, expected, old_, now, universe, i))
    && (forall i :: 0 <= i < |vs| && i !in done ==> now[i] == old_[i])
    && (forall key :: key in universe ==> IdentityOfSomebody(vs, key, done))
  }

  ghost predicate Final(vs: seq<View>, expected: Option<Universe>, old_: seq<RawDefinition>, now: seq<RawDefinition>,
                        universe: Universe, i: nat)
    requires AllInside(vs) && i < |vs| == |old_| == |now|
  {
    && (expected.Some? ==> IdentityOf(vs, i) in expected.value)
    && IdentityOf(vs, i) in universe
    && universe[IdentityOf(vs, i)] == Assigned(vs, expected, i) < U32_LIMIT
    && now[i] == Overwritten(old_[i], Assigned(vs, expected, i))
  }

  lemma {:induction false} FreshIdentity(vs: seq<View>, expected: Option<Universe>, old_: seq<RawDefinition>,
                                         now: seq<RawDefinition>, universe: Universe, done: set<nat>, i: nat)
    requires PrivateSeparated(vs) && AllInside(vs) && i < |vs| && i !in done
    requires Overwriting(vs, expected, old_, now, universe, done)
    ensures IdentityOf(vs, i) !in universe
  {
    if IdentityOf(vs, i) in universe {
      assert IdentityOfSomebody(vs, IdentityOf(vs, i), done);
      var j :| j in done && j < |vs| && IdentityOf(vs, j) == IdentityOf(vs, i);
      IdentitiesDistinct(vs, i, StepsOf(vs, i), j, StepsOf(vs, j));
    }
  }

  lemma {:induction false} OverwriteOne(vs: seq<View>, expected: Option<Universe>, old_: seq<RawDefinition>,
                                        now: seq<RawDefinition>, universe: Universe, done: set<nat>, i: nat,
                                        ordinal: u32)
    requires PrivateSeparated(vs) && AllInside(vs) && i < |vs| && i !in done
    requires Overwriting(vs, expected, old_, now, universe, done)
    requires expected.Some? ==> IdentityOf(vs, i) in expected.value
    requires Assigned(vs, expected, i) == ordinal
    ensures now[i] == old_[i]
    ensures Overwriting(vs, expected, old_, now[i := Overwritten(now[i], ordinal)],
                        universe[IdentityOf(vs, i) := ordinal], done + {i})
  {
    FreshIdentity(vs, expected, old_, now, universe, done, i);
    var now', universe' := now[i := Overwritten(now[i], ordinal)], universe[IdentityOf(vs, i) := ordinal];
    hide PrivateSeparated;
    hide Assigned;
    hide IdentityOf;
    assert now[i] == old_[i];
    assert Final(vs, expected, old_, now', universe', i);
    hide Overwritten;
    forall j | j in done
      ensures j < |vs| && Final(vs, expected, old_, now', universe', j)
    {
      assert Final(vs, expected, old_, now, universe, j);
    }
    hide Final;
    forall key | key in universe'
      ensures IdentityOfSomebody(vs, key, done + {i})
    {
      if key in universe { SomebodyStays(vs, key, done, i); }
    }
  }

  lemma {:induction false} SomebodyStays(vs: seq<View>, key: IdentityKey, done: set<nat>, i: nat)
    requires AllInside(vs) && IdentityOfSomebody(vs, key, done)
    ensures IdentityOfSomebody(vs, key, done + {i})
  {
    var j :| j in done && j < |vs| && IdentityOf(vs, j) == key;
    assert j in done + {i};
  }

  /** The ordinal of the member at position `k`: its rank, or what the expected universe recorded. */
  function PickAt(expected: Option<Universe>, identities: seq<IdentityKey>, members: seq<nat>, k: nat): Option<u32> {
    if k < |members| && members[k] < |identities| then
      match expected
      case Some(universe) =>
        if identities[members[k]] in universe then Some(universe[identities[members[k]]]) else None
      case None => if k < U32_LIMIT then Some(k) else None
    else None
  }

  ghost predicate PicksSeparate(expected: Option<Universe>, identities: seq<IdentityKey>, members: seq<nat>) {
    && (forall k :: 0 <= k < |members| ==> PickAt(expected, identities, members, k).Some?)
    && (forall j, k :: 0 <= j < k < |members| ==>
          PickAt(expected, identities, members, j) != PickAt(expected, identities, members, k))
  }

  /** A public cohort ready to be numbered in the order `members`. */
  ghost predicate ReadyCohort(vs: seq<View>, expected: Option<Universe>, members: seq<nat>) {
    && AllInside(vs)
    && Distinct(members) && |members| <= U32_LIMIT
    && (forall i :: i in members ==> i < |vs|)
    && (forall i: nat, j: nat {:trigger i in members, j in members} :: i in members && j < |vs| ==>
          (j in members <==> SamePublic(vs, i, j)))
    && (expected.None? ==> AscendingOrdinals(vs, members))
  }

  lemma {:induction false} PickIsAssigned(vs: seq<View>, expected: Option<Universe>, byCompilerId: map<nat, nat>,
                                          identities: seq<IdentityKey>, members: seq<nat>, k: nat)
    requires Prepared(vs, byCompilerId, identities) && ReadyCohort(vs, expected, members) && k < |members|
    ensures members[k] < |vs|
    ensures expected.Some? ==>
      (PickAt(expected, identities, members, k).Some? <==> IdentityOf(vs, members[k]) in expected.value)
    ensures PickAt(expected, identities, members, k).Some? ==>
      Assigned(vs, expected, members[k]) == PickAt(expected, identities, members, k).value
  {
    var i := members[k];
    assert i in members;
    if expected.None? {
      forall j: nat
        ensures j in members <==> j < |vs| && SamePublic(vs, i, j)
      {
        if j < |vs| { assert j in members <==> SamePublic(vs, i, j); }
      }
      PublicRankIsPosition(vs, members, k);
    }
  }

  /** One public cohort: hand out ordinals, refuse repetition, record and overwrite. */
  method NumberPublic(definitions: array<RawDefinition>, identities: seq<IdentityKey>, expected: Option<Universe>,
                      members: seq<nat>, universe: Universe, ghost vs: seq<View>, ghost byCompilerId: map<nat, nat>,
                      ghost old_: seq<RawDefinition>, ghost done: set<nat>)
    returns (ok: bool, universe': Universe)
    requires Prepared(vs, byCompilerId, identities) && ReadyCohort(vs, expected, members)
    requires Overwriting(vs, expected, old_, definitions[..], universe, done)
    requires forall i :: i in members ==> i !in done
    modifies definitions
    ensures ok <==> PicksSeparate(expected, identities, members)
    ensures ok ==> Overwriting(vs, expected, old_, definitions[..], universe', done + Elements(members))
  {
    hide Overwriting;
    hide Assigned;
    hide Within;
    hide IdentityOf;
    hide SamePublic;
    hide PickAt;
    universe' := universe;
    var used: set<u32> := {};
    assert done + Elements(members[..0]) == done;
    for rank := 0 to |members|
      invariant Overwriting(vs, expected, old_, definitions[..], universe', done + Elements(members[..rank]))
      invariant forall k :: 0 <= k < rank ==> PickAt(expected, identities, members, k).Some?
      invariant forall j, k :: 0 <= j < k < rank ==>
        PickAt(expected, identities, members, j) != PickAt(expected, identities, members, k)
      invariant forall n ::
        n in used <==> exists k :: 0 <= k < rank && PickAt(expected, identities, members, k) == Some(n)
    {
      var index := members[rank];
      assert index in members;
      var picked := PickAt(expected, identities, members, rank);
      if picked.None? {
        return false, universe';
      }
      if picked.value in used {
        return false, universe';
      }
      OverwritingLength(vs, expected, old_, definitions[..], universe', done + Elements(members[..rank]));
      PickIsAssigned(vs, expected, byCompilerId, identities, members, rank);
      NotYetDone(members, rank, done);
      FreshIdentity(vs, expected, old_, definitions[..], universe', done + Elements(members[..rank]), index);
      if identities[index] in universe' {
        return false, universe';
      }
      OverwriteOne(vs, expected, old_, definitions[..], universe', done + Elements(members[..rank]), index,
                   picked.value);
      definitions[index] := Overwritten(definitions[index], picked.value);
      universe' := universe'[identities[index] := picked.value];
      used := used + {picked.value};
      GrowDone(members, rank, done);
    }
    assert members[..|members|] == members;
    ok := true;
  }

  lemma {:induction false} OverwritingLength(vs: seq<View>, expected: Option<Universe>, old_: seq<RawDefinition>,
                                             now: seq<RawDefinition>, universe: Universe, done: set<nat>)
    requires AllInside(vs) && Overwriting(vs, expected, old_, now, universe, done)
    ensures |now| == |vs|
  {
  }

  lemma {:induction false} NotYetDone(members: seq<nat>, rank: nat, done: set<nat>)
    requires Distinct(members) && rank < |members| && forall i :: i in members ==> i !in done
    ensures members[rank] !in done + Elements(members[..rank])
  {
    assert members[rank] in members;
  }

  lemma {:induction false} GrowDone(members: seq<nat>, rank: nat, done: set<nat>)
    requires rank < |members|
    ensures done + Elements(members[..rank + 1]) == done + Elements(members[..rank]) + {members[rank]}
  {
    assert members[..rank + 1] == members[..rank] + [members[rank]];
  }

  /** The order `members` are numbered in. With an expected universe the source sorts by identity, which
      cannot influence a lookup, so discovery order stands for it. */
  method OrderMembers(vs: seq<View>, expected: Option<Universe>, members: seq<nat>) returns (r: Option<seq<nat>>)
    requires Distinct(members) && |members| <= U32_LIMIT
    ensures r.None? <==> expected.None? && SharedOrdinal(vs, members)
    ensures r.Some? ==> Distinct(r.value) && |r.value| <= U32_LIMIT
    ensures r.Some? ==> forall i :: i in r.value <==> i in members
    ensures r.Some? && expected.None? ==> AscendingOrdinals(vs, r.value)
  {
    if expected.Some? {
      return Some(members);
    }
    r := SortByOrdinal(vs, members);
    if r.Some? {
      DistinctSize(members);
      DistinctSize(r.value);
      assert Elements(r.value) == Elements(members);
    }
  }

  /** What `Accepts` asks of one public cohort. */
  ghost predicate CohortAccepted(vs: seq<View>, expected: Option<Universe>, members: seq<nat>)
    requires AllInside(vs) && forall i :: i in members ==> i < |vs|
  {
    match expected
    case None => !SharedOrdinal(vs, members)
    case Some(universe) =>
      && (forall i :: i in members ==> IdentityOf(vs, i) in universe)
      && (forall i, j :: i in members && j in members && i != j ==>
            universe[IdentityOf(vs, i)] != universe[IdentityOf(vs, j)])
  }

  lemma {:induction false} PicksDecide(vs: seq<View>, expected: Option<Universe>, byCompilerId: map<nat, nat>,
                                       identities: seq<IdentityKey>, members: seq<nat>, order: seq<nat>)
    requires Prepared(vs, byCompilerId, identities) && ReadyCohort(vs, expected, order)
    requires forall i :: i in order <==> i in members
    ensures expected.None? ==> PicksSeparate(expected, identities, order)
    ensures expected.Some? ==> (PicksSeparate(expected, identities, order) <==> CohortAccepted(vs, expected, members))
  {
    forall k | 0 <= k < |order|
      ensures order[k] in members && order[k] < |vs| && identities[order[k]] == IdentityOf(vs, order[k])
    {
      assert order[k] in order;
    }
    if expected.Some? {
      if PicksSeparate(expected, identities, order) {
        SeparatePicksAccept(vs, expected.value, identities, members, order);
      }
      if CohortAccepted(vs, expected, members) {
        AcceptedPicksSeparate(vs, expected.value, identities, members, order);
      }
    }
  }

  lemma {:induction false} SeparatePicksAccept(vs: seq<View>, universe: Universe, identities: seq<IdentityKey>,
                                               members: seq<nat>, order: seq<nat>)
    requires AllInside(vs) && |identities| == |vs| && forall i :: 0 <= i < |vs| ==> identities[i] == IdentityOf(vs, i)
    requires forall i :: i in members ==> i < |vs| && i in order
    requires PicksSeparate(Some(universe), identities, order)
    ensures CohortAccepted(vs, Some(universe), members)
  {
    hide IdentityOf;
    hide Inside;
    forall i | i in members
      ensures IdentityOf(vs, i) in universe
    {
      var k :| 0 <= k < |order| && order[k] == i;
      assert PickAt(Some(universe), identities, order, k).Some?;
    }
    forall i, j | i in members && j in members && i != j
      ensures universe[IdentityOf(vs, i)] != universe[IdentityOf(vs, j)]
    {
      var x :| 0 <= x < |order| && order[x] == i;
      var y :| 0 <= y < |order| && order[y] == j;
      assert PickAt(Some(universe), identities, order, x) != PickAt(Some(universe), identities, order, y);
    }
  }

  lemma {:induction false} AcceptedPicksSeparate(vs: seq<View>, universe: Universe, identities: seq<IdentityKey>,
                                                 members: seq<nat>, order: seq<nat>)
    requires AllInside(vs) && |identities| == |vs| && Distinct(order)
    requires forall i :: i in members ==> i < |vs|
    requires forall k :: 0 <= k < |order| ==>
      order[k] in members && order[k] < |vs| && identities[order[k]] == IdentityOf(vs, order[k])
    requires CohortAccepted(vs, Some(universe), members)
    ensures PicksSeparate(Some(universe), identities, order)
  {
    hide IdentityOf;
    hide Inside;
  }

  /** Every cohort accepted, and the cohorts partition the input: the whole input is accepted. */
  lemma {:induction false} CohortsDecide(vs: seq<View>, expected: Option<Universe>, groups: map<PublicKey, seq<nat>>)
    requires PrivateSeparated(vs) && PublicGroups(vs, groups)
    ensures Accepts(vs, expected) <==> forall key :: key in groups ==> CohortAccepted(vs, expected, groups[key])
  {
    if forall key :: key in groups ==> CohortAccepted(vs, expected, groups[key]) {
      forall i | 0 <= i < |vs|
        ensures expected.Some? ==> IdentityOf(vs, i) in expected.value
      {
        assert Grouped(groups, i);
      }
      forall i, j | 0 <= i < |vs| && 0 <= j < |vs| && i != j && SamePublic(vs, i, j)
        ensures expected.None? ==> vs[i].ordinal != vs[j].ordinal
        ensures expected.Some? ==> expected.value[IdentityOf(vs, i)] != expected.value[IdentityOf(vs, j)]
      {
        assert Grouped(groups, i);
        var key :| key in groups && i in groups[key];
        assert j in groups[key];
        assert OrdinalAt(vs, i) == vs[i].ordinal && OrdinalAt(vs, j) == vs[j].ordinal;
      }
    }
    if Accepts(vs, expected) {
      forall key | key in groups
        ensures CohortAccepted(vs, expected, groups[key])
      {
        AcceptedCohort(vs, expected, groups, key);
      }
    }
  }

  lemma {:induction false} AcceptedCohort(vs: seq<View>, expected: Option<Universe>, groups: map<PublicKey, seq<nat>>,
                                          key: PublicKey)
    requires PublicGroups(vs, groups) && Accepts(vs, expected) && key in groups
    ensures CohortAccepted(vs, expected, groups[key])
  {
    var members := groups[key];
    forall i, j | i in members && j in members && i != j
      ensures i < |vs| && j < |vs| && SamePublic(vs, i, j) && OrdinalAt(vs, i) == vs[i].ordinal
      ensures OrdinalAt(vs, j) == vs[j].ordinal
    {
    }
  }

  lemma {:induction false} GroupReadyCohort(vs: seq<View>, expected: Option<Universe>,
                                            groups: map<PublicKey, seq<nat>>, key: PublicKey, order: seq<nat>)
    requires PublicGroups(vs, groups) && key in groups
    requires Distinct(order) && |order| <= U32_LIMIT && forall i :: i in order <==> i in groups[key]
    requires expected.None? ==> AscendingOrdinals(vs, order)
    ensures ReadyCohort(vs, expected, order)
  {
    forall i: nat, j: nat | i in order && j < |vs|
      ensures j in order <==> SamePublic(vs, i, j)
    {
      assert i in groups[key];
      assert j in groups[key] <==> SamePublic(vs, i, j);
    }
  }

  method AssignPublic(definitions: array<RawDefinition>, vs: seq<View>, byCompilerId: map<nat, nat>,
                      identities: seq<IdentityKey>, expected: Option<Universe>)
    returns (ok: bool, universe: Universe)
    requires Prepared(vs, byCompilerId, identities) && definitions.Length == |vs| <= U32_LIMIT
    modifies definitions
    ensures ok <==> Accepts(vs, expected)
    ensures ok ==> Overwriting(vs, expected, old(definitions[..]), definitions[..], universe, Indices(|vs|))
  {
    ghost var before := definitions[..];
    var groups := GroupPublic(vs, byCompilerId, identities);
    CohortsDecide(vs, expected, groups);
    universe := map[];
    ghost var done: set<nat> := {};
    var todo := groups.Keys;
    UntouchedAtFirst(vs, expected, before, groups);
    while todo != {}
      invariant todo <= groups.Keys && definitions.Length == |vs|
      invariant ExactlyDone(vs, groups, todo, done)
      invariant Overwriting(vs, expected, before, definitions[..], universe, done)
      invariant forall key :: key in groups && key !in todo ==> CohortAccepted(vs, expected, groups[key])
      decreases todo
    {
      var key :| key in todo;
      GroupDone(vs, groups, todo, done, key);
      ok, universe :=
        AssignOneGroup(definitions, identities, expected, groups, key, universe, vs, byCompilerId, before, done);
      if !ok {
        return;
      }
      done := done + Elements(groups[key]);
      todo := todo - {key};
    }
    AllDone(vs, groups, done);
    ok := true;
  }

  /** `done` holds exactly the indices of the cohorts no longer to do. */
  ghost predicate ExactlyDone(vs: seq<View>, groups: map<PublicKey, seq<nat>>, todo: set<PublicKey>, done: set<nat>) {
    && (forall i :: i in done ==> i < |vs|)
    && (forall key, i: nat {:trigger i in groups[key]} :: key in groups && i in groups[key] ==>
          (i in done <==> key !in todo))
  }

  lemma {:induction false} UntouchedAtFirst(vs: seq<View>, expected: Option<Universe>, before: seq<RawDefinition>,
                                            groups: map<PublicKey, seq<nat>>)
    requires PublicGroups(vs, groups) && |before| == |vs|
    ensures ExactlyDone(vs, groups, groups.Keys, {})
    ensures Overwriting(vs, expected, before, before, map[], {})
  {
  }

  lemma {:induction false} GroupDone(vs: seq<View>, groups: map<PublicKey, seq<nat>>, todo: set<PublicKey>,
                                     done: set<nat>, key: PublicKey)
    requires PublicGroups(vs, groups) && ExactlyDone(vs, groups, todo, done) && key in todo && key in groups
    ensures forall i :: i in groups[key] ==> i !in done
    ensures ExactlyDone(vs, groups, todo - {key}, done + Elements(groups[key]))
  {
    forall i | i in groups[key]
      ensures i < |vs| && i !in done
    {
    }
  }

  lemma {:induction false} AllDone(vs: seq<View>, groups: map<PublicKey, seq<nat>>, done: set<nat>)
    requires PublicGroups(vs, groups) && ExactlyDone(vs, groups, {}, done)
    ensures done == Indices(|vs|)
  {
    forall i: nat | i < |vs|
      ensures i in done
    {
      assert Grouped(groups, i);
    }
  }

  method AssignOneGroup(definitions: array<RawDefinition>, identities: seq<IdentityKey>, expected: Option<Universe>,
                        groups: map<PublicKey, seq<nat>>, key: PublicKey, universe: Universe, vs: seq<View>,
                        ghost byCompilerId: map<nat, nat>, ghost before: seq<RawDefinition>, ghost done: set<nat>)
    returns (ok: bool, universe': Universe)
    requires Prepared(vs, byCompilerId, identities) && PublicGroups(vs, groups) && key in groups && |vs| <= U32_LIMIT
    requires Overwriting(vs, expected, before, definitions[..], universe, done)
    requires forall i :: i in groups[key] ==> i !in done
    modifies definitions
    ensures ok <==> CohortAccepted(vs, expected, groups[key])
    ensures ok ==> Overwriting(vs, expected, before, definitions[..], universe', done + Elements(groups[key]))
  {
    var members := groups[key];
    GroupSize(vs, groups, key);
    var order := OrderMembers(vs, expected, members);
    if order.None? {
      return false, universe;
    }
    GroupReadyCohort(vs, expected, groups, key, order.value);
    PicksDecide(vs, expected, byCompilerId, identities, members, order.value);
    ok, universe' :=
      NumberPublic(definitions, identities, expected, order.value, universe, vs, byCompilerId, before, done);
    assert Elements(order.value) == Elements(members);
  }

  lemma {:induction false} GroupSize(vs: seq<View>, groups: map<PublicKey, seq<nat>>, key: PublicKey)
    requires PublicGroups(vs, groups) && key in groups
    ensures Distinct(groups[key]) && |groups[key]| <= |vs|
  {
    DistinctSize(groups[key]);
    SubsetSize(Elements(groups[key]), |vs|);
  }

  /** `assign_structural_ordinals`: succeeds exactly on acceptable input, then overwrites every
      definition with its assigned ordinal and returns the recorded universe. In an original run the ordinal is the
      number of definitions with the same parent, origin, kind and name that precede in compiler order. */
  method AssignStructuralOrdinals(definitions: array<RawDefinition>, coordinates: Option<SourceRewrite>,
                                  expected: Option<Universe>)
    returns (r: Result<Universe, DefinitionError>)
    requires definitions.Length <= U32_LIMIT
    modifies definitions
    ensures r.Ok?
      <==> Viewable(old(definitions[..]), coordinates) && Accepts(ViewsOf(old(definitions[..]), coordinates), expected)
    ensures r.Ok? ==> Records(ViewsOf(old(definitions[..]), coordinates), expected, r.value)
    ensures r.Ok? ==> forall i :: 0 <= i < definitions.Length ==>
      OverwrittenAt(ViewsOf(old(definitions[..]), coordinates), expected, old(definitions[..]), definitions[..], i)
    ensures r.Ok? && coordinates.None? && expected.None? ==> forall i :: 0 <= i < definitions.Length ==>
      definitions[i].structuralOrdinal ==
        |set j | 0 <= j < definitions.Length
                 && old(definitions[..])[j].parent == old(definitions[..])[i].parent
                 && old(definitions[..])[j].origin.Key() == old(definitions[..])[i].origin.Key()
                 && old(definitions[..])[j].kind == old(definitions[..])[i].kind
                 && old(definitions[..])[j].name == old(definitions[..])[i].name
                 && old(definitions[..])[j].structuralOrdinal < old(definitions[..])[i].structuralOrdinal|
  {
    ghost var before := definitions[..];
    var views := CollectViews(definitions[..], coordinates);
    if views.Err? {
      return Err(views.error);
    }
    var vs := views.value;
    assert vs == ViewsOf(before, coordinates);
    var ok, universe := AssignViewed(definitions, vs, expected);
    if !ok {
      return Err(IncompleteDefinition);
    }
    OverwrittenRecords(vs, expected, before, definitions[..], universe);
    if coordinates.None? && expected.None? {
      forall i | 0 <= i < definitions.Length
        ensures definitions[i].structuralOrdinal ==
          |set j | 0 <= j < |before| && before[j].parent == before[i].parent
                   && before[j].origin.Key() == before[i].origin.Key() && before[j].kind == before[i].kind
                   && before[j].name == before[i].name && before[j].structuralOrdinal < before[i].structuralOrdinal|
      {
        OriginalRun(before, i);
        assert OverwrittenAt(vs, expected, before, definitions[..], i);
      }
    }
    r := Ok(universe);
  }

  /** Everything after the origins were normalised. */
  method AssignViewed(definitions: array<RawDefinition>, vs: seq<View>, expected: Option<Universe>)
    returns (ok: bool, universe: Universe)
    requires definitions.Length == |vs| <= U32_LIMIT
    modifies definitions
    ensures ok <==> Accepts(vs, expected)
    ensures ok ==> Overwriting(vs, expected, old(definitions[..]), definitions[..], universe, Indices(|vs|))
  {
    universe := map[];
    var ranks := PrivateOrdinals(vs);
    if ranks.None? {
      return false, universe;
    }
    var byCompilerId := ByCompilerId(vs);
    var identities := AllIdentities(vs, ranks.value, byCompilerId);
    if identities.None? {
      return false, universe;
    }
    ok, universe := AssignPublic(definitions, vs, byCompilerId, identities.value, expected);
  }

  lemma {:induction false} FinalAt(vs: seq<View>, expected: Option<Universe>, before: seq<RawDefinition>,
                                   now: seq<RawDefinition>, universe: Universe, i: nat)
    requires AllInside(vs) && Overwriting(vs, expected, before, now, universe, Indices(|vs|)) && i < |vs|
    ensures |before| == |now| == |vs| && Final(vs, expected, before, now, universe, i)
  {
    assert i in Indices(|vs|);
  }

  lemma {:induction false} OverwrittenRecords(vs: seq<View>, expected: Option<Universe>, before: seq<RawDefinition>,
                                              now: seq<RawDefinition>, universe: Universe)
    requires Accepts(vs, expected) && Overwriting(vs, expected, before, now, universe, Indices(|vs|))
    ensures Records(vs, expected, universe)
    ensures forall i :: 0 <= i < |vs| ==> OverwrittenAt(vs, expected, before, now, i)
  {
    forall i | 0 <= i < |vs|
      ensures IdentityOf(vs, i) in universe && universe[IdentityOf(vs, i)] == Assigned(vs, expected, i)
      ensures OverwrittenAt(vs, expected, before, now, i)
    {
      FinalAt(vs, expected, before, now, universe, i);
    }
    forall key | key in universe
      ensures IdentityOfSomebody(vs, key, Indices(|vs|))
    {
    }
  }

  /** Definition `i` is the old one with its assigned ordinal. */
  ghost predicate OverwrittenAt(vs: seq<View>, expected: Option<Universe>, before: seq<RawDefinition>,
                                now: seq<RawDefinition>, i: nat)
    requires Accepts(vs, expected)
  {
    && i < |vs| == |before| == |now|
    && 0 <= Assigned(vs, expected, i) < U32_LIMIT
    && now[i] == Overwritten(before[i], Assigned(vs, expected, i))
  }
}
