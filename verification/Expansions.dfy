/** Round-by-round assignment of expansion keys (src/expansions.rs, `assign_expansion_keys`). */
module Expansions {
  import opened Wrappers
  import opened Text
  import opened Ordering
  import opened GraphKeys

  /** The fields `assign_expansion_keys` reads or writes. `hash` is the compiler id's expansion hash. */
  datatype RawExpansion = RawExpansion(
    compilerId: nat, hash: nat, identityParent: Option<nat>, part: ExpansionKeyPart, key: ExpansionKey)

  /** `raw.iter().position(..)`: the first entry carrying the compiler id. */
  function Position(raw: seq<RawExpansion>, compilerId: nat): (r: Option<nat>)
    ensures r.Some? ==> r.value < |raw| && raw[r.value].compilerId == compilerId
    ensures r.None? ==> forall i :: 0 <= i < |raw| ==> raw[i].compilerId != compilerId
  {
    PositionFrom(raw, compilerId, 0)
  }

  function PositionFrom(raw: seq<RawExpansion>, compilerId: nat, from: nat): (r: Option<nat>)
    requires from <= |raw|
    ensures r.Some? ==> from <= r.value < |raw| && raw[r.value].compilerId == compilerId
    ensures r.None? ==> forall i :: from <= i < |raw| ==> raw[i].compilerId != compilerId
    decreases |raw| - from
  {
    if from == |raw| then None
    else if raw[from].compilerId == compilerId then Some(from)
    else PositionFrom(raw, compilerId, from + 1)
  }

  /* ---------- reference definitions ---------- */

  /** The identity-parent chain of `i` reaches a parentless entry within `steps` entries. */
  predicate Within(raw: seq<RawExpansion>, i: nat, steps: nat)
    requires i < |raw|
    decreases steps
  {
    && steps > 0
    && match raw[i].identityParent
       case None => true
       case Some(parent) =>
         var p := Position(raw, parent);
         p.Some? && Within(raw, p.value, steps - 1)
  }

  ghost predicate ChainEndsInside(raw: seq<RawExpansion>, i: nat)
    requires i < |raw|
  {
    exists steps: nat :: Within(raw, i, steps)
  }

  /** Index of the identity parent; roots share `None`. */
  function ParentOf(raw: seq<RawExpansion>, i: nat): Option<Option<nat>>
    requires i < |raw|
  {
    match raw[i].identityParent
    case None => None
    case Some(parent) => Some(Position(raw, parent))
  }

  predicate SameRole(raw: seq<RawExpansion>, i: nat, j: nat)
    requires i < |raw| && j < |raw|
  {
    ParentOf(raw, i) == ParentOf(raw, j) && raw[i].part == raw[j].part
  }

  ghost predicate HashesSeparate(raw: seq<RawExpansion>, among: set<nat>) {
    forall i, j :: i in among && j in among && i < |raw| && j < |raw| && i != j && SameRole(raw, i, j) ==>
      raw[i].hash != raw[j].hash
  }

  /** Number of siblings in the same role with a smaller hash. */
  function Rank(raw: seq<RawExpansion>, i: nat): (r: nat)
    requires i < |raw|
    ensures r <= |raw|
  {
    var below := set j | 0 <= j < |raw| && SameRole(raw, i, j) && raw[j].hash < raw[i].hash;
    SubsetSize(below, |raw|);
    |below|
  }

  /** The ordinal is cast to `u32`. */
  function RankedPart(raw: seq<RawExpansion>, i: nat): ExpansionKeyPart
    requires i < |raw|
  {
    raw[i].part.(sameRoleOrdinal := Rank(raw, i) % U32_LIMIT)
  }

  /** Parts from the outermost ancestor to the entry itself. */
  function KeySpec(raw: seq<RawExpansion>, i: nat, steps: nat): (key: ExpansionKey)
    requires i < |raw| && Within(raw, i, steps)
    ensures 0 < |key| <= steps && key[|key| - 1] == RankedPart(raw, i)
    decreases steps
  {
    match raw[i].identityParent
    case None => [RankedPart(raw, i)]
    case Some(parent) => KeySpec(raw, Position(raw, parent).value, steps - 1) + [RankedPart(raw, i)]
  }

  /** As `collect_expansions` builds them: no ordinal yet, and few enough for a `u32` ordinal. */
  predicate Collected(raw: seq<RawExpansion>) {
    && |raw| < U32_LIMIT
    && forall i :: 0 <= i < |raw| ==> raw[i].part.sameRoleOrdinal == 0
  }

  lemma {:induction false} WithinMore(raw: seq<RawExpansion>, i: nat, steps: nat, more: nat)
    requires i < |raw| && Within(raw, i, steps) && steps <= more
    ensures Within(raw, i, more) && KeySpec(raw, i, more) == KeySpec(raw, i, steps)
    decreases steps
  {
    match raw[i].identityParent
    case None =>
    case Some(parent) => WithinMore(raw, Position(raw, parent).value, steps - 1, more - 1);
  }

  /** When one more step reaches nobody new, no number of steps does. */
  lemma {:induction false} Stuck(raw: seq<RawExpansion>, steps: nat, i: nat, any: nat)
    requires i < |raw| && Within(raw, i, any)
    requires forall j :: 0 <= j < |raw| && Within(raw, j, steps + 1) ==> Within(raw, j, steps)
    ensures Within(raw, i, steps)
    decreases any
  {
    match raw[i].identityParent
    case None => assert Within(raw, i, steps + 1);
    case Some(parent) =>
      Stuck(raw, steps, Position(raw, parent).value, any - 1);
      assert Within(raw, i, steps + 1);
  }

  lemma {:induction false} RankStrict(raw: seq<RawExpansion>, i: nat, j: nat)
    requires i < |raw| && j < |raw| && SameRole(raw, i, j) && raw[i].hash < raw[j].hash
    ensures Rank(raw, i) < Rank(raw, j)
  {
    var si := set k | 0 <= k < |raw| && SameRole(raw, i, k) && raw[k].hash < raw[i].hash;
    var sj := set k | 0 <= k < |raw| && SameRole(raw, j, k) && raw[k].hash < raw[j].hash;
    assert i in sj && i !in si && si <= sj;
    SmallerSubset(si, sj);
  }

  /** Keys separate entries whenever hashes separate siblings in one role. */
  lemma {:induction false} KeysDistinct(raw: seq<RawExpansion>, among: set<nat>, i: nat, m: nat, j: nat, n: nat)
    requires Collected(raw) && HashesSeparate(raw, among)
    requires i < |raw| && j < |raw| && Within(raw, i, m) && Within(raw, j, n)
    requires forall k, s: nat :: 0 <= k < |raw| && s <= m && Within(raw, k, s) ==> k in among
    requires j in among && forall k, s: nat :: 0 <= k < |raw| && s <= n && Within(raw, k, s) ==> k in among
    requires KeySpec(raw, i, m) == KeySpec(raw, j, n)
    ensures i == j
    decreases m
  {
    var a, b := KeySpec(raw, i, m), KeySpec(raw, j, n);
    assert a[..|a| - 1] == b[..|b| - 1];
    assert RankedPart(raw, i) == RankedPart(raw, j);
    assert raw[i].part == raw[i].part.(sameRoleOrdinal := 0) == RankedPart(raw, i).(sameRoleOrdinal := 0);
    assert raw[j].part == raw[j].part.(sameRoleOrdinal := 0) == RankedPart(raw, j).(sameRoleOrdinal := 0);
    match (raw[i].identityParent, raw[j].identityParent) {
      case (None, None) =>
      case (Some(p), Some(q)) =>
        var pi, qj := Position(raw, p).value, Position(raw, q).value;
        assert a[..|a| - 1] == KeySpec(raw, pi, m - 1);
        assert b[..|b| - 1] == KeySpec(raw, qj, n - 1);
        KeysDistinct(raw, among, pi, m - 1, qj, n - 1);
      case _ =>
    }
    assert SameRole(raw, i, j);
    if i != j {
      if raw[i].hash < raw[j].hash { RankStrict(raw, i, j); } else { RankStrict(raw, j, i); }
    }
  }

  /* ---------- one round ---------- */

  function Finished(raw: seq<RawExpansion>, i: nat, steps: nat): RawExpansion
    requires i < |raw| && Within(raw, i, steps)
  {
    raw[i].(part := RankedPart(raw, i), key := KeySpec(raw, i, steps))
  }

  /** Entry `i` has received its final part and key, here and in `keys`. */
  ghost predicate Done(raw: seq<RawExpansion>, now: seq<RawExpansion>, keys: map<nat, ExpansionKey>, i: nat,
                       steps: nat) {
    && i < |raw| == |now|
    && i in keys
    && Within(raw, i, steps)
    && keys[i] == KeySpec(raw, i, steps)
    && now[i] == Finished(raw, i, steps)
  }

  /** The keyed entries are finished and all others are untouched. */
  ghost predicate Numbered(raw: seq<RawExpansion>, now: seq<RawExpansion>, keys: map<nat, ExpansionKey>, steps: nat) {
    && |now| == |raw|
    && (forall i :: i in keys ==> Done(raw, now, keys, i, steps))
    && (forall i :: 0 <= i < |raw| && i !in keys ==> now[i] == raw[i])
  }

  ghost predicate Partial(raw: seq<RawExpansion>, now: seq<RawExpansion>, keys: map<nat, ExpansionKey>, steps: nat) {
    Numbered(raw, now, keys, steps) && HashesSeparate(raw, keys.Keys)
  }

  /** Between rounds, exactly the entries whose chain ends within `steps` are keyed. */
  ghost predicate Progress(raw: seq<RawExpansion>, now: seq<RawExpansion>, keys: map<nat, ExpansionKey>, steps: nat) {
    && Partial(raw, now, keys, steps)
    && (forall i :: 0 <= i < |raw| ==> (i in keys <==> Within(raw, i, steps)))
  }

  predicate SameIdentities(raw: seq<RawExpansion>, now: seq<RawExpansion>) {
    && |now| == |raw|
    && forall i :: 0 <= i < |raw| ==>
         now[i].compilerId == raw[i].compilerId && now[i].identityParent == raw[i].identityParent
         && now[i].hash == raw[i].hash
  }

  lemma {:induction false} PartialKeepsIdentities(raw: seq<RawExpansion>, now: seq<RawExpansion>,
                                                  keys: map<nat, ExpansionKey>, steps: nat)
    requires Partial(raw, now, keys, steps)
    ensures SameIdentities(raw, now)
  {
  }

  lemma {:induction false} PositionStable(raw: seq<RawExpansion>, now: seq<RawExpansion>, id: nat, from: nat)
    requires SameIdentities(raw, now) && from <= |raw|
    ensures PositionFrom(now, id, from) == PositionFrom(raw, id, from)
    decreases |raw| - from
  {
    if from < |raw| {
      PositionStable(raw, now, id, from + 1);
    }
  }

  predicate IsReady(now: seq<RawExpansion>, keys: map<nat, ExpansionKey>, i: nat)
    requires i < |now|
  {
    match now[i].identityParent
    case None => true
    case Some(parent) =>
      var p := Position(now, parent);
      p.Some? && p.value in keys
  }

  function ParentKey(now: seq<RawExpansion>, keys: map<nat, ExpansionKey>, i: nat): Option<ExpansionKey>
    requires i < |now|
  {
    match now[i].identityParent
    case None => None
    case Some(parent) =>
      var p := Position(now, parent);
      if p.Some? && p.value in keys then Some(keys[p.value]) else None
  }

  datatype Group = Group(parent: Option<ExpansionKey>, part: ExpansionKeyPart)

  function GroupOf(now: seq<RawExpansion>, keys: map<nat, ExpansionKey>, i: nat): Group
    requires i < |now|
  {
    Group(ParentKey(now, keys, i), now[i].part)
  }

  method ReadyIndices(now: seq<RawExpansion>, remaining: set<nat>, keys: map<nat, ExpansionKey>)
    returns (ready: seq<nat>)
    ensures Distinct(ready)
    ensures forall i: nat :: i in ready <==> i < |now| && i in remaining && IsReady(now, keys, i)
  {
    ready := [];
    for i := 0 to |now|
      invariant Distinct(ready)
      invariant forall j :: j in ready <==> j < i && j in remaining && IsReady(now, keys, j)
    {
      if i in remaining && IsReady(now, keys, i) {
        ready := ready + [i];
      }
    }
  }

  /** `groups` partitions `ready` by parent key and part. */
  ghost predicate Groups(now: seq<RawExpansion>, keys: map<nat, ExpansionKey>, ready: seq<nat>,
                         groups: map<Group, seq<nat>>) {
    && (forall i :: i in ready ==> i < |now| && GroupOf(now, keys, i) in groups)
    && (forall g :: g in groups ==> Distinct(groups[g]))
    && (forall g, i :: g in groups ==> (i in groups[g] <==> i in ready && GroupOf(now, keys, i) == g))
  }

  method GroupReady(now: seq<RawExpansion>, keys: map<nat, ExpansionKey>, ready: seq<nat>)
    returns (groups: map<Group, seq<nat>>)
    requires Distinct(ready) && forall i :: i in ready ==> i < |now|
    ensures Groups(now, keys, ready, groups)
  {
    groups := map[];
    for k := 0 to |ready|
      invariant Groups(now, keys, ready[..k], groups)
    {
      var i := ready[k];
      assert i in ready;
      assert ready[..k + 1] == ready[..k] + [i];
      assert i !in ready[..k];
      var g := GroupOf(now, keys, i);
      groups := groups[g := (if g in groups then groups[g] else []) + [i]];
    }
    assert ready[..|ready|] == ready;
  }

  function HashAt(raw: seq<RawExpansion>, i: nat): nat {
    if i < |raw| then raw[i].hash else 0
  }

  /** What a group's members share, seen from the original entries. */
  ghost predicate Cohort(raw: seq<RawExpansion>, steps: nat, parent: Option<ExpansionKey>, members: seq<nat>) {
    && Distinct(members)
    && (forall i :: i in members ==> i < |raw| && Within(raw, i, steps))
    && (forall i, j :: i in members && 0 <= j < |raw| ==> (j in members <==> SameRole(raw, i, j)))
    && (forall i :: i in members ==>
          KeySpec(raw, i, steps) == (if parent.Some? then parent.value else []) + [RankedPart(raw, i)])
  }

  lemma {:induction false} CohortRank(raw: seq<RawExpansion>, steps: nat, parent: Option<ExpansionKey>,
                                      members: seq<nat>, sorted: seq<nat>, k: nat)
    requires Cohort(raw, steps, parent, members) && k < |sorted|
    requires forall i :: i in sorted <==> i in members
    requires forall i, j :: 0 <= i < j < |sorted| ==> HashAt(raw, sorted[i]) < HashAt(raw, sorted[j])
    ensures sorted[k] < |raw| && Within(raw, sorted[k], steps)
    ensures RankedPart(raw, sorted[k]) == raw[sorted[k]].part.(sameRoleOrdinal := k % U32_LIMIT)
    ensures KeySpec(raw, sorted[k], steps) == (if parent.Some? then parent.value else []) + [RankedPart(raw, sorted[k])]
  {
    hide Within;
    hide KeySpec;
    var i := sorted[k];
    assert i in members;
    var hash := (m: nat) => HashAt(raw, m);
    RankIsPosition(sorted, hash, k);
    assert Below(sorted, hash, hash(i)) == set j | 0 <= j < |raw| && SameRole(raw, i, j) && raw[j].hash < raw[i].hash;
  }

  /** One group: sort by hash, refuse equal hashes, number the members and write their keys. */
  method AssignGroup(raw: array<RawExpansion>, parent: Option<ExpansionKey>, members: seq<nat>,
                     keys: map<nat, ExpansionKey>, ghost raw0: seq<RawExpansion>, ghost steps: nat)
    returns (ok: bool, keys': map<nat, ExpansionKey>)
    requires Collected(raw0) && Partial(raw0, raw[..], keys, steps)
    requires Cohort(raw0, steps, parent, members) && |members| <= U32_LIMIT
    requires forall i :: i in members ==> i !in keys
    modifies raw
    ensures ok <==> DistinctKeys(members, (i: nat) => HashAt(raw0, i))
    ensures ok ==> keys'.Keys == keys.Keys + Elements(members)
    ensures ok ==> Numbered(raw0, raw[..], keys', steps)
  {
    hide Within;
    hide KeySpec;
    hide SameRole;
    var now := raw[..];
    var hash := (i: nat) => HashAt(now, i);
    PartialKeepsIdentities(raw0, now, keys, steps);
    var sorted := SortBy(members, (i: nat, j: nat) => hash(i) <= hash(j));
    SortSorts(members, (i: nat, j: nat) => hash(i) <= hash(j));
    ImageSize(sorted, hash);
    var hashes := set i | i in sorted :: hash(i);
    assert hashes == Image(sorted, hash);
    SameKeysDistinct(members, sorted, hash, (i: nat) => HashAt(raw0, i));
    if |hashes| != |sorted| {
      return false, keys;
    }
    keys' := NumberMembers(raw, parent, members, sorted, keys, raw0, steps);
    ok := true;
  }

  method NumberMembers(raw: array<RawExpansion>, parent: Option<ExpansionKey>, ghost members: seq<nat>,
                       sorted: seq<nat>, keys: map<nat, ExpansionKey>, ghost raw0: seq<RawExpansion>, ghost steps: nat)
    returns (keys': map<nat, ExpansionKey>)
    requires Collected(raw0) && Numbered(raw0, raw[..], keys, steps)
    requires Cohort(raw0, steps, parent, members)
    requires forall i :: i in members ==> i !in keys
    requires forall i :: i in sorted <==> i in members
    requires forall i, j :: 0 <= i < j < |sorted| ==> HashAt(raw0, sorted[i]) < HashAt(raw0, sorted[j])
    requires Distinct(sorted) && |sorted| <= U32_LIMIT
    modifies raw
    ensures keys'.Keys == keys.Keys + Elements(members)
    ensures Numbered(raw0, raw[..], keys', steps)
  {
    hide Within;
    hide KeySpec;
    hide Cohort;
    hide Numbered;
    hide Rank;
    assert raw.Length == |raw0| by { NumberedLength(raw0, raw[..], keys, steps); }
    keys' := keys;
    for k := 0 to |sorted|
      invariant keys'.Keys == keys.Keys + Elements(sorted[..k])
      invariant Numbered(raw0, raw[..], keys', steps)
    {
      var index := sorted[k];
      FreshMember(sorted, k, keys, keys');
      CohortRank(raw0, steps, parent, members, sorted, k);
      var part := raw[index].part.(sameRoleOrdinal := k % U32_LIMIT);
      var key := (if parent.Some? then parent.value else []) + [part];
      NumberOne(raw0, raw[..], keys', index, steps);
      raw[index] := raw[index].(part := part, key := key);
      keys' := keys'[index := key];
      assert Elements(sorted[..k + 1]) == Elements(sorted[..k]) + {index};
    }
    assert Elements(sorted[..|sorted|]) == Elements(members);
  }

  lemma {:induction false} NumberedLength(raw: seq<RawExpansion>, now: seq<RawExpansion>,
                                          keys: map<nat, ExpansionKey>, steps: nat)
    requires Numbered(raw, now, keys, steps)
    ensures |now| == |raw|
  {
  }

  lemma {:induction false} FreshMember(sorted: seq<nat>, k: nat, keys: map<nat, ExpansionKey>,
                                       keys': map<nat, ExpansionKey>)
    requires Distinct(sorted) && k < |sorted| && sorted[k] !in keys
    requires keys'.Keys == keys.Keys + Elements(sorted[..k])
    ensures sorted[k] !in keys'
  {
  }

  lemma {:induction false} NumberOne(raw: seq<RawExpansion>, before: seq<RawExpansion>, keys: map<nat, ExpansionKey>,
                                     i: nat, steps: nat)
    requires Numbered(raw, before, keys, steps) && i < |raw| && i !in keys && Within(raw, i, steps)
    ensures before[i] == raw[i]
    ensures Numbered(raw, before[i := Finished(raw, i, steps)], keys[i := KeySpec(raw, i, steps)], steps)
  {
  }

  lemma {:induction false} SameKeysDistinct(members: seq<nat>, sorted: seq<nat>, hash: nat -> int, hash0: nat -> int)
    requires Distinct(members) && Sorted(sorted, (i: nat, j: nat) => hash(i) <= hash(j))
    requires multiset(sorted) == multiset(members) && forall i :: i in members ==> hash(i) == hash0(i)
    ensures Distinct(sorted)
    ensures DistinctKeys(members, hash0) <==> DistinctKeys(sorted, hash)
    ensures DistinctKeys(sorted, hash) ==> forall i, j :: 0 <= i < j < |sorted| ==> hash0(sorted[i]) < hash0(sorted[j])
  {
    SameElements(sorted, members);
    DistinctKeysPermutation(members, sorted, (i: nat) => i);
    DistinctKeysPermutation(members, sorted, hash0);
    assert forall i :: 0 <= i < |sorted| ==> sorted[i] in members;
  }

  /* ---------- rounds ---------- */

  /** Reading the half-rewritten entries gives the same parents as reading the original ones. */
  lemma {:induction false} SameLookups(raw: seq<RawExpansion>, now: seq<RawExpansion>, keys: map<nat, ExpansionKey>,
                                       steps: nat, i: nat)
    requires Partial(raw, now, keys, steps) && i < |raw|
    ensures now[i].identityParent == raw[i].identityParent
    ensures raw[i].identityParent.Some? ==>
      Position(now, raw[i].identityParent.value) == Position(raw, raw[i].identityParent.value)
  {
    PartialKeepsIdentities(raw, now, keys, steps);
    if raw[i].identityParent.Some? {
      PositionStable(raw, now, raw[i].identityParent.value, 0);
    }
  }

  lemma {:induction false} ReadyIsNextStep(raw: seq<RawExpansion>, now: seq<RawExpansion>,
                                           keys: map<nat, ExpansionKey>, steps: nat, i: nat)
    requires Progress(raw, now, keys, steps) && i < |raw|
    ensures IsReady(now, keys, i) <==> Within(raw, i, steps + 1)
  {
    SameLookups(raw, now, keys, steps, i);
  }

  lemma {:induction false} SiblingsSameStep(raw: seq<RawExpansion>, i: nat, j: nat, steps: nat)
    requires i < |raw| && j < |raw| && SameRole(raw, i, j)
    ensures Within(raw, i, steps) <==> Within(raw, j, steps)
  {
  }

  /** A parent key identifies the parent. */
  lemma {:induction false} ParentKeySeparates(raw: seq<RawExpansion>, now: seq<RawExpansion>,
                                              keys: map<nat, ExpansionKey>, steps: nat, i: nat, j: nat)
    requires Collected(raw) && Progress(raw, now, keys, steps) && i < |raw| && j < |raw|
    requires IsReady(now, keys, i) && IsReady(now, keys, j)
    ensures ParentKey(now, keys, i) == ParentKey(now, keys, j) <==> ParentOf(raw, i) == ParentOf(raw, j)
  {
    SameLookups(raw, now, keys, steps, i);
    SameLookups(raw, now, keys, steps, j);
    if raw[i].identityParent.Some? && raw[j].identityParent.Some? {
      var p, q := Position(raw, raw[i].identityParent.value).value, Position(raw, raw[j].identityParent.value).value;
      assert Done(raw, now, keys, p, steps) && Done(raw, now, keys, q, steps);
      if keys[p] == keys[q] {
        forall k, s: nat | 0 <= k < |raw| && s <= steps && Within(raw, k, s)
          ensures k in keys.Keys
        {
          WithinMore(raw, k, s, steps);
        }
        KeysDistinct(raw, keys.Keys, p, steps, q, steps);
      }
    }
  }

  lemma {:induction false} GroupIsCohort(raw: seq<RawExpansion>, now: seq<RawExpansion>, keys: map<nat, ExpansionKey>,
                                         steps: nat, ready: seq<nat>, groups: map<Group, seq<nat>>, g: Group)
    requires Collected(raw) && Progress(raw, now, keys, steps)
    requires forall i: nat :: i in ready <==> i < |raw| && i !in keys && IsReady(now, keys, i)
    requires Groups(now, keys, ready, groups) && g in groups
    ensures Cohort(raw, steps + 1, g.parent, groups[g]) && |groups[g]| <= |raw|
    ensures forall i :: i in groups[g] ==> i !in keys
  {
    hide KeySpec;
    hide Within;
    hide Progress;
    hide IsReady;
    var members := groups[g];
    forall i | i in members
      ensures i < |raw| && i !in keys && Within(raw, i, steps + 1)
      ensures KeySpec(raw, i, steps + 1) == (if g.parent.Some? then g.parent.value else []) + [RankedPart(raw, i)]
    {
      assert i in ready;
      ReadyIsNextStep(raw, now, keys, steps, i);
      MemberKey(raw, now, keys, steps, i);
    }
    forall i, j | i in members && 0 <= j < |raw|
      ensures j in members <==> SameRole(raw, i, j)
    {
      assert i in ready;
      assert j in members <==> j in ready && GroupOf(now, keys, j) == g;
      MemberIffSameRole(raw, now, keys, steps, i, j);
    }
    DistinctSize(members);
    SubsetSize(Elements(members), |raw|);
  }

  lemma {:induction false} MemberKey(raw: seq<RawExpansion>, now: seq<RawExpansion>, keys: map<nat, ExpansionKey>,
                                     steps: nat, i: nat)
    requires Progress(raw, now, keys, steps) && i < |raw| && i !in keys && Within(raw, i, steps + 1)
    ensures now[i] == raw[i]
    ensures var parent := ParentKey(now, keys, i);
      KeySpec(raw, i, steps + 1) == (if parent.Some? then parent.value else []) + [RankedPart(raw, i)]
  {
    SameLookups(raw, now, keys, steps, i);
    if raw[i].identityParent.Some? {
      assert Done(raw, now, keys, Position(raw, raw[i].identityParent.value).value, steps);
    }
  }

  lemma {:induction false} MemberIffSameRole(raw: seq<RawExpansion>, now: seq<RawExpansion>,
                                             keys: map<nat, ExpansionKey>, steps: nat, i: nat, j: nat)
    requires Collected(raw) && Progress(raw, now, keys, steps) && i < |raw| && j < |raw|
    requires i !in keys && IsReady(now, keys, i)
    ensures j !in keys && IsReady(now, keys, j) && GroupOf(now, keys, j) == GroupOf(now, keys, i)
      <==> SameRole(raw, i, j)
  {
    ReadyIsNextStep(raw, now, keys, steps, i);
    ReadyIsNextStep(raw, now, keys, steps, j);
    if SameRole(raw, i, j) {
      SiblingsSameStep(raw, i, j, steps);
      SiblingsSameStep(raw, i, j, steps + 1);
    }
    if IsReady(now, keys, j) {
      ParentKeySeparates(raw, now, keys, steps, i, j);
    }
  }

  lemma {:induction false} ProgressIsPartial(raw: seq<RawExpansion>, now: seq<RawExpansion>,
                                             keys: map<nat, ExpansionKey>, steps: nat)
    requires Progress(raw, now, keys, steps)
    ensures Partial(raw, now, keys, steps)
  {
  }

  lemma {:induction false} PartialNextStep(raw: seq<RawExpansion>, now: seq<RawExpansion>,
                                           keys: map<nat, ExpansionKey>, steps: nat)
    requires Partial(raw, now, keys, steps)
    ensures Partial(raw, now, keys, steps + 1)
  {
    forall i | i in keys
      ensures Done(raw, now, keys, i, steps + 1)
    {
      assert Done(raw, now, keys, i, steps);
      WithinMore(raw, i, steps, steps + 1);
    }
  }

  /** A cohort without a hash collision can join the keyed entries. */
  lemma {:induction false} SeparationGrows(raw: seq<RawExpansion>, steps: nat, parent: Option<ExpansionKey>,
                                           keyed: set<nat>, members: seq<nat>)
    requires HashesSeparate(raw, keyed) && Cohort(raw, steps, parent, members)
    requires forall i :: i in members ==> i !in keyed
    requires DistinctKeys(members, (i: nat) => HashAt(raw, i))
    ensures HashesSeparate(raw, keyed + Elements(members))
  {
    forall i, j | i in keyed + Elements(members) && j in keyed + Elements(members)
                  && i < |raw| && j < |raw| && i != j && SameRole(raw, i, j)
      ensures raw[i].hash != raw[j].hash
    {
      if i in members && j in members {
        var x :| 0 <= x < |members| && members[x] == i;
        var y :| 0 <= y < |members| && members[y] == j;
        assert HashAt(raw, members[x]) != HashAt(raw, members[y]);
      } else if j in members {
        assert SameRole(raw, j, i);
      }
    }
  }

  lemma {:induction false} CollisionFound(raw: seq<RawExpansion>, steps: nat, parent: Option<ExpansionKey>,
                                          members: seq<nat>)
    requires Cohort(raw, steps, parent, members)
    requires !DistinctKeys(members, (i: nat) => HashAt(raw, i))
    ensures !Assignable(raw)
  {
    var x, y :| 0 <= x < y < |members| && HashAt(raw, members[x]) == HashAt(raw, members[y]);
    var i, j := members[x], members[y];
    assert i in members && j in members && i != j;
    assert SameRole(raw, i, j);
  }

  /** The groups of one round, in whatever order the map yields them. */
  method AssignGroups(raw: array<RawExpansion>, groups: map<Group, seq<nat>>, keys: map<nat, ExpansionKey>,
                      ghost ready: seq<nat>, ghost raw0: seq<RawExpansion>, ghost steps: nat)
    returns (ok: bool, keys': map<nat, ExpansionKey>)
    requires Collected(raw0) && Progress(raw0, raw[..], keys, steps)
    requires forall i: nat :: i in ready <==> i < |raw0| && i !in keys && IsReady(raw[..], keys, i)
    requires Groups(raw[..], keys, ready, groups)
    modifies raw
    ensures ok ==> Partial(raw0, raw[..], keys', steps + 1) && keys'.Keys == keys.Keys + Elements(ready)
    ensures !ok ==> !Assignable(raw0)
  {
    hide Within;
    hide Numbered;
    hide HashesSeparate;
    hide Progress;
    hide Cohort;
    hide Assignable;
    ghost var now := raw[..];
    keys' := keys;
    var todo := groups.Keys;
    ProgressIsPartial(raw0, now, keys, steps);
    PartialNextStep(raw0, now, keys, steps);
    while todo != {}
      invariant todo <= groups.Keys
      invariant Partial(raw0, raw[..], keys', steps + 1)
      invariant forall i :: i in keys' <==> i in keys || (i in ready && GroupOf(now, keys, i) !in todo)
      decreases todo
    {
      var g :| g in todo;
      GroupIsCohort(raw0, now, keys, steps, ready, groups, g);
      ghost var before := keys'.Keys;
      ok, keys' := AssignGroup(raw, g.parent, groups[g], keys', raw0, steps + 1);
      if !ok {
        CollisionFound(raw0, steps + 1, g.parent, groups[g]);
        return;
      }
      SeparationGrows(raw0, steps + 1, g.parent, before, groups[g]);
      todo := todo - {g};
    }
    ok := true;
  }

  /* ---------- the whole assignment ---------- */

  ghost predicate Assignable(raw: seq<RawExpansion>) {
    && (forall i :: 0 <= i < |raw| ==> ChainEndsInside(raw, i))
    && HashesSeparate(raw, Indices(|raw|))
  }

  /** Every entry carries its ranked part and its parent's key extended by it. */
  ghost predicate Keyed(raw: seq<RawExpansion>, now: seq<RawExpansion>) {
    && |now| == |raw|
    && forall i :: 0 <= i < |raw| ==> HasKey(raw, now, i)
  }

  ghost predicate HasKey(raw: seq<RawExpansion>, now: seq<RawExpansion>, i: nat) {
    exists steps: nat :: KeyedAt(raw, now, i, steps)
  }

  ghost predicate KeyedAt(raw: seq<RawExpansion>, now: seq<RawExpansion>, i: nat, steps: nat) {
    i < |raw| == |now| && Within(raw, i, steps) && now[i] == Finished(raw, i, steps)
  }

  /** Terminates, and succeeds exactly when every identity-parent chain ends inside the input and
      hashes separate siblings in one role; the closing distinctness check never rejects. */
  method AssignExpansionKeys(raw: array<RawExpansion>) returns (ok: bool)
    requires Collected(raw[..])
    modifies raw
    ensures ok <==> Assignable(old(raw[..]))
    ensures ok ==> Keyed(old(raw[..]), raw[..])
  {
    ghost var raw0 := raw[..];
    ghost var steps: nat := 0;
    var remaining := Indices(raw.Length);
    var keys: map<nat, ExpansionKey> := map[];
    NothingKeyed(raw0);
    hide Progress;
    hide Assignable;
    hide Indices;
    while remaining != {}
      invariant Progress(raw0, raw[..], keys, steps)
      invariant remaining == Indices(|raw0|) - keys.Keys
      decreases remaining
    {
      ok, keys, remaining := Round(raw, keys, remaining, raw0, steps);
      if !ok {
        return;
      }
      steps := steps + 1;
    }
    Separated(raw0, raw[..], keys, steps);
    ok := |Values(keys)| == raw.Length;
  }

  /** One turn of the outer loop. */
  method Round(raw: array<RawExpansion>, keys: map<nat, ExpansionKey>, remaining: set<nat>,
               ghost raw0: seq<RawExpansion>, ghost steps: nat)
    returns (ok: bool, keys': map<nat, ExpansionKey>, remaining': set<nat>)
    requires Collected(raw0) && Progress(raw0, raw[..], keys, steps)
    requires remaining == Indices(|raw0|) - keys.Keys && remaining != {}
    modifies raw
    ensures !ok ==> !Assignable(raw0)
    ensures ok ==> Progress(raw0, raw[..], keys', steps + 1)
    ensures ok ==> remaining' == Indices(|raw0|) - keys'.Keys && remaining' < remaining
  {
    hide Progress;
    hide Partial;
    hide Assignable;
    hide Within;
    hide IsReady;
    hide Groups;
    RemainingBounds(raw0, raw[..], keys, steps);
    var ready := ReadyIndices(raw[..], remaining, keys);
    ReadyStep(raw0, raw[..], keys, steps);
    if ready == [] {
      forall i | 0 <= i < |raw0| && i !in keys
        ensures i in remaining && !Within(raw0, i, steps + 1)
      {
        assert i !in ready;
      }
      NobodyNew(raw0, raw[..], keys, steps, remaining);
      return false, keys, remaining;
    }
    ghost var now := raw[..];
    var groups := GroupReady(raw[..], keys, ready);
    ok, keys' := AssignGroups(raw, groups, keys, ready, raw0, steps);
    remaining' := remaining - keys'.Keys;
    if ok {
      RoundEnds(raw0, now, keys, raw[..], keys', ready, steps, remaining);
    }
  }

  lemma {:induction false} RemainingBounds(raw: seq<RawExpansion>, now: seq<RawExpansion>,
                                           keys: map<nat, ExpansionKey>, steps: nat)
    requires Progress(raw, now, keys, steps)
    ensures |now| == |raw| && forall i :: i in keys ==> i < |raw|
  {
  }

  lemma {:induction false} RoundEnds(raw: seq<RawExpansion>, now: seq<RawExpansion>, keys: map<nat, ExpansionKey>,
                                     now': seq<RawExpansion>, keys': map<nat, ExpansionKey>, ready: seq<nat>,
                                     steps: nat, remaining: set<nat>)
    requires Progress(raw, now, keys, steps) && Partial(raw, now', keys', steps + 1)
    requires remaining == Indices(|raw|) - keys.Keys && ready != []
    requires forall i: nat :: i in ready <==> i < |raw| && i in remaining && IsReady(now, keys, i)
    requires keys'.Keys == keys.Keys + Elements(ready)
    ensures Progress(raw, now', keys', steps + 1)
    ensures remaining - keys'.Keys == Indices(|raw|) - keys'.Keys && remaining - keys'.Keys < remaining
  {
    hide Partial;
    assert ready[0] in ready && ready[0] in keys'.Keys;
    ReadyStep(raw, now, keys, steps);
  }

  lemma {:induction false} ReadyStep(raw: seq<RawExpansion>, now: seq<RawExpansion>, keys: map<nat, ExpansionKey>,
                                     steps: nat)
    requires Progress(raw, now, keys, steps)
    ensures forall i :: 0 <= i < |raw| ==> (IsReady(now, keys, i) <==> Within(raw, i, steps + 1))
    ensures forall i :: 0 <= i < |raw| && i in keys ==> Within(raw, i, steps + 1)
  {
    forall i | 0 <= i < |raw|
      ensures IsReady(now, keys, i) <==> Within(raw, i, steps + 1)
      ensures Within(raw, i, steps) ==> Within(raw, i, steps + 1)
    {
      ReadyIsNextStep(raw, now, keys, steps, i);
      if Within(raw, i, steps) { WithinMore(raw, i, steps, steps + 1); }
    }
  }

  lemma {:induction false} NothingKeyed(raw: seq<RawExpansion>)
    ensures Progress(raw, raw, map[], 0)
  {
  }

  lemma {:induction false} NobodyNew(raw: seq<RawExpansion>, now: seq<RawExpansion>, keys: map<nat, ExpansionKey>,
                                     steps: nat, remaining: set<nat>)
    requires Progress(raw, now, keys, steps)
    requires remaining != {} && forall i :: i in remaining ==> i < |raw| && i !in keys
    requires forall i :: 0 <= i < |raw| && i !in keys ==> i in remaining && !Within(raw, i, steps + 1)
    ensures !Assignable(raw)
  {
    var i :| i in remaining;
    forall any: nat
      ensures !Within(raw, i, any)
    {
      if Within(raw, i, any) { Stuck(raw, steps, i, any); }
    }
    assert !ChainEndsInside(raw, i);
  }

  /** Once everybody is keyed the keys are as many as the entries. */
  lemma {:induction false} Separated(raw: seq<RawExpansion>, now: seq<RawExpansion>, keys: map<nat, ExpansionKey>,
                                     steps: nat)
    requires Collected(raw) && Progress(raw, now, keys, steps) && Indices(|raw|) - keys.Keys == {}
    ensures |Values(keys)| == |raw|
    ensures Assignable(raw) && Keyed(raw, now)
  {
    hide Within;
    hide KeySpec;
    hide Progress;
    hide Assignable;
    hide Keyed;
    hide Collected;
    RemainingBounds(raw, now, keys, steps);
    assert keys.Keys == Indices(|raw|);
    forall i, j | i in keys && j in keys && keys[i] == keys[j]
      ensures i == j
    {
      DoneSeparates(raw, now, keys, steps, i, j);
    }
    InjectiveValues(keys);
    EverybodyDone(raw, now, keys, steps);
  }

  lemma {:induction false} DoneSeparates(raw: seq<RawExpansion>, now: seq<RawExpansion>, keys: map<nat, ExpansionKey>,
                                         steps: nat, i: nat, j: nat)
    requires Collected(raw) && Progress(raw, now, keys, steps) && keys.Keys == Indices(|raw|)
    requires i in keys && j in keys && keys[i] == keys[j]
    ensures i == j
  {
    hide Within;
    hide KeySpec;
    hide HashesSeparate;
    hide Rank;
    assert Done(raw, now, keys, i, steps) && Done(raw, now, keys, j, steps);
    KeysDistinct(raw, keys.Keys, i, steps, j, steps);
  }

  lemma {:induction false} EverybodyDone(raw: seq<RawExpansion>, now: seq<RawExpansion>, keys: map<nat, ExpansionKey>,
                                         steps: nat)
    requires Progress(raw, now, keys, steps) && keys.Keys == Indices(|raw|)
    ensures Assignable(raw) && Keyed(raw, now)
  {
    forall i | 0 <= i < |raw|
      ensures ChainEndsInside(raw, i) && HasKey(raw, now, i)
    {
      DoneHasKey(raw, now, keys, i, steps);
    }
  }

  lemma {:induction false} DoneHasKey(raw: seq<RawExpansion>, now: seq<RawExpansion>, keys: map<nat, ExpansionKey>,
                                      i: nat, steps: nat)
    requires Done(raw, now, keys, i, steps)
    ensures i < |raw| && ChainEndsInside(raw, i) && HasKey(raw, now, i)
  {
    assert KeyedAt(raw, now, i, steps);
  }

  function Values(m: map<nat, ExpansionKey>): set<ExpansionKey> {
    set i | i in m :: m[i]
  }

  lemma {:induction false} InjectiveValues(m: map<nat, ExpansionKey>)
    requires forall i, j :: i in m && j in m && m[i] == m[j] ==> i == j
    ensures |Values(m)| == |m.Keys|
    decreases m.Keys
  {
    if k :| k in m {
      var rest := m - {k};
      assert rest.Keys == m.Keys - {k};
      InjectiveValues(rest);
      ValuesWithout(m, k);
    } else {
      assert Values(m) == {};
    }
  }

  lemma {:induction false} ValuesWithout(m: map<nat, ExpansionKey>, k: nat)
    requires k in m && forall i, j :: i in m && j in m && m[i] == m[j] ==> i == j
    ensures Values(m) == Values(m - {k}) + {m[k]} && m[k] !in Values(m - {k})
  {
    forall v | v in Values(m)
      ensures v in Values(m - {k}) + {m[k]}
    {
      var i :| i in m && m[i] == v;
      if i != k { assert i in m - {k} && (m - {k})[i] == v; }
    }
  }

  /* ---------- what the keys are good for ---------- */

  /** Keys are pairwise distinct. */
  lemma {:induction false} KeysIdentify(raw: seq<RawExpansion>, now: seq<RawExpansion>, i: nat, j: nat)
    requires Collected(raw) && Assignable(raw) && Keyed(raw, now)
    requires i < |now| && j < |now| && now[i].key == now[j].key
    ensures i == j
  {
    assert HasKey(raw, now, i);
    var m: nat :| KeyedAt(raw, now, i, m);
    assert HasKey(raw, now, j);
    var n: nat :| KeyedAt(raw, now, j, n);
    KeysDistinct(raw, Indices(|raw|), i, m, j, n);
  }

  lemma {:induction false} KeySpecUnique(raw: seq<RawExpansion>, i: nat, m: nat, n: nat)
    requires i < |raw| && Within(raw, i, m) && Within(raw, i, n)
    ensures KeySpec(raw, i, m) == KeySpec(raw, i, n)
  {
    WithinMore(raw, i, m, m + n);
    WithinMore(raw, i, n, m + n);
  }

  /** A root's key is its own part; any other key is the parent's key and one more part, its own. */
  lemma {:induction false} KeyExtendsParent(raw: seq<RawExpansion>, now: seq<RawExpansion>, i: nat)
    requires Assignable(raw) && Keyed(raw, now) && i < |now|
    ensures raw[i].identityParent.None? ==> now[i].key == [now[i].part]
    ensures raw[i].identityParent.Some? ==>
      && Position(raw, raw[i].identityParent.value).Some?
      && now[i].key == now[Position(raw, raw[i].identityParent.value).value].key + [now[i].part]
  {
    assert HasKey(raw, now, i);
    var m: nat :| KeyedAt(raw, now, i, m);
    if raw[i].identityParent.Some? {
      var p := Position(raw, raw[i].identityParent.value).value;
      assert HasKey(raw, now, p);
      var n: nat :| KeyedAt(raw, now, p, n);
      KeySpecUnique(raw, p, m - 1, n);
    }
  }

  /** Ordinals within one role number the siblings densely, in hash order. */
  lemma {:induction false} OrdinalsFollowHashes(raw: seq<RawExpansion>, now: seq<RawExpansion>, i: nat, j: nat)
    requires Collected(raw) && Assignable(raw) && Keyed(raw, now)
    requires i < |raw| && j < |raw| && SameRole(raw, i, j)
    ensures raw[i].hash < raw[j].hash <==> now[i].part.sameRoleOrdinal < now[j].part.sameRoleOrdinal
  {
    hide Rank;
    hide SameRole;
    OrdinalIsRank(raw, now, i);
    OrdinalIsRank(raw, now, j);
    if raw[i].hash < raw[j].hash { RankStrict(raw, i, j); }
    if raw[j].hash < raw[i].hash {
      SameRoleSymmetric(raw, i, j);
      RankStrict(raw, j, i);
    }
    assert i in Indices(|raw|) && j in Indices(|raw|);
  }

  lemma {:induction false} SameRoleSymmetric(raw: seq<RawExpansion>, i: nat, j: nat)
    requires i < |raw| && j < |raw| && SameRole(raw, i, j)
    ensures SameRole(raw, j, i)
  {
  }

  lemma {:induction false} OrdinalIsRank(raw: seq<RawExpansion>, now: seq<RawExpansion>, i: nat)
    requires Collected(raw) && Keyed(raw, now) && i < |raw|
    ensures now[i].part.sameRoleOrdinal == Rank(raw, i)
  {
    assert HasKey(raw, now, i);
    var m: nat :| KeyedAt(raw, now, i, m);
  }

  /* ---------- the same, said of the fields alone ---------- */

  lemma {:induction false} PositionFirst(raw: seq<RawExpansion>, compilerId: nat, from: nat, p: nat)
    requires from <= |raw|
    ensures PositionFrom(raw, compilerId, from) == Some(p) <==>
      from <= p < |raw| && raw[p].compilerId == compilerId
      && forall q :: from <= q < p ==> raw[q].compilerId != compilerId
    decreases |raw| - from
  {
    if from < |raw| && raw[from].compilerId != compilerId {
      PositionFirst(raw, compilerId, from + 1, p);
    }
  }

  /** `p` is the identity parent of `i`: the first entry with the id it names. */
  ghost predicate IsParent(raw: seq<RawExpansion>, i: nat, p: nat) {
    && i < |raw| && p < |raw| && raw[i].identityParent == Some(raw[p].compilerId)
    && forall q :: 0 <= q < p ==> raw[q].compilerId != raw[p].compilerId
  }

  lemma {:induction false} ParentMeans(raw: seq<RawExpansion>, i: nat, p: nat)
    requires i < |raw|
    ensures ParentOf(raw, i) == Some(Some(p)) <==> IsParent(raw, i, p)
  {
    if raw[i].identityParent.Some? { PositionFirst(raw, raw[i].identityParent.value, 0, p); }
  }

  /** `chain` leads from `i` through identity parents to an expansion without one. */
  ghost predicate Ancestors(raw: seq<RawExpansion>, i: nat, chain: seq<nat>) {
    && chain != [] && chain[0] == i && (forall k :: 0 <= k < |chain| ==> chain[k] < |raw|)
    && raw[chain[|chain| - 1]].identityParent == None
    && forall k :: 0 <= k < |chain| - 1 ==> IsParent(raw, chain[k], chain[k + 1])
  }

  lemma {:induction false} WithinChain(raw: seq<RawExpansion>, i: nat, steps: nat) returns (chain: seq<nat>)
    requires i < |raw| && Within(raw, i, steps)
    ensures Ancestors(raw, i, chain)
    decreases steps
  {
    match ParentOf(raw, i)
    case None => chain := [i];
    case Some(p) =>
      ParentMeans(raw, i, p.value);
      var rest := WithinChain(raw, p.value, steps - 1);
      chain := [i] + rest;
      assert forall k :: 0 < k < |chain| ==> chain[k] == rest[k - 1];
  }

  lemma {:induction false} ChainWithin(raw: seq<RawExpansion>, i: nat, chain: seq<nat>)
    requires i < |raw| && Ancestors(raw, i, chain)
    ensures Within(raw, i, |chain|)
    decreases |chain|
  {
    if |chain| > 1 {
      var rest := chain[1..];
      assert forall k :: 0 <= k < |rest| ==> rest[k] == chain[k + 1];
      assert IsParent(raw, chain[0], chain[0 + 1]);
      ParentMeans(raw, i, chain[1]);
      ChainWithin(raw, chain[1], rest);
    }
  }

  ghost predicate Rooted(raw: seq<RawExpansion>, i: nat) {
    exists chain :: Ancestors(raw, i, chain)
  }

  lemma {:induction false} RootedMeans(raw: seq<RawExpansion>, i: nat)
    requires i < |raw|
    ensures ChainEndsInside(raw, i) <==> Rooted(raw, i)
    ensures ChainEndsInside(raw, i) && raw[i].identityParent.Some? ==>
      Position(raw, raw[i].identityParent.value).Some?
  {
    if steps: nat :| Within(raw, i, steps) {
      var chain := WithinChain(raw, i, steps);
    }
    if chain :| Ancestors(raw, i, chain) {
      ChainWithin(raw, i, chain);
    }
  }

  lemma {:induction false} SameRoleMeans(raw: seq<RawExpansion>, i: nat, j: nat)
    requires i < |raw| && j < |raw| && ChainEndsInside(raw, i) && ChainEndsInside(raw, j)
    ensures SameRole(raw, i, j) <==> raw[j].identityParent == raw[i].identityParent && raw[j].part == raw[i].part
  {
    RootedMeans(raw, i);
    RootedMeans(raw, j);
  }

  /** Keys can be assigned exactly when a chain of identity parents leads from every expansion to one without, and
      expansions with the same identity parent and equal parts differ in their hashes. */
  lemma {:induction false} AssignableMeans(raw: seq<RawExpansion>)
    ensures Assignable(raw) <==>
      && (forall i :: 0 <= i < |raw| ==> Rooted(raw, i))
      && forall i, j |
           && 0 <= i < |raw| && 0 <= j < |raw| && i != j && raw[i].identityParent == raw[j].identityParent
           && raw[i].part == raw[j].part ::
           raw[i].hash != raw[j].hash
  {
    forall i: nat | i < |raw|
      ensures ChainEndsInside(raw, i) <==> Rooted(raw, i)
    {
      RootedMeans(raw, i);
    }
    if forall i :: 0 <= i < |raw| ==> ChainEndsInside(raw, i) {
      forall i: nat, j: nat | i < |raw| && j < |raw|
        ensures SameRole(raw, i, j) <==> raw[j].identityParent == raw[i].identityParent && raw[j].part == raw[i].part
      {
        SameRoleMeans(raw, i, j);
      }
    }
    hide Rooted;
    hide ChainEndsInside;
    hide SameRole;
  }

  /** What an assignment writes: to each expansion the number of expansions with the same identity parent, an equal part
      and a smaller hash, and its parent's key, if any, extended by its own part. Nothing else changes. */
  lemma {:induction false} AssignedMeans(raw: seq<RawExpansion>, now: seq<RawExpansion>, i: nat)
    requires Collected(raw) && Assignable(raw) && Keyed(raw, now) && i < |raw|
    ensures now[i].compilerId == raw[i].compilerId && now[i].identityParent == raw[i].identityParent
    ensures now[i].hash == raw[i].hash
    ensures now[i].part == raw[i].part.(sameRoleOrdinal := now[i].part.sameRoleOrdinal)
    ensures now[i].part.sameRoleOrdinal ==
      |set j | 0 <= j < |raw| && raw[j].identityParent == raw[i].identityParent && raw[j].part == raw[i].part
               && raw[j].hash < raw[i].hash|
    ensures raw[i].identityParent == None ==> now[i].key == [now[i].part]
    ensures forall p :: 0 <= p < |raw| && IsParent(raw, i, p) ==> now[i].key == now[p].key + [now[i].part]
  {
    KeyExtendsParent(raw, now, i);
    OrdinalIsRank(raw, now, i);
    assert HasKey(raw, now, i);
    forall p: nat | p < |raw| && IsParent(raw, i, p)
      ensures Position(raw, raw[i].identityParent.value) == Some(p)
    {
      ParentMeans(raw, i, p);
    }
    assert forall j :: 0 <= j < |raw| ==> ChainEndsInside(raw, j);
    forall j: nat | j < |raw|
      ensures SameRole(raw, i, j) <==> raw[j].identityParent == raw[i].identityParent && raw[j].part == raw[i].part
    {
      SameRoleMeans(raw, i, j);
    }
    hide SameRole;
    assert
      (set j | 0 <= j < |raw| && raw[j].identityParent == raw[i].identityParent && raw[j].part == raw[i].part
               && raw[j].hash < raw[i].hash)
      == set j | 0 <= j < |raw| && SameRole(raw, i, j) && raw[j].hash < raw[i].hash;
  }
}
