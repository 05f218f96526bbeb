/** Dense numbering of keyed expansions (src/expansions.rs, lines 156-166). */
module ExpansionNumbering {
  import opened Wrappers
  import opened Ordering
  import opened GraphKeys
  import opened Expansions

  type PartOrder = (ExpansionKeyPart, ExpansionKeyPart) -> bool

  /** The derived order of keys: part by part, a key before any longer key it begins. */
  predicate KeyLe(partLe: PartOrder, a: ExpansionKey, b: ExpansionKey) {
    a == [] || (b != [] && if a[0] == b[0] then KeyLe(partLe, a[1..], b[1..]) else partLe(a[0], b[0]))
  }

  lemma {:induction false} KeyTotal(partLe: PartOrder, a: ExpansionKey, b: ExpansionKey)
    requires TotalOrder(partLe)
    ensures KeyLe(partLe, a, b) || KeyLe(partLe, b, a)
  {
    if a != [] && b != [] && a[0] == b[0] {
      KeyTotal(partLe, a[1..], b[1..]);
    }
  }

  lemma {:induction false} KeyTransitive(partLe: PartOrder, a: ExpansionKey, b: ExpansionKey, c: ExpansionKey)
    requires TotalOrder(partLe) && KeyLe(partLe, a, b) && KeyLe(partLe, b, c)
    ensures KeyLe(partLe, a, c)
  {
    if a != [] && a[0] == b[0] && b[0] == c[0] {
      KeyTransitive(partLe, a[1..], b[1..], c[1..]);
    }
  }

  lemma {:induction false} KeyAntisymmetric(partLe: PartOrder, a: ExpansionKey, b: ExpansionKey)
    requires TotalOrder(partLe) && KeyLe(partLe, a, b) && KeyLe(partLe, b, a)
    ensures a == b
  {
    if a != [] {
      KeyAntisymmetric(partLe, a[1..], b[1..]);
      assert a == [a[0]] + a[1..] && b == [b[0]] + b[1..];
    }
  }

  lemma {:induction false} PrefixFirst(partLe: PartOrder, a: ExpansionKey, more: ExpansionKey)
    ensures KeyLe(partLe, a, a + more)
  {
    if a != [] {
      assert (a + more)[1..] == a[1..] + more;
      PrefixFirst(partLe, a[1..], more);
    }
  }

  /** Between keys of which neither begins the other, the first part in which they differ decides; a key that goes on is
      never before the one it begins with. */
  lemma {:induction false} FirstDifferenceDecides(partLe: PartOrder, prefix: ExpansionKey, x: ExpansionKeyPart,
                                                  y: ExpansionKeyPart, a: ExpansionKey, b: ExpansionKey)
    requires x != y
    ensures KeyLe(partLe, prefix + ([x] + a), prefix + ([y] + b)) <==> partLe(x, y)
    ensures !KeyLe(partLe, prefix + ([x] + a), prefix)
    decreases |prefix|
  {
    if prefix != [] {
      FirstDifferenceDecides(partLe, prefix[1..], x, y, a, b);
      assert (prefix + ([x] + a))[1..] == prefix[1..] + ([x] + a);
      assert (prefix + ([y] + b))[1..] == prefix[1..] + ([y] + b);
    }
  }

  function ByKey(partLe: PartOrder): (RawExpansion, RawExpansion) -> bool {
    (a: RawExpansion, b: RawExpansion) => KeyLe(partLe, a.key, b.key)
  }

  function KeyOrder(partLe: PartOrder): (ExpansionKey, ExpansionKey) -> bool {
    (a: ExpansionKey, b: ExpansionKey) => KeyLe(partLe, a, b)
  }

  lemma {:induction false} KeysOrdered(partLe: PartOrder)
    requires TotalOrder(partLe)
    ensures TotalPreorder(ByKey(partLe)) && TotalOrder(KeyOrder(partLe))
  {
    forall a: ExpansionKey, b: ExpansionKey
      ensures KeyLe(partLe, a, b) || KeyLe(partLe, b, a)
      ensures KeyLe(partLe, a, b) && KeyLe(partLe, b, a) ==> a == b
    {
      KeyTotal(partLe, a, b);
      if KeyLe(partLe, a, b) && KeyLe(partLe, b, a) { KeyAntisymmetric(partLe, a, b); }
    }
    forall a: ExpansionKey, b: ExpansionKey, c: ExpansionKey | KeyLe(partLe, a, b) && KeyLe(partLe, b, c)
      ensures KeyLe(partLe, a, c)
    {
      KeyTransitive(partLe, a, b, c);
    }
  }

  /** Distinct compiler ids. */
  ghost predicate IdsDistinct(raw: seq<RawExpansion>) {
    forall i, j :: 0 <= i < j < |raw| ==> raw[i].compilerId != raw[j].compilerId
  }

  function IdsOf(raw: seq<RawExpansion>): (ids: seq<nat>)
    ensures |ids| == |raw| && forall i :: 0 <= i < |ids| ==> ids[i] == raw[i].compilerId
  {
    seq(|raw|, i requires 0 <= i < |raw| => raw[i].compilerId)
  }

  /** `numbers` sends every compiler id to its position. */
  ghost predicate NumberedBy(sorted: seq<RawExpansion>, numbers: map<nat, nat>) {
    && (forall i :: 0 <= i < |sorted| ==> sorted[i].compilerId in numbers && numbers[sorted[i].compilerId] == i)
    && (forall id :: id in numbers ==> numbers[id] < |sorted| && sorted[numbers[id]].compilerId == id)
  }

  method NumberSorted(sorted: seq<RawExpansion>) returns (numbers: map<nat, nat>)
    ensures numbers.Keys == Elements(IdsOf(sorted))
    ensures IdsDistinct(sorted) ==> NumberedBy(sorted, numbers)
  {
    numbers := map[];
    for i := 0 to |sorted|
      invariant numbers.Keys == Elements(IdsOf(sorted)[..i])
      invariant IdsDistinct(sorted) ==>
        forall k :: 0 <= k < i ==> sorted[k].compilerId in numbers && numbers[sorted[k].compilerId] == k
    {
      assert IdsOf(sorted)[..i + 1] == IdsOf(sorted)[..i] + [sorted[i].compilerId];
      numbers := numbers[sorted[i].compilerId := i];
    }
    assert IdsOf(sorted)[..|sorted|] == IdsOf(sorted);
    forall id | id in numbers && IdsDistinct(sorted)
      ensures numbers[id] < |sorted| && sorted[numbers[id]].compilerId == id
    {
      assert id in IdsOf(sorted);
      var k :| 0 <= k < |sorted| && IdsOf(sorted)[k] == id;
      assert numbers[sorted[k].compilerId] == k;
    }
  }

  /** The sort and the numbering: fails exactly when two entries share a compiler id. */
  method NumberExpansions(keyed: seq<RawExpansion>, partLe: PartOrder)
    returns (r: Option<(seq<RawExpansion>, map<nat, nat>)>)
    requires TotalOrder(partLe)
    ensures r.Some? <==> IdsDistinct(SortBy(keyed, ByKey(partLe)))
    ensures r.Some? ==> r.value.0 == SortBy(keyed, ByKey(partLe)) && NumberedBy(r.value.0, r.value.1)
  {
    var sorted := SortBy(keyed, ByKey(partLe));
    var numbers := NumberSorted(sorted);
    DistinctCount(IdsOf(sorted));
    assert Distinct(IdsOf(sorted)) <==> IdsDistinct(sorted);
    assert |numbers.Keys| == |numbers|;
    if |numbers| != |sorted| {
      return None;
    }
    r := Some((sorted, numbers));
  }

  /** After a successful assignment the numbers follow strictly ascending keys. */
  lemma {:induction false} NumbersFollowKeys(raw: seq<RawExpansion>, now: seq<RawExpansion>, partLe: PartOrder,
                                             i: nat, j: nat)
    requires TotalOrder(partLe) && Collected(raw) && Assignable(raw) && Keyed(raw, now)
    requires i < j < |SortBy(now, ByKey(partLe))|
    ensures KeyLe(partLe, SortBy(now, ByKey(partLe))[i].key, SortBy(now, ByKey(partLe))[j].key)
    ensures SortBy(now, ByKey(partLe))[i].key != SortBy(now, ByKey(partLe))[j].key
  {
    hide Keyed;
    hide Assignable;
    hide SortBy;
    var sorted := SortBy(now, ByKey(partLe));
    KeysOrdered(partLe);
    SortSorts(now, ByKey(partLe));
    assert ByKey(partLe)(sorted[i], sorted[j]);
    KeysKeptDistinct(raw, now, sorted, i, j);
  }

  lemma {:induction false} KeysKeptDistinct(raw: seq<RawExpansion>, now: seq<RawExpansion>, sorted: seq<RawExpansion>,
                                            i: nat, j: nat)
    requires Collected(raw) && Assignable(raw) && Keyed(raw, now) && multiset(sorted) == multiset(now)
    requires i < j < |sorted|
    ensures sorted[i].key != sorted[j].key
  {
    SameElements(sorted, now);
    assert sorted[i] in now && sorted[j] in now;
    var k :| 0 <= k < |now| && now[k] == sorted[i];
    var l :| 0 <= l < |now| && now[l] == sorted[j];
    AllDistinct(raw, now);
    DistinctStays(now, sorted);
    if sorted[i].key == sorted[j].key {
      KeysIdentify(raw, now, k, l);
    }
  }

  lemma {:induction false} AllDistinct(raw: seq<RawExpansion>, now: seq<RawExpansion>)
    requires Collected(raw) && Assignable(raw) && Keyed(raw, now)
    ensures Distinct(now)
  {
    forall i, j | 0 <= i < j < |now|
      ensures now[i] != now[j]
    {
      if now[i].key == now[j].key { KeysIdentify(raw, now, i, j); }
    }
  }

  /** An identity parent is numbered before its children, and its key is theirs without their last part. */
  lemma {:induction false} ParentsNumberedFirst(raw: seq<RawExpansion>, now: seq<RawExpansion>, partLe: PartOrder,
                                                numbers: map<nat, nat>, i: nat)
    requires TotalOrder(partLe) && Collected(raw) && Assignable(raw) && Keyed(raw, now)
    requires NumberedBy(SortBy(now, ByKey(partLe)), numbers)
    requires i < |raw| && raw[i].identityParent.Some?
    ensures
      var sorted := SortBy(now, ByKey(partLe));
      && now[i].compilerId in numbers && raw[i].identityParent.value in numbers
      && numbers[raw[i].identityParent.value] < numbers[now[i].compilerId] < |sorted|
      && sorted[numbers[now[i].compilerId]].key == sorted[numbers[raw[i].identityParent.value]].key + [now[i].part]
  {
    KeyExtendsParent(raw, now, i);
    KeptIds(raw, now);
    hide Keyed;
    hide Assignable;
    hide SortBy;
    var sorted := SortBy(now, ByKey(partLe));
    var p := Position(raw, raw[i].identityParent.value).value;
    KeysOrdered(partLe);
    SortSorts(now, ByKey(partLe));
    NumberOf(now, sorted, numbers, i);
    NumberOf(now, sorted, numbers, p);
    hide NumberedBy;
    ExtensionLater(partLe, sorted, numbers[now[p].compilerId], numbers[now[i].compilerId], now[i].part);
  }

  /** In a list ascending by key, a key that extends another comes later. */
  lemma {:induction false} ExtensionLater(partLe: PartOrder, sorted: seq<RawExpansion>, a: nat, b: nat,
                                          part: ExpansionKeyPart)
    requires TotalOrder(partLe) && Sorted(sorted, ByKey(partLe)) && a < |sorted| && b < |sorted|
    requires sorted[b].key == sorted[a].key + [part]
    ensures a < b
  {
    PrefixFirst(partLe, sorted[a].key, [part]);
    assert |sorted[b].key| == |sorted[a].key| + 1;
    if b < a {
      assert ByKey(partLe)(sorted[b], sorted[a]);
      KeyAntisymmetric(partLe, sorted[a].key, sorted[b].key);
    }
  }

  lemma {:induction false} KeptIds(raw: seq<RawExpansion>, now: seq<RawExpansion>)
    requires Keyed(raw, now)
    ensures forall i :: 0 <= i < |now| ==> now[i].compilerId == raw[i].compilerId
  {
    forall i | 0 <= i < |now|
      ensures now[i].compilerId == raw[i].compilerId
    {
      assert HasKey(raw, now, i);
    }
  }

  lemma {:induction false} NumberOf(now: seq<RawExpansion>, sorted: seq<RawExpansion>, numbers: map<nat, nat>, i: nat)
    requires multiset(sorted) == multiset(now) && NumberedBy(sorted, numbers) && i < |now|
    ensures now[i].compilerId in numbers && numbers[now[i].compilerId] < |sorted|
    ensures sorted[numbers[now[i].compilerId]] == now[i]
  {
    SameElements(sorted, now);
    assert now[i] in sorted;
    var k :| 0 <= k < |sorted| && sorted[k] == now[i];
  }

  /** Two runs that assign the same keys number them alike, whatever ids and order the compiler gave. */
  lemma {:induction false} NumbersDependOnKeys(a: seq<RawExpansion>, b: seq<RawExpansion>, partLe: PartOrder)
    requires TotalOrder(partLe) && Distinct(KeysOf(a)) && Distinct(KeysOf(b))
    requires forall key :: key in KeysOf(a) <==> key in KeysOf(b)
    ensures KeysOf(SortBy(a, ByKey(partLe))) == KeysOf(SortBy(b, ByKey(partLe)))
  {
    hide SortBy;
    hide Distinct;
    KeysOrdered(partLe);
    SortSorts(a, ByKey(partLe));
    SortSorts(b, ByKey(partLe));
    var x, y := SortBy(a, ByKey(partLe)), SortBy(b, ByKey(partLe));
    SortedKeysListed(a, x);
    SortedKeysListed(b, y);
    AscendingKeys(x, partLe);
    AscendingKeys(y, partLe);
    ListingUnique(KeysOf(x), KeysOf(y), Elements(KeysOf(x)), KeyOrder(partLe));
  }

  function KeysOf(raw: seq<RawExpansion>): (keys: seq<ExpansionKey>)
    ensures |keys| == |raw| && forall i :: 0 <= i < |keys| ==> keys[i] == raw[i].key
  {
    seq(|raw|, i requires 0 <= i < |raw| => raw[i].key)
  }

  lemma {:induction false} AscendingKeys(x: seq<RawExpansion>, partLe: PartOrder)
    requires Sorted(x, ByKey(partLe))
    ensures Sorted(KeysOf(x), KeyOrder(partLe))
  {
    forall i, j | 0 <= i < j < |x|
      ensures KeyOrder(partLe)(KeysOf(x)[i], KeysOf(x)[j])
    {
      assert ByKey(partLe)(x[i], x[j]);
    }
  }

  /** Sorting keeps the keys, and keeps them apart. */
  lemma {:induction false} SortedKeysListed(a: seq<RawExpansion>, x: seq<RawExpansion>)
    requires multiset(x) == multiset(a) && Distinct(KeysOf(a))
    ensures Distinct(KeysOf(x)) && forall key :: key in KeysOf(x) <==> key in KeysOf(a)
  {
    SameElements(x, a);
    KeyMembers(a, x);
    KeyMembers(x, a);
    forall i, j | 0 <= i < j < |a|
      ensures a[i] != a[j]
    {
      assert KeysOf(a)[i] != KeysOf(a)[j];
    }
    DistinctStays(a, x);
    forall i, j | 0 <= i < j < |x|
      ensures KeysOf(x)[i] != KeysOf(x)[j]
    {
      assert x[i] in a && x[j] in a;
      var k :| 0 <= k < |a| && a[k] == x[i];
      var l :| 0 <= l < |a| && a[l] == x[j];
      assert k < l ==> KeysOf(a)[k] != KeysOf(a)[l];
      assert l < k ==> KeysOf(a)[l] != KeysOf(a)[k];
    }
  }

  lemma {:induction false} KeyMembers(a: seq<RawExpansion>, b: seq<RawExpansion>)
    requires forall e :: e in a ==> e in b
    ensures forall key :: key in KeysOf(a) ==> key in KeysOf(b)
  {
    forall key | key in KeysOf(a)
      ensures key in KeysOf(b)
    {
      var i :| 0 <= i < |a| && KeysOf(a)[i] == key;
      assert a[i] in b;
      var j :| 0 <= j < |b| && b[j] == a[i];
      assert KeysOf(b)[j] == key;
    }
  }
}
