/** Sorting by a total preorder, as `Vec::sort` and `sort_by_key` do: an ascending rearrangement. */
module Ordering {

  ghost predicate TotalPreorder<T(!new)>(le: (T, T) -> bool) {
    && (forall a, b :: le(a, b) || le(b, a))
    && (forall a, b, c :: le(a, b) && le(b, c) ==> le(a, c))
  }

  ghost predicate TotalOrder<T(!new)>(le: (T, T) -> bool) {
    TotalPreorder(le) && forall a, b :: le(a, b) && le(b, a) ==> a == b
  }

  predicate Sorted<T>(s: seq<T>, le: (T, T) -> bool) {
    forall i, j :: 0 <= i < j < |s| ==> le(s[i], s[j])
  }

  function Insert<T>(s: seq<T>, x: T, le: (T, T) -> bool): seq<T> {
    if s == [] then [x]
    else if le(s[|s| - 1], x) then s + [x]
    else Insert(s[..|s| - 1], x, le) + [s[|s| - 1]]
  }

  function SortBy<T>(s: seq<T>, le: (T, T) -> bool): seq<T> {
    if s == [] then [] else Insert(SortBy(s[..|s| - 1], le), s[|s| - 1], le)
  }

  lemma {:induction false} DropLastMultiset<T>(s: seq<T>)
    requires s != []
    ensures s == s[..|s| - 1] + [s[|s| - 1]]
    ensures multiset(s[..|s| - 1]) == multiset(s) - multiset{s[|s| - 1]}
  {
    assert s == s[..|s| - 1] + [s[|s| - 1]];
  }

  lemma {:induction false} InsertMultiset<T>(s: seq<T>, x: T, le: (T, T) -> bool)
    ensures multiset(Insert(s, x, le)) == multiset(s) + multiset{x}
  {
    if s != [] {
      var last, init := s[|s| - 1], s[..|s| - 1];
      DropLastMultiset(s);
      if !le(last, x) {
        InsertMultiset(init, x, le);
      }
    }
  }

  lemma {:induction false} InsertMembers<T(!new)>(s: seq<T>, x: T, le: (T, T) -> bool)
    ensures forall y :: y in Insert(s, x, le) ==> y == x || y in s
  {
    if s != [] && !le(s[|s| - 1], x) {
      InsertMembers(s[..|s| - 1], x, le);
    }
  }

  lemma {:induction false} InsertSorted<T(!new)>(s: seq<T>, x: T, le: (T, T) -> bool)
    requires TotalPreorder(le) && Sorted(s, le)
    ensures Sorted(Insert(s, x, le), le)
  {
    if s != [] {
      var last, init := s[|s| - 1], s[..|s| - 1];
      if le(last, x) {
        forall i | 0 <= i < |s|
          ensures le(s[i], x)
        {
          assert i < |s| - 1 ==> le(s[i], last);
        }
      } else {
        InsertSorted(init, x, le);
        InsertMembers(init, x, le);
        var r := Insert(init, x, le);
        forall i | 0 <= i < |r|
          ensures le(r[i], last)
        {
          assert r[i] in r;
          assert le(x, last);
        }
      }
    }
  }

  lemma {:induction false} SortRearranges<T(!new)>(s: seq<T>, le: (T, T) -> bool)
    requires TotalPreorder(le)
    ensures Sorted(SortBy(s, le), le) && multiset(SortBy(s, le)) == multiset(s)
  {
    hide Insert;
    if s != [] {
      var n := |s| - 1;
      SortRearranges(s[..n], le);
      InsertSorted(SortBy(s[..n], le), s[n], le);
      InsertMultiset(SortBy(s[..n], le), s[n], le);
      DropLastMultiset(s);
    }
  }

  /** `SortBy` returns an ascending permutation. */
  lemma {:induction false} SortSorts<T(!new)>(s: seq<T>, le: (T, T) -> bool)
    requires TotalPreorder(le)
    ensures Sorted(SortBy(s, le), le) && multiset(SortBy(s, le)) == multiset(s)
    ensures |SortBy(s, le)| == |s|
    ensures forall x :: x in SortBy(s, le) <==> x in s
  {
    SortRearranges(s, le);
    SameElements(SortBy(s, le), s);
  }

  lemma {:induction false} SameElements<T(!new)>(s: seq<T>, t: seq<T>)
    requires multiset(s) == multiset(t)
    ensures |s| == |t| && forall x :: x in s <==> x in t
  {
    assert |multiset(s)| == |s| && |multiset(t)| == |t|;
    forall x
      ensures x in s <==> x in t
    {
      assert x in s <==> x in multiset(s);
      assert x in t <==> x in multiset(t);
    }
  }

  lemma {:induction false} LastIsGreatest<T(!new)>(s: seq<T>, t: seq<T>, le: (T, T) -> bool)
    requires TotalOrder(le) && Sorted(s, le) && multiset(s) == multiset(t) && s != [] && t != []
    ensures le(t[|t| - 1], s[|s| - 1])
  {
    var x := t[|t| - 1];
    assert x in multiset(t);
    assert x in multiset(s);
    var j :| 0 <= j < |s| && s[j] == x;
    assert le(x, x);
  }

  /** Two ascending rearrangements of the same elements are equal. */
  lemma {:induction false} SortedUnique<T(!new)>(s: seq<T>, t: seq<T>, le: (T, T) -> bool)
    requires TotalOrder(le) && Sorted(s, le) && Sorted(t, le) && multiset(s) == multiset(t)
    ensures s == t
  {
    assert |multiset(s)| == |s| && |multiset(t)| == |t|;
    if s != [] {
      var n := |s| - 1;
      LastIsGreatest(s, t, le);
      LastIsGreatest(t, s, le);
      assert s[n] == t[n];
      DropLastMultiset(s);
      DropLastMultiset(t);
      SortedUnique(s[..n], t[..n], le);
    }
  }

  lemma {:induction false} SortPermutation<T(!new)>(s: seq<T>, t: seq<T>, le: (T, T) -> bool)
    requires TotalOrder(le) && multiset(s) == multiset(t)
    ensures SortBy(s, le) == SortBy(t, le)
  {
    SortSorts(s, le);
    SortSorts(t, le);
    SortedUnique(SortBy(s, le), SortBy(t, le), le);
  }

  /** Removing repetition from an ascending sequence (`Vec::dedup`). */
  function Dedup<T(==, !new)>(s: seq<T>): (r: seq<T>)
    ensures forall x :: x in r <==> x in s
    ensures s != [] ==> r != [] && r[|r| - 1] == s[|s| - 1]
  {
    if |s| <= 1 then s
    else
      var n := |s| - 1;
      if s[n] == s[n - 1] then Dedup(s[..n]) else Dedup(s[..n]) + [s[n]]
  }

  /* ---------- ranks ---------- */

  predicate Distinct<T(==)>(s: seq<T>) {
    forall i, j :: 0 <= i < j < |s| ==> s[i] != s[j]
  }

  function Elements<T(==)>(s: seq<T>): set<T> {
    set x | x in s
  }

  lemma {:induction false} DistinctSize<T(!new)>(s: seq<T>)
    requires Distinct(s)
    ensures |Elements(s)| == |s|
  {
    if s != [] {
      var n := |s| - 1;
      DistinctSize(s[..n]);
      assert s[n] !in s[..n];
      assert Elements(s) == Elements(s[..n]) + {s[n]};
    }
  }

  function Below(members: seq<nat>, key: nat -> int, bound: int): set<nat> {
    set m | m in members && key(m) < bound
  }

  function Image(members: seq<nat>, key: nat -> int): set<int> {
    set m | m in members :: key(m)
  }

  /** In a strictly ascending list, an element's position is the number of smaller elements. */
  lemma {:induction false} RankIsPosition(members: seq<nat>, key: nat -> int, k: nat)
    requires k < |members|
    requires forall i, j :: 0 <= i < j < |members| ==> key(members[i]) < key(members[j])
    ensures |Below(members, key, key(members[k]))| == k
  {
    var below := Below(members, key, key(members[k]));
    var head := members[..k];
    forall m
      ensures m in below <==> m in head
    {
      if m in below {
        var i :| 0 <= i < |members| && members[i] == m;
        assert m == head[i];
      }
      if m in head {
        var i :| 0 <= i < k && members[i] == m;
      }
    }
    assert below == Elements(head);
    assert Distinct(head) by {
      assert forall i, j :: 0 <= i < j < |head| ==> key(head[i]) < key(head[j]);
    }
    DistinctSize(head);
  }

  lemma {:induction false} ImageGrows(init: seq<nat>, last: nat, key: nat -> int)
    ensures Image(init + [last], key) == Image(init, key) + {key(last)}
  {
    var members := init + [last];
    forall v | v in Image(members, key)
      ensures v in Image(init, key) + {key(last)}
    {
      var m :| m in members && key(m) == v;
      assert m in init || m == last;
    }
    forall v | v in Image(init, key)
      ensures v in Image(members, key)
    {
      var m :| m in init && key(m) == v;
      assert m in members;
    }
    assert last in members;
  }

  ghost predicate DistinctKeys(members: seq<nat>, key: nat -> int) {
    forall i, j :: 0 <= i < j < |members| ==> key(members[i]) != key(members[j])
  }

  lemma {:induction false} KeySeen(init: seq<nat>, last: nat, key: nat -> int)
    ensures key(last) in Image(init, key) <==> exists i :: 0 <= i < |init| && key(init[i]) == key(last)
  {
    if key(last) in Image(init, key) {
      var m :| m in init && key(m) == key(last);
      var i :| 0 <= i < |init| && init[i] == m;
    }
    if i :| 0 <= i < |init| && key(init[i]) == key(last) {
      assert init[i] in init;
    }
  }

  lemma {:induction false} DistinctKeysGrow(init: seq<nat>, last: nat, key: nat -> int)
    ensures DistinctKeys(init + [last], key) <==> DistinctKeys(init, key) && key(last) !in Image(init, key)
  {
    KeySeen(init, last, key);
    var members := init + [last];
    assert forall i :: 0 <= i < |init| ==> members[i] == init[i];
    if DistinctKeys(members, key) {
      assert forall i :: 0 <= i < |init| ==> key(members[i]) != key(members[|init|]);
      assert forall i, j :: 0 <= i < j < |init| ==> key(members[i]) != key(members[j]);
    }
  }

  /** Members have pairwise different keys exactly when there are as many keys as members. */
  lemma {:induction false} ImageSize(members: seq<nat>, key: nat -> int)
    ensures |Image(members, key)| <= |members|
    ensures |Image(members, key)| == |members| <==> DistinctKeys(members, key)
  {
    if members != [] {
      var n := |members| - 1;
      var init, last := members[..n], members[n];
      ImageSize(init, key);
      ImageGrows(init, last, key);
      DistinctKeysGrow(init, last, key);
      assert members == init + [last];
    }
  }

  lemma {:induction false} DistinctKeysPermutation(s: seq<nat>, t: seq<nat>, key: nat -> int)
    requires multiset(s) == multiset(t)
    ensures DistinctKeys(s, key) <==> DistinctKeys(t, key)
  {
    SameElements(s, t);
    ImageSize(s, key);
    ImageSize(t, key);
    assert Image(s, key) == Image(t, key);
  }

  /** The index set `0..n`. */
  function Indices(n: nat): (r: set<nat>)
    ensures forall i: nat :: i in r <==> i < n
    ensures |r| == n
  {
    if n == 0 then {} else Indices(n - 1) + {n - 1}
  }

  lemma {:induction false} SubsetSize(s: set<nat>, n: nat)
    requires forall x :: x in s ==> x < n
    ensures |s| <= n
  {
    SmallerSubset(s, Indices(n));
  }

  lemma {:induction false} SmallerSubset<T>(s: set<T>, t: set<T>)
    requires s <= t
    ensures |s| <= |t|
    ensures s != t ==> |s| < |t|
  {
    assert t == s + (t - s);
    assert s != t ==> t - s != {};
  }

  /* ---------- grouping ---------- */

  /** `groups` partitions the indices below `n` by `keyOf`, each group in ascending order of discovery. */
  ghost predicate Partitions<K(!new)>(n: nat, keyOf: nat -> K, groups: map<K, seq<nat>>) {
    && (forall i: nat :: i < n ==> keyOf(i) in groups)
    && (forall k :: k in groups ==> Distinct(groups[k]))
    && (forall k, i: nat {:trigger i in groups[k]} :: k in groups ==> (i in groups[k] <==> i < n && keyOf(i) == k))
  }

  /** A `BTreeMap` filled by `entry(key).or_default().push(index)`. */
  method GroupBy<K(==, !new)>(n: nat, keyOf: nat -> K) returns (groups: map<K, seq<nat>>)
    ensures Partitions(n, keyOf, groups)
  {
    groups := map[];
    for i := 0 to n
      invariant Partitions(i, keyOf, groups)
    {
      var k := keyOf(i);
      var before := if k in groups then groups[k] else [];
      assert i !in before;
      groups := groups[k := before + [i]];
    }
  }

  /* ---------- derived orders ---------- */

  /** The derived `Ord`: field codes compared lexicographically. */
  predicate LexLe(a: seq<nat>, b: seq<nat>) {
    a == [] || (b != [] && (a[0] < b[0] || (a[0] == b[0] && LexLe(a[1..], b[1..]))))
  }

  lemma {:induction false} LexTotal(a: seq<nat>, b: seq<nat>)
    ensures LexLe(a, b) || LexLe(b, a)
  {
    if a != [] && b != [] {
      LexTotal(a[1..], b[1..]);
    }
  }

  /** The first difference decides. */
  lemma {:induction false} FirstDifference(a: seq<nat>, b: seq<nat>, k: nat)
    requires k < |a| && k < |b| && (forall m :: 0 <= m < k ==> a[m] == b[m]) && a[k] < b[k]
    ensures LexLe(a, b) && !LexLe(b, a)
  {
    if k > 0 {
      assert a[0] == b[0];
      FirstDifference(a[1..], b[1..], k - 1);
    }
  }

  lemma {:induction false} LexTransitive(a: seq<nat>, b: seq<nat>, c: seq<nat>)
    requires LexLe(a, b) && LexLe(b, c)
    ensures LexLe(a, c)
  {
    if a != [] && a[0] == b[0] && b[0] == c[0] {
      LexTransitive(a[1..], b[1..], c[1..]);
    }
  }

  lemma {:induction false} LexAntisymmetric(a: seq<nat>, b: seq<nat>)
    requires LexLe(a, b) && LexLe(b, a)
    ensures a == b
  {
    if a != [] {
      LexAntisymmetric(a[1..], b[1..]);
      assert a == [a[0]] + a[1..] && b == [b[0]] + b[1..];
    }
  }

  lemma {:induction false} LexOrders<T(!new)>(code: T -> seq<nat>, le: (T, T) -> bool)
    requires forall a, b :: le(a, b) == LexLe(code(a), code(b))
    ensures TotalPreorder(le)
    ensures (forall a, b :: code(a) == code(b) ==> a == b) ==> TotalOrder(le)
  {
    forall a, b
      ensures le(a, b) || le(b, a)
      ensures le(a, b) && le(b, a) ==> code(a) == code(b)
    {
      LexTotal(code(a), code(b));
      if le(a, b) && le(b, a) { LexAntisymmetric(code(a), code(b)); }
    }
    forall a, b, c | le(a, b) && le(b, c)
      ensures le(a, c)
    {
      LexTransitive(code(a), code(b), code(c));
    }
  }

  /* ---------- ordered sets ---------- */

  ghost predicate Listing<T(!new)>(r: seq<T>, s: set<T>, le: (T, T) -> bool) {
    Sorted(r, le) && Distinct(r) && forall x :: x in r <==> x in s
  }

  /** Iterating a `BTreeSet`: every element once, ascending. */
  method SortedSet<T(==, !new)>(s: set<T>, le: (T, T) -> bool) returns (r: seq<T>)
    requires TotalPreorder(le)
    ensures Listing(r, s, le)
  {
    var found: seq<T> := [];
    var rest := s;
    while rest != {}
      invariant rest <= s && Distinct(found)
      invariant forall x :: x in found <==> x in s && x !in rest
      decreases rest
    {
      var x :| x in rest;
      found := found + [x];
      rest := rest - {x};
    }
    r := SortBy(found, le);
    SortSorts(found, le);
    DistinctStays(found, r);
  }

  lemma {:induction false} MultisetOfDistinct<T(!new)>(s: seq<T>, x: T)
    requires Distinct(s)
    ensures multiset(s)[x] == if x in s then 1 else 0
  {
    if s != [] {
      DropLastMultiset(s);
      MultisetOfDistinct(s[..|s| - 1], x);
    }
  }

  lemma {:induction false} DistinctStays<T(!new)>(s: seq<T>, t: seq<T>)
    requires Distinct(s) && multiset(s) == multiset(t)
    ensures Distinct(t)
  {
    forall i, j | 0 <= i < j < |t|
      ensures t[i] != t[j]
    {
      if t[i] == t[j] {
        TwiceInMultiset(t, i, j);
        MultisetOfDistinct(s, t[i]);
      }
    }
  }

  lemma {:induction false} TwiceInMultiset<T(!new)>(s: seq<T>, i: nat, j: nat)
    requires i < j < |s| && s[i] == s[j]
    ensures multiset(s)[s[i]] >= 2
  {
    assert s == s[..j] + [s[j]] + s[j + 1..];
    assert s[..j][i] == s[i];
    assert s[i] in multiset(s[..j]);
  }

  lemma {:induction false} ListingUnique<T(!new)>(r: seq<T>, t: seq<T>, s: set<T>, le: (T, T) -> bool)
    requires TotalOrder(le) && Listing(r, s, le) && Listing(t, s, le)
    ensures r == t
  {
    forall x
      ensures multiset(r)[x] == multiset(t)[x]
    {
      MultisetOfDistinct(r, x);
      MultisetOfDistinct(t, x);
    }
    assert multiset(r) == multiset(t);
    SortedUnique(r, t, le);
  }

  /** `collect::<BTreeSet<_>>().len() == len()` is the absence of repetition. */
  lemma {:induction false} DistinctCount<K(!new)>(s: seq<K>)
    ensures |Elements(s)| <= |s|
    ensures |Elements(s)| == |s| <==> Distinct(s)
  {
    if s != [] {
      var n := |s| - 1;
      var init, last := s[..n], s[n];
      DistinctCount(init);
      assert s == init + [last];
      assert Elements(s) == Elements(init) + {last};
      if last in init {
        var i :| 0 <= i < n && init[i] == last;
        assert s[i] == s[n];
      } else {
        assert Distinct(s) <==> Distinct(init);
      }
    }
  }

  lemma {:induction false} SortedStays<T(!new)>(s: seq<T>, le: (T, T) -> bool)
    requires Sorted(s, le)
    ensures SortBy(s, le) == s
  {
    if s != [] {
      var n := |s| - 1;
      SortedStays(s[..n], le);
      assert s == s[..n] + [s[n]];
      if n > 0 { assert le(s[n - 1], s[n]); }
    }
  }
}
