/** Merging a list of keyed observations into one entry per key, in key order, with the union of the
    observed sites in site order: the normal form both graph constructors build. */
module Grouping {
  import opened Ordering

  /** One input edge: what it connects, and where it was observed. */
  datatype Observed<K, S> = Observed(key: K, sites: seq<S>)

  ghost predicate HasKey<K, S>(items: seq<Observed<K, S>>, key: K) {
    exists i :: 0 <= i < |items| && items[i].key == key
  }

  ghost predicate HasSite<K, S>(items: seq<Observed<K, S>>, key: K, site: S) {
    exists i :: 0 <= i < |items| && items[i].key == key && site in items[i].sites
  }

  /** `groups` holds exactly the keys seen, each with exactly the sites seen under it. */
  ghost predicate Merges<K(!new), S(!new)>(items: seq<Observed<K, S>>, groups: map<K, set<S>>) {
    && (forall key :: key in groups <==> HasKey(items, key))
    && (forall key, site {:trigger site in groups[key]} {:trigger HasSite(items, key, site)} ::
          key in groups ==> (site in groups[key] <==> HasSite(items, key, site)))
  }

  lemma {:induction false} HasPrefix<K, S>(items: seq<Observed<K, S>>, n: nat, key: K, site: S)
    requires n < |items|
    ensures HasKey(items[..n + 1], key) <==> HasKey(items[..n], key) || items[n].key == key
    ensures HasSite(items[..n + 1], key, site)
      <==> HasSite(items[..n], key, site) || (items[n].key == key && site in items[n].sites)
  {
    var longer, shorter := items[..n + 1], items[..n];
    assert longer[n] == items[n];
    assert forall i :: 0 <= i < n ==> longer[i] == shorter[i];
    if HasKey(shorter, key) {
      var i :| 0 <= i < |shorter| && shorter[i].key == key;
      assert longer[i].key == key;
    }
    if HasSite(shorter, key, site) {
      var i :| 0 <= i < |shorter| && shorter[i].key == key && site in shorter[i].sites;
      assert longer[i].key == key;
    }
  }

  /** The insertion loop: `entry(key).or_default().extend(sites)`. */
  method Merge<K(==, !new), S(==, !new)>(items: seq<Observed<K, S>>) returns (groups: map<K, set<S>>)
    ensures Merges(items, groups)
  {
    groups := map[];
    for n := 0 to |items|
      invariant Merges(items[..n], groups)
    {
      var item := items[n];
      var before := if item.key in groups then groups[item.key] else {};
      ghost var old_ := groups;
      groups := groups[item.key := before + Elements(item.sites)];
      MergeOne(items, n, old_, groups);
    }
    assert items[..|items|] == items;
  }

  lemma {:induction false} MergeOne<K(!new), S(!new)>(items: seq<Observed<K, S>>, n: nat, before: map<K, set<S>>,
                                                      after: map<K, set<S>>)
    requires n < |items| && Merges(items[..n], before)
    requires
      var key := items[n].key;
      after == before[key := (if key in before then before[key] else {}) + Elements(items[n].sites)]
    ensures Merges(items[..n + 1], after)
  {
    forall key
      ensures key in after <==> HasKey(items[..n + 1], key)
    {
      KeyPrefix(items, n, key);
    }
    forall key, site | key in after
      ensures site in after[key] <==> HasSite(items[..n + 1], key, site)
    {
      HasPrefix(items, n, key, site);
    }
  }

  lemma {:induction false} KeyPrefix<K, S>(items: seq<Observed<K, S>>, n: nat, key: K)
    requires n < |items|
    ensures HasKey(items[..n + 1], key) <==> HasKey(items[..n], key) || items[n].key == key
  {
    var longer, shorter := items[..n + 1], items[..n];
    assert longer[n] == items[n];
    assert forall i :: 0 <= i < n ==> longer[i] == shorter[i];
    if HasKey(shorter, key) {
      var i :| 0 <= i < |shorter| && shorter[i].key == key;
      assert longer[i].key == key;
    }
  }

  /** Grouped entries: strictly ascending keys, exactly the keys seen, and per key the ascending list of its sites. */
  ghost predicate NormalForm<K(!new), S(!new)>(items: seq<Observed<K, S>>, groups: seq<Observed<K, S>>,
                                               keyLe: (K, K) -> bool, siteLe: (S, S) -> bool)
  {
    && (forall i, j :: 0 <= i < j < |groups| ==> keyLe(groups[i].key, groups[j].key) && groups[i].key != groups[j].key)
    && (forall key :: HasKey(groups, key) <==> HasKey(items, key))
    && (forall i :: 0 <= i < |groups| ==> Sorted(groups[i].sites, siteLe) && Distinct(groups[i].sites))
    && (forall i, site {:trigger site in groups[i].sites} :: 0 <= i < |groups| ==>
          (site in groups[i].sites <==> HasSite(items, groups[i].key, site)))
  }

  /** `into_iter().map(..).collect()` over the grouped map. */
  method Group<K(==, !new), S(==, !new)>(items: seq<Observed<K, S>>, keyLe: (K, K) -> bool, siteLe: (S, S) -> bool)
    returns (groups: seq<Observed<K, S>>)
    requires TotalPreorder(keyLe) && TotalPreorder(siteLe)
    ensures NormalForm(items, groups, keyLe, siteLe)
  {
    var merged := Merge(items);
    var keys := SortedSet(merged.Keys, keyLe);
    groups := [];
    for n := 0 to |keys|
      invariant |groups| == n
      invariant forall i :: 0 <= i < n ==> groups[i].key == keys[i]
      invariant forall i :: 0 <= i < n ==> Listing(groups[i].sites, merged[keys[i]], siteLe)
    {
      assert keys[n] in keys;
      var sites := SortedSet(merged[keys[n]], siteLe);
      groups := groups + [Observed(keys[n], sites)];
    }
    ListedNormalForm(items, merged, keys, groups, keyLe, siteLe);
  }

  lemma {:induction false} ListedNormalForm<K(!new), S(!new)>(items: seq<Observed<K, S>>, merged: map<K, set<S>>,
                                                              keys: seq<K>, groups: seq<Observed<K, S>>,
                                                              keyLe: (K, K) -> bool, siteLe: (S, S) -> bool)
    requires Merges(items, merged) && Listing(keys, merged.Keys, keyLe) && |groups| == |keys|
    requires forall i :: 0 <= i < |keys| ==> keys[i] in merged
    requires forall i :: 0 <= i < |keys| ==> groups[i].key == keys[i]
    requires forall i :: 0 <= i < |keys| ==> Listing(groups[i].sites, merged[keys[i]], siteLe)
    ensures NormalForm(items, groups, keyLe, siteLe)
  {
    forall key
      ensures HasKey(groups, key) <==> HasKey(items, key)
    {
      assert key in merged <==> HasKey(items, key);
      assert key in keys <==> key in merged;
      if key in keys {
        var i :| 0 <= i < |keys| && keys[i] == key;
        assert groups[i].key == key;
      }
      if HasKey(groups, key) {
        var i :| 0 <= i < |groups| && groups[i].key == key;
        assert keys[i] == key;
      }
    }
    forall i, site | 0 <= i < |groups|
      ensures site in groups[i].sites <==> HasSite(items, groups[i].key, site)
    {
      assert site in groups[i].sites <==> site in merged[keys[i]];
    }
  }

  /* ---------- the normal form is a function of the observations ---------- */

  ghost predicate SameObservations<K(!new), S(!new)>(a: seq<Observed<K, S>>, b: seq<Observed<K, S>>) {
    && (forall key :: HasKey(a, key) <==> HasKey(b, key))
    && (forall key, site :: HasSite(a, key, site) <==> HasSite(b, key, site))
  }

  function KeysOf<K, S>(groups: seq<Observed<K, S>>): (keys: seq<K>)
    ensures |keys| == |groups| && forall i :: 0 <= i < |keys| ==> keys[i] == groups[i].key
  {
    seq(|groups|, i requires 0 <= i < |groups| => groups[i].key)
  }

  lemma {:induction false} KeysListed<K(!new), S(!new)>(items: seq<Observed<K, S>>, groups: seq<Observed<K, S>>,
                                                        keyLe: (K, K) -> bool, siteLe: (S, S) -> bool)
    requires NormalForm(items, groups, keyLe, siteLe)
    ensures Sorted(KeysOf(groups), keyLe) && Distinct(KeysOf(groups))
    ensures forall key :: key in KeysOf(groups) <==> HasKey(items, key)
  {
    forall key
      ensures key in KeysOf(groups) <==> HasKey(groups, key)
    {
      if key in KeysOf(groups) {
        var i :| 0 <= i < |groups| && KeysOf(groups)[i] == key;
        assert groups[i].key == key;
      }
      if HasKey(groups, key) {
        var i :| 0 <= i < |groups| && groups[i].key == key;
        assert KeysOf(groups)[i] == key;
      }
    }
  }

  /** Two normal forms of the same observations are equal, whatever order the observations came in. */
  lemma {:induction false} NormalFormUnique<K(!new), S(!new)>(a: seq<Observed<K, S>>, b: seq<Observed<K, S>>,
                                                              ga: seq<Observed<K, S>>, gb: seq<Observed<K, S>>,
                                                              keyLe: (K, K) -> bool, siteLe: (S, S) -> bool)
    requires TotalOrder(keyLe) && TotalOrder(siteLe) && SameObservations(a, b)
    requires NormalForm(a, ga, keyLe, siteLe) && NormalForm(b, gb, keyLe, siteLe)
    ensures ga == gb
  {
    KeysListed(a, ga, keyLe, siteLe);
    KeysListed(b, gb, keyLe, siteLe);
    var keys := Elements(KeysOf(ga));
    assert Listing(KeysOf(ga), keys, keyLe) && Listing(KeysOf(gb), keys, keyLe);
    ListingUnique(KeysOf(ga), KeysOf(gb), keys, keyLe);
    assert |KeysOf(ga)| == |ga| && |KeysOf(gb)| == |gb|;
    forall i | 0 <= i < |ga|
      ensures ga[i] == gb[i]
    {
      assert KeysOf(ga)[i] == ga[i].key && KeysOf(gb)[i] == gb[i].key;
      SitesUnique(a, b, ga, gb, keyLe, siteLe, i);
    }
  }

  lemma {:induction false} SitesUnique<K(!new), S(!new)>(a: seq<Observed<K, S>>, b: seq<Observed<K, S>>,
                                                         ga: seq<Observed<K, S>>, gb: seq<Observed<K, S>>,
                                                         keyLe: (K, K) -> bool, siteLe: (S, S) -> bool, i: nat)
    requires TotalOrder(siteLe) && SameObservations(a, b)
    requires NormalForm(a, ga, keyLe, siteLe) && NormalForm(b, gb, keyLe, siteLe)
    requires i < |ga| && i < |gb| && ga[i].key == gb[i].key
    ensures ga[i].sites == gb[i].sites
  {
    var sites := Elements(ga[i].sites);
    forall site
      ensures site in gb[i].sites <==> site in ga[i].sites
    {
      assert site in ga[i].sites <==> HasSite(a, ga[i].key, site);
      assert site in gb[i].sites <==> HasSite(b, gb[i].key, site);
    }
    ListingUnique(ga[i].sites, gb[i].sites, sites, siteLe);
  }

  /** A normal form observes exactly what its input observed. */
  lemma {:induction false} NormalFormObserves<K(!new), S(!new)>(items: seq<Observed<K, S>>,
                                                                groups: seq<Observed<K, S>>, keyLe: (K, K) -> bool,
                                                                siteLe: (S, S) -> bool)
    requires NormalForm(items, groups, keyLe, siteLe)
    ensures SameObservations(items, groups)
  {
    forall key, site
      ensures HasSite(items, key, site) <==> HasSite(groups, key, site)
    {
      if HasSite(items, key, site) {
        var i :| 0 <= i < |items| && items[i].key == key && site in items[i].sites;
        assert HasKey(items, key);
        assert HasKey(groups, key);
        var j :| 0 <= j < |groups| && groups[j].key == key;
        assert site in groups[j].sites;
      }
      if HasSite(groups, key, site) {
        var j :| 0 <= j < |groups| && groups[j].key == key && site in groups[j].sites;
        assert HasSite(items, groups[j].key, site);
      }
    }
  }

  /** Reordering the input changes nothing it observes. */
  lemma {:induction false} PermutationObserves<K(!new), S(!new)>(a: seq<Observed<K, S>>, b: seq<Observed<K, S>>)
    requires forall x :: x in a <==> x in b
    ensures SameObservations(a, b)
  {
    forall key
      ensures HasKey(a, key) <==> HasKey(b, key)
    {
      if HasKey(a, key) { KeyMoves(a, b, key); }
      if HasKey(b, key) { KeyMoves(b, a, key); }
    }
    forall key, site
      ensures HasSite(a, key, site) <==> HasSite(b, key, site)
    {
      if HasSite(a, key, site) { SiteMoves(a, b, key, site); }
      if HasSite(b, key, site) { SiteMoves(b, a, key, site); }
    }
  }

  lemma {:induction false} KeyMoves<K(!new), S(!new)>(a: seq<Observed<K, S>>, b: seq<Observed<K, S>>, key: K)
    requires (forall x :: x in a <==> x in b) && HasKey(a, key)
    ensures HasKey(b, key)
  {
    var i :| 0 <= i < |a| && a[i].key == key;
    assert a[i] in b;
    var j :| 0 <= j < |b| && b[j] == a[i];
  }

  lemma {:induction false} SiteMoves<K(!new), S(!new)>(a: seq<Observed<K, S>>, b: seq<Observed<K, S>>, key: K,
                                                       site: S)
    requires (forall x :: x in a <==> x in b) && HasSite(a, key, site)
    ensures HasSite(b, key, site)
  {
    var i :| 0 <= i < |a| && a[i].key == key && site in a[i].sites;
    assert a[i] in b;
    var j :| 0 <= j < |b| && b[j] == a[i];
  }
}
