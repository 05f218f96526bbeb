/** Identity survives reduction: running the ordinal assignment on the kept part of a program,
    against the universe of the full run, succeeds and reproduces every ordinal. */
module IdentityStability {
  import opened Wrappers
  import opened Ordering
  import opened Definitions

  predicate SameDescription(a: View, b: View) {
    a.kind == b.kind && a.origin == b.origin && a.basis == b.basis && a.name == b.name
  }

  /** `kept[i]` is the definition of the full run that definition `i` of the reduced run is.
      Compiler ids and compiler ordinals may differ between the runs. */
  ghost predicate KeptPart(full: seq<View>, reduced: seq<View>, kept: seq<nat>) {
    && |kept| == |reduced|
    && (forall i :: 0 <= i < |kept| ==> kept[i] < |full|)
    && (forall i, j :: 0 <= i < j < |kept| ==> kept[i] != kept[j])
    // the same source-derived description, in original coordinates
    && (forall i :: 0 <= i < |kept| ==> SameDescription(full[kept[i]], reduced[i]))
    // closed under parents
    && (forall i :: 0 <= i < |kept| ==> ParentKept(full, reduced, kept, i))
    // an exact product cohort is kept as a whole or not at all
    && (forall i, j :: 0 <= i < |kept| && 0 <= j < |full| && SamePrivate(full, kept[i], j) ==> j in kept)
    // compiler order is kept inside every cohort
    && (forall i, j :: 0 <= i < |kept| && 0 <= j < |kept| && SamePrivate(full, kept[i], kept[j]) ==>
          (full[kept[i]].ordinal < full[kept[j]].ordinal <==> reduced[i].ordinal < reduced[j].ordinal))
  }

  ghost predicate ParentKept(full: seq<View>, reduced: seq<View>, kept: seq<nat>, i: nat)
    requires |kept| == |reduced| && i < |kept| && forall k :: 0 <= k < |kept| ==> kept[k] < |full|
  {
    match ParentIndex(reduced, i)
    case None => ParentIndex(full, kept[i]).None?
    case Some(p) => p.Some? && ParentIndex(full, kept[i]) == Some(Some(kept[p.value]))
  }

  lemma {:induction false} ParentsAgree(full: seq<View>, reduced: seq<View>, kept: seq<nat>, i: nat, j: nat)
    requires KeptPart(full, reduced, kept) && i < |kept| && j < |kept|
    ensures reduced[i].parent == reduced[j].parent <==> full[kept[i]].parent == full[kept[j]].parent
  {
    assert ParentKept(full, reduced, kept, i) && ParentKept(full, reduced, kept, j);
    if reduced[i].parent.Some? && reduced[j].parent.Some? {
      var p, q := ParentIndex(reduced, i).value.value, ParentIndex(reduced, j).value.value;
      assert reduced[p].compilerId == reduced[i].parent.value && reduced[q].compilerId == reduced[j].parent.value;
      assert full[kept[p]].compilerId == full[kept[i]].parent.value;
      assert full[kept[q]].compilerId == full[kept[j]].parent.value;
      assert kept[p] == kept[q] ==> p == q;
    }
  }

  /** Cohorts of the reduced run are the cohorts of the full run. */
  lemma {:induction false} SameCohorts(full: seq<View>, reduced: seq<View>, kept: seq<nat>, i: nat, j: nat)
    requires KeptPart(full, reduced, kept) && i < |kept| && j < |kept|
    ensures SamePrivate(reduced, i, j) <==> SamePrivate(full, kept[i], kept[j])
  {
    ParentsAgree(full, reduced, kept, i, j);
    assert SameDescription(full[kept[i]], reduced[i]) && SameDescription(full[kept[j]], reduced[j]);
  }

  function Kept(kept: seq<nat>, i: nat): nat {
    if i < |kept| then kept[i] else 0
  }

  lemma {:induction false} InjectiveImageSize(kept: seq<nat>, s: set<nat>)
    requires forall i :: i in s ==> i < |kept|
    requires forall i, j :: 0 <= i < j < |kept| ==> kept[i] != kept[j]
    ensures |set i | i in s :: Kept(kept, i)| == |s|
    decreases s
  {
    var image := set i | i in s :: Kept(kept, i);
    if x :| x in s {
      var rest := s - {x};
      InjectiveImageSize(kept, rest);
      assert image == (set i | i in rest :: Kept(kept, i)) + {kept[x]};
    } else {
      assert image == {};
    }
  }

  lemma {:induction false} RankKept(full: seq<View>, reduced: seq<View>, kept: seq<nat>, i: nat)
    requires KeptPart(full, reduced, kept) && i < |kept|
    ensures PrivateRank(reduced, i) == PrivateRank(full, kept[i])
  {
    var below := PrivateBelow(reduced, i);
    var image := set j | j in below :: Kept(kept, j);
    forall x
      ensures x in image <==> x in PrivateBelow(full, kept[i])
    {
      if x in image {
        var j :| j in below && Kept(kept, j) == x;
        SameCohorts(full, reduced, kept, i, j);
        SameCohorts(full, reduced, kept, j, i);
      }
      if x in PrivateBelow(full, kept[i]) {
        assert x in kept;
        var j :| 0 <= j < |kept| && kept[j] == x;
        SameCohorts(full, reduced, kept, i, j);
        SameCohorts(full, reduced, kept, j, i);
        assert j in below && Kept(kept, j) == x;
      }
    }
    assert image == PrivateBelow(full, kept[i]);
    InjectiveImageSize(kept, below);
  }

  lemma {:induction false} PartKept(full: seq<View>, reduced: seq<View>, kept: seq<nat>, i: nat)
    requires KeptPart(full, reduced, kept) && i < |kept|
    ensures PartOf(reduced, i) == PartOf(full, kept[i])
  {
    RankKept(full, reduced, kept, i);
    assert SameDescription(full[kept[i]], reduced[i]);
  }

  /** The chain of a kept definition is kept, part by part. */
  lemma {:induction false} IdentityKeptWithin(full: seq<View>, reduced: seq<View>, kept: seq<nat>, i: nat, steps: nat)
    requires KeptPart(full, reduced, kept) && i < |kept| && Within(full, kept[i], steps)
    ensures Within(reduced, i, steps)
    ensures IdentityWithin(reduced, i, steps) == IdentityWithin(full, kept[i], steps)
    decreases steps
  {
    PartKept(full, reduced, kept, i);
    assert ParentKept(full, reduced, kept, i);
    match ParentIndex(reduced, i)
    case None =>
    case Some(p) => IdentityKeptWithin(full, reduced, kept, p.value, steps - 1);
  }

  lemma {:induction false} IdentityKept(full: seq<View>, reduced: seq<View>, kept: seq<nat>, i: nat)
    requires KeptPart(full, reduced, kept) && i < |kept| && Inside(full, kept[i])
    ensures Inside(reduced, i) && IdentityOf(reduced, i) == IdentityOf(full, kept[i])
  {
    IdentityKeptWithin(full, reduced, kept, i, StepsOf(full, kept[i]));
    IdentityUnique(reduced, i, StepsOf(full, kept[i]), StepsOf(reduced, i));
  }

  lemma {:induction false} AllIdentitiesKept(full: seq<View>, reduced: seq<View>, kept: seq<nat>)
    requires KeptPart(full, reduced, kept) && AllInside(full)
    ensures AllInside(reduced)
    ensures forall i :: 0 <= i < |kept| ==> IdentityOf(reduced, i) == IdentityOf(full, kept[i])
  {
    forall i | 0 <= i < |kept|
      ensures Inside(reduced, i) && IdentityOf(reduced, i) == IdentityOf(full, kept[i])
    {
      IdentityKept(full, reduced, kept, i);
    }
  }

  lemma {:induction false} PublicKept(full: seq<View>, reduced: seq<View>, kept: seq<nat>, i: nat, j: nat)
    requires KeptPart(full, reduced, kept) && AllInside(full) && AllInside(reduced) && i < |kept| && j < |kept|
    requires SamePublic(reduced, i, j)
    ensures SamePublic(full, kept[i], kept[j])
  {
    ParentIdentityKept(full, reduced, kept, i);
    ParentIdentityKept(full, reduced, kept, j);
    assert SameDescription(full[kept[i]], reduced[i]) && SameDescription(full[kept[j]], reduced[j]);
  }

  lemma {:induction false} ParentIdentityKept(full: seq<View>, reduced: seq<View>, kept: seq<nat>, i: nat)
    requires KeptPart(full, reduced, kept) && AllInside(full) && AllInside(reduced) && i < |kept|
    ensures ParentIdentity(reduced, i) == ParentIdentity(full, kept[i])
  {
    assert ParentKept(full, reduced, kept, i);
    if ParentIndex(reduced, i).Some? {
      IdentityKept(full, reduced, kept, ParentIndex(reduced, i).value.value);
    }
  }

  lemma {:induction false} PublicRankSeparates(vs: seq<View>, i: nat, j: nat)
    requires Accepts(vs, None) && i < |vs| && j < |vs| && i != j && SamePublic(vs, i, j)
    ensures PublicRank(vs, i) != PublicRank(vs, j)
  {
    if vs[i].ordinal < vs[j].ordinal {
      PublicRankStrict(vs, i, j);
    } else {
      PublicRankStrict(vs, j, i);
    }
  }

  lemma {:induction false} PublicRankStrict(vs: seq<View>, i: nat, j: nat)
    requires AllInside(vs) && i < |vs| && j < |vs| && SamePublic(vs, i, j) && vs[i].ordinal < vs[j].ordinal
    ensures PublicRank(vs, i) < PublicRank(vs, j)
  {
    assert i in PublicBelow(vs, j) && i !in PublicBelow(vs, i);
    assert PublicBelow(vs, i) <= PublicBelow(vs, j);
    SmallerSubset(PublicBelow(vs, i), PublicBelow(vs, j));
  }

  lemma {:induction false} PrivateSeparationKept(full: seq<View>, reduced: seq<View>, kept: seq<nat>)
    requires KeptPart(full, reduced, kept) && PrivateSeparated(full)
    ensures PrivateSeparated(reduced)
  {
    forall i, j | 0 <= i < |reduced| && 0 <= j < |reduced| && i != j && SamePrivate(reduced, i, j)
      ensures reduced[i].ordinal != reduced[j].ordinal
    {
      SameCohorts(full, reduced, kept, i, j);
      SameCohorts(full, reduced, kept, j, i);
      assert kept[i] != kept[j];
      assert full[kept[i]].ordinal != full[kept[j]].ordinal;
    }
  }

  /** The main theorem: whatever part was kept, the reduced run accepts the full run's universe and
      gives every definition the ordinal it had. */
  lemma {:induction false} StableUnderReduction(full: seq<View>, universe: Universe, reduced: seq<View>,
                                                kept: seq<nat>)
    requires Accepts(full, None) && Records(full, None, universe)
    requires KeptPart(full, reduced, kept)
    ensures Accepts(reduced, Some(universe))
    ensures forall i :: 0 <= i < |reduced| ==>
      Assigned(reduced, Some(universe), i) == Assigned(full, None, kept[i])
  {
    AllIdentitiesKept(full, reduced, kept);
    PrivateSeparationKept(full, reduced, kept);
    forall i | 0 <= i < |reduced|
      ensures IdentityOf(reduced, i) in universe
      ensures universe[IdentityOf(reduced, i)] == Assigned(full, None, kept[i])
    {
      assert IdentityOf(reduced, i) == IdentityOf(full, kept[i]);
    }
    forall i, j | 0 <= i < |reduced| && 0 <= j < |reduced| && i != j && SamePublic(reduced, i, j)
      ensures universe[IdentityOf(reduced, i)] != universe[IdentityOf(reduced, j)]
    {
      PublicKept(full, reduced, kept, i, j);
      assert kept[i] != kept[j];
      PublicRankSeparates(full, kept[i], kept[j]);
    }
  }

  /** The recorded universe of the reduced run is the part of the full universe that was kept. */
  lemma {:induction false} UniverseShrinks(full: seq<View>, universe: Universe, reduced: seq<View>, kept: seq<nat>,
                                           universe': Universe)
    requires Accepts(full, None) && Records(full, None, universe)
    requires KeptPart(full, reduced, kept)
    requires Accepts(reduced, Some(universe)) && Records(reduced, Some(universe), universe')
    ensures forall key :: key in universe' ==> key in universe && universe[key] == universe'[key]
  {
    forall key | key in universe'
      ensures key in universe && universe[key] == universe'[key]
    {
      assert IdentityOfSomebody(reduced, key, Indices(|reduced|));
      var i :| i in Indices(|reduced|) && i < |reduced| && IdentityOf(reduced, i) == key;
    }
  }
}
