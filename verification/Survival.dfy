/** Which expansions survive a reduction of the source (src/dependency_graph.rs, lines 140-188). */
module Survival {
  import opened Wrappers
  import opened DependencyTypes
  import opened Paths

  /** The parents of a node under the three relations, in the order they are examined. */
  function ParentsOf(node: ExpansionNode): seq<nat> {
    (if node.discoveredIn.Some? then [node.discoveredIn.value] else [])
    + (if node.semanticParent.Some? then [node.semanticParent.value] else [])
    + (if node.sourceCallParent.Some? then [node.sourceCallParent.value] else [])
  }

  predicate DenseIds(expansions: seq<ExpansionNode>) {
    forall i :: 0 <= i < |expansions| ==> expansions[i].id == i
  }

  function Written(node: ExpansionNode, unitSurvives: nat -> Option<bool>): Option<bool> {
    match node.writtenInvocation
    case None => Some(true)
    case Some(unit) => unitSurvives(unit)
  }

  ghost predicate UnitsKnown(expansions: seq<ExpansionNode>, unitSurvives: nat -> Option<bool>) {
    forall i :: 0 <= i < |expansions| ==> Written(expansions[i], unitSurvives).Some?
  }

  predicate ValidParent(expansions: seq<ExpansionNode>, i: nat, parent: nat) {
    parent < |expansions| && parent != i
  }

  ghost predicate InvalidParentAt(expansions: seq<ExpansionNode>, i: nat) {
    i < |expansions| && exists p :: p in ParentsOf(expansions[i]) && !ValidParent(expansions, i, p)
  }

  /** One step to a valid parent. */
  ghost function ParentStep(expansions: seq<ExpansionNode>): (nat, nat) -> bool {
    (i: nat, p: nat) => i < |expansions| && p in ParentsOf(expansions[i]) && ValidParent(expansions, i, p)
  }

  ghost predicate WrittenSurvives(expansions: seq<ExpansionNode>, unitSurvives: nat -> Option<bool>, i: nat) {
    i < |expansions| && Written(expansions[i], unitSurvives) == Some(true)
  }

  /** A node survives when it and everything reachable from it by any mix of the three relations has
      a surviving written unit or none. */
  ghost predicate Survives(expansions: seq<ExpansionNode>, unitSurvives: nat -> Option<bool>, i: nat) {
    forall j: nat :: Reaches(ParentStep(expansions), i, j) ==> WrittenSurvives(expansions, unitSurvives, j)
  }

  /** `p` discovered the expansion, is its semantic parent or is its source-call parent. */
  predicate IsParent(node: ExpansionNode, p: nat) {
    node.discoveredIn == Some(p) || node.semanticParent == Some(p) || node.sourceCallParent == Some(p)
  }

  /** What makes the computation give up: an id out of place, a unit nobody knows or an invalid reference. */
  ghost predicate Faulty(expansions: seq<ExpansionNode>, unitSurvives: nat -> Option<bool>, i: nat)
    requires i < |expansions|
  {
    || expansions[i].id != i
    || (expansions[i].writtenInvocation.Some? && unitSurvives(expansions[i].writtenInvocation.value).None?)
    || exists p: nat :: IsParent(expansions[i], p) && (p >= |expansions| || p == i)
  }

  /** A chain from an expansion to those above it. */
  ghost predicate Ancestry(expansions: seq<ExpansionNode>, chain: seq<nat>) {
    && chain != []
    && (forall k :: 0 <= k < |chain| ==> chain[k] < |expansions|)
    && forall k :: 0 <= k < |chain| - 1 ==> IsParent(expansions[chain[k]], chain[k + 1])
  }

  lemma {:induction false} ParentsListed(node: ExpansionNode, p: nat)
    ensures p in ParentsOf(node)
      <==> node.discoveredIn == Some(p) || node.semanticParent == Some(p) || node.sourceCallParent == Some(p)
    ensures p in ParentsOf(node) <==> IsParent(node, p)
  {
  }

  lemma {:induction false} FaultyMeans(expansions: seq<ExpansionNode>, unitSurvives: nat -> Option<bool>)
    ensures (forall i: nat :: i < |expansions| ==> !Faulty(expansions, unitSurvives, i))
      <==> DenseIds(expansions) && UnitsKnown(expansions, unitSurvives) && forall i :: !InvalidParentAt(expansions, i)
  {
    hide ParentsOf;
    forall i: nat, p: nat | i < |expansions|
      ensures p in ParentsOf(expansions[i]) <==> IsParent(expansions[i], p)
    {
      ParentsListed(expansions[i], p);
    }
    forall i: nat | i < |expansions|
      ensures Faulty(expansions, unitSurvives, i)
        <==> expansions[i].id != i || Written(expansions[i], unitSurvives).None? || InvalidParentAt(expansions, i)
    {
    }
  }

  lemma {:induction false} AncestryReaches(expansions: seq<ExpansionNode>, chain: seq<nat>)
    requires Ancestry(expansions, chain)
    ensures Reaches(ParentStep(expansions), chain[0], chain[|chain| - 1])
    decreases |chain|
  {
    var n := |chain| - 1;
    if n == 0 {
      ReachesSelf(ParentStep(expansions), chain[0]);
    } else {
      AncestryReaches(expansions, chain[..n]);
      assert chain[n] == chain[n - 1 + 1];
      if chain[n] != chain[n - 1] {
        ReachesFurther(ParentStep(expansions), chain[0], chain[n - 1], chain[n]);
      }
    }
  }

  lemma {:induction false} ReachesAncestry(expansions: seq<ExpansionNode>, i: nat, j: nat) returns (chain: seq<nat>)
    requires i < |expansions| && Reaches(ParentStep(expansions), i, j)
    ensures Ancestry(expansions, chain) && chain[0] == i && chain[|chain| - 1] == j
  {
    chain :| Connects(ParentStep(expansions), chain, i, j);
    forall k | 0 <= k < |chain|
      ensures chain[k] < |expansions|
    {
      if k > 0 { assert ParentStep(expansions)(chain[k - 1], chain[k - 1 + 1]); }
    }
  }

  /** Surviving, said of the fields alone: along every chain of expansions, each followed by one that discovered it, is
      its semantic parent or its source-call parent, each was made without a written invocation or its unit survives. */
  lemma {:induction false} SurvivesMeans(expansions: seq<ExpansionNode>, unitSurvives: nat -> Option<bool>, i: nat)
    requires i < |expansions|
    ensures Survives(expansions, unitSurvives, i) <==>
      forall chain: seq<nat> |
        && chain != [] && chain[0] == i
        && (forall k :: 0 <= k < |chain| ==> chain[k] < |expansions|)
        && (forall k :: 0 <= k < |chain| - 1 ==>
              || expansions[chain[k]].discoveredIn == Some(chain[k + 1])
              || expansions[chain[k]].semanticParent == Some(chain[k + 1])
              || expansions[chain[k]].sourceCallParent == Some(chain[k + 1])) ::
        || expansions[chain[|chain| - 1]].writtenInvocation.None?
        || unitSurvives(expansions[chain[|chain| - 1]].writtenInvocation.value) == Some(true)
  {
    if Survives(expansions, unitSurvives, i) {
      forall chain: seq<nat> | Ancestry(expansions, chain) && chain[0] == i
        ensures WrittenSurvives(expansions, unitSurvives, chain[|chain| - 1])
      {
        AncestryReaches(expansions, chain);
      }
    } else {
      var j: nat :| Reaches(ParentStep(expansions), i, j) && !WrittenSurvives(expansions, unitSurvives, j);
      var chain := ReachesAncestry(expansions, i, j);
    }
  }

  /** No node marked `true` has a parent that is invalid or marked `false`. */
  ghost predicate Settled(expansions: seq<ExpansionNode>, surviving: seq<bool>) {
    |surviving| == |expansions| && forall i :: 0 <= i < |expansions| && surviving[i] ==>
      ParentsSurvive(expansions, surviving, i)
  }

  ghost predicate ParentsSurvive(expansions: seq<ExpansionNode>, surviving: seq<bool>, i: nat)
    requires |surviving| == |expansions| && i < |expansions|
  {
    forall p :: p in ParentsOf(expansions[i]) ==> ValidParent(expansions, i, p) && surviving[p]
  }

  /** Nothing was ruled out wrongly. */
  ghost predicate Sound(expansions: seq<ExpansionNode>, unitSurvives: nat -> Option<bool>, surviving: seq<bool>) {
    && |surviving| == |expansions|
    && (forall i :: 0 <= i < |surviving| && surviving[i] ==> WrittenSurvives(expansions, unitSurvives, i))
    && (forall i :: 0 <= i < |surviving| && !surviving[i] ==> !Survives(expansions, unitSurvives, i))
  }

  ghost function Marked(surviving: seq<bool>): set<nat> {
    set i | 0 <= i < |surviving| && surviving[i]
  }

  /** The loop over the parents of one node: `None` at an invalid one, `Some(false)` at a dead one. */
  method CheckParents(expansions: seq<ExpansionNode>, surviving: seq<bool>, i: nat) returns (r: Option<bool>)
    requires |surviving| == |expansions| && i < |expansions|
    ensures r == Some(true) <==> ParentsSurvive(expansions, surviving, i)
    ensures r == Some(false) ==> exists p: nat :: ParentStep(expansions)(i, p) && p < |surviving| && !surviving[p]
    ensures r == None ==> InvalidParentAt(expansions, i)
  {
    var parents := ParentsOf(expansions[i]);
    for k := 0 to |parents|
      invariant forall m :: 0 <= m < k ==> ValidParent(expansions, i, parents[m]) && surviving[parents[m]]
    {
      assert parents[k] in parents;
      if !ValidParent(expansions, i, parents[k]) {
        return None;
      }
      if !surviving[parents[k]] {
        assert ParentStep(expansions)(i, parents[k]);
        return Some(false);
      }
    }
    r := Some(true);
  }

  lemma {:induction false} DeadParent(expansions: seq<ExpansionNode>, unitSurvives: nat -> Option<bool>, i: nat,
                                      p: nat)
    requires ParentStep(expansions)(i, p) && !Survives(expansions, unitSurvives, p)
    ensures !Survives(expansions, unitSurvives, i)
  {
    var j: nat :| Reaches(ParentStep(expansions), p, j) && !WrittenSurvives(expansions, unitSurvives, j);
    ReachesVia(ParentStep(expansions), i, p, j);
  }

  lemma {:induction false} Unmark(expansions: seq<ExpansionNode>, unitSurvives: nat -> Option<bool>,
                                  surviving: seq<bool>, i: nat)
    requires Sound(expansions, unitSurvives, surviving) && i < |surviving| && surviving[i]
    requires exists p: nat :: ParentStep(expansions)(i, p) && p < |surviving| && !surviving[p]
    ensures Sound(expansions, unitSurvives, surviving[i := false])
    ensures Marked(surviving[i := false]) < Marked(surviving)
  {
    var p: nat :| ParentStep(expansions)(i, p) && p < |surviving| && !surviving[p];
    DeadParent(expansions, unitSurvives, i, p);
    assert i in Marked(surviving);
    assert Marked(surviving[i := false]) == Marked(surviving) - {i};
  }

  /** One scan over all nodes. */
  method Scan(expansions: seq<ExpansionNode>, ghost unitSurvives: nat -> Option<bool>, before: seq<bool>)
    returns (r: Option<(seq<bool>, bool)>)
    requires |before| == |expansions| && Sound(expansions, unitSurvives, before)
    ensures r.None? ==> exists i :: InvalidParentAt(expansions, i)
    ensures r.Some? ==> Sound(expansions, unitSurvives, r.value.0)
    ensures r.Some? && !r.value.1 ==> Settled(expansions, r.value.0) && r.value.0 == before
    ensures r.Some? && r.value.1 ==> Marked(r.value.0) < Marked(before)
  {
    hide Survives;
    hide WrittenSurvives;
    hide ParentsSurvive;
    hide Sound;
    hide Marked;
    hide InvalidParentAt;
    var surviving, changed := before, false;
    for i := 0 to |expansions|
      invariant |surviving| == |expansions| && Sound(expansions, unitSurvives, surviving)
      invariant !changed ==> surviving == before
      invariant !changed ==> forall k :: 0 <= k < i && surviving[k] ==> ParentsSurvive(expansions, surviving, k)
      invariant changed ==> Marked(surviving) < Marked(before)
    {
      if surviving[i] {
        var parents := CheckParents(expansions, surviving, i);
        if parents.None? {
          return None;
        }
        if !parents.value {
          Unmark(expansions, unitSurvives, surviving, i);
          surviving := surviving[i := false];
          changed := true;
        }
      }
    }
    r := Some((surviving, changed));
  }

  /** What is settled survives. */
  lemma {:induction false} SettledSurvives(expansions: seq<ExpansionNode>, unitSurvives: nat -> Option<bool>,
                                           surviving: seq<bool>, i: nat)
    requires Sound(expansions, unitSurvives, surviving) && Settled(expansions, surviving)
    requires i < |surviving| && surviving[i]
    ensures Survives(expansions, unitSurvives, i)
  {
    var step := ParentStep(expansions);
    var inside := (j: nat) => j < |surviving| && surviving[j];
    forall a: nat, b: nat | inside(a) && step(a, b)
      ensures inside(b)
    {
      assert ParentsSurvive(expansions, surviving, a);
    }
    forall j: nat | Reaches(step, i, j)
      ensures WrittenSurvives(expansions, unitSurvives, j)
    {
      ClosedHolds(step, inside, i, j);
    }
  }

  /** The initial marking: `None` on an id out of place or an unknown unit. */
  method Initial(expansions: seq<ExpansionNode>, unitSurvives: nat -> Option<bool>) returns (r: Option<seq<bool>>)
    ensures r.Some? <==> DenseIds(expansions) && UnitsKnown(expansions, unitSurvives)
    ensures r.Some? ==> Sound(expansions, unitSurvives, r.value)
  {
    var surviving: seq<bool> := [];
    for i := 0 to |expansions|
      invariant |surviving| == i
      invariant forall k :: 0 <= k < i ==>
        expansions[k].id == k && Written(expansions[k], unitSurvives) == Some(surviving[k])
    {
      if expansions[i].id != i || Written(expansions[i], unitSurvives).None? {
        return None;
      }
      surviving := surviving + [Written(expansions[i], unitSurvives).value];
    }
    forall i | 0 <= i < |surviving| && !surviving[i]
      ensures !Survives(expansions, unitSurvives, i)
    {
      ReachesSelf(ParentStep(expansions), i);
    }
    r := Some(surviving);
  }

  /** `expansion_source_survival`: an expansion is marked exactly when, along every chain of expansions that discovered
      it, are its semantic parent or are its source-call parent, in any mix, each has no written invocation or one whose
      unit survives. Ids out of place, units nobody knows and invalid references are the only reasons to give up, and
      a marked expansion never has an invalid reference. */
  method ExpansionSourceSurvival(expansions: seq<ExpansionNode>, unitSurvives: nat -> Option<bool>)
    returns (r: Option<seq<bool>>)
    ensures r.Some? ==> |r.value| == |expansions|
    ensures r.Some? ==> forall i :: 0 <= i < |expansions| ==>
      && expansions[i].id == i
      && (expansions[i].writtenInvocation.Some? ==> unitSurvives(expansions[i].writtenInvocation.value).Some?)
    ensures r.Some? ==> forall i: nat :: i < |expansions| ==> (r.value[i] <==> Survives(expansions, unitSurvives, i))
    ensures r.Some? ==> forall i: nat, p: nat :: i < |expansions| && r.value[i] && IsParent(expansions[i], p) ==>
      p < |expansions| && p != i
    ensures r.None? ==> exists i: nat :: i < |expansions| && Faulty(expansions, unitSurvives, i)
  {
    FaultyMeans(expansions, unitSurvives);
    var initial := Initial(expansions, unitSurvives);
    if initial.None? {
      return None;
    }
    var surviving, changed := initial.value, true;
    while changed
      invariant Sound(expansions, unitSurvives, surviving)
      invariant !changed ==> Settled(expansions, surviving)
      decreases Marked(surviving), changed
    {
      var scanned := Scan(expansions, unitSurvives, surviving);
      if scanned.None? {
        return None;
      }
      surviving, changed := scanned.value.0, scanned.value.1;
    }
    forall i | 0 <= i < |expansions|
      ensures surviving[i] <==> Survives(expansions, unitSurvives, i)
      ensures surviving[i] ==> !InvalidParentAt(expansions, i)
    {
      if surviving[i] {
        SettledSurvives(expansions, unitSurvives, surviving, i);
        assert ParentsSurvive(expansions, surviving, i);
      }
    }
    forall i: nat, p: nat | i < |expansions| && surviving[i] && IsParent(expansions[i], p)
      ensures p < |expansions| && p != i
    {
      ParentsListed(expansions[i], p);
      assert ParentsSurvive(expansions, surviving, i);
    }
    r := Some(surviving);
  }

  /* ---------- the greatest fixpoint ---------- */

  /** `alive` holds only expansions whose written unit, if any, survives, and whose parents it also holds. */
  ghost predicate Consistent(expansions: seq<ExpansionNode>, unitSurvives: nat -> Option<bool>, alive: set<nat>) {
    && (forall i :: i in alive ==> WrittenSurvives(expansions, unitSurvives, i))
    && (forall i, p: nat :: i in alive && ParentStep(expansions)(i, p) ==> p in alive)
  }

  /** Consistency, said of the fields alone. */
  lemma {:induction false} ConsistentMeans(expansions: seq<ExpansionNode>, unitSurvives: nat -> Option<bool>,
                                           alive: set<nat>)
    ensures Consistent(expansions, unitSurvives, alive) <==>
      forall i :: i in alive ==>
        && i < |expansions|
        && (|| expansions[i].writtenInvocation.None?
            || unitSurvives(expansions[i].writtenInvocation.value) == Some(true))
        && (expansions[i].discoveredIn.Some? && expansions[i].discoveredIn.value < |expansions|
            ==> expansions[i].discoveredIn.value in alive)
        && (expansions[i].semanticParent.Some? && expansions[i].semanticParent.value < |expansions|
            ==> expansions[i].semanticParent.value in alive)
        && (expansions[i].sourceCallParent.Some? && expansions[i].sourceCallParent.value < |expansions|
            ==> expansions[i].sourceCallParent.value in alive)
  {
    hide ParentsOf;
    forall i: nat, p: nat | i < |expansions|
      ensures p in ParentsOf(expansions[i]) <==> IsParent(expansions[i], p)
    {
      ParentsListed(expansions[i], p);
    }
    if Consistent(expansions, unitSurvives, alive) {
      forall i, p: nat | i in alive && IsParent(expansions[i], p) && p < |expansions|
        ensures p in alive
      {
        if p != i { assert ParentStep(expansions)(i, p); }
      }
    }
  }

  ghost function SurvivorSet(expansions: seq<ExpansionNode>, unitSurvives: nat -> Option<bool>): set<nat> {
    set i | 0 <= i < |expansions| && Survives(expansions, unitSurvives, i)
  }

  /** The survivors are the greatest set that is consistent: each member was made without a written invocation or its
      unit survives, and every parent of a member is a member. */
  lemma {:induction false} SurvivorsGreatest(expansions: seq<ExpansionNode>, unitSurvives: nat -> Option<bool>)
    ensures Consistent(expansions, unitSurvives, SurvivorSet(expansions, unitSurvives))
    ensures forall alive :: Consistent(expansions, unitSurvives, alive) ==>
      alive <= SurvivorSet(expansions, unitSurvives)
  {
    var step := ParentStep(expansions);
    forall i, p: nat | i in SurvivorSet(expansions, unitSurvives) && step(i, p)
      ensures p in SurvivorSet(expansions, unitSurvives)
    {
      if !Survives(expansions, unitSurvives, p) { DeadParent(expansions, unitSurvives, i, p); }
    }
    forall i | i in SurvivorSet(expansions, unitSurvives)
      ensures WrittenSurvives(expansions, unitSurvives, i)
    {
      ReachesSelf(step, i);
    }
    forall alive, i | Consistent(expansions, unitSurvives, alive) && i in alive
      ensures i in SurvivorSet(expansions, unitSurvives)
    {
      forall j: nat | Reaches(step, i, j)
        ensures WrittenSurvives(expansions, unitSurvives, j)
      {
        ClosedHolds(step, (k: nat) => k in alive, i, j);
      }
    }
  }
}
