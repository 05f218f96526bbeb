/** Which retained sets a rewrite accepts, and which units it deletes whole (src/rewrite.rs, lines 236-312). */
module Retention {
  import opened Wrappers
  import opened Text
  import opened GraphKeys
  import opened Rewrite
  import opened Forests

  datatype Unit = Unit(id: nat, kind: WrittenUnitKind, parent: Option<nat>, fullRange: ByteRange, atomicGroup: nat)

  function ParentsOf(units: seq<Unit>): (ps: Parents)
    ensures |ps| == |units| && forall i :: 0 <= i < |units| ==> ps[i] == units[i].parent
  {
    seq(|units|, i requires 0 <= i < |units| => units[i].parent)
  }

  /** What `validate_units` checks: ids count up, parents lead to one root, a unit lies inside its parent.
      `depth` witnesses that parents lead to an end. */
  ghost predicate Inventory(units: seq<Unit>, depth: seq<nat>) {
    && (forall i :: 0 <= i < |units| ==> units[i].id == i)
    && (forall i :: 0 <= i < |units| ==> units[i].fullRange.start <= units[i].fullRange.end)
    && Forest(ParentsOf(units), depth)
    && (exists root :: 0 <= root < |units| && units[root].parent.None? && forall i :: 0 <= i < |units| && i != root ==>
          units[i].parent.Some?)
    && (forall i :: 0 <= i < |units| && units[i].parent.Some? ==>
          units[i].parent.value < |units| && units[units[i].parent.value].fullRange.Contains(units[i].fullRange))
  }

  /** Units of which neither is above the other do not overlap. The collector builds them so from the syntax tree;
      `validate_units` does not check it. */
  ghost predicate UnitsApart(units: seq<Unit>, depth: seq<nat>)
    requires Forest(ParentsOf(units), depth)
  {
    forall i, j :: 0 <= i < |units| && 0 <= j < |units| && !Above(units, depth, i, j) && !Above(units, depth, j, i) ==>
      Disjoint(units[i].fullRange, units[j].fullRange)
  }

  predicate Disjoint(a: ByteRange, b: ByteRange) {
    a.end <= b.start || b.end <= a.start
  }

  /** `a` is `i` or one of its ancestors. */
  ghost predicate Above(units: seq<Unit>, depth: seq<nat>, a: nat, i: nat)
    requires Forest(ParentsOf(units), depth)
  {
    i < |units| && a in Chain(ParentsOf(units), depth, i)
  }

  /** A unit lies inside all of its ancestors. */
  lemma {:induction false} InsideAncestors(units: seq<Unit>, depth: seq<nat>, a: nat, i: nat)
    requires Inventory(units, depth) && Above(units, depth, a, i)
    ensures a < |units| && units[a].fullRange.Contains(units[i].fullRange)
    decreases depth[i]
  {
    hide Chain;
    ChainStep(ParentsOf(units), depth, i, a);
    if a != i {
      InsideAncestors(units, depth, a, units[i].parent.value);
    }
  }

  /* ---------- accepted retentions ---------- */

  /** The root stays, a retained unit's parent is retained, and an atomic group is kept whole or lost whole. */
  ghost predicate Coherent(units: seq<Unit>, retained: set<nat>) {
    && (forall u :: u in retained ==> u < |units|)
    && (forall i :: 0 <= i < |units| && units[i].parent.None? ==> units[i].id in retained)
    && (forall i :: 0 <= i < |units| && units[i].id in retained && units[i].parent.Some? ==>
          units[i].parent.value in retained)
    && (forall i, j :: 0 <= i < |units| && 0 <= j < |units| && units[i].atomicGroup == units[j].atomicGroup ==>
          (units[i].id in retained <==> units[j].id in retained))
  }

  /** The loop over atomic groups. */
  method GroupsUniform(units: seq<Unit>, retained: set<nat>) returns (uniform: bool)
    ensures uniform
      <==> forall i, j :: 0 <= i < |units| && 0 <= j < |units| && units[i].atomicGroup == units[j].atomicGroup ==>
      (units[i].id in retained <==> units[j].id in retained)
  {
    var groups: map<nat, bool> := map[];
    for n := 0 to |units|
      invariant forall i :: 0 <= i < n ==>
        units[i].atomicGroup in groups && groups[units[i].atomicGroup] == (units[i].id in retained)
      invariant forall g :: g in groups ==> exists i :: 0 <= i < n && units[i].atomicGroup == g
    {
      var group, state := units[n].atomicGroup, units[n].id in retained;
      if group in groups && groups[group] != state {
        return false;
      }
      groups := groups[group := state];
    }
    uniform := true;
  }

  /** `validate_retention`: accepts exactly the coherent retentions of an inventory with one root: known ids only, the
      root and every retained unit's parent among them, and of an atomic group all members or none. */
  method ValidateRetention(units: seq<Unit>, retained: set<nat>, ghost depth: seq<nat>)
    returns (r: Result<(), RewriteError>)
    requires Inventory(units, depth)
    ensures r.Ok? <==> Coherent(units, retained)
    ensures r.Ok? <==>
      && (forall u :: u in retained ==> u < |units|)
      && (forall i :: 0 <= i < |units| && units[i].parent.None? ==> i in retained)
      && (forall i :: 0 <= i < |units| && i in retained && units[i].parent.Some? ==> units[i].parent.value in retained)
      && (forall i, j :: 0 <= i < |units| && 0 <= j < |units| && units[i].atomicGroup == units[j].atomicGroup ==>
            (i in retained <==> j in retained))
    ensures r.Err? ==> r.error == InvalidRetention
  {
    if exists u | u in retained :: u >= |units| {
      return Err(InvalidRetention);
    }
    var root := 0;
    while root < |units| && units[root].parent.Some?
      invariant root <= |units|
      invariant forall i :: 0 <= i < root ==> units[i].parent.Some?
    {
      root := root + 1;
    }
    if root == |units| {
      return Err(InvalidInventory);
    }
    if units[root].id !in retained
       || exists i | 0 <= i < |units| ::
         units[i].id in retained && units[i].parent.Some? && units[i].parent.value !in retained
    {
      return Err(InvalidRetention);
    }
    var uniform := GroupsUniform(units, retained);
    if !uniform {
      return Err(InvalidRetention);
    }
    r := Ok(());
  }

  /* ---------- the frontier ---------- */

  /** Leaves of use items, and the elements of macro repetitions and derive lists, are deleted with their commas
      elsewhere. */
  predicate DeletedWhole(unit: Unit, listed: set<nat>) {
    unit.kind != UseLeaf && unit.id !in listed
  }

  predicate Frontier(unit: Unit, retained: set<nat>) {
    unit.id !in retained && unit.parent.Some? && unit.parent.value in retained
  }

  function FrontierRanges(units: seq<Unit>, retained: set<nat>, listed: set<nat>): seq<ByteRange> {
    if units == [] then []
    else
      var n := |units| - 1;
      FrontierRanges(units[..n], retained, listed)
      + if Frontier(units[n], retained) && DeletedWhole(units[n], listed) then [units[n].fullRange] else []
  }

  /** `frontier_deletions`: lists the ranges of the lost units with a retained parent that are neither leaves of use
      items nor entries of other lists; fails exactly when one of them is empty. */
  method FrontierDeletions(units: seq<Unit>, retained: set<nat>, listed: set<nat>)
    returns (r: Result<seq<ByteRange>, RewriteError>)
    ensures r.Ok?
      <==> forall u :: u in units && Frontier(u, retained) && DeletedWhole(u, listed) ==>
        u.fullRange.start != u.fullRange.end
    ensures r.Ok? <==> forall u |
      && u in units && u.kind != UseLeaf && u.id !in listed && u.id !in retained
      && u.parent.Some? && u.parent.value in retained :: u.fullRange.start != u.fullRange.end
    ensures r.Ok? ==> r.value == FrontierRanges(units, retained, listed)
    ensures r.Ok? ==> forall d :: d in r.value <==>
      exists u :: u in units && u.kind != UseLeaf && u.id !in listed && u.id !in retained
        && u.parent.Some? && u.parent.value in retained && u.fullRange == d
    ensures r.Err? ==> r.error == InvalidInventory
  {
    var deletions: seq<ByteRange> := [];
    for n := 0 to |units|
      invariant deletions == FrontierRanges(units[..n], retained, listed)
      invariant forall k :: 0 <= k < n && Frontier(units[k], retained) && DeletedWhole(units[k], listed) ==>
        units[k].fullRange.start != units[k].fullRange.end
    {
      assert units[..n + 1][..n] == units[..n];
      if Frontier(units[n], retained) && DeletedWhole(units[n], listed) {
        if units[n].fullRange.start == units[n].fullRange.end {
          assert units[n] in units;
          return Err(InvalidInventory);
        }
        deletions := deletions + [units[n].fullRange];
      }
    }
    assert units[..|units|] == units;
    FrontierListed(units, retained, listed);
    r := Ok(deletions);
  }

  lemma {:induction false} FrontierListed(units: seq<Unit>, retained: set<nat>, listed: set<nat>)
    ensures forall d :: d in FrontierRanges(units, retained, listed) <==>
      exists u :: u in units && Frontier(u, retained) && DeletedWhole(u, listed) && u.fullRange == d
  {
    forall d | d in FrontierRanges(units, retained, listed)
      ensures exists u :: u in units && Frontier(u, retained) && DeletedWhole(u, listed) && u.fullRange == d
    {
      var i := RangeIsFrontier(units, retained, listed, d);
      assert units[i] in units;
    }
    forall u | u in units && Frontier(u, retained) && DeletedWhole(u, listed)
      ensures u.fullRange in FrontierRanges(units, retained, listed)
    {
      var i :| 0 <= i < |units| && units[i] == u;
      FrontierIsRange(units, retained, listed, i);
    }
  }

  lemma {:induction false} RangeIsFrontier(units: seq<Unit>, retained: set<nat>, listed: set<nat>, range: ByteRange)
    returns (i: nat)
    requires range in FrontierRanges(units, retained, listed)
    ensures i < |units| && units[i].fullRange == range && Frontier(units[i], retained) && DeletedWhole(units[i], listed)
  {
    var n := |units| - 1;
    if Frontier(units[n], retained) && DeletedWhole(units[n], listed) && units[n].fullRange == range {
      i := n;
    } else {
      i := RangeIsFrontier(units[..n], retained, listed, range);
    }
  }

  lemma {:induction false} FrontierIsRange(units: seq<Unit>, retained: set<nat>, listed: set<nat>, i: nat)
    requires i < |units| && Frontier(units[i], retained) && DeletedWhole(units[i], listed)
    ensures units[i].fullRange in FrontierRanges(units, retained, listed)
  {
    var n := |units| - 1;
    if i < n {
      FrontierIsRange(units[..n], retained, listed, i);
    }
  }

  /* ---------- what the frontier means ---------- */

  /** Every ancestor of a retained unit is retained. */
  lemma {:induction false} AncestorsRetained(units: seq<Unit>, depth: seq<nat>, retained: set<nat>, a: nat, i: nat)
    requires Inventory(units, depth) && Coherent(units, retained) && Above(units, depth, a, i) && i in retained
    ensures a in retained
    decreases depth[i]
  {
    hide Chain;
    ChainStep(ParentsOf(units), depth, i, a);
    if a != i {
      AncestorsRetained(units, depth, retained, a, units[i].parent.value);
    }
  }

  /** A lost unit lies below exactly one frontier unit. */
  lemma {:induction false} FrontierAbove(units: seq<Unit>, depth: seq<nat>, retained: set<nat>, i: nat) returns (f: nat)
    requires Inventory(units, depth) && Coherent(units, retained) && i < |units| && i !in retained
    ensures f < |units| && Above(units, depth, f, i) && Frontier(units[f], retained)
    decreases depth[i]
  {
    hide Chain;
    ChainStep(ParentsOf(units), depth, i, i);
    var p := units[i].parent.value;
    if p in retained {
      f := i;
    } else {
      f := FrontierAbove(units, depth, retained, p);
      ChainStep(ParentsOf(units), depth, i, f);
    }
  }

  /** No frontier unit lies below another. */
  lemma {:induction false} FrontierUnrelated(units: seq<Unit>, depth: seq<nat>, retained: set<nat>, f: nat, g: nat)
    requires Inventory(units, depth) && Coherent(units, retained) && f < |units| && g < |units| && f != g
    requires Frontier(units[f], retained) && Frontier(units[g], retained)
    ensures !Above(units, depth, f, g)
  {
    hide Chain;
    ChainStep(ParentsOf(units), depth, g, f);
    if Above(units, depth, f, g) {
      AncestorsRetained(units, depth, retained, f, units[g].parent.value);
    }
  }

  lemma {:induction false} FrontierUnique(units: seq<Unit>, depth: seq<nat>, retained: set<nat>, i: nat, f: nat,
                                          g: nat)
    requires Inventory(units, depth) && Coherent(units, retained) && f < |units| && g < |units|
    requires Frontier(units[f], retained) && Frontier(units[g], retained)
    requires Above(units, depth, f, i) && Above(units, depth, g, i)
    ensures f == g
  {
    hide Chain;
    if f != g {
      FrontierUnrelated(units, depth, retained, f, g);
      FrontierUnrelated(units, depth, retained, g, f);
      Comparable(ParentsOf(units), depth, f, g, i);
    }
  }

  /** Two nodes above a third are above one another. */
  lemma {:induction false} Comparable(ps: Parents, depth: seq<nat>, a: nat, b: nat, i: nat)
    requires Forest(ps, depth) && i < |ps| && a < |ps| && b < |ps| && a in Chain(ps, depth, i)
    requires b in Chain(ps, depth, i)
    ensures a in Chain(ps, depth, b) || b in Chain(ps, depth, a)
    decreases depth[i]
  {
    hide Chain;
    ChainStep(ps, depth, i, a);
    ChainStep(ps, depth, i, b);
    if a != i && b != i {
      Comparable(ps, depth, a, b, ps[i].value);
    }
  }

  /** Deletions of different frontier units never overlap. */
  lemma {:induction false} FrontierDisjoint(units: seq<Unit>, depth: seq<nat>, retained: set<nat>, f: nat, g: nat)
    requires Inventory(units, depth) && UnitsApart(units, depth) && Coherent(units, retained)
    requires f < |units| && g < |units| && f != g
    requires Frontier(units[f], retained) && Frontier(units[g], retained)
    ensures Disjoint(units[f].fullRange, units[g].fullRange)
  {
    hide Chain;
    FrontierUnrelated(units, depth, retained, f, g);
    FrontierUnrelated(units, depth, retained, g, f);
  }

  /** Every byte of a lost unit is deleted, unless its frontier unit is deleted with its comma elsewhere. */
  lemma {:induction false} LostUnitsCovered(units: seq<Unit>, depth: seq<nat>, retained: set<nat>, listed: set<nat>,
                                            i: nat, p: nat) returns (f: nat)
    requires Inventory(units, depth) && Coherent(units, retained) && i < |units| && i !in retained
    requires units[i].fullRange.start <= p < units[i].fullRange.end
    ensures f < |units| && Above(units, depth, f, i) && Frontier(units[f], retained)
    ensures DeletedWhole(units[f], listed) ==> Deleted(FrontierRanges(units, retained, listed), p)
  {
    hide Chain;
    f := FrontierAbove(units, depth, retained, i);
    InsideAncestors(units, depth, f, i);
    if DeletedWhole(units[f], listed) {
      var ranges := FrontierRanges(units, retained, listed);
      FrontierIsRange(units, retained, listed, f);
      var k :| 0 <= k < |ranges| && ranges[k] == units[f].fullRange;
      assert ranges[k].start <= p < ranges[k].end;
    }
  }

  /** A retained unit loses only bytes of lost units below it. */
  lemma {:induction false} RetainedLosesOnlyBelow(units: seq<Unit>, depth: seq<nat>, retained: set<nat>,
                                                  listed: set<nat>, i: nat, p: nat) returns (f: nat)
    requires Inventory(units, depth) && UnitsApart(units, depth) && Coherent(units, retained)
    requires i < |units| && i in retained
    requires units[i].fullRange.start <= p < units[i].fullRange.end
    requires Deleted(FrontierRanges(units, retained, listed), p)
    ensures f < |units| && f !in retained && f != i && Above(units, depth, i, f)
    ensures Frontier(units[f], retained) && DeletedWhole(units[f], listed)
    ensures units[f].fullRange.start <= p < units[f].fullRange.end
  {
    hide Chain;
    var ranges := FrontierRanges(units, retained, listed);
    var k :| 0 <= k < |ranges| && ranges[k].start <= p < ranges[k].end;
    assert ranges[k] in ranges;
    f := RangeIsFrontier(units, retained, listed, ranges[k]);
    if Above(units, depth, f, i) {
      AncestorsRetained(units, depth, retained, f, i);
    }
  }
}
