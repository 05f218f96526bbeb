/** Reachability along a step relation on numbered nodes. */
module Paths {

  ghost predicate IsPath(step: (nat, nat) -> bool, p: seq<nat>) {
    p != [] && forall k :: 0 <= k < |p| - 1 ==> step(p[k], p[k + 1])
  }

  ghost predicate Connects(step: (nat, nat) -> bool, p: seq<nat>, a: nat, b: nat) {
    IsPath(step, p) && p[0] == a && p[|p| - 1] == b
  }

  ghost predicate Reaches(step: (nat, nat) -> bool, a: nat, b: nat) {
    exists p :: Connects(step, p, a, b)
  }

  lemma {:induction false} ReachesSelf(step: (nat, nat) -> bool, a: nat)
    ensures Reaches(step, a, a)
  {
    assert Connects(step, [a], a, a);
  }

  lemma {:induction false} ReachesFurther(step: (nat, nat) -> bool, a: nat, b: nat, c: nat)
    requires Reaches(step, a, b) && step(b, c)
    ensures Reaches(step, a, c)
  {
    var p :| Connects(step, p, a, b);
    assert Connects(step, p + [c], a, c);
  }

  lemma {:induction false} ReachesVia(step: (nat, nat) -> bool, a: nat, b: nat, c: nat)
    requires step(a, b) && Reaches(step, b, c)
    ensures Reaches(step, a, c)
  {
    var p :| Connects(step, p, b, c);
    var q := [a] + p;
    forall k | 0 <= k < |q| - 1
      ensures step(q[k], q[k + 1])
    {
      if k > 0 { assert q[k] == p[k - 1] && q[k + 1] == p[k]; }
    }
    assert Connects(step, q, a, c);
  }

  ghost predicate ClosedUnder(step: (nat, nat) -> bool, inside: nat -> bool) {
    forall a: nat, b: nat :: inside(a) && step(a, b) ==> inside(b)
  }

  /** What is closed under steps holds everything reachable from it. */
  lemma {:induction false} ClosedHolds(step: (nat, nat) -> bool, inside: nat -> bool, a: nat, b: nat)
    requires ClosedUnder(step, inside) && inside(a) && Reaches(step, a, b)
    ensures inside(b)
  {
    var p :| Connects(step, p, a, b);
    ClosedAlong(step, inside, p, |p| - 1);
  }

  lemma {:induction false} ClosedAlong(step: (nat, nat) -> bool, inside: nat -> bool, p: seq<nat>, k: nat)
    requires ClosedUnder(step, inside) && IsPath(step, p) && k < |p| && inside(p[0])
    ensures inside(p[k])
    decreases k
  {
    if k > 0 {
      ClosedAlong(step, inside, p, k - 1);
      assert step(p[k - 1], p[k - 1 + 1]);
    }
  }
}
