/** Parent-linked forests and their preorder walk, the order in which `append` of src/definitions.rs
    (lines 1329-1375) numbers definitions. */
module Forests {
  import opened Wrappers
  import opened Ordering

  /** `ps[i]` is the parent of node `i`. */
  type Parents = seq<Option<nat>>

  /** A witness that following parents always ends. */
  ghost predicate Forest(ps: Parents, depth: seq<nat>) {
    && |depth| == |ps|
    && forall i :: 0 <= i < |ps| && ps[i].Some? ==> ps[i].value < |ps| && depth[i] == depth[ps[i].value] + 1
  }

  /** The path from the top of `i`'s tree down to `i`. */
  ghost function Chain(ps: Parents, depth: seq<nat>, i: nat): (c: seq<nat>)
    requires Forest(ps, depth) && i < |ps|
    ensures c != [] && c[|c| - 1] == i
    ensures forall k :: 0 <= k < |c| ==> c[k] < |ps|
    decreases depth[i]
  {
    match ps[i]
    case None => [i]
    case Some(p) => Chain(ps, depth, p) + [i]
  }

  ghost function Subtree(ps: Parents, depth: seq<nat>, i: nat): set<nat>
    requires Forest(ps, depth) && i < |ps|
  {
    set j | 0 <= j < |ps| && i in Chain(ps, depth, j)
  }

  /** A chain holds its end and, below a parent, the parent's chain. */
  lemma {:induction false} ChainStep(ps: Parents, depth: seq<nat>, i: nat, a: nat)
    requires Forest(ps, depth) && i < |ps|
    ensures a in Chain(ps, depth, i) <==> a == i || (ps[i].Some? && a in Chain(ps, depth, ps[i].value))
  {
    var c := Chain(ps, depth, i);
    assert c[|c| - 1] == i;
  }

  lemma {:induction false} ChainDepth(ps: Parents, depth: seq<nat>, i: nat, a: nat)
    requires Forest(ps, depth) && i < |ps| && a in Chain(ps, depth, i)
    ensures a < |ps| && depth[a] <= depth[i] && (depth[a] == depth[i] ==> a == i)
    decreases depth[i]
  {
    hide Chain;
    ChainStep(ps, depth, i, a);
    if a != i {
      ChainDepth(ps, depth, ps[i].value, a);
    }
  }

  lemma {:induction false} ChainTransitive(ps: Parents, depth: seq<nat>, a: nat, b: nat, c: nat)
    requires Forest(ps, depth) && b < |ps| && c < |ps| && a in Chain(ps, depth, b) && b in Chain(ps, depth, c)
    ensures a in Chain(ps, depth, c)
    decreases depth[c]
  {
    hide Chain;
    ChainStep(ps, depth, c, b);
    ChainStep(ps, depth, c, a);
    if b != c {
      ChainTransitive(ps, depth, a, b, ps[c].value);
    }
  }

  /** At each depth a chain has one node. */
  lemma {:induction false} ChainLevel(ps: Parents, depth: seq<nat>, a: nat, b: nat, j: nat)
    requires Forest(ps, depth) && j < |ps| && a in Chain(ps, depth, j) && b in Chain(ps, depth, j)
    requires a < |ps| && b < |ps| && depth[a] == depth[b]
    ensures a == b
    decreases depth[j]
  {
    hide Chain;
    ChainDepth(ps, depth, j, a);
    ChainDepth(ps, depth, j, b);
    ChainStep(ps, depth, j, a);
    ChainStep(ps, depth, j, b);
    if a != j && b != j {
      ChainLevel(ps, depth, a, b, ps[j].value);
    }
  }

  lemma {:induction false} SelfInSubtree(ps: Parents, depth: seq<nat>, i: nat)
    requires Forest(ps, depth) && i < |ps|
    ensures i in Subtree(ps, depth, i)
  {
    ChainStep(ps, depth, i, i);
  }

  lemma {:induction false} ChildSubtree(ps: Parents, depth: seq<nat>, i: nat, c: nat)
    requires Forest(ps, depth) && i < |ps| && c < |ps| && ps[c] == Some(i)
    ensures Subtree(ps, depth, c) < Subtree(ps, depth, i)
    ensures |Subtree(ps, depth, c)| < |Subtree(ps, depth, i)|
    ensures i !in Subtree(ps, depth, c)
  {
    hide Chain;
    forall j | j in Subtree(ps, depth, c)
      ensures j in Subtree(ps, depth, i) && j != i
    {
      ChainStep(ps, depth, c, i);
      ChainStep(ps, depth, i, i);
      ChainTransitive(ps, depth, i, c, j);
      if j == i { ChainDepth(ps, depth, i, c); }
    }
    SelfInSubtree(ps, depth, i);
    SmallerSubset(Subtree(ps, depth, c), Subtree(ps, depth, i));
  }

  /** A strict descendant is below a child. */
  lemma {:induction false} BelowChild(ps: Parents, depth: seq<nat>, i: nat, j: nat) returns (c: nat)
    requires Forest(ps, depth) && i < |ps| && j in Subtree(ps, depth, i) && j != i
    ensures c < |ps| && ps[c] == Some(i) && j in Subtree(ps, depth, c)
    decreases depth[j]
  {
    hide Chain;
    ChainStep(ps, depth, j, i);
    if ps[j].value == i {
      c := j;
      SelfInSubtree(ps, depth, j);
    } else {
      c := BelowChild(ps, depth, i, ps[j].value);
      ChainStep(ps, depth, j, c);
    }
  }

  lemma {:induction false} SiblingsDisjoint(ps: Parents, depth: seq<nat>, c: nat, d: nat, j: nat)
    requires Forest(ps, depth) && c < |ps| && d < |ps| && ps[c].Some? && ps[c] == ps[d]
    requires j in Subtree(ps, depth, c) && j in Subtree(ps, depth, d)
    ensures c == d
  {
    hide Chain;
    ChainLevel(ps, depth, c, d, j);
  }

  /* ---------- the walk ---------- */

  /** `kids[i]` lists the children of `i`, each once. */
  ghost predicate ListsChildren(ps: Parents, kids: seq<seq<nat>>) {
    && |kids| == |ps|
    && (forall i :: 0 <= i < |ps| ==> Distinct(kids[i]))
    && (forall i, c: nat {:trigger c in kids[i]} :: 0 <= i < |ps| ==> (c in kids[i] <==> c < |ps| && ps[c] == Some(i)))
  }

  ghost function Walk(ps: Parents, depth: seq<nat>, kids: seq<seq<nat>>, i: nat): (w: seq<nat>)
    requires Forest(ps, depth) && ListsChildren(ps, kids) && i < |ps|
    ensures w != [] && w[0] == i
    decreases |Subtree(ps, depth, i)|, |kids[i]| + 1
  {
    [i] + WalkFrom(ps, depth, kids, i, 0)
  }

  /** The walks of the children of `i` from number `k` on. */
  ghost function WalkFrom(ps: Parents, depth: seq<nat>, kids: seq<seq<nat>>, i: nat, k: nat): seq<nat>
    requires Forest(ps, depth) && ListsChildren(ps, kids) && i < |ps| && k <= |kids[i]|
    decreases |Subtree(ps, depth, i)|, |kids[i]| - k
  {
    if k == |kids[i]| then []
    else
      assert kids[i][k] in kids[i];
      ChildSubtree(ps, depth, i, kids[i][k]);
      Walk(ps, depth, kids, kids[i][k]) + WalkFrom(ps, depth, kids, i, k + 1)
  }

  lemma {:induction false} WalkMembers(ps: Parents, depth: seq<nat>, kids: seq<seq<nat>>, i: nat)
    requires Forest(ps, depth) && ListsChildren(ps, kids) && i < |ps|
    ensures forall j :: j in Walk(ps, depth, kids, i) <==> j in Subtree(ps, depth, i)
    decreases |Subtree(ps, depth, i)|, |kids[i]| + 1
  {
    hide Subtree;
    hide WalkFrom;
    WalkFromMembers(ps, depth, kids, i, 0);
    forall j
      ensures j in Walk(ps, depth, kids, i) <==> j in Subtree(ps, depth, i)
    {
      SelfInSubtree(ps, depth, i);
      if j in Subtree(ps, depth, i) && j != i {
        var c := BelowChild(ps, depth, i, j);
        assert c in kids[i];
        var m :| 0 <= m < |kids[i]| && kids[i][m] == c;
        assert InLater(ps, depth, kids, i, 0, j);
      }
      if InLater(ps, depth, kids, i, 0, j) {
        var m :| 0 <= m < |kids[i]| && kids[i][m] < |ps| && j in Subtree(ps, depth, kids[i][m]);
        assert kids[i][m] in kids[i];
        ChildSubtree(ps, depth, i, kids[i][m]);
      }
    }
  }

  ghost predicate InLater(ps: Parents, depth: seq<nat>, kids: seq<seq<nat>>, i: nat, k: nat, j: nat)
    requires Forest(ps, depth) && ListsChildren(ps, kids) && i < |ps|
  {
    exists m :: k <= m < |kids[i]| && kids[i][m] < |ps| && j in Subtree(ps, depth, kids[i][m])
  }

  lemma {:induction false} WalkFromMembers(ps: Parents, depth: seq<nat>, kids: seq<seq<nat>>, i: nat, k: nat)
    requires Forest(ps, depth) && ListsChildren(ps, kids) && i < |ps| && k <= |kids[i]|
    ensures forall j :: j in WalkFrom(ps, depth, kids, i, k) <==> InLater(ps, depth, kids, i, k, j)
    decreases |Subtree(ps, depth, i)|, |kids[i]| - k
  {
    hide Subtree;
    hide Walk;
    if k < |kids[i]| {
      var c := kids[i][k];
      assert c in kids[i];
      ChildSubtree(ps, depth, i, c);
      WalkMembers(ps, depth, kids, c);
      WalkFromMembers(ps, depth, kids, i, k + 1);
      forall j
        ensures InLater(ps, depth, kids, i, k, j)
          <==> j in Subtree(ps, depth, c) || InLater(ps, depth, kids, i, k + 1, j)
      {
      }
    }
  }

  lemma {:induction false} DistinctConcat(a: seq<nat>, b: seq<nat>)
    requires Distinct(a) && Distinct(b) && forall x :: x in a ==> x !in b
    ensures Distinct(a + b)
  {
    forall m, n | 0 <= m < n < |a + b|
      ensures (a + b)[m] != (a + b)[n]
    {
      if m < |a| <= n { assert a[m] in a && b[n - |a|] in b; }
    }
  }

  lemma {:induction false} WalkDistinct(ps: Parents, depth: seq<nat>, kids: seq<seq<nat>>, i: nat)
    requires Forest(ps, depth) && ListsChildren(ps, kids) && i < |ps|
    ensures Distinct(Walk(ps, depth, kids, i))
    decreases |Subtree(ps, depth, i)|, |kids[i]| + 1
  {
    hide Subtree;
    hide WalkFrom;
    WalkFromDistinct(ps, depth, kids, i, 0);
    WalkFromMembers(ps, depth, kids, i, 0);
    if InLater(ps, depth, kids, i, 0, i) {
      var m :| 0 <= m < |kids[i]| && kids[i][m] < |ps| && i in Subtree(ps, depth, kids[i][m]);
      assert kids[i][m] in kids[i];
      ChildSubtree(ps, depth, i, kids[i][m]);
    }
    DistinctConcat([i], WalkFrom(ps, depth, kids, i, 0));
  }

  lemma {:induction false} WalkFromDistinct(ps: Parents, depth: seq<nat>, kids: seq<seq<nat>>, i: nat, k: nat)
    requires Forest(ps, depth) && ListsChildren(ps, kids) && i < |ps| && k <= |kids[i]|
    ensures Distinct(WalkFrom(ps, depth, kids, i, k))
    decreases |Subtree(ps, depth, i)|, |kids[i]| - k
  {
    hide Subtree;
    hide Walk;
    if k < |kids[i]| {
      var c := kids[i][k];
      assert c in kids[i];
      ChildSubtree(ps, depth, i, c);
      WalkDistinct(ps, depth, kids, c);
      WalkFromDistinct(ps, depth, kids, i, k + 1);
      WalkMembers(ps, depth, kids, c);
      WalkFromMembers(ps, depth, kids, i, k + 1);
      forall x | x in Walk(ps, depth, kids, c)
        ensures x !in WalkFrom(ps, depth, kids, i, k + 1)
      {
        if InLater(ps, depth, kids, i, k + 1, x) {
          var m :| k + 1 <= m < |kids[i]| && kids[i][m] < |ps| && x in Subtree(ps, depth, kids[i][m]);
          assert kids[i][m] in kids[i];
          SiblingsDisjoint(ps, depth, c, kids[i][m], x);
        }
      }
      DistinctConcat(Walk(ps, depth, kids, c), WalkFrom(ps, depth, kids, i, k + 1));
    }
  }

  /* ---------- the walk is a preorder ---------- */

  /** Each node of `w` hangs below a node on the chain of the node just before it; `before` precedes the first. */
  ghost predicate PreorderAfter(ps: Parents, depth: seq<nat>, before: nat, w: seq<nat>)
    requires Forest(ps, depth)
  {
    && (forall k :: 0 <= k < |w| ==> w[k] < |ps|)
    && before < |ps|
    && (w != [] ==> HangsBelow(ps, depth, w[0], before))
    && (forall k :: 1 <= k < |w| ==> HangsBelow(ps, depth, w[k], w[k - 1]))
  }

  ghost predicate HangsBelow(ps: Parents, depth: seq<nat>, j: nat, before: nat)
    requires Forest(ps, depth) && j < |ps| && before < |ps|
  {
    ps[j].Some? && ps[j].value in Chain(ps, depth, before)
  }

  lemma {:induction false} WalkPreorder(ps: Parents, depth: seq<nat>, kids: seq<seq<nat>>, i: nat)
    requires Forest(ps, depth) && ListsChildren(ps, kids) && i < |ps|
    ensures PreorderAfter(ps, depth, i, Walk(ps, depth, kids, i)[1..])
    decreases |Subtree(ps, depth, i)|, |kids[i]| + 1
  {
    hide Subtree;
    hide WalkFrom;
    hide PreorderAfter;
    ChainStep(ps, depth, i, i);
    WalkFromPreorder(ps, depth, kids, i, 0, i);
    assert Walk(ps, depth, kids, i)[1..] == WalkFrom(ps, depth, kids, i, 0);
  }

  lemma {:induction false} WalkFromPreorder(ps: Parents, depth: seq<nat>, kids: seq<seq<nat>>, i: nat, k: nat,
                                            before: nat)
    requires Forest(ps, depth) && ListsChildren(ps, kids) && i < |ps| && k <= |kids[i]|
    requires before < |ps| && i in Chain(ps, depth, before)
    ensures PreorderAfter(ps, depth, before, WalkFrom(ps, depth, kids, i, k))
    decreases |Subtree(ps, depth, i)|, |kids[i]| - k
  {
    hide Chain;
    if k < |kids[i]| {
      var c := kids[i][k];
      assert c in kids[i];
      ChildSubtree(ps, depth, i, c);
      var w := Walk(ps, depth, kids, c);
      var last := w[|w| - 1];
      WalkMembers(ps, depth, kids, c);
      assert last in w;
      ChainStep(ps, depth, c, i);
      ChainStep(ps, depth, i, i);
      ChainTransitive(ps, depth, i, c, last);
      WalkPreorder(ps, depth, kids, c);
      WalkFromPreorder(ps, depth, kids, i, k + 1, last);
      hide Walk;
      hide Subtree;
      hide ListsChildren;
      JoinPreorder(ps, depth, before, c, w, WalkFrom(ps, depth, kids, i, k + 1));
    }
  }

  lemma {:induction false} JoinPreorder(ps: Parents, depth: seq<nat>, before: nat, c: nat, w: seq<nat>,
                                        rest: seq<nat>)
    requires Forest(ps, depth) && before < |ps| && c < |ps| && HangsBelow(ps, depth, c, before)
    requires w != [] && w[0] == c && PreorderAfter(ps, depth, c, w[1..])
    requires PreorderAfter(ps, depth, w[|w| - 1], rest)
    ensures PreorderAfter(ps, depth, before, w + rest)
  {
    hide HangsBelow;
    hide Chain;
    var all := w + rest;
    var tail := w[1..];
    forall k {:trigger all[k]} | 1 <= k < |all|
      ensures all[k] < |ps| && all[k - 1] < |ps| && HangsBelow(ps, depth, all[k], all[k - 1])
    {
      if k < |w| {
        assert all[k] == tail[k - 1];
        if k > 1 { assert all[k - 1] == tail[k - 2]; }
      } else {
        assert all[k] == rest[k - |w|];
        if k > |w| { assert all[k - 1] == rest[k - |w| - 1]; }
      }
    }
  }

  /** Parents come before their children. */
  lemma {:induction false} ParentEarlier(ps: Parents, depth: seq<nat>, w: seq<nat>, k: nat)
    requires Forest(ps, depth) && w != [] && w[0] < |ps| && ps[w[0]].None?
    requires PreorderAfter(ps, depth, w[0], w[1..]) && 0 < k < |w|
    ensures w[k] < |ps| && ps[w[k]].Some? && ps[w[k]].value in w[..k]
  {
    hide Chain;
    var tail := w[1..];
    assert tail[k - 1] == w[k] && (k > 1 ==> tail[k - 2] == w[k - 1]);
    ChainListed(ps, depth, w, k - 1, ps[w[k]].value);
  }

  lemma {:induction false} ChainListed(ps: Parents, depth: seq<nat>, w: seq<nat>, k: nat, a: nat)
    requires Forest(ps, depth) && w != [] && w[0] < |ps| && ps[w[0]].None?
    requires PreorderAfter(ps, depth, w[0], w[1..]) && k < |w|
    requires w[k] < |ps| && a in Chain(ps, depth, w[k])
    ensures a in w[..k + 1]
    decreases k
  {
    hide Chain;
    ChainStep(ps, depth, w[k], a);
    assert w[..k + 1][k] == w[k];
    if a != w[k] {
      assert k > 0;
      var tail := w[1..];
      assert tail[k - 1] == w[k] && (k > 1 ==> tail[k - 2] == w[k - 1]);
      ChainTransitive(ps, depth, a, ps[w[k]].value, w[k - 1]);
      ChainListed(ps, depth, w, k - 1, a);
      assert w[..k] == w[..k + 1][..k];
    }
  }

  /* ---------- siblings keep their order ---------- */

  ghost predicate SiblingsOrdered(ps: Parents, w: seq<nat>, le: (nat, nat) -> bool) {
    forall p, q :: 0 <= p < q < |w| && w[p] < |ps| && w[q] < |ps| && ps[w[p]].Some? && ps[w[p]] == ps[w[q]] ==>
      le(w[p], w[q])
  }

  lemma {:induction false} WalkSiblings(ps: Parents, depth: seq<nat>, kids: seq<seq<nat>>, i: nat,
                                        le: (nat, nat) -> bool)
    requires Forest(ps, depth) && ListsChildren(ps, kids) && i < |ps|
    requires forall j :: 0 <= j < |kids| ==> Sorted(kids[j], le)
    ensures SiblingsOrdered(ps, Walk(ps, depth, kids, i), le)
    decreases |Subtree(ps, depth, i)|, |kids[i]| + 1
  {
    hide Chain;
    hide WalkFrom;
    var w, rest := Walk(ps, depth, kids, i), WalkFrom(ps, depth, kids, i, 0);
    WalkFromSiblings(ps, depth, kids, i, 0, le);
    WalkFromMembers(ps, depth, kids, i, 0);
    WalkMembers(ps, depth, kids, i);
    forall q | 0 < q < |w| && w[q] < |ps| && ps[w[q]].Some?
      ensures ps[i] != ps[w[q]]
    {
      assert w[q] == rest[q - 1];
      assert InLater(ps, depth, kids, i, 0, w[q]);
      var m :| 0 <= m < |kids[i]| && kids[i][m] < |ps| && w[q] in Subtree(ps, depth, kids[i][m]);
      assert kids[i][m] in kids[i];
      ChainDepth(ps, depth, w[q], kids[i][m]);
    }
    FirstHasNoSibling(ps, i, rest, le);
  }

  lemma {:induction false} FirstHasNoSibling(ps: Parents, i: nat, rest: seq<nat>, le: (nat, nat) -> bool)
    requires i < |ps| && SiblingsOrdered(ps, rest, le)
    requires forall q :: 0 < q < |[i] + rest| && ([i] + rest)[q] < |ps| && ps[([i] + rest)[q]].Some? ==>
      ps[i] != ps[([i] + rest)[q]]
    ensures SiblingsOrdered(ps, [i] + rest, le)
  {
    var w := [i] + rest;
    forall p, q | 0 <= p < q < |w| && w[p] < |ps| && w[q] < |ps| && ps[w[p]].Some? && ps[w[p]] == ps[w[q]]
      ensures le(w[p], w[q])
    {
      if p > 0 { assert w[p] == rest[p - 1] && w[q] == rest[q - 1]; }
    }
  }

  lemma {:induction false} WalkFromSiblings(ps: Parents, depth: seq<nat>, kids: seq<seq<nat>>, i: nat, k: nat,
                                            le: (nat, nat) -> bool)
    requires Forest(ps, depth) && ListsChildren(ps, kids) && i < |ps| && k <= |kids[i]|
    requires forall j :: 0 <= j < |kids| ==> Sorted(kids[j], le)
    ensures SiblingsOrdered(ps, WalkFrom(ps, depth, kids, i, k), le)
    decreases |Subtree(ps, depth, i)|, |kids[i]| - k
  {
    hide Chain;
    hide Subtree;
    hide Walk;
    if k < |kids[i]| {
      hide SiblingsOrdered;
      var c := kids[i][k];
      assert c in kids[i];
      ChildSubtree(ps, depth, i, c);
      WalkSiblings(ps, depth, kids, c, le);
      WalkFromSiblings(ps, depth, kids, i, k + 1, le);
      WalkMembers(ps, depth, kids, c);
      WalkFromMembers(ps, depth, kids, i, k + 1);
      var w, rest := Walk(ps, depth, kids, c), WalkFrom(ps, depth, kids, i, k + 1);
      forall x, y | x in w && y in rest && x < |ps| && y < |ps| && ps[x].Some? && ps[x] == ps[y]
        ensures le(x, y)
      {
        AcrossSiblings(ps, depth, kids, i, k, le, x, y);
      }
      JoinSiblings(ps, w, rest, le);
    }
  }

  lemma {:induction false} JoinSiblings(ps: Parents, w: seq<nat>, rest: seq<nat>, le: (nat, nat) -> bool)
    requires SiblingsOrdered(ps, w, le) && SiblingsOrdered(ps, rest, le)
    requires forall x, y :: x in w && y in rest && x < |ps| && y < |ps| && ps[x].Some? && ps[x] == ps[y] ==> le(x, y)
    ensures SiblingsOrdered(ps, w + rest, le)
  {
    var all := w + rest;
    forall p, q | 0 <= p < q < |all| && all[p] < |ps| && all[q] < |ps| && ps[all[p]].Some? && ps[all[p]] == ps[all[q]]
      ensures le(all[p], all[q])
    {
      if q < |w| { assert all[p] == w[p] && all[q] == w[q]; }
      else if p >= |w| { assert all[p] == rest[p - |w|] && all[q] == rest[q - |w|]; }
      else { assert all[p] in w && rest[q - |w|] in rest; }
    }
  }

  /** Nodes with one parent in two different child walks are those children. */
  lemma {:induction false} AcrossSiblings(ps: Parents, depth: seq<nat>, kids: seq<seq<nat>>, i: nat, k: nat,
                                          le: (nat, nat) -> bool, x: nat, y: nat)
    requires Forest(ps, depth) && ListsChildren(ps, kids) && i < |ps| && k < |kids[i]|
    requires Sorted(kids[i], le) && kids[i][k] < |ps|
    requires x in Subtree(ps, depth, kids[i][k]) && InLater(ps, depth, kids, i, k + 1, y)
    requires x < |ps| && y < |ps| && ps[x].Some? && ps[x] == ps[y]
    ensures le(x, y)
  {
    hide Chain;
    var c := kids[i][k];
    assert c in kids[i];
    var m :| k + 1 <= m < |kids[i]| && kids[i][m] < |ps| && y in Subtree(ps, depth, kids[i][m]);
    var d := kids[i][m];
    assert d in kids[i];
    ChainStep(ps, depth, x, c);
    ChainStep(ps, depth, y, d);
    if x != c && y != d {
      SiblingsDisjoint(ps, depth, c, d, ps[x].value);
    } else if x != c {
      ChainDepth(ps, depth, ps[x].value, c);
    } else if y != d {
      ChainDepth(ps, depth, ps[y].value, d);
    }
  }

  /* ---------- the whole forest ---------- */

  lemma {:induction false} RootAboveAll(ps: Parents, depth: seq<nat>, root: nat, i: nat)
    requires Forest(ps, depth) && root < |ps| && i < |ps|
    requires forall j :: 0 <= j < |ps| && j != root ==> ps[j].Some?
    ensures root in Chain(ps, depth, i)
    decreases depth[i]
  {
    hide Chain;
    ChainStep(ps, depth, i, root);
    if i != root {
      RootAboveAll(ps, depth, root, ps[i].value);
    }
  }

  /** With a single root the walk from it visits every node exactly once. */
  lemma {:induction false} WalkCovers(ps: Parents, depth: seq<nat>, kids: seq<seq<nat>>, root: nat)
    requires Forest(ps, depth) && ListsChildren(ps, kids) && root < |ps|
    requires forall j :: 0 <= j < |ps| && j != root ==> ps[j].Some?
    ensures Distinct(Walk(ps, depth, kids, root))
    ensures forall j: nat :: j in Walk(ps, depth, kids, root) <==> j < |ps|
    ensures |Walk(ps, depth, kids, root)| == |ps|
  {
    hide Chain;
    hide Walk;
    WalkDistinct(ps, depth, kids, root);
    WalkMembers(ps, depth, kids, root);
    forall j: nat
      ensures j in Walk(ps, depth, kids, root) <==> j < |ps|
    {
      if j < |ps| { RootAboveAll(ps, depth, root, j); }
    }
    DistinctSize(Walk(ps, depth, kids, root));
    assert Elements(Walk(ps, depth, kids, root)) == Indices(|ps|);
  }

  /** The root of a single-rooted forest has no parent. */
  lemma {:induction false} RootParentless(ps: Parents, depth: seq<nat>, root: nat)
    requires Forest(ps, depth) && root < |ps|
    requires forall j :: 0 <= j < |ps| && j != root ==> ps[j].Some?
    ensures ps[root].None?
  {
    hide Chain;
    if ps[root].Some? {
      RootAboveAll(ps, depth, root, ps[root].value);
      ChainDepth(ps, depth, ps[root].value, root);
    }
  }

  /* ---------- the tree below a root in arbitrary parent links ---------- */

  /** `steps` parent links lead from `i` to `root`, which is met only at the end. */
  ghost predicate ReachesIn(ps: Parents, root: nat, i: nat, steps: nat)
    decreases steps
  {
    && i < |ps|
    && if steps == 0 then i == root else i != root && ps[i].Some? && ReachesIn(ps, root, ps[i].value, steps - 1)
  }

  ghost predicate Reaches(ps: Parents, root: nat, i: nat) {
    exists steps: nat :: ReachesIn(ps, root, i, steps)
  }

  /** Walking down from `root` never comes back to it. */
  ghost predicate AtTop(ps: Parents, root: nat) {
    root < |ps| && (ps[root].Some? ==> !Reaches(ps, root, ps[root].value))
  }

  ghost function StepsTo(ps: Parents, root: nat, i: nat): (steps: nat)
    ensures Reaches(ps, root, i) ==> ReachesIn(ps, root, i, steps)
  {
    if Reaches(ps, root, i) then
      var steps: nat :| ReachesIn(ps, root, i, steps);
      steps
    else 0
  }

  lemma {:induction false} StepsUnique(ps: Parents, root: nat, i: nat, m: nat, n: nat)
    requires ReachesIn(ps, root, i, m) && ReachesIn(ps, root, i, n)
    ensures m == n
    decreases m
  {
    if m > 0 && n > 0 {
      StepsUnique(ps, root, ps[i].value, m - 1, n - 1);
    }
  }

  lemma {:induction false} ParentReaches(ps: Parents, root: nat, i: nat)
    requires i < |ps| && i != root && ps[i].Some?
    ensures Reaches(ps, root, i) <==> Reaches(ps, root, ps[i].value)
    ensures Reaches(ps, root, i) ==> ps[i].value < |ps| && StepsTo(ps, root, i) == StepsTo(ps, root, ps[i].value) + 1
  {
    var p := ps[i].value;
    if Reaches(ps, root, p) {
      assert ReachesIn(ps, root, i, StepsTo(ps, root, p) + 1);
    }
    if Reaches(ps, root, i) {
      assert ReachesIn(ps, root, p, StepsTo(ps, root, i) - 1);
      StepsUnique(ps, root, p, StepsTo(ps, root, i) - 1, StepsTo(ps, root, p));
    }
  }

  /** The links of the nodes below `root`; every other node stands alone. */
  ghost function TreeBelow(ps: Parents, root: nat): (below: Parents)
    ensures |below| == |ps|
    ensures forall i :: 0 <= i < |ps| ==> below[i] == if i != root && Reaches(ps, root, i) then ps[i] else None
  {
    seq(|ps|, i requires 0 <= i < |ps| => if i != root && Reaches(ps, root, i) then ps[i] else None)
  }

  ghost function DepthBelow(ps: Parents, root: nat): (depth: seq<nat>)
    ensures |depth| == |ps| && forall i :: 0 <= i < |ps| ==> depth[i] == StepsTo(ps, root, i)
  {
    seq(|ps|, i requires 0 <= i < |ps| => StepsTo(ps, root, i))
  }

  /** The lists of children that the walk from `root` meets. */
  ghost function KidsBelow(ps: Parents, kids: seq<seq<nat>>, root: nat): (below: seq<seq<nat>>)
    ensures |below| == |kids|
    ensures forall i :: 0 <= i < |kids| ==> below[i] == if Reaches(ps, root, i) then kids[i] else []
  {
    seq(|kids|, i requires 0 <= i < |kids| => if Reaches(ps, root, i) then kids[i] else [])
  }

  /** What lies below a root is a forest, whatever the rest of the links does. */
  lemma {:induction false} BelowForest(ps: Parents, kids: seq<seq<nat>>, root: nat)
    requires AtTop(ps, root) && ListsChildren(ps, kids)
    ensures Forest(TreeBelow(ps, root), DepthBelow(ps, root))
    ensures ListsChildren(TreeBelow(ps, root), KidsBelow(ps, kids, root))
  {
    hide ReachesIn;
    hide Reaches;
    var below, depth, lists := TreeBelow(ps, root), DepthBelow(ps, root), KidsBelow(ps, kids, root);
    forall i | 0 <= i < |ps| && below[i].Some?
      ensures below[i].value < |ps| && depth[i] == depth[below[i].value] + 1 && Reaches(ps, root, below[i].value)
    {
      NotRootHasParent(ps, root, i);
      ParentReaches(ps, root, i);
    }
    forall i, c: nat | 0 <= i < |ps|
      ensures c in lists[i] <==> c < |ps| && below[c] == Some(i)
    {
      if c in kids[i] && Reaches(ps, root, i) {
        assert c != root;
        ParentReaches(ps, root, c);
      }
      if c < |ps| && below[c] == Some(i) {
        ParentReaches(ps, root, c);
        assert c in kids[i];
      }
    }
  }

  lemma {:induction false} NotRootHasParent(ps: Parents, root: nat, i: nat)
    requires i < |ps| && i != root && Reaches(ps, root, i)
    ensures ps[i].Some?
  {
  }

  /** The nodes below the root are those that reach it. */
  lemma {:induction false} BelowReaches(ps: Parents, depth: seq<nat>, root: nat, i: nat)
    requires AtTop(ps, root) && i < |ps| && depth == DepthBelow(ps, root) && Forest(TreeBelow(ps, root), depth)
    ensures root in Chain(TreeBelow(ps, root), depth, i) <==> Reaches(ps, root, i)
    decreases depth[i]
  {
    hide Chain;
    hide Reaches;
    hide ReachesIn;
    ChainStep(TreeBelow(ps, root), depth, i, root);
    if i == root {
      RootReaches(ps, root);
    } else if Reaches(ps, root, i) {
      NotRootHasParent(ps, root, i);
      ParentReaches(ps, root, i);
      BelowReaches(ps, depth, root, ps[i].value);
    }
  }

  lemma {:induction false} RootReaches(ps: Parents, root: nat)
    requires root < |ps|
    ensures Reaches(ps, root, root)
  {
    assert ReachesIn(ps, root, root, 0);
  }

  lemma {:induction false} ForestReaches(ps: Parents, depth: seq<nat>, root: nat, i: nat)
    requires Forest(ps, depth) && root < |ps| && i < |ps|
    requires forall j :: 0 <= j < |ps| && j != root ==> ps[j].Some?
    ensures Reaches(ps, root, i)
    decreases depth[i]
  {
    hide Reaches;
    if i == root {
      RootReaches(ps, root);
    } else {
      ForestReaches(ps, depth, root, ps[i].value);
      ParentReaches(ps, root, i);
    }
  }

  /** The walk below the root visits exactly the nodes that reach it, each once. */
  lemma {:induction false} WalkBelow(ps: Parents, depth: seq<nat>, kids: seq<seq<nat>>, root: nat)
    requires AtTop(ps, root) && depth == DepthBelow(ps, root)
    requires Forest(TreeBelow(ps, root), depth) && ListsChildren(TreeBelow(ps, root), kids)
    ensures Distinct(Walk(TreeBelow(ps, root), depth, kids, root))
    ensures forall j: nat :: j in Walk(TreeBelow(ps, root), depth, kids, root) <==> j < |ps| && Reaches(ps, root, j)
  {
    hide Walk;
    hide Chain;
    hide Reaches;
    var below := TreeBelow(ps, root);
    WalkDistinct(below, depth, kids, root);
    WalkMembers(below, depth, kids, root);
    forall j: nat | j < |ps|
      ensures j in Walk(below, depth, kids, root) <==> Reaches(ps, root, j)
    {
      BelowReaches(ps, depth, root, j);
    }
  }

  /** A list of different nodes is complete exactly when its length says so. */
  lemma {:induction false} CompleteList(w: seq<nat>, n: nat)
    requires Distinct(w) && forall j :: j in w ==> j < n
    ensures |w| == n <==> forall j: nat :: j < n ==> j in w
  {
    DistinctSize(w);
    SmallerSubset(Elements(w), Indices(n));
    assert Elements(w) == Indices(n) <==> forall j: nat :: j < n ==> j in w by {
      assert forall j: nat :: j in w <==> j in Elements(w);
    }
    assert |Indices(n)| == n;
  }

  /** When every node reaches the root, nothing is cut. */
  lemma {:induction false} NothingCut(ps: Parents, root: nat)
    requires AtTop(ps, root) && forall i :: 0 <= i < |ps| ==> Reaches(ps, root, i)
    requires ps[root].Some? ==> ps[root].value < |ps|
    ensures TreeBelow(ps, root) == ps
  {
    hide Reaches;
    assert ps[root].None?;
  }
}
