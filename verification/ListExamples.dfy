/** Concrete lists and what their pruning leaves and deletes (src/rewrite.rs, lines 378-626). */
module ListExamples {
  import opened Wrappers
  import opened Text
  import opened UseTrees
  import opened DeriveLists

  const A := Leaf(0, [], [0x61], [])
  const B := Leaf(1, [], [0x62], [])
  const C := Leaf(2, [], [0x63], [])

  const BC := Then(B, Last(C))
  const ABC := Then(A, BC)
  const BC_COMMA := Then(B, Then(C, Last(Blank([]))))
  const ABC_COMMA := Then(A, BC_COMMA)

  /** `{a,b,c}`. */
  const TREE := Group([], ABC, [])

  lemma {:induction false} TreeText()
    ensures Render(TREE) == [0x7B, 0x61, 0x2C, 0x62, 0x2C, 0x63, 0x7D] && Size(TREE) == 7
    ensures RenderItems(ABC_COMMA) == [0x61, 0x2C, 0x62, 0x2C, 0x63, 0x2C]
  {
    assert RenderItems(BC) == [0x62, 0x2C, 0x63];
    assert RenderItems(BC_COMMA.rest) == [0x63, 0x2C];
    assert RenderItems(BC_COMMA) == [0x62, 0x2C, 0x63, 0x2C];
  }

  lemma {:induction false} Leaves(retained: set<nat>)
    ensures Dropped(A, retained) <==> 0 !in retained
    ensures Dropped(B, retained) <==> 1 !in retained
    ensures Dropped(C, retained) <==> 2 !in retained
    ensures Prune(A, retained) == A && Prune(B, retained) == B && Prune(C, retained) == C
    ensures Mixed(TREE, retained) <==>
      (0 in retained || 1 in retained || 2 in retained) && !(0 in retained && 1 in retained && 2 in retained)
  {
    assert Ids(A)[0] == 0 && Ids(B)[0] == 1 && Ids(C)[0] == 2;
    assert Ids(TREE) == [0, 1, 2];
    assert Ids(TREE)[0] == 0 && Ids(TREE)[1] == 1 && Ids(TREE)[2] == 2;
  }

  lemma {:induction false} LastTwo(at: nat, retained: set<nat>)
    requires 0 < at < 200
    ensures PruneItems(BC, retained) ==
      if 1 in retained then Some(if 2 in retained then BC else Last(B))
      else Some(Last(if 2 in retained then C else Blank([])))
    ensures ItemsDeletions(BC, at, true, retained) ==
      (if 1 in retained then [] else [ByteRange(at, at + 2)])
      + if 2 in retained then [] else [ByteRange(at + 1, at + 3)]
  {
    Leaves(retained);
    hide Dropped;
    hide Mixed;
    hide Prune;
    assert PruneItems(Last(C), retained) == if 2 in retained then Some(Last(C)) else None;
    assert EntryDeletions(B, at, true, true, retained) == if 1 in retained then [] else [ByteRange(at, at + 2)];
    assert ItemsDeletions(Last(C), at + 2, true, retained)
      == if 2 in retained then [] else [ByteRange(at + 1, at + 3)];
  }

  /** A lost entry of a use group goes with the comma after it, the last one with the comma before it. When the last two
      go, the comma between them goes twice and the one before them stays. */
  lemma {:induction false} UseTreeExample(at: nat, retained: set<nat>)
    requires at < 100 && Mixed(TREE, retained)
    ensures Prune(TREE, retained) ==
      Group([], if 0 in retained && 1 in retained then Then(A, Last(B))
                else if 0 in retained && 2 in retained then Then(A, Last(C))
                else if 1 in retained && 2 in retained then Then(B, Last(C))
                else if 0 in retained then Then(A, Last(Blank([])))
                else Last(if 1 in retained then B else C), [])
    ensures InnerDeletions(TREE, at, retained) ==
      (if 0 in retained then [] else [ByteRange(at + 1, at + 3)])
      + ((if 1 in retained then [] else [ByteRange(at + 3, at + 5)])
         + if 2 in retained then [] else [ByteRange(at + 4, at + 6)])
  {
    Leaves(retained);
    LastTwo(at + 3, retained);
    hide Dropped;
    hide Mixed;
    assert EntryDeletions(A, at + 1, false, true, retained)
      == if 0 in retained then [] else [ByteRange(at + 1, at + 3)];
    FirstOfThree(at, retained);
    hide PruneItems;
    hide ItemsDeletions;
  }

  lemma {:induction false} FirstOfThree(at: nat, retained: set<nat>)
    requires at < 100
    ensures PruneItems(ABC, retained) ==
      if 0 !in retained then PruneItems(BC, retained)
      else match PruneItems(BC, retained) case None => Some(Last(A)) case Some(more) => Some(Then(A, more))
    ensures ItemsDeletions(ABC, at + 1, false, retained)
      == EntryDeletions(A, at + 1, false, true, retained) + ItemsDeletions(BC, at + 3, true, retained)
  {
    Leaves(retained);
    hide Dropped;
    hide Mixed;
  }

  /** A derive list loses whole runs: at the end with the comma before them, elsewhere with the comma after them. */
  lemma {:induction false} DeriveListExample(at: nat)
    requires 0 < at < 100
    ensures Keep(ABC, {0}) == Some(Last(A)) && Runs(Some(ABC), at, None, at, {0}) == [ByteRange(at + 1, at + 5)]
  {
    Leaves({0});
    hide Dropped;
    RunsStep(Some(ABC), at, None, at, {0});
    RunsStep(Some(BC), at + 2, None, at, {0});
    RunsStep(Some(Last(C)), at + 4, Some(at + 2), at, {0});
    assert Runs(None, at + 6, Some(at + 2), at, {0}) == [ByteRange(at + 1, at + 5)];
    hide Runs;
    assert Keep(Last(C), {0}) == None && Keep(BC, {0}) == None;
  }

  lemma {:induction false} FirstRunExample(at: nat)
    requires 0 < at < 100
    ensures Keep(ABC, {2}) == Some(Last(C)) && Runs(Some(ABC), at, None, at, {2}) == [ByteRange(at, at + 4)]
  {
    Leaves({2});
    hide Dropped;
    RunsStep(Some(ABC), at, None, at, {2});
    RunsStep(Some(BC), at + 2, Some(at), at, {2});
    RunsStep(Some(Last(C)), at + 4, Some(at), at, {2});
    assert Runs(None, at + 6, None, at, {2}) == [];
    hide Runs;
    assert Keep(Last(C), {2}) == Some(Last(C)) && Keep(BC, {2}) == Some(Last(C));
  }

  /** A trailing comma stays. */
  lemma {:induction false} TrailingCommaExample(at: nat)
    requires 0 < at < 100
    ensures Keep(ABC_COMMA, {0}) == Some(Then(A, Last(Blank([]))))
    ensures Runs(Some(ABC_COMMA), at, None, at, {0}) == [ByteRange(at + 2, at + 6)]
  {
    Leaves({0});
    assert !Dropped(Blank([]), {0});
    hide Dropped;
    RunsStep(Some(ABC_COMMA), at, None, at, {0});
    RunsStep(Some(BC_COMMA), at + 2, None, at, {0});
    RunsStep(Some(BC_COMMA.rest), at + 4, Some(at + 2), at, {0});
    RunsStep(Some(Last(Blank([]))), at + 6, Some(at + 2), at, {0});
    assert Runs(None, at + 7, None, at, {0}) == [];
    hide Runs;
    assert Keep(BC_COMMA.rest, {0}) == Some(Last(Blank([]))) && Keep(BC_COMMA, {0}) == Some(Last(Blank([])));
  }
}
