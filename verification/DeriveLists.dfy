/** Pruning a derive list to its retained elements (src/rewrite.rs, lines 378-464), for the layout
    src/source/derive.rs reads off the attribute (lines 793-895). */
module DeriveLists {
  import opened Wrappers
  import opened Text
  import opened Rewrite
  import opened UseTrees
  import opened UseRewrite

  /** One element with its segment and the commas beside it. */
  datatype Entry = Entry(element: ByteRange, segment: ByteRange, previousComma: Option<ByteRange>,
                         followingComma: Option<ByteRange>)

  /** A derive list: elements between commas, with a blank last entry exactly when there is a trailing comma. */
  predicate Flat(items: Items) {
    match items
    case Last(s) => s.Blank? || (s.Leaf? && s.path != [])
    case Then(s, rest) => s.Leaf? && s.path != [] && Flat(rest)
  }

  predicate TrailingComma(items: Items) {
    match items
    case Last(s) => s.Blank?
    case Then(_, rest) => TrailingComma(rest)
  }

  function Element(s: Segment, at: nat): ByteRange
    requires s.Leaf? && at + Size(s) < U32_LIMIT
  {
    ByteRange(at + |s.before|, at + |s.before| + |s.path|)
  }

  function LayoutAt(items: Items, at: nat, previous: Option<ByteRange>): seq<Entry>
    requires Flat(items) && at + ListSize(items) + 1 < U32_LIMIT
  {
    match items
    case Last(s) => if s.Blank? then [] else [Entry(Element(s, at), RangeOf(s, at), previous, None)]
    case Then(s, rest) =>
      var comma := ByteRange(at + Size(s), at + Size(s) + 1);
      [Entry(Element(s, at), RangeOf(s, at), previous, Some(comma))] + LayoutAt(rest, at + Size(s) + 1, Some(comma))
  }

  /* ---------- what pruning means ---------- */

  /** The list without its lost elements; a trailing comma stays where it was. */
  function Keep(items: Items, retained: set<nat>): Option<Items> {
    match items
    case Last(s) => if Dropped(s, retained) then None else Some(items)
    case Then(s, rest) =>
      if Dropped(s, retained) then Keep(rest, retained)
      else match Keep(rest, retained) case None => Some(Last(s)) case Some(more) => Some(Then(s, more))
  }

  function RetainIds(ids: seq<nat>, retained: set<nat>): seq<nat> {
    if ids == [] then []
    else RetainIds(ids[..|ids| - 1], retained) + if ids[|ids| - 1] in retained then [ids[|ids| - 1]] else []
  }

  lemma {:induction false} RetainIdsConcat(a: seq<nat>, b: seq<nat>, retained: set<nat>)
    ensures RetainIds(a + b, retained) == RetainIds(a, retained) + RetainIds(b, retained)
    decreases |b|
  {
    if b == [] {
      assert a + b == a;
    } else {
      var n := |b| - 1;
      assert (a + b)[..|a + b| - 1] == a + b[..n];
      RetainIdsConcat(a, b[..n], retained);
    }
  }

  /** Exactly the retained elements remain, in order, in a well-formed list, and the trailing comma is there
      exactly when it was before. */
  lemma {:induction false} KeepKeeps(items: Items, retained: set<nat>)
    requires Flat(items)
    ensures Keep(items, retained).None? ==> RetainIds(ItemIds(items), retained) == [] && !TrailingComma(items)
    ensures Keep(items, retained).Some? ==>
      && Flat(Keep(items, retained).value)
      && ItemIds(Keep(items, retained).value) == RetainIds(ItemIds(items), retained)
      && (TrailingComma(Keep(items, retained).value) <==> TrailingComma(items))
  {
    hide Dropped;
    hide RetainIds;
    var s := items.segment;
    OneId(s, retained);
    if items.Then? {
      KeepKeeps(items.rest, retained);
      RetainIdsConcat(Ids(s), ItemIds(items.rest), retained);
    }
  }

  lemma {:induction false} OneId(s: Segment, retained: set<nat>)
    requires s.Leaf? || s.Blank?
    ensures RetainIds(Ids(s), retained) == if Dropped(s, retained) then [] else Ids(s)
    ensures s.Leaf? ==> (Dropped(s, retained) <==> s.id !in retained)
    ensures s.Blank? ==> !Dropped(s, retained)
  {
    if s.Leaf? {
      assert Ids(s) == [s.id] && s.id in Ids(s);
      assert RetainIds([], retained) == [];
      assert Ids(s)[..0] == [];
    }
  }

  /* ---------- the deletions, structurally ---------- */

  /** A run of lost elements ends before an entry that stays: it goes with the comma after it. */
  function Flush(run: Option<nat>, at: nat): seq<ByteRange>
    requires at < U32_LIMIT && (run.Some? ==> run.value <= at)
  {
    if run.Some? then [ByteRange(run.value, at)] else []
  }

  predicate RunsDefined(rest: Option<Items>, at: nat, run: Option<nat>, first: nat) {
    && at + (if rest.Some? then ListSize(rest.value) + 1 else 0) < U32_LIMIT
    && (run.Some? ==> first <= run.value < at)
    && first <= at && (rest.None? ==> first < at)
  }

  function Count(items: Items): nat {
    match items case Last(_) => 1 case Then(_, rest) => 1 + Count(rest)
  }

  function CountRest(rest: Option<Items>): nat {
    if rest.Some? then Count(rest.value) else 0
  }

  function More(rest: Option<Items>): Option<Items> {
    if rest.Some? && rest.value.Then? then Some(rest.value.rest) else None
  }

  /** The deletions from `rest` on, when `run` is the start of a run of lost elements just before it. A run that
      reaches the end goes with the comma before it. */
  function Runs(rest: Option<Items>, at: nat, run: Option<nat>, first: nat, retained: set<nat>): seq<ByteRange>
    requires RunsDefined(rest, at, run, first)
    decreases CountRest(rest)
  {
    match rest
    case None => if run.Some? && run.value > first then [ByteRange(run.value - 1, at - 1)] else []
    case Some(items) =>
      var s := items.segment;
      var next, more := at + Size(s) + 1, More(rest);
      if Dropped(s, retained) then Runs(more, next, Some(if run.Some? then run.value else at), first, retained)
      else Flush(run, at) + Runs(more, next, None, first, retained)
  }

  lemma {:induction false} RunsStep(rest: Option<Items>, at: nat, run: Option<nat>, first: nat, retained: set<nat>)
    requires RunsDefined(rest, at, run, first) && rest.Some?
    ensures RunsDefined(More(rest), at + Size(rest.value.segment) + 1, None, first)
    ensures RunsDefined(More(rest), at + Size(rest.value.segment) + 1, Some(Start(run, at)), first)
    ensures Runs(rest, at, run, first, retained) ==
      if Dropped(rest.value.segment, retained) then
        Runs(More(rest), at + Size(rest.value.segment) + 1, Some(Start(run, at)), first, retained)
      else Flush(run, at) + Runs(More(rest), at + Size(rest.value.segment) + 1, None, first, retained)
  {
  }

  function Start(run: Option<nat>, at: nat): nat {
    if run.Some? then run.value else at
  }

  predicate Gapped(ranges: seq<ByteRange>) {
    && (forall i | 0 <= i < |ranges| :: ranges[i].start < ranges[i].end)
    && (forall i, j | 0 <= i < j < |ranges| :: ranges[i].end < ranges[j].start)
  }

  /** The deletions are non-empty, in order, and no two touch. */
  lemma {:induction false} RunsGapped(rest: Option<Items>, at: nat, run: Option<nat>, first: nat, retained: set<nat>)
    requires RunsDefined(rest, at, run, first)
    requires rest.Some? ==> Flat(rest.value)
    requires rest.None? && run.Some? ==> run.value < at - 1
    ensures Gapped(Runs(rest, at, run, first, retained))
    ensures Between(Runs(rest, at, run, first, retained), Start(run, at) - 1,
                    if rest.Some? then at + ListSize(rest.value) else at - 1)
    decreases CountRest(rest)
  {
    hide Dropped;
    hide Gapped;
    hide Between;
    if rest.None? {
      OneRange(Runs(rest, at, run, first, retained), Start(run, at) - 1, at - 1);
    } else {
      var s, next := rest.value.segment, at + Size(rest.value.segment) + 1;
      RunsStep(rest, at, run, first, retained);
      RestSize(rest.value);
      assert Dropped(s, retained) ==> Size(s) > 0 by { OneId(s, retained); }
      NothingAfterLast(rest, next, first, retained);
      hide Runs;
      hide ListSize;
      hide Size;
      if Dropped(s, retained) {
        RunsGapped(More(rest), next, Some(Start(run, at)), first, retained);
      } else {
        RunsGapped(More(rest), next, None, first, retained);
        FlushThen(run, at, Runs(More(rest), next, None, first, retained), next, at + ListSize(rest.value));
      }
    }
  }

  lemma {:induction false} RestSize(items: Items)
    ensures ListSize(items) == Size(items.segment) + if items.Then? then 1 + ListSize(items.rest) else 0
  {
  }

  lemma {:induction false} NothingAfterLast(rest: Option<Items>, next: nat, first: nat, retained: set<nat>)
    requires rest.Some? && RunsDefined(More(rest), next, None, first)
    ensures More(rest).None? ==> Runs(More(rest), next, None, first, retained) == []
  {
  }

  lemma {:induction false} OneRange(ranges: seq<ByteRange>, lo: int, hi: int)
    requires ranges == []
      || (|ranges| == 1 && lo <= ranges[0].start < ranges[0].end <= hi)
    ensures Gapped(ranges) && Between(ranges, lo, hi)
  {
  }

  lemma {:induction false} FlushThen(run: Option<nat>, at: nat, later: seq<ByteRange>, next: nat, hi: nat)
    requires at < next && at < U32_LIMIT && (run.Some? ==> run.value < at) && at <= hi
    requires Gapped(later) && Between(later, next - 1, hi)
    requires later == [] || at + 1 < next
    ensures Gapped(Flush(run, at) + later)
    ensures Between(Flush(run, at) + later, Start(run, at) - 1, hi)
  {
    if Flush(run, at) == [] {
      assert [] + later == later;
    } else {
      Prepended(Flush(run, at)[0], later, Start(run, at) - 1, next - 1, hi);
    }
  }

  lemma {:induction false} Prepended(r: ByteRange, later: seq<ByteRange>, lo: int, next: int, hi: int)
    requires lo <= r.start < r.end <= hi && Gapped(later) && Between(later, next, hi) && lo <= next
    requires later == [] || r.end < next
    ensures Gapped([r] + later) && Between([r] + later, lo, hi)
  {
    PrependedGapped(r, later, next, hi);
    hide Gapped;
    forall s | s in [r] + later
      ensures lo <= s.start <= s.end <= hi
    {
      assert s == r || s in later;
    }
  }

  lemma {:induction false} PrependedGapped(r: ByteRange, later: seq<ByteRange>, next: int, hi: int)
    requires r.start < r.end && Gapped(later) && Between(later, next, hi)
    requires later == [] || r.end < next
    ensures Gapped([r] + later)
  {
    var all := [r] + later;
    forall i | 0 < i < |all|
      ensures all[i] == later[i - 1] && r.end < all[i].start < all[i].end
    {
      assert later[i - 1] in later;
    }
    hide Between;
    forall i, j | 0 <= i < j < |all|
      ensures all[i].end < all[j].start
    {
      if i > 0 { assert later[i - 1].end < later[j - 1].start; }
    }
  }

  /* ---------- what the deletions leave ---------- */

  /** Where the deletions of a list are read: from the comma before its pending run, if there is one. */
  function From(run: Option<nat>, at: nat, first: nat): nat {
    if Start(run, at) > first then Start(run, at) - 1 else Start(run, at)
  }

  /** What the text keeps of the list from `at` on, what happens to the pending run, and whether the comma before
      it stays. */
  lemma {:induction false} RunsRemain(text: seq<byte>, deletions: seq<ByteRange>, items: Items, at: nat,
                                      run: Option<nat>, first: nat, retained: set<nat>)
    requires RunsDefined(Some(items), at, run, first) && Flat(items) && HoldsItems(text, items, at)
    requires Keep(items, retained).None? ==> Start(run, at) > first
    requires Agrees(deletions, Runs(Some(items), at, run, first, retained), From(run, at, first), at + ListSize(items))
    ensures at + ListSize(items) <= |text|
    ensures Remains(text, deletions, at, at + ListSize(items)) ==
      match Keep(items, retained) case None => [] case Some(kept) => RenderItems(kept)
    ensures GoneIn(deletions, Start(run, at), at)
    ensures Start(run, at) > first ==>
      if Keep(items, retained).None? then GoneIn(deletions, Start(run, at) - 1, Start(run, at))
      else KeptIn(deletions, Start(run, at) - 1, Start(run, at))
    decreases items
  {
    hide Agrees;
    hide GoneIn;
    hide KeptIn;
    hide Remains;
    hide Holds;
    hide HoldsItems;
    hide Dropped;
    hide Render;
    hide Runs;
    SizeOfItems(text, items, at);
    HeldItems(text, items, at);
    var s := items.segment;
    var e, end := at + Size(s), at + ListSize(items);
    if Dropped(s, retained) {
      if items.Last? {
        LastRun(deletions, items, at, run, first, retained);
        RemainsNothing(text, deletions, at, e);
      } else {
        RunsStep(Some(items), at, run, first, retained);
        RunsRemain(text, deletions, items.rest, e + 1, Some(Start(run, at)), first, retained);
        GoneParts(deletions, Start(run, at), at, e + 1);
        SkipStretch(text, deletions, at, e + 1, end);
      }
    } else {
      StayingEntry(deletions, items, at, run, first, retained);
      HeldEntry(text, s, at);
      if items.Last? {
        RemainsAll(text, deletions, at, e);
      } else {
        RunsRemain(text, deletions, items.rest, e + 1, None, first, retained);
        CopyStretch(text, deletions, at, e, end, Render(s));
        if Keep(items.rest, retained).None? {
          SkipStretch(text, deletions, e, e + 1, end);
          NothingAfter(Render(s));
        } else {
          CopyStretch(text, deletions, e, e + 1, end, [COMMA]);
          JoinThree(Render(s), [COMMA], RenderItems(Keep(items.rest, retained).value));
        }
      }
    }
  }

  lemma {:induction false} GoneParts(deletions: seq<ByteRange>, lo: nat, mid: nat, hi: nat)
    requires lo <= mid <= hi && GoneIn(deletions, lo, hi)
    ensures GoneIn(deletions, lo, mid) && GoneIn(deletions, mid, hi)
  {
  }

  lemma {:induction false} HeldEntry(text: seq<byte>, s: Segment, at: nat)
    requires Holds(text, s, at)
    ensures at + Size(s) <= |text| && text[at..at + Size(s)] == Render(s)
  {
  }

  /** A run that reaches the end takes the comma before it. */
  lemma {:induction false} LastRun(deletions: seq<ByteRange>, items: Items, at: nat, run: Option<nat>, first: nat,
                                   retained: set<nat>)
    requires items.Last? && Dropped(items.segment, retained)
    requires RunsDefined(Some(items), at, run, first) && Start(run, at) > first
    requires Agrees(deletions, Runs(Some(items), at, run, first, retained), From(run, at, first), at + ListSize(items))
    ensures GoneIn(deletions, Start(run, at) - 1, Start(run, at))
    ensures GoneIn(deletions, Start(run, at), at) && GoneIn(deletions, at, at + ListSize(items))
  {
    hide Deleted;
    hide Dropped;
    var range := ByteRange(Start(run, at) - 1, at + ListSize(items));
    assert Runs(Some(items), at, run, first, retained) == [range];
    forall p: nat | Start(run, at) - 1 <= p < at + ListSize(items)
      ensures Deleted(deletions, p)
    {
      DeletedByOne(range, p);
    }
  }

  /** Before an entry that stays, a pending run goes and the comma before the run stays; the entry stays too. */
  lemma {:induction false} StayingEntry(deletions: seq<ByteRange>, items: Items, at: nat, run: Option<nat>,
                                        first: nat, retained: set<nat>)
    requires !Dropped(items.segment, retained) && Flat(items) && RunsDefined(Some(items), at, run, first)
    requires Agrees(deletions, Runs(Some(items), at, run, first, retained), From(run, at, first), at + ListSize(items))
    ensures GoneIn(deletions, Start(run, at), at)
    ensures Start(run, at) > first ==> KeptIn(deletions, Start(run, at) - 1, Start(run, at))
    ensures KeptIn(deletions, at, at + Size(items.segment))
    ensures items.Then? ==>
      && RunsDefined(Some(items.rest), at + Size(items.segment) + 1, None, first)
      && Agrees(deletions, Runs(Some(items.rest), at + Size(items.segment) + 1, None, first, retained),
                From(None, at + Size(items.segment) + 1, first), at + ListSize(items))
  {
    hide Deleted;
    hide Dropped;
    hide Flat;
    hide Between;
    hide Runs;
    var s := items.segment;
    var next := at + Size(s) + 1;
    RunsStep(Some(items), at, run, first, retained);
    var later := Runs(More(Some(items)), next, None, first, retained);
    var flush := Flush(run, at);
    LaterBetween(items, at, first, retained);
    forall p: nat | From(run, at, first) <= p < at + ListSize(items)
      ensures Deleted(flush + later, p) <==> Deleted(flush, p) || Deleted(later, p)
      ensures Deleted(later, p) ==> p >= at + Size(s)
      ensures Deleted(flush, p) <==> Start(run, at) <= p < at
    {
      DeletedConcat(flush, later, p);
      if Deleted(later, p) { DeletedBetween(later, at + Size(s), U32_LIMIT, p); }
      FlushDeletes(run, at, p);
    }
  }

  lemma {:induction false} FlushDeletes(run: Option<nat>, at: nat, p: nat)
    requires at < U32_LIMIT && (run.Some? ==> run.value < at)
    ensures Deleted(Flush(run, at), p) <==> Start(run, at) <= p < at
  {
    if run.Some? {
      assert Flush(run, at)[0] == ByteRange(run.value, at);
    }
  }

  lemma {:induction false} LaterBetween(items: Items, at: nat, first: nat, retained: set<nat>)
    requires Flat(items) && at + ListSize(items) + 1 < U32_LIMIT && first <= at
    ensures
      var rest := if items.Then? then Some(items.rest) else None;
      Between(Runs(rest, at + Size(items.segment) + 1, None, first, retained), at + Size(items.segment), U32_LIMIT)
  {
    if items.Then? {
      RunsGapped(Some(items.rest), at + Size(items.segment) + 1, None, first, retained);
    }
  }

  /** The rewritten file: everything outside the list stays, and the list becomes exactly its retained elements. */
  lemma {:induction false} DeriveListPruned(source: seq<byte>, items: Items, at: nat, retained: set<nat>)
    requires |source| < U32_LIMIT && at + ListSize(items) + 1 < U32_LIMIT && Flat(items)
    requires HoldsItems(source, items, at)
    requires exists id :: id in ItemIds(items) && id in retained
    ensures Keep(items, retained).Some?
    ensures at + ListSize(items) <= |source|
    ensures Remains(source, Runs(Some(items), at, None, at, retained), 0, |source|)
      == source[..at] + RenderItems(Keep(items, retained).value) + source[at + ListSize(items)..]
    ensures Flat(Keep(items, retained).value)
    ensures ItemIds(Keep(items, retained).value) == RetainIds(ItemIds(items), retained)
    ensures TrailingComma(Keep(items, retained).value) <==> TrailingComma(items)
    ensures Gapped(Runs(Some(items), at, None, at, retained))
  {
    var id :| id in ItemIds(items) && id in retained;
    SomeKept(items, retained, id);
    KeepKeeps(items, retained);
    hide *;
    ListText(source, items, at, retained, Keep(items, retained).value);
  }

  /** A retained element keeps all of its bytes, a lost one loses them all. */
  lemma {:induction false} ElementFate(text: seq<byte>, deletions: seq<ByteRange>, items: Items, at: nat,
                                       run: Option<nat>, first: nat, retained: set<nat>, leaf: UseLeaf)
    requires RunsDefined(Some(items), at, run, first) && Flat(items) && HoldsItems(text, items, at)
    requires Keep(items, retained).None? ==> Start(run, at) > first
    requires Agrees(deletions, Runs(Some(items), at, run, first, retained), From(run, at, first), at + ListSize(items))
    requires leaf in ItemLeaves(items, at)
    ensures LeafSettled(deletions, leaf, retained)
    decreases items
  {
    hide Agrees;
    hide Holds;
    hide HoldsItems;
    hide Runs;
    hide GoneIn;
    hide KeptIn;
    hide LeafSettled;
    hide Remains;
    hide RenderItems;
    hide Dropped;
    hide Leaves;
    var s, e := items.segment, at + Size(items.segment);
    HeldItems(text, items, at);
    if Dropped(s, retained) {
      if items.Last? {
        LastRun(deletions, items, at, run, first, retained);
      } else {
        RunsStep(Some(items), at, run, first, retained);
        RunsRemain(text, deletions, items.rest, e + 1, Some(Start(run, at)), first, retained);
        GoneParts(deletions, Start(run, at), at, e + 1);
        GoneParts(deletions, at, e, e + 1);
      }
    } else {
      StayingEntry(deletions, items, at, run, first, retained);
    }
    if leaf in Leaves(s, at) {
      EntrySettled(deletions, s, at, retained, leaf);
    } else {
      ElementFate(text, deletions, items.rest, e + 1, if Dropped(s, retained) then Some(Start(run, at)) else None,
                  first, retained, leaf);
    }
  }

  lemma {:induction false} EntrySettled(deletions: seq<ByteRange>, s: Segment, at: nat, retained: set<nat>,
                                        leaf: UseLeaf)
    requires at + Size(s) < U32_LIMIT && (s.Blank? || (s.Leaf? && s.path != [])) && leaf in Leaves(s, at)
    requires if Dropped(s, retained) then GoneIn(deletions, at, at + Size(s)) else KeptIn(deletions, at, at + Size(s))
    ensures LeafSettled(deletions, leaf, retained)
  {
    OneId(s, retained);
    LeafListed(s, at, leaf);
  }

  lemma {:induction false} ListText(source: seq<byte>, items: Items, at: nat, retained: set<nat>, kept: Items)
    requires RunsDefined(Some(items), at, None, at) && Flat(items) && HoldsItems(source, items, at)
    requires Keep(items, retained) == Some(kept)
    ensures at + ListSize(items) <= |source|
    ensures Remains(source, Runs(Some(items), at, None, at, retained), 0, |source|)
      == source[..at] + RenderItems(kept) + source[at + ListSize(items)..]
    ensures Gapped(Runs(Some(items), at, None, at, retained))
  {
    var deletions := Runs(Some(items), at, None, at, retained);
    SizeOfItems(source, items, at);
    RunsGapped(Some(items), at, None, at, retained);
    InListOnly(items, at, retained, |source|);
    AgreesWithItself(deletions, at, at + ListSize(items));
    hide Remains;
    hide HoldsItems;
    hide Keep;
    hide Flat;
    hide Runs;
    hide RenderItems;
    hide Gapped;
    hide Between;
    hide KeptIn;
    hide GoneIn;
    hide Agrees;
    RunsRemain(source, deletions, items, at, None, at, retained);
    RemainsAround(source, deletions, at, at + ListSize(items), RenderItems(kept));
  }

  lemma {:induction false} SomeKept(items: Items, retained: set<nat>, id: nat)
    requires id in ItemIds(items) && id in retained
    ensures Keep(items, retained).Some?
  {
    assert Dropped(items.segment, retained) ==> id !in Ids(items.segment);
    if items.Then? && id !in Ids(items.segment) {
      SomeKept(items.rest, retained, id);
    }
  }

  /** No deletion leaves the list. */
  lemma {:induction false} InListOnly(items: Items, at: nat, retained: set<nat>, n: nat)
    requires Flat(items) && at + ListSize(items) + 1 < U32_LIMIT
    ensures KeptIn(Runs(Some(items), at, None, at, retained), 0, at)
    ensures KeptIn(Runs(Some(items), at, None, at, retained), at + ListSize(items), n)
  {
    RunsAfter(Some(items), at, None, at, retained);
    RunsGapped(Some(items), at, None, at, retained);
    hide Runs;
    hide ListSize;
    hide Flat;
    NoneOutside(Runs(Some(items), at, None, at, retained), at, at + ListSize(items), n);
  }

  lemma {:induction false} NoneOutside(deletions: seq<ByteRange>, lo: nat, hi: nat, n: nat)
    requires Between(deletions, lo - 1, hi) && forall r :: r in deletions ==> lo <= r.start
    ensures KeptIn(deletions, 0, lo) && KeptIn(deletions, hi, n)
  {
    forall p: nat | Deleted(deletions, p)
      ensures lo <= p < hi
    {
      var k :| 0 <= k < |deletions| && deletions[k].start <= p < deletions[k].end;
      assert deletions[k] in deletions;
    }
    hide Deleted;
  }

  lemma {:induction false} RunsAfter(rest: Option<Items>, at: nat, run: Option<nat>, first: nat, retained: set<nat>)
    requires RunsDefined(rest, at, run, first)
    ensures forall r :: r in Runs(rest, at, run, first, retained) ==> first <= r.start <= r.end < U32_LIMIT
    decreases CountRest(rest)
  {
    hide Dropped;
    if rest.Some? {
      var next := at + Size(rest.value.segment) + 1;
      var more := if rest.value.Then? then Some(rest.value.rest) else None;
      RunsAfter(more, next, Some(Start(run, at)), first, retained);
      RunsAfter(more, next, None, first, retained);
    }
  }

  /* ---------- the algorithm ---------- */

  /** The ids of the elements, by range. */
  method IdsByRange(elements: seq<UseLeaf>) returns (byRange: map<ByteRange, nat>)
    requires Apart(elements) && forall l :: l in elements ==> l.range.start < l.range.end
    ensures forall i :: 0 <= i < |elements| ==>
      elements[i].range in byRange && byRange[elements[i].range] == elements[i].id
  {
    byRange := map[];
    for i := 0 to |elements|
      invariant forall k :: 0 <= k < i ==> elements[k].range in byRange && byRange[elements[k].range] == elements[k].id
    {
      forall k | 0 <= k < i
        ensures elements[k].range != elements[i].range
      {
        assert elements[k] in elements;
      }
      byRange := byRange[elements[i].range := elements[i].id];
    }
  }

  /** Which layout entries stay. */
  method RetainedLayout(elements: seq<UseLeaf>, layout: seq<Entry>, byRange: map<ByteRange, nat>, retained: set<nat>)
    returns (r: Result<seq<bool>, RewriteError>)
    requires |layout| == |elements| && forall i :: 0 <= i < |layout| ==> layout[i].element == elements[i].range
    requires forall i :: 0 <= i < |elements| ==>
      elements[i].range in byRange && byRange[elements[i].range] == elements[i].id
    ensures r.Ok? && |r.value| == |layout| && forall i :: 0 <= i < |layout| ==>
      (r.value[i] <==> elements[i].id in retained)
  {
    var flags: seq<bool> := [];
    for i := 0 to |layout|
      invariant |flags| == i && forall k :: 0 <= k < i ==> (flags[k] <==> elements[k].id in retained)
    {
      if layout[i].element !in byRange {
        return Err(InvalidInventory);
      }
      flags := flags + [byRange[layout[i].element] in retained];
    }
    r := Ok(flags);
  }

  lemma {:induction false} LayoutElements(items: Items, at: nat, previous: Option<ByteRange>)
    requires Flat(items) && at + ListSize(items) + 1 < U32_LIMIT
    ensures |LayoutAt(items, at, previous)| == |ItemLeaves(items, at)|
    ensures forall i :: 0 <= i < |ItemLeaves(items, at)| ==>
      LayoutAt(items, at, previous)[i].element == ItemLeaves(items, at)[i].range
  {
    if items.Then? {
      LayoutElements(items.rest, at + Size(items.segment) + 1,
                     Some(ByteRange(at + Size(items.segment), at + Size(items.segment) + 1)));
    }
  }

  lemma {:induction false} FlatIsWellFormed(items: Items)
    requires Flat(items)
    ensures WellFormedItems(items)
  {
    if items.Then? {
      FlatIsWellFormed(items.rest);
    }
  }

  /** Where the loop over the layout stands: what is left of the list and where it starts. */
  ghost predicate Standing(layout: seq<Entry>, flags: seq<bool>, i: nat, rest: Option<Items>, at: nat, first: nat,
                           retained: set<nat>) {
    && i <= |layout| == |flags|
    && first <= at
    && match rest
       case None => i == |layout| && first < at
       case Some(items) =>
         && Flat(items) && at + ListSize(items) + 1 < U32_LIMIT
         && layout[i..] == LayoutAt(items, at, if at > first then Some(ByteRange(at - 1, at)) else None)
         && FlagsMatch(flags[i..], items, retained)
  }

  predicate FlagsMatch(flags: seq<bool>, items: Items, retained: set<nat>) {
    match items
    case Last(s) => if s.Blank? then flags == [] else flags == [!Dropped(s, retained)]
    case Then(s, rest) => flags != [] && flags[0] == !Dropped(s, retained) && FlagsMatch(flags[1..], rest, retained)
  }

  /** One entry further. */
  lemma {:induction false} Onward(layout: seq<Entry>, flags: seq<bool>, i: nat, rest: Option<Items>, at: nat,
                                  first: nat, retained: set<nat>)
    requires Standing(layout, flags, i, rest, at, first, retained) && i < |layout|
    ensures rest.Some? && rest.value.segment.Leaf? && at + ListSize(rest.value) + 1 < U32_LIMIT
    ensures
      var s := rest.value.segment;
      && layout[i].segment == RangeOf(s, at)
      && layout[i].previousComma == (if at > first then Some(ByteRange(at - 1, at)) else None)
      && layout[i].followingComma
        == (if rest.value.Then? then Some(ByteRange(at + Size(s), at + Size(s) + 1)) else None)
      && flags[i] == !Dropped(s, retained)
      && Standing(layout, flags, i + 1, More(rest), at + Size(s) + 1, first, retained)
  {
    hide Dropped;
    assert layout[i] == layout[i..][0] && flags[i] == flags[i..][0];
    assert layout[i + 1..] == layout[i..][1..] && flags[i + 1..] == flags[i..][1..];
  }

  lemma {:induction false} AtEnd(layout: seq<Entry>, flags: seq<bool>, rest: Option<Items>, at: nat, first: nat,
                                 retained: set<nat>)
    requires Standing(layout, flags, |layout|, rest, at, first, retained)
    ensures rest.Some? ==>
      rest.value.Last? && rest.value.segment.Blank? && !Dropped(rest.value.segment, retained) && at + 1 < U32_LIMIT
  {
    assert layout[|layout|..] == [];
    if rest.Some? && rest.value.Last? { OneId(rest.value.segment, retained); }
  }

  /** The inner loop: the end of the run of lost elements that starts at `first`. */
  method SkipRun(layout: seq<Entry>, flags: seq<bool>, from: nat, retained: set<nat>,
                 ghost rest: Option<Items>, ghost at: nat, ghost first: nat)
    returns (index: nat, ghost rest': Option<Items>, ghost at': nat)
    requires from < |layout| == |flags| && !flags[from]
    requires Standing(layout, flags, from, rest, at, first, retained) && RunsDefined(rest, at, None, first)
    ensures from < index <= |layout| && (index < |layout| ==> flags[index])
    ensures Standing(layout, flags, index, rest', at', first, retained) && RunsDefined(rest', at', Some(at), first)
    ensures Runs(rest, at, None, first, retained) == Runs(rest', at', Some(at), first, retained)
    ensures layout[index - 1].segment.end == at' - 1
    ensures rest'.Some? ==> layout[index - 1].followingComma == Some(ByteRange(at' - 1, at'))
    ensures rest'.None? ==> layout[index - 1].followingComma.None?
    ensures rest.Some? && KeepRest(rest, retained) == KeepRest(rest', retained)
    ensures rest'.Some? ==> !Dropped(rest'.value.segment, retained)
    ensures index < |layout| ==> rest'.Some?
    ensures layout[from].segment.start == at
    ensures layout[from].previousComma == (if at > first then Some(ByteRange(at - 1, at)) else None)
  {
    hide Standing;
    hide Runs;
    index := from;
    rest', at' := rest, at;
    Onward(layout, flags, from, rest, at, first, retained);
    while index < |layout| && !flags[index]
      invariant from <= index <= |layout|
      invariant Standing(layout, flags, index, rest', at', first, retained)
      invariant index == from ==> rest' == rest && at' == at
      invariant index > from ==>
        && RunsDefined(rest', at', Some(at), first)
        && Runs(rest, at, None, first, retained) == Runs(rest', at', Some(at), first, retained)
        && layout[index - 1].segment.end == at' - 1
        && (rest'.Some? ==> layout[index - 1].followingComma == Some(ByteRange(at' - 1, at')))
        && (rest'.None? ==> layout[index - 1].followingComma.None?)
      invariant KeepRest(rest, retained) == KeepRest(rest', retained)
    {
      Onward(layout, flags, index, rest', at', first, retained);
      RunsStep(rest', at', if index == from then None else Some(at), first, retained);
      KeepStep(rest', retained);
      rest', at' := More(rest'), at' + Size(rest'.value.segment) + 1;
      index := index + 1;
    }
    if index < |layout| {
      Onward(layout, flags, index, rest', at', first, retained);
    } else {
      AtEnd(layout, flags, rest', at', first, retained);
    }
  }

  ghost function KeepRest(rest: Option<Items>, retained: set<nat>): Option<Items> {
    if rest.Some? then Keep(rest.value, retained) else None
  }

  lemma {:induction false} KeepStep(rest: Option<Items>, retained: set<nat>)
    requires rest.Some? && Dropped(rest.value.segment, retained)
    ensures KeepRest(rest, retained) == KeepRest(More(rest), retained)
  {
  }

  /** The outer loop of `rewrite_derive_attribute`. */
  method DeleteRuns(layout: seq<Entry>, flags: seq<bool>, retained: set<nat>, ghost items: Items, ghost first: nat)
    returns (r: Result<seq<ByteRange>, RewriteError>)
    requires |layout| == |flags| && Standing(layout, flags, 0, Some(items), first, first, retained)
    requires Keep(items, retained).Some? && first + ListSize(items) + 1 < U32_LIMIT
    ensures r == Ok(Runs(Some(items), first, None, first, retained))
  {
    hide Standing;
    hide Runs;
    hide Keep;
    var deletions: seq<ByteRange> := [];
    var index := 0;
    ghost var rest, at: nat := Some(items), first;
    ghost var whole := Runs(Some(items), first, None, first, retained);
    assert [] + whole == whole;
    KeepWhole(items, retained);
    while index < |layout|
      invariant index <= |layout|
      invariant Standing(layout, flags, index, rest, at, first, retained) && RunsDefined(rest, at, None, first)
      invariant deletions + Runs(rest, at, None, first, retained) == whole
      invariant at == first ==> rest == Some(items)
    {
      if flags[index] {
        Onward(layout, flags, index, rest, at, first, retained);
        RunsStep(rest, at, None, first, retained);
        EmptyFirst(Runs(More(rest), at + Size(rest.value.segment) + 1, None, first, retained));
        rest, at := More(rest), at + Size(rest.value.segment) + 1;
        index := index + 1;
      } else {
        var from := index;
        ghost var rest', at';
        index, rest', at' := SkipRun(layout, flags, from, retained, rest, at, first);
        var deletion;
        if index < |layout| || layout[index - 1].followingComma.Some? {
          if layout[index - 1].followingComma.None? {
            return Err(InvalidInventory);
          }
          deletion := ByteRange(layout[from].segment.start, layout[index - 1].followingComma.value.end);
        } else {
          if layout[from].previousComma.None? {
            return Err(InvalidRetention);
          }
          deletion := ByteRange(layout[from].previousComma.value.start, layout[index - 1].segment.end);
        }
        if deletion.IsEmpty() {
          return Err(InvalidInventory);
        }
        FinishRun(rest', at', at, first, retained, deletions, deletion);
        deletions := deletions + [deletion];
        rest, at := rest', at';
      }
    }
    AtEnd(layout, flags, rest, at, first, retained);
    NothingLeft(rest, at, first, retained);
    assert deletions + [] == deletions;
    r := Ok(deletions);
  }

  lemma {:induction false} KeepWhole(items: Items, retained: set<nat>)
    ensures KeepRest(Some(items), retained) == Keep(items, retained)
  {
  }

  lemma {:induction false} NothingLeft(rest: Option<Items>, at: nat, first: nat, retained: set<nat>)
    requires RunsDefined(rest, at, None, first)
    requires rest.Some? ==> rest.value.Last? && !Dropped(rest.value.segment, retained)
    ensures Runs(rest, at, None, first, retained) == []
  {
  }

  /** The deletion just found is the first one of what was left. */
  lemma {:induction false} FinishRun(rest: Option<Items>, at: nat, run: nat, first: nat, retained: set<nat>,
                                     deletions: seq<ByteRange>, deletion: ByteRange)
    requires RunsDefined(rest, at, Some(run), first) && (rest.Some? ==> !Dropped(rest.value.segment, retained))
    requires at > 0
    requires rest.None? ==> run > first && deletion == ByteRange(run - 1, at - 1)
    requires rest.Some? ==> deletion == ByteRange(run, at)
    ensures RunsDefined(rest, at, None, first)
    ensures deletions + Runs(rest, at, Some(run), first, retained)
      == (deletions + [deletion]) + Runs(rest, at, None, first, retained)
  {
    if rest.Some? {
      var later := Runs(More(rest), at + Size(rest.value.segment) + 1, None, first, retained);
      assert Runs(rest, at, None, first, retained) == [] + later == later;
      assert Runs(rest, at, Some(run), first, retained) == [deletion] + later;
      assert deletions + ([deletion] + later) == (deletions + [deletion]) + later;
    } else {
      assert deletions + [deletion] == (deletions + [deletion]) + [];
    }
  }

  lemma {:induction false} EmptyFirst(b: seq<ByteRange>)
    ensures [] + b == b
  {
  }

  lemma {:induction false} FlagsFromLeaves(flags: seq<bool>, items: Items, at: nat, retained: set<nat>)
    requires Flat(items) && at + ListSize(items) + 1 < U32_LIMIT && |flags| == |ItemLeaves(items, at)|
    requires forall i :: 0 <= i < |flags| ==> (flags[i] <==> ItemLeaves(items, at)[i].id in retained)
    ensures FlagsMatch(flags, items, retained)
  {
    hide Dropped;
    OneId(items.segment, retained);
    if items.Then? {
      var next := at + Size(items.segment) + 1;
      assert ItemLeaves(items, at)[0] == Leaves(items.segment, at)[0];
      assert ItemLeaves(items, at)[1..] == ItemLeaves(items.rest, next);
      FlagsFromLeaves(flags[1..], items.rest, next, retained);
    }
  }

  lemma {:induction false} StartStanding(layout: seq<Entry>, flags: seq<bool>, items: Items, at: nat,
                                         retained: set<nat>)
    requires Flat(items) && at + ListSize(items) + 1 < U32_LIMIT && layout == LayoutAt(items, at, None)
    requires |flags| == |layout| && FlagsMatch(flags, items, retained)
    ensures Standing(layout, flags, 0, Some(items), at, at, retained)
  {
    assert layout[0..] == layout && flags[0..] == flags;
  }

  /** `rewrite_derive_attribute`, for elements and a layout read off a well-formed list: nothing to delete when every
      element stays, a rejected retention when none does, and otherwise the structural deletions. */
  method RewriteDeriveAttribute(elements: seq<UseLeaf>, layout: seq<Entry>, retained: set<nat>, ghost items: Items,
                                ghost at: nat)
    returns (r: Result<seq<ByteRange>, RewriteError>)
    requires Flat(items) && at + ListSize(items) + 1 < U32_LIMIT
    requires elements == ItemLeaves(items, at) && layout == LayoutAt(items, at, None)
    ensures (forall id :: id in ItemIds(items) ==> id in retained) ==> r == Ok([])
    ensures ItemIds(items) != [] && (forall id :: id in ItemIds(items) ==> id !in retained) ==>
      r == Err(InvalidRetention)
    ensures
      var some := exists id :: id in ItemIds(items) && id in retained;
      var other := exists id :: id in ItemIds(items) && id !in retained;
      some && other ==> r == Ok(Runs(Some(items), at, None, at, retained))
  {
    hide LayoutAt;
    hide Runs;
    hide Flat;
    hide Standing;
    hide FlagsMatch;
    hide ItemLeaves;
    ItemLeavesNameIds(items, at);
    var kept := CountKept(elements, retained);
    if kept == |elements| {
      return Ok([]);
    }
    if kept == 0 {
      return Err(InvalidRetention);
    }
    FlatIsWellFormed(items);
    ItemLeavesApart(items, at);
    ItemLeavesInside(items, at);
    LayoutElements(items, at, None);
    var byRange := IdsByRange(elements);
    var flags := RetainedLayout(elements, layout, byRange, retained);
    if flags.Err? {
      return Err(InvalidInventory);
    }
    FlagsFromLeaves(flags.value, items, at, retained);
    StartStanding(layout, flags.value, items, at, retained);
    ghost var id :| id in ItemIds(items) && id in retained;
    SomeKept(items, retained, id);
    r := DeleteRuns(layout, flags.value, retained, items, at);
  }
}
