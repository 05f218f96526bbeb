/** Rewriting one use item: the smallest brace around the leaves, then its comma list, recursively
    (src/rewrite.rs, lines 466-626). */
module UseRewrite {
  import opened Wrappers
  import opened Text
  import opened Ordering
  import opened Rewrite
  import opened UseTrees

  datatype UseLeaf = UseLeaf(id: nat, range: ByteRange)

  /** A matched pair of braces, by the positions of the two characters. */
  datatype BracePair = BracePair(open: nat, close: nat)

  datatype ListSegment = ListSegment(range: ByteRange, previousComma: Option<ByteRange>,
                                     followingComma: Option<ByteRange>)

  /* ---------- the smallest enclosing brace ---------- */

  predicate Holding(pair: BracePair, ranges: seq<ByteRange>, within: Option<ByteRange>) {
    && (within.Some? ==> within.value.start <= pair.open + 1 && pair.close <= within.value.end)
    && forall r | r in ranges :: pair.open + 1 <= r.start && r.end <= pair.close
  }

  /** Smaller inside first, then by position. */
  predicate Smaller(a: BracePair, b: BracePair) {
    || a.close - a.open < b.close - b.open
    || (a.close - a.open == b.close - b.open && (a.open < b.open || (a.open == b.open && a.close <= b.close)))
  }

  /** `enclosing_brace`. */
  function EnclosingBrace(pairs: seq<BracePair>, ranges: seq<ByteRange>, within: Option<ByteRange>): Option<BracePair> {
    if pairs == [] then None
    else
      var n := |pairs| - 1;
      var before := EnclosingBrace(pairs[..n], ranges, within);
      if !Holding(pairs[n], ranges, within) then before
      else if before.None? || !Smaller(before.value, pairs[n]) then Some(pairs[n])
      else before
  }

  /** It is the smallest of the pairs that hold all ranges. */
  lemma {:induction false} EnclosingIsSmallest(pairs: seq<BracePair>, ranges: seq<ByteRange>,
                                               within: Option<ByteRange>)
    ensures
      var r := EnclosingBrace(pairs, ranges, within);
      && (r.Some? ==> r.value in pairs && Holding(r.value, ranges, within))
      && (forall p :: p in pairs && Holding(p, ranges, within) ==> r.Some? && Smaller(r.value, p))
  {
    hide Holding;
    if pairs != [] {
      var n := |pairs| - 1;
      assert pairs == pairs[..n] + [pairs[n]];
      EnclosingIsSmallest(pairs[..n], ranges, within);
    }
  }

  /* ---------- positions in a tree ---------- */

  function RangeOf(s: Segment, at: nat): ByteRange
    requires at + Size(s) < U32_LIMIT
  {
    ByteRange(at, at + Size(s))
  }

  function Leaves(s: Segment, at: nat): seq<UseLeaf>
    requires at + Size(s) < U32_LIMIT
  {
    match s
    case Blank(_) => []
    case Leaf(id, before, path, _) => [UseLeaf(id, ByteRange(at + |before|, at + |before| + |path|))]
    case Group(before, items, _) => ItemLeaves(items, at + |before| + 1)
  }

  function ItemLeaves(items: Items, at: nat): seq<UseLeaf>
    requires at + ListSize(items) < U32_LIMIT
  {
    match items
    case Last(s) => Leaves(s, at)
    case Then(s, rest) => Leaves(s, at) + ItemLeaves(rest, at + Size(s) + 1)
  }

  function PairOf(s: Segment, at: nat): BracePair
    requires s.Group?
  {
    BracePair(at + |s.before|, at + |s.before| + 1 + ListSize(s.items))
  }

  function Pairs(s: Segment, at: nat): set<BracePair> {
    match s
    case Blank(_) => {}
    case Leaf(_, _, _, _) => {}
    case Group(before, items, _) => {PairOf(s, at)} + ItemPairs(items, at + |before| + 1)
  }

  function ItemPairs(items: Items, at: nat): set<BracePair> {
    match items
    case Last(s) => Pairs(s, at)
    case Then(s, rest) => Pairs(s, at) + ItemPairs(rest, at + Size(s) + 1)
  }

  /** What `comma_list_segments` reads off a list. */
  function SegmentsAt(items: Items, at: nat, previous: Option<ByteRange>): (r: seq<ListSegment>)
    requires at + ListSize(items) + 1 < U32_LIMIT
    ensures r != []
  {
    match items
    case Last(s) => [ListSegment(RangeOf(s, at), previous, None)]
    case Then(s, rest) =>
      var comma := ByteRange(at + Size(s), at + Size(s) + 1);
      [ListSegment(RangeOf(s, at), previous, Some(comma))] + SegmentsAt(rest, at + Size(s) + 1, Some(comma))
  }

  /** Every group's pair is known with its segments. */
  predicate LaidOut(layout: map<BracePair, seq<ListSegment>>, s: Segment, at: nat)
    requires at + Size(s) + 1 < U32_LIMIT
  {
    s.Group? ==>
      && PairOf(s, at) in layout
      && layout[PairOf(s, at)] == SegmentsAt(s.items, at + |s.before| + 1, None)
      && ItemsLaidOut(layout, s.items, at + |s.before| + 1)
  }

  predicate ItemsLaidOut(layout: map<BracePair, seq<ListSegment>>, items: Items, at: nat)
    requires at + ListSize(items) + 1 < U32_LIMIT
  {
    && LaidOut(layout, items.segment, at)
    && (items.Then? ==> ItemsLaidOut(layout, items.rest, at + Size(items.segment) + 1))
  }

  function LeafIds(leaves: seq<UseLeaf>): (ids: seq<nat>)
    ensures |ids| == |leaves| && forall i :: 0 <= i < |ids| ==> ids[i] == leaves[i].id
  {
    seq(|leaves|, i requires 0 <= i < |leaves| => leaves[i].id)
  }

  lemma {:induction false} LeavesNameIds(s: Segment, at: nat)
    requires at + Size(s) < U32_LIMIT
    ensures LeafIds(Leaves(s, at)) == Ids(s)
  {
    if s.Group? {
      ItemLeavesNameIds(s.items, at + |s.before| + 1);
    }
  }

  lemma {:induction false} ItemLeavesNameIds(items: Items, at: nat)
    requires at + ListSize(items) < U32_LIMIT
    ensures LeafIds(ItemLeaves(items, at)) == ItemIds(items)
  {
    LeavesNameIds(items.segment, at);
    if items.Then? {
      ItemLeavesNameIds(items.rest, at + Size(items.segment) + 1);
    }
  }

  predicate LeavesBetween(leaves: seq<UseLeaf>, lo: int, hi: int) {
    forall l | l in leaves :: lo <= l.range.start < l.range.end <= hi
  }

  lemma {:induction false} LeavesInside(s: Segment, at: nat)
    requires at + Size(s) < U32_LIMIT && WellFormed(s)
    ensures LeavesBetween(Leaves(s, at), at, at + Size(s))
    ensures s.Group? ==> LeavesBetween(Leaves(s, at), PairOf(s, at).open + 1, PairOf(s, at).close)
  {
    if s.Group? {
      ItemLeavesInside(s.items, at + |s.before| + 1);
    }
  }

  lemma {:induction false} ItemLeavesInside(items: Items, at: nat)
    requires at + ListSize(items) < U32_LIMIT && WellFormedItems(items)
    ensures LeavesBetween(ItemLeaves(items, at), at, at + ListSize(items))
  {
    LeavesInside(items.segment, at);
    if items.Then? {
      ItemLeavesInside(items.rest, at + Size(items.segment) + 1);
    }
  }

  predicate PairsBetween(pairs: set<BracePair>, lo: int, hi: int) {
    forall p | p in pairs :: lo <= p.open < p.close < hi
  }

  lemma {:induction false} PairsInside(s: Segment, at: nat)
    ensures PairsBetween(Pairs(s, at), at, at + Size(s))
  {
    if s.Group? {
      ItemPairsInside(s.items, at + |s.before| + 1);
    }
  }

  lemma {:induction false} ItemPairsInside(items: Items, at: nat)
    ensures PairsBetween(ItemPairs(items, at), at, at + ListSize(items))
  {
    PairsInside(items.segment, at);
    if items.Then? {
      ItemPairsInside(items.rest, at + Size(items.segment) + 1);
    }
  }

  /** The known pairs: those of the entry, and others that lie around it or beside it. */
  ghost predicate Inside(pairs: seq<BracePair>, s: Segment, at: nat) {
    && (forall p :: p in Pairs(s, at) ==> p in pairs)
    && (forall p :: p in pairs ==> p in Pairs(s, at) || Around(p, at, at + Size(s)) || Beside(p, at, at + Size(s)))
  }

  ghost predicate InsideItems(pairs: seq<BracePair>, items: Items, at: nat) {
    && (forall p :: p in ItemPairs(items, at) ==> p in pairs)
    && (forall p :: p in pairs ==>
          p in ItemPairs(items, at) || Around(p, at, at + ListSize(items)) || Beside(p, at, at + ListSize(items)))
  }

  predicate Around(p: BracePair, lo: nat, hi: nat) { p.open + 1 <= lo && hi <= p.close }

  predicate Beside(p: BracePair, lo: nat, hi: nat) { p.close <= lo || hi <= p.open + 1 }

  lemma {:induction false} InsideGroup(pairs: seq<BracePair>, s: Segment, at: nat)
    requires s.Group? && Inside(pairs, s, at)
    ensures InsideItems(pairs, s.items, at + |s.before| + 1)
  {
  }

  lemma {:induction false} InsideEntry(pairs: seq<BracePair>, items: Items, at: nat)
    requires InsideItems(pairs, items, at)
    ensures Inside(pairs, items.segment, at)
    ensures items.Then? ==> InsideItems(pairs, items.rest, at + Size(items.segment) + 1)
  {
    PairsInside(items.segment, at);
    if items.Then? {
      ItemPairsInside(items.rest, at + Size(items.segment) + 1);
    }
  }

  /* ---------- the group the leaves share ---------- */

  /** The group entry that holds every leaf of the list, if one does. */
  ghost function SoleHolder(items: Items, at: nat): (h: Option<(Segment, nat)>)
    ensures h.Some? ==> h.value.0.Group? && Size(h.value.0) <= ListSize(items)
  {
    match items
    case Last(s) => if s.Group? && Ids(s) != [] then Some((s, at)) else None
    case Then(s, rest) =>
      if Ids(s) != [] then if ItemIds(rest) == [] && s.Group? then Some((s, at)) else None
      else SoleHolder(rest, at + Size(s) + 1)
  }

  /** The innermost group that holds every leaf of `s`. */
  ghost function Focus(s: Segment, at: nat): (f: (Segment, nat))
    requires s.Group?
    ensures f.0.Group? && Size(f.0) <= Size(s)
    decreases Size(s)
  {
    match SoleHolder(s.items, at + |s.before| + 1)
    case None => (s, at)
    case Some(h) => Focus(h.0, h.1)
  }

  /** Everything the recursion needs to know about an entry. */
  ghost predicate Ready(pairs: seq<BracePair>, layout: map<BracePair, seq<ListSegment>>, s: Segment, at: nat) {
    at + Size(s) + 1 < U32_LIMIT && WellFormed(s) && Inside(pairs, s, at) && LaidOut(layout, s, at)
  }

  ghost predicate ReadyItems(pairs: seq<BracePair>, layout: map<BracePair, seq<ListSegment>>, items: Items, at: nat) {
    at + ListSize(items) + 1 < U32_LIMIT && WellFormedItems(items) && InsideItems(pairs, items, at)
    && ItemsLaidOut(layout, items, at)
  }

  lemma {:induction false} ReadyGroup(pairs: seq<BracePair>, layout: map<BracePair, seq<ListSegment>>, s: Segment,
                                      at: nat)
    requires s.Group? && Ready(pairs, layout, s, at)
    ensures ReadyItems(pairs, layout, s.items, at + |s.before| + 1)
  {
    InsideGroup(pairs, s, at);
  }

  lemma {:induction false} ReadyEntry(pairs: seq<BracePair>, layout: map<BracePair, seq<ListSegment>>, items: Items,
                                      at: nat)
    requires ReadyItems(pairs, layout, items, at)
    ensures Ready(pairs, layout, items.segment, at)
    ensures items.Then? ==> ReadyItems(pairs, layout, items.rest, at + Size(items.segment) + 1)
  {
    InsideEntry(pairs, items, at);
  }

  lemma {:induction false} NoIdsNoDeletions(s: Segment, at: nat, previous: bool, following: bool, retained: set<nat>)
    requires at + Size(s) + 1 < U32_LIMIT && (previous ==> at > 0) && Ids(s) == []
    ensures EntryDeletions(s, at, previous, following, retained) == []
  {
  }

  lemma {:induction false} NoItemIdsNoDeletions(items: Items, at: nat, previous: bool, retained: set<nat>)
    requires at + ListSize(items) + 1 < U32_LIMIT && (previous ==> at > 0) && ItemIds(items) == []
    ensures ItemsDeletions(items, at, previous, retained) == []
  {
    hide EntryDeletions;
    NoIdsNoDeletions(items.segment, at, previous, items.Then?, retained);
    if items.Then? {
      NoItemIdsNoDeletions(items.rest, at + Size(items.segment) + 1, true, retained);
    }
  }

  lemma {:induction false} NoIdsNoLeaves(s: Segment, at: nat)
    requires at + Size(s) < U32_LIMIT && Ids(s) == []
    ensures Leaves(s, at) == []
  {
    LeavesNameIds(s, at);
    assert |LeafIds(Leaves(s, at))| == 0;
  }

  lemma {:induction false} NoItemIdsNoLeaves(items: Items, at: nat)
    requires at + ListSize(items) < U32_LIMIT && ItemIds(items) == []
    ensures ItemLeaves(items, at) == []
  {
    ItemLeavesNameIds(items, at);
    assert |LeafIds(ItemLeaves(items, at))| == 0;
  }

  /** The holder has all the leaves and all the deletions of the list. */
  lemma {:induction false} HolderStandsFor(pairs: seq<BracePair>, layout: map<BracePair, seq<ListSegment>>,
                                           items: Items, at: nat, previous: bool, retained: set<nat>,
                                           h: (Segment, nat))
    requires ReadyItems(pairs, layout, items, at) && SoleHolder(items, at) == Some(h) && (previous ==> at > 0)
    ensures Ready(pairs, layout, h.0, h.1)
    ensures at <= h.1 && h.1 + Size(h.0) <= at + ListSize(items)
    ensures Ids(h.0) == ItemIds(items)
    ensures Leaves(h.0, h.1) == ItemLeaves(items, at)
    ensures Mixed(h.0, retained) ==> ItemsDeletions(items, at, previous, retained) == InnerDeletions(h.0, h.1, retained)
    decreases items
  {
    hide Ready;
    hide ReadyItems;
    hide Mixed;
    hide InnerDeletions;
    hide Leaves;
    ReadyEntry(pairs, layout, items, at);
    ReadySizes(pairs, layout, items, at);
    var s := items.segment;
    MixedNotDropped(s, retained);
    if items.Then? {
      var next := at + Size(s) + 1;
      if Ids(s) != [] {
        NoItemIdsNoLeaves(items.rest, next);
        NoItemIdsNoDeletions(items.rest, next, true, retained);
      } else {
        NoIdsNoLeaves(s, at);
        NoIdsNoDeletions(s, at, previous, true, retained);
        HolderStandsFor(pairs, layout, items.rest, next, true, retained, h);
      }
    }
  }

  lemma {:induction false} ReadySizes(pairs: seq<BracePair>, layout: map<BracePair, seq<ListSegment>>, items: Items,
                                      at: nat)
    requires ReadyItems(pairs, layout, items, at)
    ensures at + ListSize(items) + 1 < U32_LIMIT
  {
  }

  lemma {:induction false} MixedNotDropped(s: Segment, retained: set<nat>)
    ensures Mixed(s, retained) ==> !Dropped(s, retained)
  {
  }

  lemma {:induction false} MixedTransfers(a: Segment, b: Segment, retained: set<nat>)
    requires Ids(a) == Ids(b)
    ensures Mixed(a, retained) <==> Mixed(b, retained)
  {
  }

  /** The focus has all the leaves and all the deletions of the entry. */
  lemma {:induction false} FocusStandsFor(pairs: seq<BracePair>, layout: map<BracePair, seq<ListSegment>>, s: Segment,
                                          at: nat, retained: set<nat>)
    requires s.Group? && Ready(pairs, layout, s, at)
    ensures
      var f := Focus(s, at);
      && Ready(pairs, layout, f.0, f.1)
      && at <= f.1 && f.1 + Size(f.0) <= at + Size(s)
      && Ids(f.0) == Ids(s)
      && Leaves(f.0, f.1) == Leaves(s, at)
      && (Mixed(s, retained) ==> InnerDeletions(s, at, retained) == InnerDeletions(f.0, f.1, retained))
      && PairOf(f.0, f.1) in Pairs(s, at)
    decreases Size(s)
  {
    hide Ready;
    hide ReadyItems;
    hide Mixed;
    hide ItemsDeletions;
    var o := at + |s.before| + 1;
    ReadyGroup(pairs, layout, s, at);
    ReadySizes(pairs, layout, s.items, o);
    match SoleHolder(s.items, o)
    case None =>
    case Some(h) =>
      HolderStandsFor(pairs, layout, s.items, o, false, retained, h);
      FocusStandsFor(pairs, layout, h.0, h.1, retained);
      HolderPairs(s.items, o, h);
      MixedTransfers(s, h.0, retained);
  }

  lemma {:induction false} HolderPairs(items: Items, at: nat, h: (Segment, nat))
    requires SoleHolder(items, at) == Some(h)
    ensures Pairs(h.0, h.1) <= ItemPairs(items, at)
    decreases items
  {
    if items.Then? && Ids(items.segment) == [] {
      HolderPairs(items.rest, at + Size(items.segment) + 1, h);
    }
  }

  predicate HoldsAll(p: BracePair, leaves: seq<UseLeaf>) {
    forall l | l in leaves :: p.open + 1 <= l.range.start && l.range.end <= p.close
  }

  /** A pair inside the list that holds every leaf lies inside the sole holder. */
  lemma {:induction false} HoldingPairInHolder(items: Items, at: nat, p: BracePair)
    requires at + ListSize(items) < U32_LIMIT && WellFormedItems(items) && ItemIds(items) != []
    requires p in ItemPairs(items, at) && HoldsAll(p, ItemLeaves(items, at))
    ensures SoleHolder(items, at).Some?
    ensures p in Pairs(SoleHolder(items, at).value.0, SoleHolder(items, at).value.1)
    decreases items
  {
    hide Pairs;
    hide Leaves;
    hide HoldsAll;
    hide LeavesBetween;
    hide PairsBetween;
    var s := items.segment;
    PairsInside(s, at);
    LeavesInside(s, at);
    if items.Last? {
      PairedIsGroup(s, at, p);
    } else {
      PairedIsGroup(s, at, p);
      var next := at + Size(s) + 1;
      ItemPairsInside(items.rest, next);
      ItemLeavesInside(items.rest, next);
      LeavesNameIds(s, at);
      ItemLeavesNameIds(items.rest, next);
      if p in Pairs(s, at) {
        PairPlace(Pairs(s, at), at, at + Size(s), p);
        LeavesSpread(ItemLeaves(items.rest, next), next, next + ListSize(items.rest));
        if ItemLeaves(items.rest, next) != [] {
          MissesLater(p, Leaves(s, at), ItemLeaves(items.rest, next), at + Size(s));
        }
      } else {
        PairPlace(ItemPairs(items.rest, next), next, next + ListSize(items.rest), p);
        LeavesSpread(Leaves(s, at), at, at + Size(s));
        HoldsLater(p, Leaves(s, at), ItemLeaves(items.rest, next));
        if Leaves(s, at) != [] {
          MissesEarlier(p, Leaves(s, at), ItemLeaves(items.rest, next), next);
        }
        assert Ids(s) == [];
        HoldingPairInHolder(items.rest, next, p);
      }
    }
  }

  lemma {:induction false} PairedIsGroup(s: Segment, at: nat, p: BracePair)
    ensures p in Pairs(s, at) ==> s.Group?
  {
  }

  lemma {:induction false} HoldsLater(p: BracePair, here: seq<UseLeaf>, later: seq<UseLeaf>)
    requires HoldsAll(p, here + later)
    ensures HoldsAll(p, later)
  {
    assert forall l :: l in later ==> l in here + later;
  }

  /** Bounds may be widened. */
  lemma {:induction false} LeavesSpread(leaves: seq<UseLeaf>, lo: nat, hi: nat)
    requires LeavesBetween(leaves, lo, hi) && hi <= U32_LIMIT
    ensures LeavesBetween(leaves, lo, U32_LIMIT) && LeavesBetween(leaves, 0, hi + 1)
  {
  }

  lemma {:induction false} PairPlace(pairs: set<BracePair>, lo: int, hi: int, p: BracePair)
    requires PairsBetween(pairs, lo, hi) && p in pairs
    ensures lo <= p.open < p.close < hi
  {
  }

  lemma {:induction false} MissesLater(p: BracePair, here: seq<UseLeaf>, later: seq<UseLeaf>, end: nat)
    requires p.close < end && LeavesBetween(later, end + 1, U32_LIMIT) && later != []
    ensures !HoldsAll(p, here + later)
  {
    assert later[0] in later;
    assert (here + later)[|here|] == later[0];
  }

  lemma {:induction false} MissesEarlier(p: BracePair, here: seq<UseLeaf>, later: seq<UseLeaf>, start: nat)
    requires start <= p.open && LeavesBetween(here, 0, start) && here != []
    ensures !HoldsAll(p, here + later)
  {
    assert here[0] in here;
    assert (here + later)[0] == here[0];
  }

  /** No pair inside the entry that holds every leaf is smaller than the focus. */
  lemma {:induction false} FocusSmallest(s: Segment, at: nat, p: BracePair)
    requires s.Group? && at + Size(s) < U32_LIMIT && WellFormed(s) && Ids(s) != []
    requires p in Pairs(s, at) && HoldsAll(p, Leaves(s, at))
    ensures Smaller(PairOf(Focus(s, at).0, Focus(s, at).1), p)
    decreases Size(s)
  {
    var o := at + |s.before| + 1;
    FocusWithin(s, at);
    if p != PairOf(s, at) {
      HoldingPairInHolder(s.items, o, p);
      var h := SoleHolder(s.items, o).value;
      HolderFits(s.items, o, h);
      FocusSmallest(h.0, h.1, p);
    }
  }

  lemma {:induction false} HolderFits(items: Items, at: nat, h: (Segment, nat))
    requires at + ListSize(items) < U32_LIMIT && WellFormedItems(items) && SoleHolder(items, at) == Some(h)
    ensures at <= h.1 && h.1 + Size(h.0) <= at + ListSize(items) && WellFormed(h.0)
    ensures Ids(h.0) == ItemIds(items) && Leaves(h.0, h.1) == ItemLeaves(items, at)
    decreases items
  {
    var s := items.segment;
    if items.Then? {
      var next := at + Size(s) + 1;
      if Ids(s) != [] {
        NoItemIdsNoLeaves(items.rest, next);
      } else {
        NoIdsNoLeaves(s, at);
        HolderFits(items.rest, next, h);
      }
    }
  }

  /** The focus lies within the braces of the entry, or is the entry. */
  lemma {:induction false} FocusWithin(s: Segment, at: nat)
    requires s.Group? && at + Size(s) < U32_LIMIT && WellFormed(s)
    ensures
      var f := Focus(s, at);
      f == (s, at) || (PairOf(s, at).open + 1 <= f.1 && f.1 + Size(f.0) <= PairOf(s, at).close)
    decreases Size(s)
  {
    var o := at + |s.before| + 1;
    match SoleHolder(s.items, o)
    case None =>
    case Some(h) =>
      HolderFits(s.items, o, h);
      FocusWithin(h.0, h.1);
  }

  function LeafRanges(leaves: seq<UseLeaf>): (ranges: seq<ByteRange>)
    ensures |ranges| == |leaves| && forall i :: 0 <= i < |ranges| ==> ranges[i] == leaves[i].range
  {
    seq(|leaves|, i requires 0 <= i < |leaves| => leaves[i].range)
  }

  lemma {:induction false} HoldingMeans(p: BracePair, leaves: seq<UseLeaf>, within: Option<ByteRange>)
    ensures Holding(p, LeafRanges(leaves), within) <==>
      HoldsAll(p, leaves) && (within.Some? ==> within.value.start <= p.open + 1 && p.close <= within.value.end)
  {
    var ranges := LeafRanges(leaves);
    if Holding(p, ranges, within) {
      forall l | l in leaves
        ensures p.open + 1 <= l.range.start && l.range.end <= p.close
      {
        var i :| 0 <= i < |leaves| && leaves[i] == l;
        assert ranges[i] in ranges;
      }
    }
    if HoldsAll(p, leaves) {
      forall r | r in ranges
        ensures p.open + 1 <= r.start && r.end <= p.close
      {
        var i :| 0 <= i < |ranges| && ranges[i] == r;
        assert leaves[i] in leaves;
      }
    }
  }

  /** The search finds the focus, whatever other pairs lie around or beside the entry. */
  lemma {:induction false} EnclosingFindsFocus(pairs: seq<BracePair>, layout: map<BracePair, seq<ListSegment>>,
                                               s: Segment, at: nat, within: Option<ByteRange>)
    requires s.Group? && Ready(pairs, layout, s, at) && Ids(s) != []
    requires within.Some? ==> within.value == RangeOf(s, at)
    ensures EnclosingBrace(pairs, LeafRanges(Leaves(s, at)), within) == Some(PairOf(Focus(s, at).0, Focus(s, at).1))
  {
    hide LaidOut;
    hide ItemsLaidOut;
    hide EnclosingBrace;
    hide LeafRanges;
    var leaves, f := Leaves(s, at), Focus(s, at);
    var pair := PairOf(f.0, f.1);
    FocusStandsFor(pairs, layout, s, at, {});
    LeavesInside(f.0, f.1);
    EnclosingIsSmallest(pairs, LeafRanges(leaves), within);
    HoldingMeans(pair, leaves, within);
    var found := EnclosingBrace(pairs, LeafRanges(leaves), within);
    assert Holding(pair, LeafRanges(leaves), within) && pair in pairs;
    HoldingMeans(found.value, leaves, within);
    LargerAround(pairs, s, at, found.value);
  }

  lemma {:induction false} LargerAround(pairs: seq<BracePair>, s: Segment, at: nat, p: BracePair)
    requires s.Group? && at + Size(s) < U32_LIMIT && WellFormed(s) && Ids(s) != []
    requires Inside(pairs, s, at) && p in pairs && HoldsAll(p, Leaves(s, at))
    ensures Smaller(PairOf(Focus(s, at).0, Focus(s, at).1), p)
  {
    LeavesInside(s, at);
    LeavesNameIds(s, at);
    FocusWithin(s, at);
    if p in Pairs(s, at) {
      FocusSmallest(s, at, p);
    } else {
      assert Leaves(s, at)[0] in Leaves(s, at);
      assert Around(p, at, at + Size(s));
    }
  }

  /* ---------- the list walk ---------- */

  function Within(leaves: seq<UseLeaf>, range: ByteRange): seq<UseLeaf> {
    if leaves == [] then []
    else
      var n := |leaves| - 1;
      Within(leaves[..n], range) + if range.Contains(leaves[n].range) then [leaves[n]] else []
  }

  lemma {:induction false} WithinConcat(a: seq<UseLeaf>, b: seq<UseLeaf>, range: ByteRange)
    ensures Within(a + b, range) == Within(a, range) + Within(b, range)
    decreases |b|
  {
    if b == [] {
      assert a + b == a;
    } else {
      var n := |b| - 1;
      assert (a + b)[..|a + b| - 1] == a + b[..n];
      WithinConcat(a, b[..n], range);
    }
  }

  lemma {:induction false} WithinAll(leaves: seq<UseLeaf>, range: ByteRange)
    requires LeavesBetween(leaves, range.start, range.end)
    ensures Within(leaves, range) == leaves
  {
    if leaves != [] {
      var n := |leaves| - 1;
      assert leaves == leaves[..n] + [leaves[n]];
      WithinAll(leaves[..n], range);
    }
  }

  lemma {:induction false} WithinNone(leaves: seq<UseLeaf>, range: ByteRange)
    requires forall l :: l in leaves ==> !range.Contains(l.range)
    ensures Within(leaves, range) == []
  {
    if leaves != [] {
      var n := |leaves| - 1;
      assert leaves == leaves[..n] + [leaves[n]];
      WithinNone(leaves[..n], range);
    }
  }

  /** Filtering by a segment's range picks the leaves of its entry. */
  lemma {:induction false} SegmentLeaves(before: seq<UseLeaf>, here: seq<UseLeaf>, later: seq<UseLeaf>,
                                         range: ByteRange)
    requires LeavesBetween(before, 0, range.start) && LeavesBetween(here, range.start, range.end)
    requires LeavesBetween(later, range.end, U32_LIMIT)
    ensures Within(before + here + later, range) == here
  {
    hide Within;
    WithinConcat(before + here, later, range);
    WithinConcat(before, here, range);
    WithinAll(here, range);
    WithinNone(before, range);
    WithinNone(later, range);
  }

  function CountKept(leaves: seq<UseLeaf>, retained: set<nat>): (n: nat)
    ensures n <= |leaves|
    ensures n == |leaves| <==> forall id :: id in LeafIds(leaves) ==> id in retained
    ensures n == 0 <==> forall id :: id in LeafIds(leaves) ==> id !in retained
  {
    if leaves == [] then 0
    else
      var n := |leaves| - 1;
      assert LeafIds(leaves) == LeafIds(leaves[..n]) + [leaves[n].id];
      CountKept(leaves[..n], retained) + if leaves[n].id in retained then 1 else 0
  }

  /** `assigned.insert` for every leaf of a segment. */
  method Assign(taken: set<nat>, leaves: seq<UseLeaf>) returns (ok: bool, taken': set<nat>)
    ensures ok <==> Distinct(LeafIds(leaves)) && forall id :: id in LeafIds(leaves) ==> id !in taken
    ensures ok ==> taken' == taken + Elements(LeafIds(leaves))
  {
    taken' := taken;
    for i := 0 to |leaves|
      invariant Distinct(LeafIds(leaves)[..i])
      invariant forall k :: 0 <= k < i ==> leaves[k].id !in taken
      invariant taken' == taken + Elements(LeafIds(leaves)[..i])
    {
      var id := leaves[i].id;
      ghost var seen := LeafIds(leaves)[..i];
      assert LeafIds(leaves)[..i + 1] == seen + [id];
      if id in taken' {
        if id in seen {
          assert id !in taken ==> !Distinct(LeafIds(leaves)) by {
            var k :| 0 <= k < i && seen[k] == id;
            assert LeafIds(leaves)[k] == LeafIds(leaves)[i];
          }
        }
        assert LeafIds(leaves)[i] in LeafIds(leaves);
        return false, taken';
      }
      taken' := taken' + {id};
    }
    assert LeafIds(leaves)[..|leaves|] == LeafIds(leaves);
    ok := true;
  }

  /** One segment of the list: nothing, a deletion with a comma, or the group below it. */
  method RewriteSegment(pairs: seq<BracePair>, layout: map<BracePair, seq<ListSegment>>, pair: BracePair,
                        segment: ListSegment, leaves: seq<UseLeaf>, retained: set<nat>, deletions: seq<ByteRange>,
                        ghost s: Segment, ghost at: nat)
    returns (r: Result<seq<ByteRange>, RewriteError>)
    requires Ready(pairs, layout, s, at) && leaves == Leaves(s, at) && leaves != [] && Distinct(LeafIds(leaves))
    requires segment.range == RangeOf(s, at) && pair.open < at
    requires segment.previousComma.Some? ==> at > 0 && segment.previousComma.value == ByteRange(at - 1, at)
    requires segment.followingComma.Some? ==> segment.followingComma.value == ByteRange(at + Size(s), at + Size(s) + 1)
    requires Dropped(s, retained) ==> segment.previousComma.Some? || segment.followingComma.Some?
    ensures r
      == Ok(deletions + EntryDeletions(s, at, segment.previousComma.Some?, segment.followingComma.Some?, retained))
    decreases Size(s), 1
  {
    var kept := CountKept(leaves, retained);
    LeavesNameIds(s, at);
    if kept == |leaves| {
      assert AllKept(s, retained) && !Dropped(s, retained) by { assert Ids(s)[0] in Ids(s); }
      assert deletions + [] == deletions;
      return Ok(deletions);
    }
    if kept == 0 {
      assert Dropped(s, retained);
      var deletion;
      if segment.followingComma.Some? {
        deletion := ByteRange(segment.range.start, segment.followingComma.value.end);
      } else if segment.previousComma.Some? {
        deletion := ByteRange(segment.previousComma.value.start, segment.range.end);
      } else {
        return Err(InvalidUseTree);
      }
      if deletion.start == deletion.end {
        return Err(InvalidUseTree);
      }
      return Ok(deletions + [deletion]);
    }
    assert Mixed(s, retained);
    MixedIsGroup(s, retained);
    var child := EnclosingBrace(pairs, LeafRanges(leaves), Some(segment.range));
    EnclosingFindsFocus(pairs, layout, s, at, Some(segment.range));
    FocusStandsFor(pairs, layout, s, at, retained);
    MixedTransfers(s, Focus(s, at).0, retained);
    if child.None? || child.value == pair {
      return Err(InvalidUseTree);
    }
    r := RewriteGroup(pairs, layout, child.value, leaves, retained, deletions, Focus(s, at).0, Focus(s, at).1);
  }

  lemma {:induction false} MixedIsGroup(s: Segment, retained: set<nat>)
    requires Mixed(s, retained)
    ensures s.Group? && Ids(s) != [] && !Dropped(s, retained)
  {
  }

  /** A mixed list can only lose an entry beside another one. */
  lemma {:induction false} LoneEntryStays(items: Items, retained: set<nat>)
    requires (exists id :: id in ItemIds(items) && id in retained)
    ensures items.Last? ==> !Dropped(items.segment, retained)
  {
  }

  lemma {:induction false} MixedHasKept(s: Segment, retained: set<nat>)
    requires s.Group? && Mixed(s, retained)
    ensures exists id :: id in ItemIds(s.items) && id in retained
  {
    assert Ids(s) == ItemIds(s.items);
    var id :| id in Ids(s) && id in retained;
  }

  /** The ghost position of the list walk: what is left of the list and where it starts. */
  datatype Walk = Walk(rest: Option<Items>, at: nat, previous: bool, done: seq<UseLeaf>)

  ghost predicate Walking(pairs: seq<BracePair>, layout: map<BracePair, seq<ListSegment>>, segments: seq<ListSegment>,
                          i: nat, leaves: seq<UseLeaf>, w: Walk)
  {
    && i <= |segments|
    && (w.previous ==> w.at > 0)
    && LeavesBetween(w.done, 0, w.at)
    && match w.rest
       case None => i == |segments| && leaves == w.done
       case Some(rest) =>
         && ReadyItems(pairs, layout, rest, w.at)
         && segments[i..] == SegmentsAt(rest, w.at, if w.previous then Some(ByteRange(w.at - 1, w.at)) else None)
         && leaves == w.done + ItemLeaves(rest, w.at)
  }

  ghost function Left(w: Walk, retained: set<nat>): seq<ByteRange>
    requires w.rest.Some? ==> w.at + ListSize(w.rest.value) + 1 < U32_LIMIT && (w.previous ==> w.at > 0)
  {
    match w.rest
    case None => []
    case Some(rest) => ItemsDeletions(rest, w.at, w.previous, retained)
  }

  ghost function Advance(w: Walk): Walk
    requires w.rest.Some? && w.at + ListSize(w.rest.value) < U32_LIMIT
  {
    var s := w.rest.value.segment;
    Walk(if w.rest.value.Then? then Some(w.rest.value.rest) else None, w.at + Size(s) + 1, true,
         w.done + Leaves(s, w.at))
  }

  /** What the walk knows about the segment at hand. */
  lemma {:induction false} AtSegment(pairs: seq<BracePair>, layout: map<BracePair, seq<ListSegment>>,
                                     segments: seq<ListSegment>, i: nat, leaves: seq<UseLeaf>, w: Walk,
                                     retained: set<nat>)
    requires Walking(pairs, layout, segments, i, leaves, w) && i < |segments|
    ensures w.rest.Some? && ReadyItems(pairs, layout, w.rest.value, w.at)
    ensures
      var s := w.rest.value.segment;
      && Ready(pairs, layout, s, w.at)
      && segments[i].range == RangeOf(s, w.at)
      && segments[i].previousComma == (if w.previous then Some(ByteRange(w.at - 1, w.at)) else None)
      && segments[i].followingComma
        == (if w.rest.value.Then? then Some(ByteRange(w.at + Size(s), w.at + Size(s) + 1)) else None)
      && Within(leaves, segments[i].range) == Leaves(s, w.at)
      && Left(w, retained)
        == EntryDeletions(s, w.at, w.previous, w.rest.value.Then?, retained) + Left(Advance(w), retained)
  {
    hide EntryDeletions;
    hide Within;
    hide Leaves;
    hide LeavesBetween;
    hide Render;
    hide WellFormed;
    hide Ready;
    hide Inside;
    hide InsideItems;
    hide LaidOut;
    hide ItemsLaidOut;
    var items := w.rest.value;
    var s := items.segment;
    assert segments[i] == segments[i..][0];
    ReadyEntry(pairs, layout, items, w.at);
    LeavesInside(s, w.at);
    var later := if items.Then? then ItemLeaves(items.rest, w.at + Size(s) + 1) else [];
    if items.Then? { ItemLeavesInside(items.rest, w.at + Size(s) + 1); }
    Widened(later, w.at + Size(s) + 1, w.at + ListSize(items), w.at + Size(s), U32_LIMIT);
    assert leaves == w.done + Leaves(s, w.at) + later;
    SegmentLeaves(w.done, Leaves(s, w.at), later, segments[i].range);
    assert items.Last? ==> Left(Advance(w), retained) == [];
  }

  lemma {:induction false} Widened(leaves: seq<UseLeaf>, lo: nat, hi: nat, lo': nat, hi': nat)
    requires lo' <= lo && hi <= hi' && (leaves == [] || LeavesBetween(leaves, lo, hi))
    ensures LeavesBetween(leaves, lo', hi')
  {
  }

  lemma {:induction false} NextSegment(pairs: seq<BracePair>, layout: map<BracePair, seq<ListSegment>>,
                                       segments: seq<ListSegment>, i: nat, leaves: seq<UseLeaf>, w: Walk)
    requires Walking(pairs, layout, segments, i, leaves, w) && i < |segments| && w.rest.Some?
    ensures Walking(pairs, layout, segments, i + 1, leaves, Advance(w))
  {
    hide Inside;
    hide InsideItems;
    hide LaidOut;
    hide ItemsLaidOut;
    hide Leaves;
    hide ItemLeaves;
    var items := w.rest.value;
    var s := items.segment;
    ReadyEntry(pairs, layout, items, w.at);
    LeavesInside(s, w.at);
    StepLeaves(items, w.at, w.done);
    assert segments[i + 1..] == segments[i..][1..];
  }

  lemma {:induction false} StepLeaves(items: Items, at: nat, done: seq<UseLeaf>)
    requires at + ListSize(items) < U32_LIMIT
    ensures items.Last? ==> done + ItemLeaves(items, at) == done + Leaves(items.segment, at)
    ensures items.Then? ==>
      done + ItemLeaves(items, at)
        == (done + Leaves(items.segment, at)) + ItemLeaves(items.rest, at + Size(items.segment) + 1)
  {
  }

  lemma {:induction false} LeafIdsConcat(a: seq<UseLeaf>, b: seq<UseLeaf>)
    ensures LeafIds(a + b) == LeafIds(a) + LeafIds(b)
  {
  }

  lemma {:induction false} FreshIds(done: seq<UseLeaf>, here: seq<UseLeaf>, later: seq<UseLeaf>, leaves: seq<UseLeaf>)
    requires leaves == done + here + later && Distinct(LeafIds(leaves))
    ensures Distinct(LeafIds(here)) && forall id :: id in LeafIds(here) ==> id !in Elements(LeafIds(done))
    ensures Elements(LeafIds(done + here)) == Elements(LeafIds(done)) + Elements(LeafIds(here))
  {
    LeafIdsConcat(done, here);
    LeafIdsConcat(done + here, later);
    var ids := LeafIds(leaves);
    assert ids == LeafIds(done) + LeafIds(here) + LeafIds(later);
    forall i, j | 0 <= i < j < |here|
      ensures LeafIds(here)[i] != LeafIds(here)[j]
    {
      assert ids[|done| + i] != ids[|done| + j];
    }
    forall id | id in LeafIds(here)
      ensures id !in Elements(LeafIds(done))
    {
      var j :| 0 <= j < |here| && LeafIds(here)[j] == id;
      forall i | 0 <= i < |done|
        ensures LeafIds(done)[i] != id
      {
        assert ids[i] != ids[|done| + j];
      }
    }
  }

  lemma {:induction false} StepIds(pairs: seq<BracePair>, layout: map<BracePair, seq<ListSegment>>,
                                   segments: seq<ListSegment>, i: nat, leaves: seq<UseLeaf>, w: Walk)
    requires Walking(pairs, layout, segments, i, leaves, w) && i < |segments| && w.rest.Some?
    requires Distinct(LeafIds(leaves))
    ensures
      var here := Leaves(w.rest.value.segment, w.at);
      && Distinct(LeafIds(here))
      && (forall id :: id in LeafIds(here) ==> id !in Elements(LeafIds(w.done)))
      && Elements(LeafIds(Advance(w).done)) == Elements(LeafIds(w.done)) + Elements(LeafIds(here))
  {
    hide Distinct;
    hide Inside;
    hide InsideItems;
    hide LaidOut;
    hide ItemsLaidOut;
    hide Leaves;
    var items := w.rest.value;
    var here := Leaves(items.segment, w.at);
    StepLeaves(items, w.at, w.done);
    if items.Last? {
      assert w.done + here == w.done + here + [];
      FreshIds(w.done, here, [], leaves);
    } else {
      FreshIds(w.done, here, ItemLeaves(items.rest, w.at + Size(items.segment) + 1), leaves);
    }
  }

  /** The invariant of the walk: what is found so far and what is left add up to the whole. */
  ghost predicate OnTrack(w: Walk, pair: BracePair, s: Segment, found: seq<ByteRange>, taken: set<nat>,
                          retained: set<nat>, whole: seq<ByteRange>) {
    && (w.rest.Some? ==>
          && w.at + ListSize(w.rest.value) + 1 < U32_LIMIT && (w.previous ==> w.at > 0)
          && ListSize(w.rest.value) < Size(s) && w.at > pair.open
          && (w.rest.value.Last? && Dropped(w.rest.value.segment, retained) ==> w.previous))
    && found + Left(w, retained) == whole
    && taken == Elements(LeafIds(w.done))
  }

  /** One turn of the loop. */
  method WalkSegment(pairs: seq<BracePair>, layout: map<BracePair, seq<ListSegment>>, pair: BracePair,
                     segments: seq<ListSegment>, i: nat, leaves: seq<UseLeaf>, retained: set<nat>,
                     found: seq<ByteRange>, taken: set<nat>, ghost s: Segment, ghost w: Walk,
                     ghost whole: seq<ByteRange>)
    returns (r: Result<(seq<ByteRange>, set<nat>), RewriteError>)
    requires i < |segments| && w.rest.Some? && Distinct(LeafIds(leaves))
    requires Walking(pairs, layout, segments, i, leaves, w) && OnTrack(w, pair, s, found, taken, retained, whole)
    ensures r.Ok? && OnTrack(Advance(w), pair, s, r.value.0, r.value.1, retained, whole)
    decreases Size(s), 0, 0
  {
    hide Ready;
    hide Dropped;
    hide EntryDeletions;
    hide Walking;
    hide Distinct;
    hide LaidOut;
    hide Leaves;
    hide ItemLeaves;
    hide Within;
    AtSegment(pairs, layout, segments, i, leaves, w, retained);
    StepIds(pairs, layout, segments, i, leaves, w);
    var here := Within(leaves, segments[i].range);
    ghost var entry := w.rest.value.segment;
    ghost var own := EntryDeletions(entry, w.at, w.previous, w.rest.value.Then?, retained);
    Regrouped(found, own, Left(Advance(w), retained));
    if here == [] {
      LeaflessEntry(entry, w.at, w.previous, w.rest.value.Then?, retained);
      return Ok((found, taken));
    }
    var ok, grown := Assign(taken, here);
    if !ok {
      return Err(InvalidUseTree);
    }
    EitherComma(w, retained);
    var step := RewriteSegment(pairs, layout, pair, segments[i], here, retained, found, entry, w.at);
    if step.Err? {
      return Err(InvalidUseTree);
    }
    r := Ok((step.value, grown));
  }

  lemma {:induction false} EitherComma(w: Walk, retained: set<nat>)
    requires w.rest.Some? && (w.rest.value.Last? && Dropped(w.rest.value.segment, retained) ==> w.previous)
    ensures Dropped(w.rest.value.segment, retained) ==> w.previous || w.rest.value.Then?
  {
  }

  /** `rewrite_group`: on a well-formed tree it never fails, and adds exactly the structural deletions. */
  method RewriteGroup(pairs: seq<BracePair>, layout: map<BracePair, seq<ListSegment>>, pair: BracePair,
                      leaves: seq<UseLeaf>, retained: set<nat>, deletions: seq<ByteRange>,
                      ghost s: Segment, ghost at: nat)
    returns (r: Result<seq<ByteRange>, RewriteError>)
    requires s.Group? && Ready(pairs, layout, s, at) && pair == PairOf(s, at)
    requires leaves == Leaves(s, at) && Distinct(LeafIds(leaves)) && Mixed(s, retained)
    ensures r == Ok(deletions + InnerDeletions(s, at, retained))
    decreases Size(s), 0, 1
  {
    hide *;
    ghost var w := Walk(Some(s.items), at + |s.before| + 1, false, []);
    StartWalking(pairs, layout, leaves, s, at);
    var segments := layout[pair];
    ghost var whole := StartOnTrack(w, pair, s, at, deletions, retained);
    var found := deletions;
    var taken: set<nat> := {};
    for i := 0 to |segments|
      invariant Walking(pairs, layout, segments, i, leaves, w)
      invariant OnTrack(w, pair, s, found, taken, retained, whole)
    {
      StillWalking(pairs, layout, segments, i, leaves, w);
      NextSegment(pairs, layout, segments, i, leaves, w);
      var step := WalkSegment(pairs, layout, pair, segments, i, leaves, retained, found, taken, s, w, whole);
      if step.Err? {
        return Err(InvalidUseTree);
      }
      found, taken := step.value.0, step.value.1;
      w := Advance(w);
    }
    WalkedThrough(pairs, layout, segments, leaves, w, pair, s, found, taken, retained, whole);
    if |taken| != |leaves| {
      return Err(InvalidUseTree);
    }
    r := Ok(found);
  }

  lemma {:induction false} StartOnTrack(w: Walk, pair: BracePair, s: Segment, at: nat, deletions: seq<ByteRange>,
                                        retained: set<nat>) returns (whole: seq<ByteRange>)
    requires s.Group? && Mixed(s, retained) && at + Size(s) + 1 < U32_LIMIT && pair == PairOf(s, at)
    requires w == Walk(Some(s.items), at + |s.before| + 1, false, [])
    ensures whole == deletions + InnerDeletions(s, at, retained)
    ensures OnTrack(w, pair, s, deletions, {}, retained, whole)
  {
    whole := deletions + InnerDeletions(s, at, retained);
    MixedHasKept(s, retained);
    LoneEntryStays(s.items, retained);
  }

  lemma {:induction false} StillWalking(pairs: seq<BracePair>, layout: map<BracePair, seq<ListSegment>>,
                                        segments: seq<ListSegment>, i: nat, leaves: seq<UseLeaf>, w: Walk)
    requires Walking(pairs, layout, segments, i, leaves, w) && i < |segments|
    ensures w.rest.Some? && w.at + ListSize(w.rest.value) < U32_LIMIT
  {
  }

  lemma {:induction false} Regrouped(a: seq<ByteRange>, b: seq<ByteRange>, c: seq<ByteRange>)
    ensures a + (b + c) == (a + b) + c
    ensures a + [] == a
  {
  }

  lemma {:induction false} WalkedThrough(pairs: seq<BracePair>, layout: map<BracePair, seq<ListSegment>>,
                                         segments: seq<ListSegment>, leaves: seq<UseLeaf>, w: Walk, pair: BracePair,
                                         s: Segment, found: seq<ByteRange>, taken: set<nat>, retained: set<nat>,
                                         whole: seq<ByteRange>)
    requires Walking(pairs, layout, segments, |segments|, leaves, w)
    requires OnTrack(w, pair, s, found, taken, retained, whole)
    requires Distinct(LeafIds(leaves))
    ensures found == whole && |taken| == |leaves|
  {
    assert segments[|segments|..] == [];
    assert w.rest.None?;
    assert found + [] == found;
    DistinctSize(LeafIds(leaves));
  }

  lemma {:induction false} StartWalking(pairs: seq<BracePair>, layout: map<BracePair, seq<ListSegment>>,
                                        leaves: seq<UseLeaf>, s: Segment, at: nat)
    requires s.Group? && Ready(pairs, layout, s, at) && leaves == Leaves(s, at)
    ensures PairOf(s, at) in layout
    ensures Walking(pairs, layout, layout[PairOf(s, at)], 0, leaves,
                    Walk(Some(s.items), at + |s.before| + 1, false, []))
    ensures at + Size(s) + 1 < U32_LIMIT
  {
    ReadyGroup(pairs, layout, s, at);
    hide Inside;
    hide InsideItems;
    var segments := layout[PairOf(s, at)];
    assert segments[0..] == segments;
    assert [] + leaves == leaves;
  }

  lemma {:induction false} LeaflessEntry(s: Segment, at: nat, previous: bool, following: bool, retained: set<nat>)
    requires at + Size(s) + 1 < U32_LIMIT && (previous ==> at > 0) && Leaves(s, at) == []
    ensures EntryDeletions(s, at, previous, following, retained) == []
    ensures LeafIds(Leaves(s, at)) == [] && Elements(LeafIds(Leaves(s, at))) == {}
    ensures Ids(s) == []
  {
    LeavesNameIds(s, at);
    NoIdsNoDeletions(s, at, previous, following, retained);
  }

  /* ---------- a whole use item ---------- */

  /** By range; the leaves of one item never share a range. */
  predicate LeafLe(a: UseLeaf, b: UseLeaf) {
    || (a.range != b.range && RangeLe(a.range, b.range))
    || (a.range == b.range && a.id <= b.id)
  }

  lemma {:induction false} LeafOrder()
    ensures TotalOrder(LeafLe)
  {
  }

  /** Leaves come apart and in order. */
  predicate Apart(leaves: seq<UseLeaf>) {
    forall i, j :: 0 <= i < j < |leaves| ==> leaves[i].range.end <= leaves[j].range.start
  }

  lemma {:induction false} LeavesApart(s: Segment, at: nat)
    requires at + Size(s) < U32_LIMIT && WellFormed(s)
    ensures Apart(Leaves(s, at))
  {
    if s.Group? {
      ItemLeavesApart(s.items, at + |s.before| + 1);
    }
  }

  lemma {:induction false} ItemLeavesApart(items: Items, at: nat)
    requires at + ListSize(items) < U32_LIMIT && WellFormedItems(items)
    ensures Apart(ItemLeaves(items, at))
  {
    LeavesApart(items.segment, at);
    if items.Then? {
      var next := at + Size(items.segment) + 1;
      ItemLeavesApart(items.rest, next);
      LeavesInside(items.segment, at);
      ItemLeavesInside(items.rest, next);
      JoinApart(Leaves(items.segment, at), ItemLeaves(items.rest, next), next);
    }
  }

  lemma {:induction false} JoinApart(a: seq<UseLeaf>, b: seq<UseLeaf>, mid: nat)
    requires Apart(a) && Apart(b) && LeavesBetween(a, 0, mid) && LeavesBetween(b, mid, U32_LIMIT)
    ensures Apart(a + b)
  {
    var c := a + b;
    forall i, j | 0 <= i < j < |c|
      ensures c[i].range.end <= c[j].range.start
    {
      if i < |a| <= j {
        assert a[i] in a && b[j - |a|] in b;
      }
    }
  }

  /** However the inventory lists the leaves, sorting them gives the order of the tree. */
  lemma {:induction false} SortedLeaves(leaves: seq<UseLeaf>, s: Segment, at: nat)
    requires at + Size(s) < U32_LIMIT && WellFormed(s) && multiset(leaves) == multiset(Leaves(s, at))
    ensures SortBy(leaves, LeafLe) == Leaves(s, at) && Apart(Leaves(s, at))
  {
    var tree := Leaves(s, at);
    LeafOrder();
    SortSorts(leaves, LeafLe);
    LeavesApart(s, at);
    LeavesInside(s, at);
    forall i, j | 0 <= i < j < |tree|
      ensures LeafLe(tree[i], tree[j])
    {
      assert tree[i] in tree && tree[j] in tree;
    }
    SortedUnique(SortBy(leaves, LeafLe), tree, LeafLe);
  }

  method CheckApart(leaves: seq<UseLeaf>) returns (apart: bool)
    requires forall l :: l in leaves ==> l.range.start < l.range.end
    ensures apart <==> Apart(leaves)
  {
    for i := 0 to |leaves|
      invariant forall j, k :: 0 <= j < k < i ==> leaves[j].range.end <= leaves[k].range.start
    {
      if i > 0 && leaves[i - 1].range.end > leaves[i].range.start {
        return false;
      }
      if i > 0 { assert leaves[i - 1] in leaves; }
    }
    apart := true;
  }

  /** `rewrite_use_item` on a well-formed tree, for any retained set: nothing to delete when every leaf stays,
      a rejected retention when none does, and otherwise the structural deletions. */
  method RewriteUseItem(units: seq<UseLeaf>, pairs: seq<BracePair>, layout: map<BracePair, seq<ListSegment>>,
                        retained: set<nat>, ghost s: Segment, ghost at: nat)
    returns (r: Result<seq<ByteRange>, RewriteError>)
    requires Ready(pairs, layout, s, at)
    requires multiset(units) == multiset(Leaves(s, at)) && Distinct(Ids(s))
    ensures AllKept(s, retained) ==> r == Ok([])
    ensures Dropped(s, retained) ==> r == Err(InvalidRetention)
    ensures Mixed(s, retained) ==> r == Ok(InnerDeletions(s, at, retained))
  {
    var leaves := SortBy(units, LeafLe);
    SortedLeaves(units, s, at);
    LeavesNameIds(s, at);
    LeavesInside(s, at);
    var apart := CheckApart(leaves);
    if !apart {
      return Err(InvalidUseTree);
    }
    if leaves == [] {
      return Ok([]);
    }
    assert leaves[0].id == Ids(s)[0];
    var kept := CountKept(leaves, retained);
    if kept == |leaves| {
      return Ok([]);
    }
    if kept == 0 {
      return Err(InvalidRetention);
    }
    MixedIsGroup(s, retained);
    var pair := EnclosingBrace(pairs, LeafRanges(leaves), None);
    EnclosingFindsFocus(pairs, layout, s, at, None);
    if pair.None? {
      return Err(InvalidUseTree);
    }
    FocusStandsFor(pairs, layout, s, at, retained);
    MixedTransfers(s, Focus(s, at).0, retained);
    r := RewriteGroup(pairs, layout, pair.value, leaves, retained, [], Focus(s, at).0, Focus(s, at).1);
    Regrouped([], [], InnerDeletions(s, at, retained));
    assert [] + InnerDeletions(s, at, retained) == InnerDeletions(s, at, retained);
  }

  /** What those deletions do to the file: outside the tree every byte stays; the tree becomes its pruned form, which
      is well formed and has exactly the retained leaves, in order, with their full paths. */
  lemma {:induction false} UseItemPruned(source: seq<byte>, s: Segment, at: nat, retained: set<nat>,
                                         prefix: seq<seq<byte>>)
    requires |source| < U32_LIMIT && at + Size(s) < U32_LIMIT && WellFormed(s) && Holds(source, s, at)
    requires Mixed(s, retained)
    ensures Remains(source, InnerDeletions(s, at, retained), 0, |source|)
      == source[..at] + Render(Prune(s, retained)) + source[at + Size(s)..]
    ensures WellFormed(Prune(s, retained))
    ensures Paths(Prune(s, retained), prefix) == Retain(Paths(s, prefix), retained)
    ensures forall d :: d in InnerDeletions(s, at, retained) ==> at <= d.start < d.end <= at + Size(s)
  {
    MixedIsGroup(s, retained);
    hide Mixed;
    hide Dropped;
    hide InnerDeletions;
    hide Prune;
    hide Render;
    hide Remains;
    hide KeptIn;
    hide Agrees;
    hide Holds;
    HeldSize(source, s, at);
    var deletions := InnerDeletions(s, at, retained);
    TreeBounds(s, at, retained, |source|);
    AgreesWithItself(deletions, at, at + Size(s));
    EntryRemains(source, deletions, s, at, retained);
    RemainsAround(source, deletions, at, at + Size(s), Render(Prune(s, retained)));
    PruneWellFormed(s, retained);
    PruneKeepsPaths(s, retained, prefix);
  }

  /* ---------- what becomes of a single leaf ---------- */

  /** A retained leaf keeps all of its bytes, a lost one loses them all. */
  ghost predicate LeafSettled(deletions: seq<ByteRange>, leaf: UseLeaf, retained: set<nat>) {
    if leaf.id in retained then KeptIn(deletions, leaf.range.start, leaf.range.end)
    else GoneIn(deletions, leaf.range.start, leaf.range.end)
  }

  lemma {:induction false} LeafListed(s: Segment, at: nat, leaf: UseLeaf)
    requires at + Size(s) < U32_LIMIT && WellFormed(s) && leaf in Leaves(s, at)
    ensures leaf.id in Ids(s) && at <= leaf.range.start < leaf.range.end <= at + Size(s)
  {
    LeavesNameIds(s, at);
    LeavesInside(s, at);
    var k :| 0 <= k < |Leaves(s, at)| && Leaves(s, at)[k] == leaf;
    assert Ids(s)[k] == leaf.id;
  }

  /** In an entry that stays. */
  lemma {:induction false} LeafFate(deletions: seq<ByteRange>, s: Segment, at: nat, retained: set<nat>, leaf: UseLeaf)
    requires at + Size(s) < U32_LIMIT && WellFormed(s) && !Dropped(s, retained) && leaf in Leaves(s, at)
    requires Agrees(deletions, InnerDeletions(s, at, retained), at, at + Size(s))
    ensures LeafSettled(deletions, leaf, retained)
    decreases s, 0
  {
    LeafListed(s, at, leaf);
    if s.Group? && Mixed(s, retained) {
      GroupRegions(deletions, s, at, retained);
      SomeRemain(s, retained);
      LastDropped(s.items, retained);
      ItemsFate(deletions, s.items, at + |s.before| + 1, false, retained, leaf);
    } else if s.Group? {
      assert forall p: nat :: at <= p < at + Size(s) ==> !Deleted(deletions, p);
    }
  }

  /** In a comma list. */
  lemma {:induction false} ItemsFate(deletions: seq<ByteRange>, items: Items, at: nat, previous: bool,
                                     retained: set<nat>, leaf: UseLeaf)
    requires at + ListSize(items) + 1 < U32_LIMIT && (previous ==> at > 0) && WellFormedItems(items)
    requires leaf in ItemLeaves(items, at)
    requires Agrees(deletions, ItemsDeletions(items, at, previous, retained), at, at + ListSize(items))
    requires items.Last? && Dropped(items.segment, retained) ==> previous
    ensures LeafSettled(deletions, leaf, retained)
    decreases items, 1
  {
    hide Agrees;
    hide Mixed;
    hide InnerDeletions;
    var s, e := items.segment, at + Size(items.segment);
    if items.Then? {
      SplitAgreement(deletions, items, at, previous, retained);
    }
    if leaf in Leaves(s, at) {
      LeafListed(s, at, leaf);
      if !Dropped(s, retained) {
        LeafFate(deletions, s, at, retained, leaf);
      } else if items.Last? {
        LastEntryGone(deletions, s, at, retained);
      }
    } else {
      hide Dropped;
      hide ItemsDeletions;
      ItemsFate(deletions, items.rest, e + 1, true, retained, leaf);
    }
  }

  lemma {:induction false} HeldSize(source: seq<byte>, s: Segment, at: nat)
    requires Holds(source, s, at)
    ensures at + Size(s) <= |source|
  {
  }

  lemma {:induction false} TreeBounds(s: Segment, at: nat, retained: set<nat>, n: nat)
    requires at + Size(s) < U32_LIMIT
    ensures KeptIn(InnerDeletions(s, at, retained), 0, at) && KeptIn(InnerDeletions(s, at, retained), at + Size(s), n)
    ensures forall d :: d in InnerDeletions(s, at, retained) ==> at <= d.start < d.end <= at + Size(s)
  {
    hide InnerDeletions;
    hide Deleted;
    var deletions := InnerDeletions(s, at, retained);
    InnerBetween(s, at, retained);
    InnerNonEmpty(s, at, retained);
    forall p: nat | Deleted(deletions, p)
      ensures at <= p < at + Size(s)
    {
      InnerWithin(s, at, retained, p);
    }
  }
}
