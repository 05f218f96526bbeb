/** Use trees as text: groups, leaves and commas, what pruning one to a set of leaves means, and which
    byte ranges that deletes (src/rewrite.rs, lines 466-626). */
module UseTrees {
  import opened Wrappers
  import opened Text
  import opened Rewrite

  /** One entry of a comma list. `before` and `after` are the surrounding trivia; a group's `before` also holds its
      path prefix. A blank entry is what follows a trailing comma, or the inside of an empty group. */
  datatype Segment =
    | Blank(text: seq<byte>)
    | Leaf(id: nat, before: seq<byte>, path: seq<byte>, after: seq<byte>)
    | Group(before: seq<byte>, items: Items, after: seq<byte>)

  /** A comma list: a last entry, or an entry with a comma and more entries after it. */
  datatype Items = Last(segment: Segment) | Then(segment: Segment, rest: Items)

  const COMMA: byte := 0x2C
  const OPEN: byte := 0x7B
  const CLOSE: byte := 0x7D

  function Render(s: Segment): seq<byte> {
    match s
    case Blank(text) => text
    case Leaf(_, before, path, after) => before + path + after
    case Group(before, items, after) => before + [OPEN] + RenderItems(items) + [CLOSE] + after
  }

  function RenderItems(items: Items): seq<byte> {
    match items
    case Last(s) => Render(s)
    case Then(s, rest) => Render(s) + [COMMA] + RenderItems(rest)
  }

  function Size(s: Segment): (n: nat)
    ensures n == |Render(s)|
  {
    match s
    case Blank(text) => |text|
    case Leaf(_, before, path, after) => |before| + |path| + |after|
    case Group(before, items, after) => |before| + 1 + ListSize(items) + 1 + |after|
  }

  function ListSize(items: Items): (n: nat)
    ensures n == |RenderItems(items)|
  {
    match items
    case Last(s) => Size(s)
    case Then(s, rest) => Size(s) + 1 + ListSize(rest)
  }

  /** Leaves have a path, and only the last entry of a list may be blank. */
  predicate WellFormed(s: Segment) {
    match s
    case Blank(_) => true
    case Leaf(_, _, path, _) => path != []
    case Group(_, items, _) => WellFormedItems(items)
  }

  predicate WellFormedItems(items: Items) {
    match items
    case Last(s) => WellFormed(s)
    case Then(s, rest) => !s.Blank? && WellFormed(s) && WellFormedItems(rest)
  }

  /* ---------- leaves ---------- */

  function Ids(s: Segment): seq<nat> {
    match s
    case Blank(_) => []
    case Leaf(id, _, _, _) => [id]
    case Group(_, items, _) => ItemIds(items)
  }

  function ItemIds(items: Items): seq<nat> {
    match items
    case Last(s) => Ids(s)
    case Then(s, rest) => Ids(s) + ItemIds(rest)
  }

  /** A leaf with the prefixes of the groups around it, outermost first, and its own path. */
  datatype FullPath = FullPath(id: nat, parts: seq<seq<byte>>)

  function Paths(s: Segment, prefix: seq<seq<byte>>): seq<FullPath> {
    match s
    case Blank(_) => []
    case Leaf(id, _, path, _) => [FullPath(id, prefix + [path])]
    case Group(before, items, _) => ItemPaths(items, prefix + [before])
  }

  function ItemPaths(items: Items, prefix: seq<seq<byte>>): seq<FullPath> {
    match items
    case Last(s) => Paths(s, prefix)
    case Then(s, rest) => Paths(s, prefix) + ItemPaths(rest, prefix)
  }

  function Retain(paths: seq<FullPath>, retained: set<nat>): seq<FullPath> {
    if paths == [] then []
    else Retain(paths[..|paths| - 1], retained) + if paths[|paths| - 1].id in retained then [paths[|paths| - 1]] else []
  }

  predicate AllKept(s: Segment, retained: set<nat>) {
    forall id | id in Ids(s) :: id in retained
  }

  predicate NoneKept(s: Segment, retained: set<nat>) {
    forall id | id in Ids(s) :: id !in retained
  }

  /** It has leaves and loses them all. */
  predicate Dropped(s: Segment, retained: set<nat>) {
    Ids(s) != [] && NoneKept(s, retained)
  }

  /** It keeps some of its leaves and loses others. */
  predicate Mixed(s: Segment, retained: set<nat>) {
    !AllKept(s, retained) && !NoneKept(s, retained)
  }

  /* ---------- pruning ---------- */

  function Prune(s: Segment, retained: set<nat>): Segment {
    if Mixed(s, retained) && s.Group? then
      var pruned := PruneItems(s.items, retained);
      Group(s.before, if pruned.Some? then pruned.value else Last(Blank([])), s.after)
    else s
  }

  /** Entries that lose all their leaves go, with one comma each; when the last two entries both go, the comma
      between them is the one that both would take, and the comma before them stays as a trailing one. */
  function PruneItems(items: Items, retained: set<nat>): Option<Items> {
    match items
    case Last(s) => if Dropped(s, retained) then None else Some(Last(Prune(s, retained)))
    case Then(s, rest) =>
      if Dropped(s, retained) then
        if rest.Last? && Dropped(rest.segment, retained) then Some(Last(Blank([]))) else PruneItems(rest, retained)
      else
        match PruneItems(rest, retained)
        case None => Some(Last(Prune(s, retained)))
        case Some(more) => Some(Then(Prune(s, retained), more))
  }

  lemma {:induction false} PruneWellFormed(s: Segment, retained: set<nat>)
    requires WellFormed(s)
    ensures WellFormed(Prune(s, retained)) && (Prune(s, retained).Blank? <==> s.Blank?)
  {
    hide Mixed;
    if s.Group? {
      PruneItemsWellFormed(s.items, retained);
    }
  }

  lemma {:induction false} PruneItemsWellFormed(items: Items, retained: set<nat>)
    requires WellFormedItems(items)
    ensures PruneItems(items, retained).Some? ==> WellFormedItems(PruneItems(items, retained).value)
  {
    hide Dropped;
    PruneWellFormed(items.segment, retained);
    if items.Then? {
      PruneItemsWellFormed(items.rest, retained);
    }
  }

  lemma {:induction false} RetainConcat(a: seq<FullPath>, b: seq<FullPath>, retained: set<nat>)
    ensures Retain(a + b, retained) == Retain(a, retained) + Retain(b, retained)
    decreases |b|
  {
    if b == [] {
      assert a + b == a;
    } else {
      var n := |b| - 1;
      assert (a + b)[..|a + b| - 1] == a + b[..n];
      RetainConcat(a, b[..n], retained);
    }
  }

  function PathIds(paths: seq<FullPath>): (ids: seq<nat>)
    ensures |ids| == |paths| && forall i :: 0 <= i < |paths| ==> ids[i] == paths[i].id
  {
    seq(|paths|, i requires 0 <= i < |paths| => paths[i].id)
  }

  lemma {:induction false} PathsNameIds(s: Segment, prefix: seq<seq<byte>>)
    ensures PathIds(Paths(s, prefix)) == Ids(s)
  {
    if s.Group? {
      ItemPathsNameIds(s.items, prefix + [s.before]);
    }
  }

  lemma {:induction false} ItemPathsNameIds(items: Items, prefix: seq<seq<byte>>)
    ensures PathIds(ItemPaths(items, prefix)) == ItemIds(items)
  {
    PathsNameIds(items.segment, prefix);
    if items.Then? {
      ItemPathsNameIds(items.rest, prefix);
    }
  }

  lemma {:induction false} RetainAll(paths: seq<FullPath>, retained: set<nat>)
    requires forall p :: p in paths ==> p.id in retained
    ensures Retain(paths, retained) == paths
  {
    if paths != [] {
      var init := paths[..|paths| - 1];
      assert forall p :: p in init ==> p in paths;
      assert paths == init + [paths[|paths| - 1]];
      RetainAll(init, retained);
    }
  }

  lemma {:induction false} RetainNone(paths: seq<FullPath>, retained: set<nat>)
    requires forall p :: p in paths ==> p.id !in retained
    ensures Retain(paths, retained) == []
  {
    if paths != [] {
      RetainNone(paths[..|paths| - 1], retained);
    }
  }

  lemma {:induction false} PathKept(s: Segment, prefix: seq<seq<byte>>, p: FullPath)
    requires p in Paths(s, prefix)
    ensures p.id in Ids(s)
  {
    PathsNameIds(s, prefix);
    var i :| 0 <= i < |Paths(s, prefix)| && Paths(s, prefix)[i] == p;
    assert PathIds(Paths(s, prefix))[i] == p.id;
  }

  /** Pruning keeps exactly the retained leaves, in order and with their full paths. */
  lemma {:induction false} PruneKeepsPaths(s: Segment, retained: set<nat>, prefix: seq<seq<byte>>)
    requires !Dropped(s, retained)
    ensures Paths(Prune(s, retained), prefix) == Retain(Paths(s, prefix), retained)
  {
    hide PruneItems;
    if Mixed(s, retained) && s.Group? {
      BlankHasNoPaths(prefix + [s.before]);
      PruneItemsKeepsPaths(s.items, retained, prefix + [s.before]);
    } else {
      forall p | p in Paths(s, prefix)
        ensures p.id in retained
      {
        PathKept(s, prefix, p);
      }
      RetainAll(Paths(s, prefix), retained);
    }
  }

  lemma {:induction false} DroppedPaths(s: Segment, retained: set<nat>, prefix: seq<seq<byte>>)
    requires Dropped(s, retained)
    ensures Retain(Paths(s, prefix), retained) == []
  {
    forall p | p in Paths(s, prefix)
      ensures p.id !in retained
    {
      PathKept(s, prefix, p);
    }
    RetainNone(Paths(s, prefix), retained);
  }

  lemma {:induction false} PruneItemsKeepsPaths(items: Items, retained: set<nat>, prefix: seq<seq<byte>>)
    ensures Retain(ItemPaths(items, prefix), retained) ==
      match PruneItems(items, retained) case None => [] case Some(pruned) => ItemPaths(pruned, prefix)
  {
    hide Dropped;
    hide Prune;
    hide Paths;
    var s := items.segment;
    if Dropped(s, retained) {
      DroppedPaths(s, retained, prefix);
    } else {
      PruneKeepsPaths(s, retained, prefix);
    }
    if items.Then? {
      RetainConcat(Paths(s, prefix), ItemPaths(items.rest, prefix), retained);
      PruneItemsKeepsPaths(items.rest, retained, prefix);
      BlankHasNoPaths(prefix);
    }
  }

  lemma {:induction false} BlankHasNoPaths(prefix: seq<seq<byte>>)
    ensures Paths(Blank([]), prefix) == []
  {
  }

  /* ---------- the deletions, structurally ---------- */

  /** The deletions inside an entry at `at` that keeps some leaves. */
  function InnerDeletions(s: Segment, at: nat, retained: set<nat>): seq<ByteRange>
    requires at + Size(s) < U32_LIMIT
    decreases s, 0
  {
    if Mixed(s, retained) && s.Group? then ItemsDeletions(s.items, at + |s.before| + 1, false, retained) else []
  }

  /** The deletions for one entry: with its following comma, else with its previous one. */
  function EntryDeletions(s: Segment, at: nat, previous: bool, following: bool, retained: set<nat>): seq<ByteRange>
    requires at + Size(s) + 1 < U32_LIMIT && (previous ==> at > 0)
    decreases s, 1
  {
    if Dropped(s, retained) then
      if following then [ByteRange(at, at + Size(s) + 1)]
      else if previous then [ByteRange(at - 1, at + Size(s))]
      else []
    else InnerDeletions(s, at, retained)
  }

  function ItemsDeletions(items: Items, at: nat, previous: bool, retained: set<nat>): seq<ByteRange>
    requires at + ListSize(items) + 1 < U32_LIMIT && (previous ==> at > 0)
    decreases items, 2
  {
    match items
    case Last(s) => EntryDeletions(s, at, previous, false, retained)
    case Then(s, rest) =>
      EntryDeletions(s, at, previous, true, retained) + ItemsDeletions(rest, at + Size(s) + 1, true, retained)
  }

  /** Ranges lie in `[lo, hi]`. */
  predicate Between(ranges: seq<ByteRange>, lo: int, hi: int) {
    forall r | r in ranges :: lo <= r.start <= r.end <= hi
  }

  lemma {:induction false} InnerBetween(s: Segment, at: nat, retained: set<nat>)
    requires at + Size(s) < U32_LIMIT
    ensures Between(InnerDeletions(s, at, retained), at + (if s.Group? then |s.before| + 1 else 0),
                    at + Size(s) - (if s.Group? then |s.after| + 1 else 0))
    decreases s, 0
  {
    hide Mixed;
    if s.Group? {
      ItemsBetween(s.items, at + |s.before| + 1, false, retained);
    }
  }

  lemma {:induction false} EntryBetween(s: Segment, at: nat, previous: bool, following: bool, retained: set<nat>)
    requires at + Size(s) + 1 < U32_LIMIT && (previous ==> at > 0)
    ensures Between(EntryDeletions(s, at, previous, following, retained),
      if Dropped(s, retained) && previous && !following then at - 1 else at, if following then at + Size(s) + 1
      else at + Size(s))
    decreases s, 1
  {
    hide Dropped;
    InnerBetween(s, at, retained);
  }

  lemma {:induction false} ItemsBetween(items: Items, at: nat, previous: bool, retained: set<nat>)
    requires at + ListSize(items) + 1 < U32_LIMIT && (previous ==> at > 0)
    ensures Between(ItemsDeletions(items, at, previous, retained),
      if previous && items.Last? && Dropped(items.segment, retained) then at - 1 else at, at + ListSize(items))
    decreases items, 2
  {
    hide Dropped;
    EntryBetween(items.segment, at, previous, items.Then?, retained);
    if items.Then? {
      ItemsBetween(items.rest, at + Size(items.segment) + 1, true, retained);
    }
  }

  /** Every deletion takes at least a comma. */
  lemma {:induction false} InnerNonEmpty(s: Segment, at: nat, retained: set<nat>)
    requires at + Size(s) < U32_LIMIT
    ensures forall r :: r in InnerDeletions(s, at, retained) ==> r.start < r.end
    decreases s, 0
  {
    hide Mixed;
    if s.Group? {
      ItemsNonEmpty(s.items, at + |s.before| + 1, false, retained);
    }
  }

  lemma {:induction false} ItemsNonEmpty(items: Items, at: nat, previous: bool, retained: set<nat>)
    requires at + ListSize(items) + 1 < U32_LIMIT && (previous ==> at > 0)
    ensures forall r :: r in ItemsDeletions(items, at, previous, retained) ==> r.start < r.end
    decreases items, 2
  {
    hide Dropped;
    InnerNonEmpty(items.segment, at, retained);
    if items.Then? {
      ItemsNonEmpty(items.rest, at + Size(items.segment) + 1, true, retained);
    }
  }

  /* ---------- what the deletions leave ---------- */

  /** The undeleted bytes of `[lo, hi)`. */
  ghost function Remains(text: seq<byte>, deletions: seq<ByteRange>, lo: nat, hi: nat): seq<byte>
    requires lo <= hi <= |text|
  {
    Pick(text, Survivors(deletions, lo, hi))
  }

  lemma {:induction false} RemainsSplit(text: seq<byte>, deletions: seq<ByteRange>, lo: nat, mid: nat, hi: nat)
    requires lo <= mid <= hi <= |text|
    ensures Remains(text, deletions, lo, hi) == Remains(text, deletions, lo, mid) + Remains(text, deletions, mid, hi)
  {
    SurvivorsSplit(deletions, lo, mid, hi);
  }

  ghost predicate KeptIn(deletions: seq<ByteRange>, lo: nat, hi: nat) {
    forall p: nat :: lo <= p < hi ==> !Deleted(deletions, p)
  }

  ghost predicate GoneIn(deletions: seq<ByteRange>, lo: nat, hi: nat) {
    forall p: nat :: lo <= p < hi ==> Deleted(deletions, p)
  }

  lemma {:induction false} RemainsAll(text: seq<byte>, deletions: seq<ByteRange>, lo: nat, hi: nat)
    requires lo <= hi <= |text| && KeptIn(deletions, lo, hi)
    ensures Remains(text, deletions, lo, hi) == text[lo..hi]
  {
    SurvivorsAllKept(deletions, lo, hi);
  }

  lemma {:induction false} RemainsNothing(text: seq<byte>, deletions: seq<ByteRange>, lo: nat, hi: nat)
    requires lo <= hi <= |text| && GoneIn(deletions, lo, hi)
    ensures Remains(text, deletions, lo, hi) == []
  {
    SurvivorsAllDeleted(deletions, lo, hi);
  }

  /** An untouched stretch is copied. */
  lemma {:induction false} CopyStretch(text: seq<byte>, deletions: seq<ByteRange>, lo: nat, mid: nat, hi: nat,
                                       piece: seq<byte>)
    requires lo <= mid <= hi <= |text| && KeptIn(deletions, lo, mid) && text[lo..mid] == piece
    ensures Remains(text, deletions, lo, hi) == piece + Remains(text, deletions, mid, hi)
  {
    hide KeptIn;
    hide Remains;
    RemainsSplit(text, deletions, lo, mid, hi);
    RemainsAll(text, deletions, lo, mid);
  }

  /** A deleted stretch is skipped. */
  lemma {:induction false} SkipStretch(text: seq<byte>, deletions: seq<ByteRange>, lo: nat, mid: nat, hi: nat)
    requires lo <= mid <= hi <= |text| && GoneIn(deletions, lo, mid)
    ensures Remains(text, deletions, lo, hi) == Remains(text, deletions, mid, hi)
  {
    hide GoneIn;
    hide Remains;
    RemainsSplit(text, deletions, lo, mid, hi);
    RemainsNothing(text, deletions, lo, mid);
    assert [] + Remains(text, deletions, mid, hi) == Remains(text, deletions, mid, hi);
  }

  /** Deletions inside `[lo, hi)` leave everything else as it was. */
  lemma {:induction false} RemainsAround(text: seq<byte>, deletions: seq<ByteRange>, lo: nat, hi: nat,
                                         middle: seq<byte>)
    requires lo <= hi <= |text| && Remains(text, deletions, lo, hi) == middle
    requires KeptIn(deletions, 0, lo) && KeptIn(deletions, hi, |text|)
    ensures Remains(text, deletions, 0, |text|) == text[..lo] + middle + text[hi..]
  {
    hide KeptIn;
    hide Remains;
    CopyStretch(text, deletions, 0, lo, |text|, text[..lo]);
    RemainsSplit(text, deletions, lo, hi, |text|);
    RemainsAll(text, deletions, hi, |text|);
    JoinThree(text[..lo], middle, text[hi..]);
  }

  lemma {:induction false} JoinThree(a: seq<byte>, b: seq<byte>, c: seq<byte>)
    ensures a + (b + c) == a + b + c
  {
  }

  /** On `[lo, hi)` the collected deletions do what `own` does. */
  ghost predicate Agrees(deletions: seq<ByteRange>, own: seq<ByteRange>, lo: nat, hi: nat) {
    forall p: nat :: lo <= p < hi ==> (Deleted(deletions, p) <==> Deleted(own, p))
  }

  lemma {:induction false} AgreesWithItself(deletions: seq<ByteRange>, lo: nat, hi: nat)
    ensures Agrees(deletions, deletions, lo, hi)
  {
  }

  lemma {:induction false} DeletedBetween(ranges: seq<ByteRange>, lo: int, hi: int, p: nat)
    requires Between(ranges, lo, hi) && Deleted(ranges, p)
    ensures lo <= p < hi
  {
    var i :| 0 <= i < |ranges| && ranges[i].start <= p < ranges[i].end;
    assert ranges[i] in ranges;
  }

  lemma {:induction false} DeletedConcat(a: seq<ByteRange>, b: seq<ByteRange>, p: nat)
    ensures Deleted(a + b, p) <==> Deleted(a, p) || Deleted(b, p)
  {
    var c := a + b;
    if Deleted(a, p) {
      var i :| 0 <= i < |a| && a[i].start <= p < a[i].end;
      assert c[i].start <= p < c[i].end;
    }
    if Deleted(b, p) {
      var i :| 0 <= i < |b| && b[i].start <= p < b[i].end;
      assert c[|a| + i].start <= p < c[|a| + i].end;
    }
  }

  /** The text holds the rendered entry at `at`. */
  predicate Holds(text: seq<byte>, s: Segment, at: nat) {
    at + Size(s) <= |text| && text[at..at + Size(s)] == Render(s)
  }

  predicate HoldsItems(text: seq<byte>, items: Items, at: nat) {
    at + ListSize(items) <= |text| && text[at..at + ListSize(items)] == RenderItems(items)
  }

  lemma {:induction false} HeldGroup(text: seq<byte>, s: Segment, at: nat)
    requires s.Group? && Holds(text, s, at)
    ensures HoldsItems(text, s.items, at + |s.before| + 1)
    ensures text[at..at + |s.before| + 1] == s.before + [OPEN]
    ensures text[at + |s.before| + 1 + ListSize(s.items)..at + Size(s)] == [CLOSE] + s.after
  {
    hide Render;
    hide RenderItems;
    var head, inner, tail := s.before + [OPEN], RenderItems(s.items), [CLOSE] + s.after;
    RenderedGroup(s);
    Slices(text, at, head, inner, tail);
  }

  lemma {:induction false} RenderedGroup(s: Segment)
    requires s.Group?
    ensures Render(s) == (s.before + [OPEN]) + RenderItems(s.items) + ([CLOSE] + s.after)
  {
    var a, b := s.before + [OPEN], RenderItems(s.items);
    assert Render(s) == a + b + [CLOSE] + s.after;
    assert a + b + [CLOSE] + s.after == a + b + ([CLOSE] + s.after);
  }

  lemma {:induction false} Slices(text: seq<byte>, at: nat, a: seq<byte>, b: seq<byte>, c: seq<byte>)
    requires at + |a| + |b| + |c| <= |text| && text[at..at + |a| + |b| + |c|] == a + b + c
    ensures text[at..at + |a|] == a
    ensures text[at + |a|..at + |a| + |b|] == b
    ensures text[at + |a| + |b|..at + |a| + |b| + |c|] == c
  {
    var whole := text[at..at + |a| + |b| + |c|];
    assert text[at..at + |a|] == whole[..|a|];
    var middle := text[at + |a|..at + |a| + |b|];
    assert forall k :: 0 <= k < |b| ==> middle[k] == whole[|a| + k];
    assert text[at + |a| + |b|..at + |a| + |b| + |c|] == whole[|a| + |b|..];
  }

  lemma {:induction false} HeldItems(text: seq<byte>, items: Items, at: nat)
    requires HoldsItems(text, items, at)
    ensures Holds(text, items.segment, at)
    ensures items.Then? ==>
      && HoldsItems(text, items.rest, at + Size(items.segment) + 1)
      && text[at + Size(items.segment)..at + Size(items.segment) + 1] == [COMMA]
  {
    hide Render;
    if items.Then? {
      Slices(text, at, Render(items.segment), [COMMA], RenderItems(items.rest));
    }
  }

  /** Inside a group that stays only its list is touched. */
  lemma {:induction false} GroupRegions(deletions: seq<ByteRange>, s: Segment, at: nat, retained: set<nat>)
    requires at + Size(s) < U32_LIMIT && s.Group? && Mixed(s, retained)
    requires Agrees(deletions, InnerDeletions(s, at, retained), at, at + Size(s))
    ensures
      var o := at + |s.before| + 1;
      var e := o + ListSize(s.items);
      && KeptIn(deletions, at, o) && KeptIn(deletions, e, at + Size(s))
      && Agrees(deletions, ItemsDeletions(s.items, o, false, retained), o, e)
  {
    hide Mixed;
    hide Deleted;
    hide Between;
    hide ItemsDeletions;
    var o := at + |s.before| + 1;
    var e := o + ListSize(s.items);
    ItemsBetween(s.items, o, false, retained);
    forall p: nat | at <= p < o || e <= p < at + Size(s)
      ensures !Deleted(deletions, p)
    {
      if Deleted(ItemsDeletions(s.items, o, false, retained), p) {
        DeletedBetween(ItemsDeletions(s.items, o, false, retained), o, e, p);
      }
    }
  }

  /** The pieces of a rewritten group are its pruned rendering. */
  lemma {:induction false} GroupPieces(s: Segment, items: Items, inner: seq<byte>, whole: seq<byte>)
    requires s.Group? && inner == RenderItems(items)
    requires whole == (s.before + [OPEN]) + (inner + ([CLOSE] + s.after))
    ensures whole == Render(Group(s.before, items, s.after))
  {
    hide RenderItems;
    hide Render;
    RenderedGroup(Group(s.before, items, s.after));
    JoinThree(s.before + [OPEN], inner, [CLOSE] + s.after);
  }

  /** An entry that stays is left as its pruned rendering. */
  lemma {:induction false} EntryRemains(text: seq<byte>, deletions: seq<ByteRange>, s: Segment, at: nat,
                                        retained: set<nat>)
    requires at + Size(s) < U32_LIMIT && Holds(text, s, at) && !Dropped(s, retained)
    requires Agrees(deletions, InnerDeletions(s, at, retained), at, at + Size(s))
    ensures Remains(text, deletions, at, at + Size(s)) == Render(Prune(s, retained))
    decreases s, 1
  {
    if Mixed(s, retained) && s.Group? {
      GroupRemains(text, deletions, s, at, retained);
    } else {
      forall p: nat | at <= p < at + Size(s)
        ensures !Deleted(deletions, p)
      {
        assert !Deleted([], p);
      }
      RemainsAll(text, deletions, at, at + Size(s));
    }
  }

  lemma {:induction false} GroupRemains(text: seq<byte>, deletions: seq<ByteRange>, s: Segment, at: nat,
                                        retained: set<nat>)
    requires at + Size(s) < U32_LIMIT && Holds(text, s, at) && s.Group? && Mixed(s, retained)
    requires Agrees(deletions, InnerDeletions(s, at, retained), at, at + Size(s))
    ensures Remains(text, deletions, at, at + Size(s)) == Render(Prune(s, retained))
    decreases s, 0
  {
    GroupRegions(deletions, s, at, retained);
    SomeRemain(s, retained);
    LastDropped(s.items, retained);
    hide Mixed;
    hide Dropped;
    hide Agrees;
    hide KeptIn;
    hide Remains;
    hide Render;
    hide RenderItems;
    hide ItemsDeletions;
    hide InnerDeletions;
    hide Holds;
    hide HoldsItems;
    hide PruneItems;
    PrunedGroup(s, retained);
    hide Prune;
    var o := at + |s.before| + 1;
    HeldList(text, s, at);
    ItemsRemain(text, deletions, s.items, o, false, retained);
    AssembleGroup(text, deletions, s, at, PruneItems(s.items, retained).value);
  }

  lemma {:induction false} HeldList(text: seq<byte>, s: Segment, at: nat)
    requires s.Group? && Holds(text, s, at)
    ensures HoldsItems(text, s.items, at + |s.before| + 1)
    ensures at + Size(s) <= |text|
  {
    HeldGroup(text, s, at);
  }

  lemma {:induction false} PrunedGroup(s: Segment, retained: set<nat>)
    requires s.Group? && Mixed(s, retained) && PruneItems(s.items, retained).Some?
    ensures Prune(s, retained) == Group(s.before, PruneItems(s.items, retained).value, s.after)
  {
    hide PruneItems;
  }

  lemma {:induction false} AssembleGroup(text: seq<byte>, deletions: seq<ByteRange>, s: Segment, at: nat,
                                         items: Items)
    requires s.Group? && Holds(text, s, at)
    requires
      var o := at + |s.before| + 1;
      var e := o + ListSize(s.items);
      KeptIn(deletions, at, o) && KeptIn(deletions, e, at + Size(s))
      && Remains(text, deletions, o, e) == RenderItems(items)
    ensures Remains(text, deletions, at, at + Size(s)) == Render(Group(s.before, items, s.after))
  {
    HeldGroup(text, s, at);
    hide Remains;
    hide KeptIn;
    hide Render;
    hide RenderItems;
    hide Holds;
    hide HoldsItems;
    var o := at + |s.before| + 1;
    var e, end := o + ListSize(s.items), at + Size(s);
    var head, tail := s.before + [OPEN], [CLOSE] + s.after;
    CopyStretch(text, deletions, at, o, end, head);
    RemainsSplit(text, deletions, o, e, end);
    RemainsAll(text, deletions, e, end);
    GroupPieces(s, items, Remains(text, deletions, o, e), Remains(text, deletions, at, end));
  }

  lemma {:induction false} SizeOfItems(text: seq<byte>, items: Items, at: nat)
    requires HoldsItems(text, items, at)
    ensures at + ListSize(items) <= |text|
  {
  }

  /** A mixed group does not lose all its entries. */
  lemma {:induction false} SomeRemain(s: Segment, retained: set<nat>)
    requires s.Group? && Mixed(s, retained)
    ensures PruneItems(s.items, retained).Some?
  {
    hide Prune;
    var id :| id in Ids(s) && id in retained;
    KeptLeafStays(s.items, retained, id);
  }

  lemma {:induction false} KeptLeafStays(items: Items, retained: set<nat>, id: nat)
    requires id in ItemIds(items) && id in retained
    ensures PruneItems(items, retained).Some?
  {
    hide Prune;
    assert Dropped(items.segment, retained) ==> id !in Ids(items.segment);
    if items.Then? && id !in Ids(items.segment) {
      KeptLeafStays(items.rest, retained, id);
    }
  }

  /** The list leaves the rendering of its pruned form, and nothing when its only entry goes. */
  lemma {:induction false} ItemsRemain(text: seq<byte>, deletions: seq<ByteRange>, items: Items, at: nat,
                                       previous: bool, retained: set<nat>)
    requires at + ListSize(items) + 1 < U32_LIMIT && (previous ==> at > 0) && HoldsItems(text, items, at)
    requires Agrees(deletions, ItemsDeletions(items, at, previous, retained), at, at + ListSize(items))
    requires items.Last? && Dropped(items.segment, retained) ==> previous
    ensures at + ListSize(items) <= |text|
    ensures Remains(text, deletions, at, at + ListSize(items)) ==
      match PruneItems(items, retained) case None => [] case Some(pruned) => RenderItems(pruned)
    decreases items, 2
  {
    hide Mixed;
    hide Dropped;
    hide Agrees;
    hide KeptIn;
    hide GoneIn;
    hide Remains;
    hide Render;
    hide Prune;
    hide InnerDeletions;
    hide Holds;
    hide HoldsItems;
    SizeOfItems(text, items, at);
    HeldItems(text, items, at);
    var s := items.segment;
    var e, end := at + Size(s), at + ListSize(items);
    if items.Last? {
      if Dropped(s, retained) {
        LastEntryGone(deletions, s, at, retained);
        RemainsNothing(text, deletions, at, e);
      } else {
        EntryRemains(text, deletions, s, at, retained);
      }
    } else {
      SplitAgreement(deletions, items, at, previous, retained);
      ItemsRemain(text, deletions, items.rest, e + 1, true, retained);
      if Dropped(s, retained) {
        SkipStretch(text, deletions, at, e + 1, end);
        BlankRendersNothing();
        LastDropped(items.rest, retained);
      } else {
        EntryRemains(text, deletions, s, at, retained);
        RemainsSplit(text, deletions, at, e, end);
        if items.rest.Last? && Dropped(items.rest.segment, retained) {
          SkipStretch(text, deletions, e, e + 1, end);
          LastDropped(items.rest, retained);
          NothingAfter(Render(Prune(s, retained)));
        } else {
          CopyStretch(text, deletions, e, e + 1, end, [COMMA]);
          RestRemains(items.rest, retained);
          JoinThree(Render(Prune(s, retained)), [COMMA], RenderItems(PruneItems(items.rest, retained).value));
        }
      }
    }
  }

  lemma {:induction false} NothingAfter(a: seq<byte>)
    ensures a + [] == a
  {
  }

  lemma {:induction false} LastEntryGone(deletions: seq<ByteRange>, s: Segment, at: nat, retained: set<nat>)
    requires at + Size(s) + 1 < U32_LIMIT && at > 0 && Dropped(s, retained)
    requires Agrees(deletions, ItemsDeletions(Last(s), at, true, retained), at, at + Size(s))
    ensures GoneIn(deletions, at, at + Size(s))
  {
    hide Deleted;
    hide Dropped;
    forall p: nat | at <= p < at + Size(s)
      ensures Deleted(deletions, p)
    {
      DeletedByOne(ByteRange(at - 1, at + Size(s)), p);
    }
  }

  lemma {:induction false} BlankRendersNothing()
    ensures Render(Blank([])) == []
  {
  }

  lemma {:induction false} LastDropped(items: Items, retained: set<nat>)
    ensures items.Last? && Dropped(items.segment, retained) ==> PruneItems(items, retained).None?
  {
  }

  lemma {:induction false} DeletedByOne(range: ByteRange, p: nat)
    requires range.start <= p < range.end
    ensures Deleted([range], p)
  {
    assert [range][0].start <= p < [range][0].end;
  }

  /** Only a lone dropped entry leaves nothing. */
  lemma {:induction false} RestRemains(items: Items, retained: set<nat>)
    requires !(items.Last? && Dropped(items.segment, retained))
    ensures PruneItems(items, retained).Some?
  {
    hide Prune;
    hide Dropped;
    if items.Then? && !(items.rest.Last? && Dropped(items.rest.segment, retained)) {
      RestRemains(items.rest, retained);
    }
  }

  /** What an entry, its comma and the rest of the list each lose. */
  lemma {:induction false} SplitAgreement(deletions: seq<ByteRange>, items: Items, at: nat, previous: bool,
                                          retained: set<nat>)
    requires items.Then? && at + ListSize(items) + 1 < U32_LIMIT && (previous ==> at > 0)
    requires Agrees(deletions, ItemsDeletions(items, at, previous, retained), at, at + ListSize(items))
    ensures
      var s, e := items.segment, at + Size(items.segment);
      && (Dropped(s, retained) ==> GoneIn(deletions, at, e + 1))
      && (!Dropped(s, retained) ==> Agrees(deletions, InnerDeletions(s, at, retained), at, e))
      && (items.rest.Last? && Dropped(items.rest.segment, retained) ==> GoneIn(deletions, e, e + 1))
      && (!Dropped(s, retained) && !(items.rest.Last? && Dropped(items.rest.segment, retained)) ==>
            KeptIn(deletions, e, e + 1))
      && Agrees(deletions, ItemsDeletions(items.rest, e + 1, true, retained), e + 1, at + ListSize(items))
  {
    hide Mixed;
    hide Dropped;
    hide Deleted;
    hide InnerDeletions;
    hide Between;
    var s, e := items.segment, at + Size(items.segment);
    var own, later :=
      EntryDeletions(s, at, previous, true, retained), ItemsDeletions(items.rest, e + 1, true, retained);
    EntryBetween(s, at, previous, true, retained);
    ItemsBetween(items.rest, e + 1, true, retained);
    InnerBetween(s, at, retained);
    var from := if items.rest.Last? && Dropped(items.rest.segment, retained) then e else e + 1;
    forall p: nat | at <= p < at + ListSize(items)
      ensures Deleted(deletions, p) <==> Deleted(own, p) || Deleted(later, p)
      ensures Deleted(later, p) ==> p >= from
      ensures Deleted(own, p) ==> p < e + 1
      ensures Dropped(s, retained) && p < e + 1 ==> Deleted(own, p)
      ensures !Dropped(s, retained) && Deleted(own, p) ==> p < e
    {
      DeletedConcat(own, later, p);
      if Deleted(later, p) { DeletedBetween(later, from, e + 1 + ListSize(items.rest), p); }
      if Deleted(own, p) { DeletedBetween(own, at, e + 1, p); }
      if Dropped(s, retained) && p < e + 1 { DeletedByOne(ByteRange(at, e + 1), p); }
      if !Dropped(s, retained) && Deleted(own, p) { InnerWithin(s, at, retained, p); }
    }
    if items.rest.Last? && Dropped(items.rest.segment, retained) {
      DeletedByOne(ByteRange(e, e + 1 + Size(items.rest.segment)), e);
    }
  }

  lemma {:induction false} InnerWithin(s: Segment, at: nat, retained: set<nat>, p: nat)
    requires at + Size(s) < U32_LIMIT && Deleted(InnerDeletions(s, at, retained), p)
    ensures at <= p < at + Size(s)
  {
    hide InnerDeletions;
    InnerBetween(s, at, retained);
    DeletedBetween(InnerDeletions(s, at, retained),
      at + (if s.Group? then |s.before| + 1 else 0), at + Size(s) - (if s.Group? then |s.after| + 1 else 0), p);
  }
}
