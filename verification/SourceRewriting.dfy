/** The whole rewrite: lost units, use items and derive lists of one inventory together
    (src/rewrite.rs, lines 149-189). */
module SourceRewriting {
  import opened Wrappers
  import opened Text
  import opened Ordering
  import GraphKeys
  import opened Rewrite
  import opened Coordinates
  import opened UseTrees
  import opened UseRewrite
  import opened DeriveLists
  import opened Retention

  /** A comma-separated list in the source: the tree of a use item, or the elements of a derive attribute. */
  datatype ListSite = UseSite(unit: nat, tree: Segment, at: nat) | DeriveSite(unit: nat, items: Items, at: nat) {

    function End(): nat {
      if UseSite? then at + Size(tree) else at + ListSize(items)
    }

    predicate Formed() {
      && End() + 1 < U32_LIMIT
      && if UseSite? then WellFormed(tree) && Distinct(Ids(tree)) else Flat(items)
    }

    predicate Held(source: seq<byte>) {
      if UseSite? then Holds(source, tree, at) else HoldsItems(source, items, at)
    }

    function Entries(): seq<UseLeaf>
      requires Formed()
    {
      if UseSite? then Leaves(tree, at) else ItemLeaves(items, at)
    }

    function EntryIds(): seq<nat> {
      if UseSite? then Ids(tree) else ItemIds(items)
    }

    /** It has entries and loses them all. */
    predicate AllLost(retained: set<nat>) {
      EntryIds() != [] && forall id | id in EntryIds() :: id !in retained
    }

    function Deletions(retained: set<nat>): seq<ByteRange>
      requires Formed()
    {
      if UseSite? then InnerDeletions(tree, at, retained) else Runs(Some(items), at, None, at, retained)
    }

    /** The text that stays. */
    function Pruned(retained: set<nat>): seq<byte> {
      if UseSite? then Render(Prune(tree, retained))
      else match Keep(items, retained) case None => [] case Some(kept) => RenderItems(kept)
    }
  }

  /** What the code reads off the source about a list. */
  datatype ListFacts =
    | UseFacts(unit: nat, leaves: seq<UseLeaf>, pairs: seq<BracePair>, layout: map<BracePair, seq<ListSegment>>)
    | DeriveFacts(unit: nat, elements: seq<UseLeaf>, entries: seq<Entry>)

  ghost predicate ReadOff(facts: ListFacts, site: ListSite) {
    && site.Formed() && facts.unit == site.unit
    && match facts
       case UseFacts(_, leaves, pairs, layout) =>
         site.UseSite? && Ready(pairs, layout, site.tree, site.at) && multiset(leaves) == multiset(site.Entries())
       case DeriveFacts(_, elements, entries) =>
         site.DeriveSite? && elements == site.Entries() && entries == LayoutAt(site.items, site.at, None)
  }

  /* ---------- collecting the deletions ---------- */

  method RewriteList(facts: ListFacts, retained: set<nat>, ghost site: ListSite)
    returns (r: Result<seq<ByteRange>, RewriteError>)
    requires ReadOff(facts, site)
    ensures r.Ok? <==> !site.AllLost(retained)
    ensures r.Ok? ==> r.value == site.Deletions(retained)
  {
    match facts
    case UseFacts(_, leaves, pairs, layout) =>
      r := RewriteUseItem(leaves, pairs, layout, retained, site.tree, site.at);
    case DeriveFacts(_, elements, entries) =>
      AllStayNoRuns(site.items, site.at, site.at, retained);
      r := RewriteDeriveAttribute(elements, entries, retained, site.items, site.at);
  }

  lemma {:induction false} AllStayNoRuns(items: Items, at: nat, first: nat, retained: set<nat>)
    requires RunsDefined(Some(items), at, None, first)
    ensures (forall id :: id in ItemIds(items) ==> id in retained) ==>
      Runs(Some(items), at, None, first, retained) == []
  {
    assert forall id :: id in Ids(items.segment) ==> id in ItemIds(items);
    assert Ids(items.segment) != [] ==> Ids(items.segment)[0] in ItemIds(items);
    if items.Then? {
      AllStayNoRuns(items.rest, at + Size(items.segment) + 1, first, retained);
    }
  }

  predicate AllFormed(sites: seq<ListSite>) {
    forall k :: 0 <= k < |sites| ==> sites[k].Formed()
  }

  /** The deletions of the lists in retained units, one list after the other. */
  function ListDeletions(sites: seq<ListSite>, retained: set<nat>): seq<ByteRange>
    requires AllFormed(sites)
  {
    if sites == [] then []
    else
      var n := |sites| - 1;
      ListDeletions(sites[..n], retained) + if sites[n].unit in retained then sites[n].Deletions(retained) else []
  }

  function AllDeletions(units: seq<Unit>, retained: set<nat>, listed: set<nat>, sites: seq<ListSite>): seq<ByteRange>
    requires AllFormed(sites)
  {
    FrontierRanges(units, retained, listed) + ListDeletions(sites, retained)
  }

  /** What `rewrite_source` demands of its retained set, besides deletions at known boundaries. */
  ghost predicate Rewritable(units: seq<Unit>, retained: set<nat>, listed: set<nat>, sites: seq<ListSite>) {
    && Coherent(units, retained)
    && (forall u :: u in units && Frontier(u, retained) && DeletedWhole(u, listed) ==>
          u.fullRange.start != u.fullRange.end)
    && forall k :: 0 <= k < |sites| && sites[k].unit in retained ==> !sites[k].AllLost(retained)
  }

  method CollectLists(lists: seq<ListFacts>, retained: set<nat>, ghost sites: seq<ListSite>)
    returns (r: Result<seq<ByteRange>, RewriteError>)
    requires AllFormed(sites) && |lists| == |sites| && forall k :: 0 <= k < |lists| ==> ReadOff(lists[k], sites[k])
    ensures r.Ok? <==> forall k :: 0 <= k < |sites| && sites[k].unit in retained ==> !sites[k].AllLost(retained)
    ensures r.Ok? ==> r.value == ListDeletions(sites, retained)
  {
    hide ListSite.AllLost;
    hide ListSite.Deletions;
    hide ListSite.Formed;
    hide ReadOff;
    var deletions: seq<ByteRange> := [];
    for k := 0 to |lists|
      invariant deletions == ListDeletions(sites[..k], retained)
      invariant forall j :: 0 <= j < k && sites[j].unit in retained ==> !sites[j].AllLost(retained)
    {
      assert sites[..k + 1][..k] == sites[..k];
      SameUnit(lists[k], sites[k]);
      if lists[k].unit in retained {
        var own := RewriteList(lists[k], retained, sites[k]);
        if own.Err? {
          return Err(own.error);
        }
        deletions := deletions + own.value;
      }
    }
    assert sites[..|lists|] == sites;
    r := Ok(deletions);
  }

  lemma {:induction false} SameUnit(facts: ListFacts, site: ListSite)
    requires ReadOff(facts, site)
    ensures site.Formed() && facts.unit == site.unit
  {
  }

  lemma {:induction false} AcceptedMeans(source: seq<byte>, boundaries: set<u32>)
    ensures forall d :: AcceptedDeletion(source, d, boundaries) <==>
      && d.start < d.end <= |source| && IsCharBoundary(source, d.start) && IsCharBoundary(source, d.end)
      && d.start in boundaries && d.end in boundaries
  {
  }

  lemma {:induction false} LostMeans(sites: seq<ListSite>, retained: set<nat>)
    ensures forall k :: 0 <= k < |sites| ==>
      (sites[k].AllLost(retained) <==>
        sites[k].EntryIds() != [] && !exists id :: id in sites[k].EntryIds() && id in retained)
  {
  }

  /** `rewrite_source`: validates, collects the deletions of lost units, use items and derive attributes, and applies
      them all at once. */
  method RewriteSource(source: Utf8, units: seq<Unit>, retained: set<nat>, listed: set<nat>, boundaries: set<u32>,
                       lists: seq<ListFacts>, ghost depth: seq<nat>, ghost sites: seq<ListSite>)
    returns (r: Result<SourceRewrite, RewriteError>)
    requires |source| < U32_LIMIT && Inventory(units, depth)
    requires AllFormed(sites) && |lists| == |sites| && forall k :: 0 <= k < |lists| ==> ReadOff(lists[k], sites[k])
    ensures r.Ok? <==>
      && Rewritable(units, retained, listed, sites)
      && forall d :: d in AllDeletions(units, retained, listed, sites) ==> AcceptedDeletion(source, d, boundaries)
    ensures r.Ok? <==>
      && Coherent(units, retained)
      && (forall u |
            && u in units && u.kind != GraphKeys.UseLeaf && u.id !in listed && u.id !in retained
            && u.parent.Some? && u.parent.value in retained :: u.fullRange.start != u.fullRange.end)
      && (forall k :: 0 <= k < |sites| && sites[k].unit in retained && sites[k].EntryIds() != [] ==>
            exists id :: id in sites[k].EntryIds() && id in retained)
      && forall d :: d in AllDeletions(units, retained, listed, sites) ==>
           && d.start < d.end <= |source| && IsCharBoundary(source, d.start) && IsCharBoundary(source, d.end)
           && d.start in boundaries && d.end in boundaries
    ensures r.Ok? ==> Rewrites(r.value, source, AllDeletions(units, retained, listed, sites))
  {
    AcceptedMeans(source, boundaries);
    LostMeans(sites, retained);
    hide AcceptedDeletion;
    hide Rewrites;
    hide Coherent;
    hide Inventory;
    hide ReadOff;
    hide ListSite.AllLost;
    var valid := ValidateRetention(units, retained, depth);
    if valid.Err? {
      return Err(valid.error);
    }
    var frontier := FrontierDeletions(units, retained, listed);
    if frontier.Err? {
      return Err(frontier.error);
    }
    var own := CollectLists(lists, retained, sites);
    if own.Err? {
      return Err(own.error);
    }
    r := ApplyDeletions(source, frontier.value + own.value, boundaries);
  }

  /* ---------- what the rewrite means ---------- */

  /** The list of a unit: its text lies in the unit, its entries are children of the unit that are deleted with their
      commas, and whatever else lies below the unit is apart from the list. */
  ghost predicate Describes(units: seq<Unit>, depth: seq<nat>, listed: set<nat>, source: seq<byte>, site: ListSite)
    requires Inventory(units, depth)
  {
    && site.Formed() && site.Held(source)
    && site.unit < |units| && units[site.unit].fullRange.Contains(ByteRange(site.at, site.End()))
    && (forall l :: l in site.Entries() ==> EntryIsUnit(units, listed, site, l))
    && (forall j ::
          0 <= j < |units| && j != site.unit && Above(units, depth, site.unit, j) && DeletedWhole(units[j], listed) ==>
          Disjoint(units[j].fullRange, ByteRange(site.at, site.End())))
  }

  ghost predicate EntryIsUnit(units: seq<Unit>, listed: set<nat>, site: ListSite, l: UseLeaf) {
    l.id < |units| && units[l.id].fullRange == l.range && units[l.id].parent == Some(site.unit)
    && !DeletedWhole(units[l.id], listed)
  }

  /** The lists of an inventory do not overlap, and hold every unit that is deleted with its commas. */
  ghost predicate Lists(units: seq<Unit>, depth: seq<nat>, listed: set<nat>, source: seq<byte>, sites: seq<ListSite>)
    requires Inventory(units, depth)
  {
    && (forall k :: 0 <= k < |sites| ==> Describes(units, depth, listed, source, sites[k]))
    && (forall k, l :: 0 <= k < |sites| && 0 <= l < |sites| && k != l ==>
          sites[k].End() <= sites[l].at || sites[l].End() <= sites[k].at)
    && (forall j :: 0 <= j < |units| && !DeletedWhole(units[j], listed) && units[j].parent.Some? ==>
          exists k, l :: 0 <= k < |sites| && EntryOf(sites[k], j, units[j].parent.value, l))
  }

  ghost predicate EntryOf(site: ListSite, id: nat, unit: nat, l: UseLeaf) {
    site.Formed() && site.unit == unit && l in site.Entries() && l.id == id
  }

  /** A list loses bytes inside its own text only. */
  lemma {:induction false} OwnDeletionsInside(site: ListSite, retained: set<nat>, p: nat)
    requires site.Formed() && Deleted(site.Deletions(retained), p)
    ensures site.at <= p < site.End()
  {
    if site.UseSite? {
      InnerWithin(site.tree, site.at, retained, p);
    } else {
      InListOnly(site.items, site.at, retained, p + 1);
    }
  }

  lemma {:induction false} ListDeleted(sites: seq<ListSite>, retained: set<nat>, p: nat)
    requires AllFormed(sites)
    ensures Deleted(ListDeletions(sites, retained), p) <==>
      exists k :: 0 <= k < |sites| && sites[k].unit in retained && Deleted(sites[k].Deletions(retained), p)
  {
    hide ListSite.Formed;
    hide ListSite.Deletions;
    hide Deleted;
    if sites == [] {
      NothingDeleted(p);
    } else {
      var n := |sites| - 1;
      ListDeleted(sites[..n], retained, p);
      DeletedConcat(ListDeletions(sites[..n], retained),
                    if sites[n].unit in retained then sites[n].Deletions(retained) else [], p);
      NothingDeleted(p);
      assert forall k :: 0 <= k < n ==> sites[..n][k] == sites[k];
    }
  }

  lemma {:induction false} NothingDeleted(p: nat)
    ensures !Deleted([], p)
  {
  }

  /** What holds of every accepted rewrite below. */
  ghost predicate Situation(source: seq<byte>, units: seq<Unit>, depth: seq<nat>, retained: set<nat>, listed: set<nat>,
                            sites: seq<ListSite>)
  {
    && |source| < U32_LIMIT && Inventory(units, depth) && UnitsApart(units, depth)
    && AllFormed(sites) && Lists(units, depth, listed, source, sites)
    && Rewritable(units, retained, listed, sites)
  }

  /** No unit deleted whole reaches into the list of a retained unit. */
  lemma {:induction false} FrontierSparesLists(source: seq<byte>, units: seq<Unit>, depth: seq<nat>, retained: set<nat>,
                                               listed: set<nat>, sites: seq<ListSite>, k: nat, p: nat)
    requires Situation(source, units, depth, retained, listed, sites)
    requires k < |sites| && sites[k].unit in retained && sites[k].at <= p < sites[k].End()
    ensures !Deleted(FrontierRanges(units, retained, listed), p)
  {
    hide Deleted;
    hide UnitsApart;
    hide Coherent;
    hide Inventory;
    hide ListSite.Formed;
    var site := sites[k];
    assert Describes(units, depth, listed, source, site);
    if Deleted(FrontierRanges(units, retained, listed), p) {
      var f := RetainedLosesOnlyBelow(units, depth, retained, listed, site.unit, p);
    }
  }

  /** Inside the list of a retained unit exactly the list's own deletions take effect. */
  lemma {:induction false} ListAlone(source: seq<byte>, units: seq<Unit>, depth: seq<nat>, retained: set<nat>,
                                     listed: set<nat>, sites: seq<ListSite>, k: nat)
    requires Situation(source, units, depth, retained, listed, sites) && k < |sites| && sites[k].unit in retained
    ensures Agrees(AllDeletions(units, retained, listed, sites), sites[k].Deletions(retained), sites[k].at,
                   sites[k].End())
  {
    hide Deleted;
    hide Rewritable;
    hide Inventory;
    hide UnitsApart;
    hide Describes;
    hide ListSite.Deletions;
    forall p: nat | sites[k].at <= p < sites[k].End()
      ensures Deleted(AllDeletions(units, retained, listed, sites), p) <==> Deleted(sites[k].Deletions(retained), p)
    {
      DeletedConcat(FrontierRanges(units, retained, listed), ListDeletions(sites, retained), p);
      FrontierSparesLists(source, units, depth, retained, listed, sites, k, p);
      ListDeleted(sites, retained, p);
      if Deleted(ListDeletions(sites, retained), p) {
        var l :| 0 <= l < |sites| && sites[l].unit in retained && Deleted(sites[l].Deletions(retained), p);
        OwnDeletionsInside(sites[l], retained, p);
      }
    }
  }

  /** The list of a retained unit is left as its pruned form. */
  lemma {:induction false} ListPruned(source: seq<byte>, units: seq<Unit>, depth: seq<nat>, retained: set<nat>,
                                      listed: set<nat>, sites: seq<ListSite>, k: nat)
    requires Situation(source, units, depth, retained, listed, sites) && k < |sites| && sites[k].unit in retained
    ensures sites[k].End() <= |source|
    ensures Remains(source, AllDeletions(units, retained, listed, sites), sites[k].at, sites[k].End())
      == sites[k].Pruned(retained)
  {
    hide Situation;
    hide Agrees;
    hide Remains;
    hide AllDeletions;
    hide ListSite.Pruned;
    hide ListSite.Deletions;
    hide ListSite.Held;
    hide ListSite.AllLost;
    ListAlone(source, units, depth, retained, listed, sites, k);
    SiteFacts(source, units, depth, retained, listed, sites, k);
    if sites[k].UseSite? {
      TreePruned(source, AllDeletions(units, retained, listed, sites), sites[k], retained);
    } else {
      ElementsPruned(source, AllDeletions(units, retained, listed, sites), sites[k], retained);
    }
  }

  lemma {:induction false} TreePruned(source: seq<byte>, all: seq<ByteRange>, site: ListSite, retained: set<nat>)
    requires site.UseSite? && site.Formed() && site.Held(source) && !Dropped(site.tree, retained)
    requires Agrees(all, site.Deletions(retained), site.at, site.End())
    ensures site.End() <= |source| && Remains(source, all, site.at, site.End()) == site.Pruned(retained)
  {
    hide Remains;
    hide Agrees;
    hide Render;
    HeldSize(source, site.tree, site.at);
    EntryRemains(source, all, site.tree, site.at, retained);
  }

  lemma {:induction false} ElementsPruned(source: seq<byte>, all: seq<ByteRange>, site: ListSite, retained: set<nat>)
    requires site.DeriveSite? && site.Formed() && site.Held(source) && !site.AllLost(retained)
    requires Agrees(all, site.Deletions(retained), site.at, site.End())
    ensures site.End() <= |source| && Remains(source, all, site.at, site.End()) == site.Pruned(retained)
  {
    hide Remains;
    hide Agrees;
    hide RenderItems;
    hide HoldsItems;
    hide Runs;
    hide Keep;
    hide Flat;
    hide GoneIn;
    hide KeptIn;
    KeptUnlessLost(site.items, retained);
    SizeOfItems(source, site.items, site.at);
    RunsRemain(source, all, site.items, site.at, None, site.at, retained);
  }

  lemma {:induction false} SiteFacts(source: seq<byte>, units: seq<Unit>, depth: seq<nat>, retained: set<nat>,
                                     listed: set<nat>, sites: seq<ListSite>, k: nat)
    requires Situation(source, units, depth, retained, listed, sites) && k < |sites| && sites[k].unit in retained
    ensures AllFormed(sites) && sites[k].Formed() && sites[k].Held(source) && !sites[k].AllLost(retained)
    ensures sites[k].UseSite? ==> !Dropped(sites[k].tree, retained)
  {
    assert Describes(units, depth, listed, source, sites[k]);
  }

  lemma {:induction false} KeptUnlessLost(items: Items, retained: set<nat>)
    requires Flat(items) && (ItemIds(items) == [] || exists id :: id in ItemIds(items) && id in retained)
    ensures Keep(items, retained).Some?
  {
    if id :| id in ItemIds(items) && id in retained {
      SomeKept(items, retained, id);
    }
  }

  /** Every entry of a retained unit's list keeps all of its bytes or loses them all, with its unit. */
  lemma {:induction false} EntriesSettled(source: seq<byte>, units: seq<Unit>, depth: seq<nat>, retained: set<nat>,
                                          listed: set<nat>, sites: seq<ListSite>, k: nat, l: UseLeaf)
    requires Situation(source, units, depth, retained, listed, sites) && k < |sites| && sites[k].unit in retained
    requires l in sites[k].Entries()
    ensures LeafSettled(AllDeletions(units, retained, listed, sites), l, retained)
  {
    hide Situation;
    hide Agrees;
    hide AllDeletions;
    hide LeafSettled;
    hide ListSite.Entries;
    hide ListSite.Deletions;
    hide ListSite.Held;
    hide ListSite.AllLost;
    ListAlone(source, units, depth, retained, listed, sites, k);
    SiteFacts(source, units, depth, retained, listed, sites, k);
    EntrySettledIn(source, AllDeletions(units, retained, listed, sites), sites[k], retained, l);
  }

  lemma {:induction false} EntrySettledIn(source: seq<byte>, all: seq<ByteRange>, site: ListSite, retained: set<nat>,
                                          l: UseLeaf)
    requires site.Formed() && site.Held(source) && !site.AllLost(retained) && l in site.Entries()
    requires site.UseSite? ==> !Dropped(site.tree, retained)
    requires Agrees(all, site.Deletions(retained), site.at, site.End())
    ensures LeafSettled(all, l, retained)
  {
    hide Agrees;
    hide LeafSettled;
    hide HoldsItems;
    hide Holds;
    hide Runs;
    hide Keep;
    hide Flat;
    if site.UseSite? {
      LeafFate(all, site.tree, site.at, retained, l);
    } else {
      KeptUnlessLost(site.items, retained);
      ElementFate(source, all, site.items, site.at, None, site.at, retained, l);
    }
  }

  /** Every byte of every lost unit is deleted, whole units and entries of lists alike. */
  lemma {:induction false} LostBytesGo(source: seq<byte>, units: seq<Unit>, depth: seq<nat>, retained: set<nat>,
                                       listed: set<nat>, sites: seq<ListSite>, i: nat, p: nat)
    requires Situation(source, units, depth, retained, listed, sites)
    requires i < |units| && i !in retained && units[i].fullRange.start <= p < units[i].fullRange.end
    ensures Deleted(AllDeletions(units, retained, listed, sites), p)
  {
    hide Deleted;
    hide UnitsApart;
    hide FrontierRanges;
    hide Above;
    var f := LostUnitsCovered(units, depth, retained, listed, i, p);
    DeletedConcat(FrontierRanges(units, retained, listed), ListDeletions(sites, retained), p);
    if !DeletedWhole(units[f], listed) {
      InsideAncestors(units, depth, f, i);
      var k, l :| 0 <= k < |sites| && EntryOf(sites[k], f, units[f].parent.value, l);
      assert Describes(units, depth, listed, source, sites[k]);
      assert EntryIsUnit(units, listed, sites[k], l);
      EntriesSettled(source, units, depth, retained, listed, sites, k, l);
      hide Lists;
      hide Inventory;
      assert f !in retained;
      assert GoneIn(AllDeletions(units, retained, listed, sites), l.range.start, l.range.end);
    }
  }

  /** A byte that belongs to a list of a retained unit, but to no retained entry of it: a separator, a brace, a path
      prefix or trivia. */
  ghost predicate BetweenEntries(sites: seq<ListSite>, retained: set<nat>, p: nat)
    requires AllFormed(sites)
  {
    exists k :: 0 <= k < |sites| && InList(sites[k], retained, p)
  }

  ghost predicate InList(site: ListSite, retained: set<nat>, p: nat)
    requires site.Formed()
  {
    && site.unit in retained && site.at <= p < site.End()
    && forall l :: l in site.Entries() && l.id in retained ==> !(l.range.start <= p < l.range.end)
  }

  ghost predicate InLostUnit(units: seq<Unit>, retained: set<nat>, p: nat) {
    exists i :: 0 <= i < |units| && i !in retained && units[i].fullRange.start <= p < units[i].fullRange.end
  }

  /** Nothing else is deleted. */
  lemma {:induction false} OnlyLostBytesGo(source: seq<byte>, units: seq<Unit>, depth: seq<nat>, retained: set<nat>,
                                           listed: set<nat>, sites: seq<ListSite>, p: nat)
    requires Situation(source, units, depth, retained, listed, sites)
    requires Deleted(AllDeletions(units, retained, listed, sites), p)
    ensures InLostUnit(units, retained, p) || BetweenEntries(sites, retained, p)
  {
    hide Deleted;
    hide UnitsApart;
    hide Lists;
    hide ListSite.Deletions;
    hide ListSite.Entries;
    DeletedConcat(FrontierRanges(units, retained, listed), ListDeletions(sites, retained), p);
    if Deleted(FrontierRanges(units, retained, listed), p) {
      FrontierByte(units, retained, listed, p);
    } else {
      ListDeleted(sites, retained, p);
      var k :| 0 <= k < |sites| && sites[k].unit in retained && Deleted(sites[k].Deletions(retained), p);
      OwnDeletionsInside(sites[k], retained, p);
      forall l | l in sites[k].Entries() && l.id in retained
        ensures !(l.range.start <= p < l.range.end)
      {
        EntriesSettled(source, units, depth, retained, listed, sites, k, l);
      }
      assert InList(sites[k], retained, p);
    }
  }

  lemma {:induction false} FrontierByte(units: seq<Unit>, retained: set<nat>, listed: set<nat>, p: nat)
    requires (forall i :: 0 <= i < |units| ==> units[i].id == i) && Deleted(FrontierRanges(units, retained, listed), p)
    ensures InLostUnit(units, retained, p)
  {
    var ranges := FrontierRanges(units, retained, listed);
    var k :| 0 <= k < |ranges| && ranges[k].start <= p < ranges[k].end;
    assert ranges[k] in ranges;
    var f := RangeIsFrontier(units, retained, listed, ranges[k]);
  }

  /** The whole rewrite: its output is the original without exactly the deleted bytes; outside the lists of retained
      units those are the bytes of lost units, and each such list is left as its pruned form. */
  lemma {:induction false} RewriteMeans(rewrite: SourceRewrite, source: seq<byte>, units: seq<Unit>, depth: seq<nat>,
                                        retained: set<nat>, listed: set<nat>, sites: seq<ListSite>)
    requires Situation(source, units, depth, retained, listed, sites)
    requires Rewrites(rewrite, source, AllDeletions(units, retained, listed, sites))
    ensures rewrite.source == Remains(source, AllDeletions(units, retained, listed, sites), 0, |source|)
    ensures forall p: nat :: p < |source| && !BetweenEntries(sites, retained, p) ==>
      (Deleted(AllDeletions(units, retained, listed, sites), p) <==> InLostUnit(units, retained, p))
    ensures forall k :: 0 <= k < |sites| && sites[k].unit in retained ==>
      && sites[k].End() <= |source|
      && Remains(source, AllDeletions(units, retained, listed, sites), sites[k].at, sites[k].End())
        == sites[k].Pruned(retained)
  {
    hide Deleted;
    hide Situation;
    hide Remains;
    hide BetweenEntries;
    hide AllDeletions;
    hide ListSite.Pruned;
    FormedIn(source, units, depth, retained, listed, sites);
    WholeText(rewrite, source, AllDeletions(units, retained, listed, sites));
    forall p: nat | p < |source| && !BetweenEntries(sites, retained, p)
      ensures Deleted(AllDeletions(units, retained, listed, sites), p) <==> InLostUnit(units, retained, p)
    {
      if InLostUnit(units, retained, p) {
        var i :| 0 <= i < |units| && i !in retained && units[i].fullRange.start <= p < units[i].fullRange.end;
        LostBytesGo(source, units, depth, retained, listed, sites, i, p);
      }
      if Deleted(AllDeletions(units, retained, listed, sites), p) {
        OnlyLostBytesGo(source, units, depth, retained, listed, sites, p);
      }
    }
    forall k | 0 <= k < |sites| && sites[k].unit in retained
      ensures sites[k].End() <= |source|
      ensures Remains(source, AllDeletions(units, retained, listed, sites), sites[k].at, sites[k].End())
        == sites[k].Pruned(retained)
    {
      ListPruned(source, units, depth, retained, listed, sites, k);
    }
  }

  lemma {:induction false} WholeText(rewrite: SourceRewrite, source: seq<byte>, deletions: seq<ByteRange>)
    requires Rewrites(rewrite, source, deletions)
    ensures rewrite.source == Remains(source, deletions, 0, |source|)
  {
  }

  lemma {:induction false} FormedIn(source: seq<byte>, units: seq<Unit>, depth: seq<nat>, retained: set<nat>,
                                    listed: set<nat>, sites: seq<ListSite>)
    requires Situation(source, units, depth, retained, listed, sites)
    ensures AllFormed(sites)
  {
  }
}
