/** The whole road of a definition key: original run, reduced run, and back into original coordinates
    (src/definitions.rs, lines 396-419, 1041-1254 and 1288-1393). */
module KeyStability {
  import opened Wrappers
  import opened Definitions
  import opened IdentityStability
  import opened Canonical
  import Forests
  import IdentityAssignment
  import Normalization
  import Rewrite
  import DG = DefinitionGraphs

  /** A run from its collected definitions to its canonical numbering. */
  datatype RunRecord = RunRecord(
    coordinates: Option<Rewrite.SourceRewrite>, expected: Option<Universe>,
    before: seq<RawDefinition>, views: seq<View>, now: seq<RawDefinition>,
    parents: Forests.Parents, order: seq<nat>, numbering: Numbering)

  /** The ordinals were assigned and the definitions numbered. */
  ghost predicate Completed(run: RunRecord) {
    && Viewed(run.before, run.coordinates, run.views)
    && Accepts(run.views, run.expected)
    && |run.now| == |run.views|
    && (forall i :: 0 <= i < |run.views| ==>
          IdentityAssignment.OverwrittenAt(run.views, run.expected, run.before, run.now, i))
    && UniqueIds(run.now)
    && Links(run.now, run.parents)
    && Numbered(run.now, run.parents, run.order, run.numbering)
  }

  /** The full run in its own coordinates, and the run on a kept part against the universe recorded there. */
  ghost predicate Replays(full: RunRecord, reduced: RunRecord, kept: seq<nat>, coordinates: Rewrite.SourceRewrite) {
    && Completed(full) && full.coordinates.None? && full.expected.None?
    && Completed(reduced) && reduced.coordinates == Some(coordinates) && reduced.expected.Some?
    && Records(full.views, None, reduced.expected.value)
    && KeptPart(full.views, reduced.views, kept)
  }

  /** Every definition of the reduced run, moved back, has the key part of the definition it is. */
  lemma {:induction false} PartReturns(full: RunRecord, reduced: RunRecord, kept: seq<nat>,
                                       coordinates: Rewrite.SourceRewrite, i: nat)
    requires Replays(full, reduced, kept, coordinates) && i < |kept|
    ensures i < |reduced.now| && kept[i] < |full.now|
    ensures Normalization.MapPart(Part(reduced.now[i]), coordinates) == Ok(Part(full.now[kept[i]]))
  {
    hide KeptPart;
    OrdinalReturns(full, reduced, kept, coordinates, i);
    OriginView(reduced, i);
    OriginView(full, kept[i]);
  }

  lemma {:induction false} OrdinalReturns(full: RunRecord, reduced: RunRecord, kept: seq<nat>,
                                          coordinates: Rewrite.SourceRewrite, i: nat)
    requires Replays(full, reduced, kept, coordinates) && i < |kept|
    ensures i < |reduced.views| && kept[i] < |full.views|
    ensures SameDescription(full.views[kept[i]], reduced.views[i])
    ensures reduced.now[i].structuralOrdinal == full.now[kept[i]].structuralOrdinal
  {
    hide Accepts;
    hide Assigned;
    hide ViewOf;
    hide Numbered;
    hide Links;
    StableUnderReduction(full.views, reduced.expected.value, reduced.views, kept);
    assert IdentityAssignment.OverwrittenAt(full.views, None, full.before, full.now, kept[i]);
    assert IdentityAssignment.OverwrittenAt(reduced.views, reduced.expected, reduced.before, reduced.now, i);
  }

  /** The view of a definition carries its key's fields, the origin in original coordinates. */
  lemma {:induction false} OriginView(run: RunRecord, i: nat)
    requires Completed(run) && i < |run.views|
    ensures KeptFields(run.before[i], run.now[i], run.views[i])
    ensures run.coordinates.None? ==> run.views[i].origin == run.now[i].origin.Key()
    ensures run.coordinates.Some? ==>
      NormalizeOriginKey(run.now[i].origin.Key(), run.now[i].kind, run.coordinates.value) == Ok(run.views[i].origin)
  {
    hide NormalizeOriginKey;
    hide NormalizeSources;
    hide WellFormedBasis;
    hide Accepts;
    hide Assigned;
    AssignedKeeps(run.before, run.coordinates, run.views, run.expected, run.now, i);
    assert ViewOf(run.before[i], run.coordinates) == Ok(run.views[i]);
  }

  /** A kept definition's parent is its kept parent. */
  lemma {:induction false} ParentReturns(full: RunRecord, reduced: RunRecord, kept: seq<nat>,
                                         coordinates: Rewrite.SourceRewrite, i: nat)
    requires Replays(full, reduced, kept, coordinates) && i < |kept|
    ensures i < |reduced.parents| && kept[i] < |full.parents|
    ensures reduced.parents[i].None? ==> full.parents[kept[i]].None?
    ensures reduced.parents[i].Some? ==>
      reduced.parents[i].value < |kept| && full.parents[kept[i]] == Some(kept[reduced.parents[i].value])
  {
    hide Accepts;
    hide Numbered;
    hide Records;
    hide ViewOf;
    assert ParentKept(full.views, reduced.views, kept, i);
    LinkIsIndex(reduced, i);
    LinkIsIndex(full, kept[i]);
  }

  /** The parent links agree with the lookup by compiler id. */
  lemma {:induction false} LinkIsIndex(run: RunRecord, i: nat)
    requires Completed(run) && i < |run.views|
    ensures |run.parents| == |run.views|
    ensures ParentIndex(run.views, i) == (if run.views[i].parent.None? then None else Some(run.parents[i]))
    ensures run.views[i].parent.None? ==> run.parents[i].None?
  {
    forall j | 0 <= j < |run.views|
      ensures run.now[j].compilerId == run.views[j].compilerId && run.now[j].parent == run.views[j].parent
    {
      OriginView(run, j);
    }
    assert Links(run.now, run.parents) && |run.now| == |run.views|;
    assert UniqueIds(run.now);
    hide Completed;
    LinkLooksUp(run.now, run.parents, run.views, i);
  }

  lemma {:induction false} LinkLooksUp(now: seq<RawDefinition>, parents: Forests.Parents, views: seq<View>, i: nat)
    requires Links(now, parents) && UniqueIds(now) && |now| == |views| && i < |views|
    requires forall j :: 0 <= j < |views| ==>
      now[j].compilerId == views[j].compilerId && now[j].parent == views[j].parent
    ensures ParentIndex(views, i) == (if views[i].parent.None? then None else Some(parents[i]))
    ensures views[i].parent.None? ==> parents[i].None?
  {
    assert LinkedAt(now, parents, i);
  }

  /** Normalising the key of a definition of the reduced run gives exactly the key it has in the full run. */
  lemma {:induction false} KeysReturn(full: RunRecord, reduced: RunRecord, kept: seq<nat>,
                                      coordinates: Rewrite.SourceRewrite, k: nat, l: nat)
    requires Replays(full, reduced, kept, coordinates)
    requires k < |reduced.order| && l < |full.order|
    requires reduced.order[k] < |kept| && full.order[l] == kept[reduced.order[k]]
    ensures k < |reduced.numbering.output| && l < |full.numbering.output|
    ensures Normalization.KeyMaps(reduced.numbering.output[k].key, coordinates)
    ensures Normalization.MappedKey(reduced.numbering.output[k].key, coordinates) == full.numbering.output[l].key
    decreases k
  {
    var i := reduced.order[k];
    PartReturns(full, reduced, kept, coordinates, i);
    ParentReturns(full, reduced, kept, coordinates, i);
    hide Completed;
    hide KeptPart;
    hide Records;
    hide Part;
    hide Normalization.MapPart;
    EntryOf(reduced, k);
    EntryOf(full, l);
    var here, there := reduced.numbering.output[k], full.numbering.output[l];
    if reduced.parents[i].Some? {
      KeysReturn(full, reduced, kept, coordinates, here.parent.value, there.parent.value);
    }
    assert forall j :: 0 <= j < |here.key| ==> Normalization.MapPart(here.key[j], coordinates) == Ok(there.key[j]);
  }

  lemma {:induction false} EntryOf(run: RunRecord, k: nat)
    requires Completed(run) && k < |run.order|
    ensures |run.numbering.output| == |run.numbering.productBases| == |run.order| && |run.parents| == |run.now|
    ensures NumberedAt(run.now, run.parents, run.order, run.numbering, k)
  {
  }

  /* ---------- the normalised graph ---------- */

  /** Two definitions with the same key, kind, source-derived origin and parent key. */
  ghost predicate SameDefinition(a: seq<DG.Definition>, k: nat, b: seq<DG.Definition>, l: nat) {
    && k < |a| && l < |b|
    && a[k].key == b[l].key && a[k].kind == b[l].kind && a[k].origin.Key() == b[l].origin.Key()
    && match a[k].parent
       case None => b[l].parent.None?
       case Some(p) => p < |a| && b[l].parent.Some? && b[l].parent.value < |b| && a[p].key == b[b[l].parent.value].key
  }

  /** The definitions of the graph `normalize_definition_graph` builds from the numbering of a run. */
  ghost predicate Normalizes(run: RunRecord, moved: seq<DG.Definition>, coordinates: Rewrite.SourceRewrite) {
    && (forall k :: 0 <= k < |run.numbering.output| ==>
          Normalization.DefinitionMaps(run.numbering.output[k], coordinates))
    && moved == Normalization.MappedDefinitions(run.numbering.output, coordinates)
  }

  /** A normalised definition of the reduced run is the definition of the full run that was kept. */
  lemma {:induction false} DefinitionReturns(full: RunRecord, reduced: RunRecord, kept: seq<nat>,
                                             coordinates: Rewrite.SourceRewrite, moved: seq<DG.Definition>, k: nat,
                                             l: nat)
    requires Replays(full, reduced, kept, coordinates) && Normalizes(reduced, moved, coordinates)
    requires k < |reduced.order| && l < |full.order|
    requires reduced.order[k] < |kept| && full.order[l] == kept[reduced.order[k]]
    ensures SameDefinition(moved, k, full.numbering.output, l)
  {
    var i := reduced.order[k];
    KeysReturn(full, reduced, kept, coordinates, k, l);
    PartReturns(full, reduced, kept, coordinates, i);
    ParentReturns(full, reduced, kept, coordinates, i);
    EntryOf(reduced, k);
    EntryOf(full, l);
    var here, there := reduced.numbering.output[k], full.numbering.output[l];
    Normalization.OriginAndKeyAgree(here.origin, here.kind, coordinates);
    hide Replays;
    if here.parent.Some? {
      assert reduced.parents[i].Some?;
      ParentKeyReturns(full, reduced, kept, coordinates, k, l);
    }
    hide Normalization.DefinitionMaps;
    hide Normalization.KeyMaps;
  }

  lemma {:induction false} ParentKeyReturns(full: RunRecord, reduced: RunRecord, kept: seq<nat>,
                                            coordinates: Rewrite.SourceRewrite, k: nat, l: nat)
    requires Replays(full, reduced, kept, coordinates)
    requires k < |reduced.order| && l < |full.order| && k < |reduced.numbering.output| && l < |full.numbering.output|
    requires reduced.order[k] < |kept| && full.order[l] == kept[reduced.order[k]]
    requires reduced.numbering.output[k].parent.Some?
    ensures full.numbering.output[l].parent.Some?
    ensures var p, q := reduced.numbering.output[k].parent.value, full.numbering.output[l].parent.value;
      && p < |reduced.numbering.output| && q < |full.numbering.output|
      && Normalization.KeyMaps(reduced.numbering.output[p].key, coordinates)
      && Normalization.MappedKey(reduced.numbering.output[p].key, coordinates) == full.numbering.output[q].key
  {
    ParentReturns(full, reduced, kept, coordinates, reduced.order[k]);
    EntryOf(reduced, k);
    EntryOf(full, l);
    hide Completed;
    hide KeptPart;
    hide Records;
    KeysReturn(full, reduced, kept, coordinates, reduced.numbering.output[k].parent.value,
               full.numbering.output[l].parent.value);
  }

  /** Every definition has a number. */
  ghost predicate Covers(run: RunRecord) {
    && |run.order| == |run.views|
    && forall i: nat :: i in run.order <==> i < |run.views|
  }

  ghost predicate IsKept(moved: seq<DG.Definition>, k: nat, full: RunRecord, kept: seq<nat>) {
    exists l :: 0 <= l < |full.order| && full.order[l] in kept && SameDefinition(moved, k, full.numbering.output, l)
  }

  ghost predicate Survives(moved: seq<DG.Definition>, full: RunRecord, l: nat) {
    exists k :: SameDefinition(moved, k, full.numbering.output, l)
  }

  /** The normalised definitions of the reduced run are exactly the kept definitions of the full run. */
  lemma {:induction false} NormalizedAreKept(full: RunRecord, reduced: RunRecord, kept: seq<nat>,
                                             coordinates: Rewrite.SourceRewrite, moved: seq<DG.Definition>)
    requires Replays(full, reduced, kept, coordinates) && Normalizes(reduced, moved, coordinates)
    requires Covers(full) && Covers(reduced)
    ensures |moved| == |kept|
    ensures forall k :: 0 <= k < |moved| ==> IsKept(moved, k, full, kept)
    ensures forall l :: 0 <= l < |full.order| && full.order[l] in kept ==> Survives(moved, full, l)
  {
    RunLengths(full, reduced, kept, coordinates);
    hide Replays;
    hide Normalizes;
    hide SameDefinition;
    assert |moved| == |reduced.numbering.output| by { NormalizedLength(reduced, moved, coordinates); }
    forall k | 0 <= k < |moved|
      ensures IsKept(moved, k, full, kept)
    {
      assert reduced.order[k] in reduced.order;
      var there := kept[reduced.order[k]];
      assert there in full.order;
      var l :| 0 <= l < |full.order| && full.order[l] == there;
      DefinitionReturns(full, reduced, kept, coordinates, moved, k, l);
    }
    forall l | 0 <= l < |full.order| && full.order[l] in kept
      ensures Survives(moved, full, l)
    {
      var i :| 0 <= i < |kept| && kept[i] == full.order[l];
      assert i in reduced.order;
      var k :| 0 <= k < |reduced.order| && reduced.order[k] == i;
      DefinitionReturns(full, reduced, kept, coordinates, moved, k, l);
    }
  }

  lemma {:induction false} NormalizedLength(run: RunRecord, moved: seq<DG.Definition>,
                                            coordinates: Rewrite.SourceRewrite)
    requires Normalizes(run, moved, coordinates)
    ensures |moved| == |run.numbering.output|
  {
  }

  lemma {:induction false} RunLengths(full: RunRecord, reduced: RunRecord, kept: seq<nat>,
                                      coordinates: Rewrite.SourceRewrite)
    requires Replays(full, reduced, kept, coordinates)
    ensures |reduced.numbering.output| == |reduced.order| && |full.numbering.output| == |full.order|
    ensures |reduced.views| == |kept| && forall i :: 0 <= i < |kept| ==> kept[i] < |full.views|
  {
    hide Accepts;
    hide Links;
  }
}
