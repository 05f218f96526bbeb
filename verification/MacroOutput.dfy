/** Validation of a macro's output-token ledger by sorting, an ancestor stack and binary
    searches, proved against quadratic definitions (src/macro_output.rs). */
module MacroOutput {
  import opened Wrappers
  import opened Text
  import opened Ordering

  datatype OutputRange = OutputRange(start: u32, end: u32) {

    predicate Contains(other: OutputRange) {
      start <= other.start && other.end <= end
    }
  }

  /* ---------- quadratic definitions ---------- */

  predicate Apart(a: OutputRange, b: OutputRange) {
    a.end <= b.start || b.end <= a.start
  }

  predicate Laminar(ranges: seq<OutputRange>) {
    && (forall a :: a in ranges ==> a.start < a.end)
    && (forall a, b :: a in ranges && b in ranges ==> Apart(a, b) || a.Contains(b) || b.Contains(a))
  }

  predicate InOutput(range: OutputRange, count: u32) {
    range.start < range.end <= count
  }

  /** Non-empty, in bounds, and no two entries of the list share a token. */
  predicate DisjointOutputs(ranges: seq<OutputRange>, count: u32) {
    && (forall a :: a in ranges ==> InOutput(a, count))
    && (forall a :: a in ranges ==> multiset(ranges)[a] == 1)
    && (forall a, b :: a in ranges && b in ranges && a != b ==> Apart(a, b))
  }

  ghost predicate Covered(ranges: seq<OutputRange>, token: nat) {
    exists i :: 0 <= i < |ranges| && ranges[i].start <= token < ranges[i].end
  }

  ghost predicate FullyDiscarded(discarded: seq<OutputRange>, live: OutputRange) {
    forall token: nat :: live.start <= token < live.end ==> Covered(discarded, token)
  }

  ghost predicate FitsLive(discarded: seq<OutputRange>, live: OutputRange, count: u32) {
    && InOutput(live, count)
    && (forall d :: d in discarded ==> Apart(d, live) || live.Contains(d))
    && !FullyDiscarded(discarded, live)
  }

  ghost predicate LedgerSpec(count: u32, live: seq<OutputRange>, discarded: seq<OutputRange>) {
    && Laminar(live)
    && DisjointOutputs(discarded, count)
    && (forall l :: l in live ==> FitsLive(discarded, l, count))
  }

  /* ---------- orders ---------- */

  predicate ByStart(a: OutputRange, b: OutputRange) {
    a.start < b.start || (a.start == b.start && a.end <= b.end)
  }

  predicate OuterFirst(a: OutputRange, b: OutputRange) {
    a.start < b.start || (a.start == b.start && a.end >= b.end)
  }

  lemma {:induction false} DedupSorted(s: seq<OutputRange>, le: (OutputRange, OutputRange) -> bool)
    requires TotalPreorder(le) && Sorted(s, le)
    ensures Sorted(Dedup(s), le)
  {
    if |s| > 1 {
      var n := |s| - 1;
      DedupSorted(s[..n], le);
      var shorter := Dedup(s[..n]);
      forall i | 0 <= i < |shorter|
        ensures le(shorter[i], s[n])
      {
        assert shorter[i] in s[..n];
      }
    }
  }

  /** After `dedup` an ascending list has no repetition at all. */
  lemma {:induction false} DedupDistinct(s: seq<OutputRange>)
    requires Sorted(s, ByStart)
    ensures forall i, j :: 0 <= i < j < |Dedup(s)| ==> Dedup(s)[i] != Dedup(s)[j]
  {
    if |s| > 1 {
      var n := |s| - 1;
      DedupDistinct(s[..n]);
      var shorter := Dedup(s[..n]);
      if s[n] != s[n - 1] {
        forall i | 0 <= i < |shorter|
          ensures shorter[i] != s[n]
        {
          assert shorter[i] in s[..n];
          var k :| 0 <= k < n && s[k] == shorter[i];
          assert ByStart(s[k], s[n - 1]) || k == n - 1;
          assert ByStart(s[n - 1], s[n]);
        }
      }
    }
  }

  /* ---------- the ancestor stack ---------- */

  /** Each entry contains the next one, and every entry started no later than `bound`. */
  predicate Chain(stack: seq<OutputRange>) {
    forall i, j :: 0 <= i < j < |stack| ==> stack[i].Contains(stack[j])
  }

  /** What the stack means after `done`: it is a containment chain of finished ranges, and
      whatever left it ended before the sweep line `line`. */
  predicate Swept(stack: seq<OutputRange>, done: seq<OutputRange>, line: nat) {
    && Chain(stack)
    && (forall a :: a in stack ==> a in done)
    && (forall a :: a in done && a !in stack ==> a.end <= line)
  }

  method LaminarOutputRanges(ranges: seq<OutputRange>) returns (laminar: bool)
    ensures laminar <==> Laminar(ranges)
  {
    if exists a | a in ranges :: a.start >= a.end {
      return false;
    }
    var sorted := SortBy(ranges, OuterFirst);
    SortSorts(ranges, OuterFirst);
    DedupSorted(sorted, OuterFirst);
    sorted := Dedup(sorted);
    laminar := Sweep(sorted);
    SameLaminar(ranges, sorted);
  }

  method Sweep(sorted: seq<OutputRange>) returns (laminar: bool)
    requires Sorted(sorted, OuterFirst) && forall a :: a in sorted ==> a.start < a.end
    ensures laminar <==> Laminar(sorted)
  {
    var ancestors: seq<OutputRange> := [];
    for k := 0 to |sorted|
      invariant Swept(ancestors, sorted[..k], if k == 0 then 0 else sorted[k - 1].start)
      invariant Laminar(sorted[..k])
    {
      var range := sorted[k];
      assert k > 0 ==> OuterFirst(sorted[k - 1], range);
      ancestors := PopFinished(ancestors, sorted[..k], range.start);
      if ancestors != [] && range.end > ancestors[|ancestors| - 1].end {
        CrossingFound(sorted, k, ancestors[|ancestors| - 1]);
        return false;
      }
      PushKeeps(sorted, k, ancestors);
      ancestors := ancestors + [range];
    }
    assert sorted[..|sorted|] == sorted;
    laminar := true;
  }

  /** The inner loop: every ancestor that ended at or before `line` leaves the stack. */
  method PopFinished(stack: seq<OutputRange>, ghost done: seq<OutputRange>, line: u32) returns (rest: seq<OutputRange>)
    requires Swept(stack, done, line)
    ensures Swept(rest, done, line) && rest <= stack
    ensures rest != [] ==> rest[|rest| - 1].end > line
  {
    rest := stack;
    while rest != [] && rest[|rest| - 1].end <= line
      invariant rest <= stack && Swept(rest, done, line)
    {
      rest := rest[..|rest| - 1];
    }
  }

  lemma {:induction false} CrossingFound(sorted: seq<OutputRange>, k: nat, top: OutputRange)
    requires k < |sorted| && Sorted(sorted, OuterFirst)
    requires top in sorted[..k] && sorted[k].start < top.end < sorted[k].end
    ensures !Laminar(sorted)
  {
    var j :| 0 <= j < k && sorted[j] == top;
    assert OuterFirst(sorted[j], sorted[k]);
    assert sorted[k] in sorted && top in sorted;
  }

  lemma {:induction false} PushKeeps(sorted: seq<OutputRange>, k: nat, stack: seq<OutputRange>)
    requires k < |sorted| && Sorted(sorted, OuterFirst)
    requires forall a :: a in sorted ==> a.start < a.end
    requires Laminar(sorted[..k]) && Swept(stack, sorted[..k], sorted[k].start)
    requires stack != [] ==> sorted[k].end <= stack[|stack| - 1].end
    ensures Laminar(sorted[..k + 1])
    ensures Swept(stack + [sorted[k]], sorted[..k + 1], sorted[k].start)
  {
    var r, done := sorted[k], sorted[..k];
    assert sorted[..k + 1] == done + [r];
    forall a | a in done
      ensures a.start <= r.start
      ensures a in stack ==> a.Contains(r)
      ensures Apart(a, r) || a.Contains(r)
    {
      var j :| 0 <= j < k && sorted[j] == a;
      assert OuterFirst(sorted[j], sorted[k]);
      if a in stack {
        var i :| 0 <= i < |stack| && stack[i] == a;
        assert i < |stack| - 1 ==> stack[i].Contains(stack[|stack| - 1]);
      }
    }
    forall i | 0 <= i < |stack|
      ensures stack[i].Contains(r)
    {
      assert stack[i] in stack;
    }
  }

  /* ---------- discarded ranges ---------- */

  method NormalizeDiscardedOutputRanges(discarded: seq<OutputRange>, count: u32) returns (r: Option<seq<OutputRange>>)
    ensures r.Some? <==> DisjointOutputs(discarded, count)
    ensures r.Some? ==> multiset(r.value) == multiset(discarded) && Spread(r.value, count)
  {
    var sorted := SortBy(discarded, ByStart);
    SortSorts(discarded, ByStart);
    var normalized: seq<OutputRange> := [];
    for k := 0 to |sorted|
      invariant normalized == sorted[..k]
      invariant Spread(normalized, count)
    {
      var output := sorted[k];
      assert output in sorted;
      if output.start >= output.end || output.end > count {
        return None;
      }
      if k > 0 && output.start < normalized[k - 1].end {
        assert normalized[k - 1] == sorted[k - 1];
        assert ByStart(sorted[k - 1], sorted[k]);
        OverlapFound(discarded, sorted, k - 1, k);
        return None;
      }
      SpreadGrows(normalized, output, count);
      normalized := normalized + [output];
    }
    assert sorted[..|sorted|] == sorted;
    SpreadIsDisjoint(discarded, sorted, count);
    r := Some(normalized);
  }

  /** Non-empty, in bounds, ascending and disjoint. */
  predicate Spread(ranges: seq<OutputRange>, count: u32) {
    && (forall i :: 0 <= i < |ranges| ==> InOutput(ranges[i], count))
    && (forall i, j :: 0 <= i < j < |ranges| ==> ranges[i].end <= ranges[j].start)
  }

  lemma {:induction false} SpreadGrows(ranges: seq<OutputRange>, next: OutputRange, count: u32)
    requires Spread(ranges, count) && InOutput(next, count)
    requires ranges != [] ==> ranges[|ranges| - 1].end <= next.start
    ensures Spread(ranges + [next], count)
  {
    forall i | 0 <= i < |ranges|
      ensures ranges[i].end <= next.start
    {
      assert i < |ranges| - 1 ==> ranges[i].end <= ranges[|ranges| - 1].start;
    }
  }

  lemma {:induction false} OverlapFound(discarded: seq<OutputRange>, sorted: seq<OutputRange>, i: nat, j: nat)
    requires multiset(sorted) == multiset(discarded) && i < j < |sorted|
    requires sorted[i].start <= sorted[j].start < sorted[i].end && sorted[j].start < sorted[j].end
    ensures forall count: u32 :: !DisjointOutputs(discarded, count)
  {
    SameElements(sorted, discarded);
    assert sorted[i] in sorted && sorted[j] in sorted;
    if sorted[i] == sorted[j] {
      TwiceInMultiset(sorted, i, j);
      assert multiset(discarded)[sorted[i]] >= 2;
    }
  }

  lemma {:induction false} SpreadIsDisjoint(discarded: seq<OutputRange>, sorted: seq<OutputRange>, count: u32)
    requires multiset(sorted) == multiset(discarded) && Spread(sorted, count)
    ensures DisjointOutputs(discarded, count)
  {
    SameElements(sorted, discarded);
    forall a | a in discarded
      ensures InOutput(a, count) && multiset(discarded)[a] == 1
    {
      assert a in sorted;
      MultisetOfDistinct(sorted, a);
    }
    forall a, b | a in discarded && b in discarded && a != b
      ensures Apart(a, b)
    {
      assert a in sorted && b in sorted;
      var i :| 0 <= i < |sorted| && sorted[i] == a;
      var j :| 0 <= j < |sorted| && sorted[j] == b;
      assert i < j ==> sorted[i].end <= sorted[j].start;
      assert j < i ==> sorted[j].end <= sorted[i].start;
    }
  }

  /* ---------- discarded against live ---------- */

  predicate Partitioned(s: seq<OutputRange>, test: OutputRange -> bool) {
    forall i, j :: 0 <= i < j < |s| && test(s[j]) ==> test(s[i])
  }

  /** `partition_point`: a binary search for the first element failing the test. */
  method PartitionPoint(s: seq<OutputRange>, test: OutputRange -> bool) returns (k: nat)
    requires Partitioned(s, test)
    ensures k <= |s|
    ensures forall i :: 0 <= i < |s| ==> (test(s[i]) <==> i < k)
  {
    var lo, hi := 0, |s|;
    while lo < hi
      invariant 0 <= lo <= hi <= |s|
      invariant forall i :: 0 <= i < lo ==> test(s[i])
      invariant forall i :: hi <= i < |s| ==> !test(s[i])
    {
      var mid := (lo + hi) / 2;
      if test(s[mid]) {
        assert forall i :: 0 <= i < mid ==> test(s[i]);
        lo := mid + 1;
      } else {
        assert forall i :: mid < i < |s| ==> !test(s[i]);
        hi := mid;
      }
    }
    k := lo;
  }

  /** Maximal runs: ascending, and never touching. */
  predicate Runs(ranges: seq<OutputRange>) {
    && (forall i :: 0 <= i < |ranges| ==> ranges[i].start < ranges[i].end)
    && (forall i, j :: 0 <= i < j < |ranges| ==> ranges[i].end < ranges[j].start)
  }

  function JoinRun(runs: seq<OutputRange>, next: OutputRange): seq<OutputRange> {
    var last := |runs| - 1;
    if runs != [] && runs[last].end == next.start then runs[last := OutputRange(runs[last].start, next.end)]
    else runs + [next]
  }

  lemma {:induction false} JoinCovers(runs: seq<OutputRange>, next: OutputRange, token: nat)
    requires next.start < next.end && Runs(runs)
    ensures Covered(JoinRun(runs, next), token) <==> Covered(runs, token) || next.start <= token < next.end
  {
    var r, last := JoinRun(runs, next), |runs| - 1;
    if Covered(runs, token) {
      var i :| 0 <= i < |runs| && runs[i].start <= token < runs[i].end;
      assert r[i].start <= token < r[i].end;
    }
    if next.start <= token < next.end {
      assert r[|r| - 1].start <= token < r[|r| - 1].end;
    }
    if Covered(r, token) {
      var i :| 0 <= i < |r| && r[i].start <= token < r[i].end;
      if i < last { assert runs[i] == r[i]; }
      else if i == last && token < runs[last].end { assert runs[last].start <= token; }
    }
  }

  lemma {:induction false} JoinKeepsRuns(runs: seq<OutputRange>, next: OutputRange)
    requires Runs(runs) && next.start < next.end
    requires runs != [] ==> runs[|runs| - 1].end <= next.start
    ensures Runs(JoinRun(runs, next)) && JoinRun(runs, next)[|JoinRun(runs, next)| - 1].end == next.end
  {
    var last := |runs| - 1;
    forall i | 0 <= i < last
      ensures runs[i].end < runs[last].start < next.start
    {
      assert runs[i].end < runs[last].start;
    }
  }

  lemma {:induction false} CoveredByPrefix(s: seq<OutputRange>, k: nat, token: nat)
    requires k < |s|
    ensures Covered(s[..k + 1], token) <==> Covered(s[..k], token) || s[k].start <= token < s[k].end
  {
    var longer, shorter := s[..k + 1], s[..k];
    if Covered(shorter, token) {
      var i :| 0 <= i < k && shorter[i].start <= token < shorter[i].end;
      assert longer[i] == shorter[i];
    }
    if s[k].start <= token < s[k].end { assert longer[k] == s[k]; }
    if Covered(longer, token) {
      var i :| 0 <= i < k + 1 && longer[i].start <= token < longer[i].end;
      if i < k { assert shorter[i] == longer[i]; }
    }
  }

  method ContiguousRuns(discarded: seq<OutputRange>, ghost count: u32) returns (contiguous: seq<OutputRange>)
    requires Spread(discarded, count)
    ensures Runs(contiguous)
    ensures forall token: nat :: Covered(contiguous, token) <==> Covered(discarded, token)
  {
    contiguous := [];
    for k := 0 to |discarded|
      invariant Runs(contiguous)
      invariant contiguous != [] ==> k > 0 && contiguous[|contiguous| - 1].end == discarded[k - 1].end
      invariant forall token: nat :: Covered(contiguous, token) <==> Covered(discarded[..k], token)
    {
      var range := discarded[k];
      assert k > 0 ==> discarded[k - 1].end <= discarded[k].start;
      JoinKeepsRuns(contiguous, range);
      forall token: nat
        ensures Covered(JoinRun(contiguous, range), token) <==> Covered(discarded[..k + 1], token)
      {
        JoinCovers(contiguous, range, token);
        CoveredByPrefix(discarded, k, token);
      }
      contiguous := JoinRun(contiguous, range);
    }
    assert discarded[..|discarded|] == discarded;
  }

  /** A range is covered by the union exactly when the last run starting at or before it contains it. */
  lemma {:induction false} RunCovers(discarded: seq<OutputRange>, contiguous: seq<OutputRange>, live: OutputRange,
                                     k: nat)
    requires Runs(contiguous) && live.start < live.end && k <= |contiguous|
    requires forall token: nat :: Covered(contiguous, token) <==> Covered(discarded, token)
    requires forall i :: 0 <= i < |contiguous| ==> (contiguous[i].start <= live.start <==> i < k)
    ensures FullyDiscarded(discarded, live) <==> k > 0 && contiguous[k - 1].Contains(live)
  {
    if k > 0 && contiguous[k - 1].Contains(live) {
      forall token: nat | live.start <= token < live.end
        ensures Covered(discarded, token)
      {
        assert contiguous[k - 1].start <= token < contiguous[k - 1].end;
        assert Covered(contiguous, token);
      }
    }
    if FullyDiscarded(discarded, live) {
      assert Covered(contiguous, live.start);
      var i :| 0 <= i < |contiguous| && contiguous[i].start <= live.start < contiguous[i].end;
      LastRunStarting(contiguous, i, live.start, k);
      GapAfterRun(contiguous, i);
      assert !(live.start <= contiguous[i].end < live.end);
    }
  }

  lemma {:induction false} LastRunStarting(runs: seq<OutputRange>, i: nat, at: nat, k: nat)
    requires Runs(runs) && i < |runs| && runs[i].start <= at < runs[i].end && k <= |runs|
    requires forall j :: 0 <= j < |runs| ==> (runs[j].start <= at <==> j < k)
    ensures k == i + 1
  {
    if i + 1 < |runs| { assert runs[i].end < runs[i + 1].start; }
  }

  lemma {:induction false} GapAfterRun(runs: seq<OutputRange>, i: nat)
    requires Runs(runs) && i < |runs|
    ensures !Covered(runs, runs[i].end)
  {
    forall j | 0 <= j < |runs|
      ensures !(runs[j].start <= runs[i].end < runs[j].end)
    {
      if i < j { assert runs[i].end < runs[j].start; }
      if j < i { assert runs[j].end < runs[i].start; }
    }
  }

  /** Only the first and the last discarded range meeting a live one have to be inspected. */
  lemma {:induction false} FirstAndLastDecide(discarded: seq<OutputRange>, live: OutputRange, count: u32, first: nat,
                                              end: nat)
    requires Spread(discarded, count) && live.start < live.end
    requires first <= |discarded| && end <= |discarded|
    requires forall i :: 0 <= i < |discarded| ==> (discarded[i].end <= live.start <==> i < first)
    requires forall i :: 0 <= i < |discarded| ==> (discarded[i].start < live.end <==> i < end)
    ensures first <= end
    ensures (forall d :: d in discarded ==> Apart(d, live) || live.Contains(d)) <==>
      first == end || (live.Contains(discarded[first]) && live.Contains(discarded[end - 1]))
    ensures first == end ==> !FullyDiscarded(discarded, live)
  {
    assert first > 0 ==> discarded[first - 1].start < discarded[first - 1].end <= live.start;
    if first < end {
      assert discarded[first] in discarded && discarded[end - 1] in discarded;
      if live.Contains(discarded[first]) && live.Contains(discarded[end - 1]) {
        forall d | d in discarded
          ensures Apart(d, live) || live.Contains(d)
        {
          var i :| 0 <= i < |discarded| && discarded[i] == d;
          assert first < i ==> discarded[first].end <= discarded[i].start;
          assert i < end - 1 ==> discarded[i].end <= discarded[end - 1].start;
        }
      }
    } else {
      forall d | d in discarded
        ensures Apart(d, live)
      {
        var i :| 0 <= i < |discarded| && discarded[i] == d;
      }
      assert !Covered(discarded, live.start);
    }
  }

  lemma {:induction false} SpreadPartitions(discarded: seq<OutputRange>, count: u32, at: u32)
    requires Spread(discarded, count)
    ensures Partitioned(discarded, (range: OutputRange) => range.end <= at)
    ensures Partitioned(discarded, (range: OutputRange) => range.start < at)
  {
    assert forall i, j :: 0 <= i < j < |discarded| ==> discarded[i].end <= discarded[j].start;
  }

  lemma {:induction false} RunsPartition(runs: seq<OutputRange>, at: u32)
    requires Runs(runs)
    ensures Partitioned(runs, (range: OutputRange) => range.start <= at)
  {
    assert forall i, j :: 0 <= i < j < |runs| ==> runs[i].end < runs[j].start;
  }

  /** The closure run on every live range. */
  method FitsOne(discarded: seq<OutputRange>, contiguous: seq<OutputRange>, count: u32, live: OutputRange)
    returns (fits: bool)
    requires Spread(discarded, count) && Runs(contiguous)
    requires forall token: nat :: Covered(contiguous, token) <==> Covered(discarded, token)
    ensures fits <==> FitsLive(discarded, live, count)
  {
    if live.start >= live.end || live.end > count {
      return false;
    }
    SpreadPartitions(discarded, count, live.start);
    SpreadPartitions(discarded, count, live.end);
    RunsPartition(contiguous, live.start);
    var first := PartitionPoint(discarded, (range: OutputRange) => range.end <= live.start);
    var end := PartitionPoint(discarded, (range: OutputRange) => range.start < live.end);
    FirstAndLastDecide(discarded, live, count, first, end);
    if first == end {
      return true;
    }
    var containingUnion := PartitionPoint(contiguous, (range: OutputRange) => range.start <= live.start);
    RunCovers(discarded, contiguous, live, containingUnion);
    var fullyDiscarded := containingUnion > 0 && contiguous[containingUnion - 1].Contains(live);
    fits := live.Contains(discarded[first]) && live.Contains(discarded[end - 1]) && !fullyDiscarded;
  }

  method DiscardedOutputsFitLiveProducts(discarded: seq<OutputRange>, count: u32, live: seq<OutputRange>)
    returns (fit: bool)
    ensures fit <==> Spread(discarded, count) && forall l :: l in live ==> FitsLive(discarded, l, count)
  {
    if || (exists i | 0 <= i < |discarded| :: !InOutput(discarded[i], count))
       || (exists i | 0 <= i < |discarded| - 1 :: discarded[i].end > discarded[i + 1].start)
    {
      return false;
    }
    AdjacentSuffices(discarded, count);
    var contiguous := ContiguousRuns(discarded, count);
    for k := 0 to |live|
      invariant forall i :: 0 <= i < k ==> FitsLive(discarded, live[i], count)
    {
      var fits := FitsOne(discarded, contiguous, count, live[k]);
      if !fits {
        assert live[k] in live;
        return false;
      }
    }
    fit := true;
  }

  lemma {:induction false} AdjacentSuffices(ranges: seq<OutputRange>, count: u32)
    requires forall i :: 0 <= i < |ranges| ==> InOutput(ranges[i], count)
    requires forall i :: 0 <= i < |ranges| - 1 ==> ranges[i].end <= ranges[i + 1].start
    ensures Spread(ranges, count)
  {
    for k := 0 to |ranges|
      invariant forall i, j :: 0 <= i < j < k ==> ranges[i].end <= ranges[j].start
    {
      if k > 0 {
        assert ranges[k - 1].end <= ranges[(k - 1) + 1].start;
        assert InOutput(ranges[k - 1], count);
      }
    }
  }

  /* ---------- the ledger ---------- */

  datatype Ledger = Ledger(outputTokenCount: u32, liveOutputs: seq<OutputRange>, discardedOutputs: seq<OutputRange>) {

    ghost predicate Valid() {
      && Sorted(liveOutputs, ByStart)
      && LedgerSpec(outputTokenCount, liveOutputs, discardedOutputs)
    }

    /** `binary_search` on the sorted live ranges. */
    method ContainsLiveOutput(output: OutputRange) returns (found: bool)
      requires Sorted(liveOutputs, ByStart)
      ensures found <==> output in liveOutputs
    {
      var lo, hi := 0, |liveOutputs|;
      while lo < hi
        invariant 0 <= lo <= hi <= |liveOutputs|
        invariant forall i :: 0 <= i < lo ==> liveOutputs[i] != output
        invariant forall i :: hi <= i < |liveOutputs| ==> liveOutputs[i] != output
      {
        var mid := (lo + hi) / 2;
        var probe := liveOutputs[mid];
        assert forall i :: 0 <= i < mid ==> ByStart(liveOutputs[i], probe);
        assert forall i :: mid < i < |liveOutputs| ==> ByStart(probe, liveOutputs[i]);
        if probe == output {
          return true;
        } else if ByStart(probe, output) {
          lo := mid + 1;
        } else {
          hi := mid;
        }
      }
      found := false;
    }
  }

  method SortDedup(live: seq<OutputRange>) returns (r: seq<OutputRange>)
    ensures Sorted(r, ByStart) && forall l :: l in r <==> l in live
    ensures forall i, j :: 0 <= i < j < |r| ==> r[i] != r[j]
  {
    var sorted := SortBy(live, ByStart);
    SortSorts(live, ByStart);
    DedupSorted(sorted, ByStart);
    DedupDistinct(sorted);
    r := Dedup(sorted);
  }

  /** `ValidatedMacroOutputLedger::new` accepts exactly what the quadratic specification accepts. */
  method NewLedger(count: u32, live: seq<OutputRange>, discarded: seq<OutputRange>) returns (r: Option<Ledger>)
    ensures r.Some? <==> LedgerSpec(count, live, discarded)
    ensures r.Some? ==> r.value.Valid() && r.value.outputTokenCount == count
    ensures r.Some? ==> forall l :: l in r.value.liveOutputs <==> l in live
    ensures r.Some? ==>
      forall i, j :: 0 <= i < j < |r.value.liveOutputs| ==> r.value.liveOutputs[i] != r.value.liveOutputs[j]
    ensures r.Some? ==> multiset(r.value.discardedOutputs) == multiset(discarded)
  {
    var liveOutputs := SortDedup(live);
    var laminar := LaminarOutputRanges(liveOutputs);
    SameLaminar(live, liveOutputs);
    if !laminar {
      return None;
    }
    var normalized := NormalizeDiscardedOutputRanges(discarded, count);
    if normalized.None? {
      return None;
    }
    SpecDepends(count, live, liveOutputs, discarded, normalized.value);
    var fit := DiscardedOutputsFitLiveProducts(normalized.value, count, liveOutputs);
    if !fit {
      return None;
    }
    r := Some(Ledger(count, liveOutputs, normalized.value));
  }

  lemma {:induction false} SameLaminar(a: seq<OutputRange>, b: seq<OutputRange>)
    requires forall l :: l in a <==> l in b
    ensures Laminar(a) <==> Laminar(b)
  {
  }

  lemma {:induction false} SameCover(a: seq<OutputRange>, b: seq<OutputRange>, token: nat)
    requires forall d :: d in a <==> d in b
    ensures Covered(a, token) <==> Covered(b, token)
  {
    if Covered(a, token) {
      var i :| 0 <= i < |a| && a[i].start <= token < a[i].end;
      assert a[i] in b;
      var j :| 0 <= j < |b| && b[j] == a[i];
    }
    if Covered(b, token) {
      var i :| 0 <= i < |b| && b[i].start <= token < b[i].end;
      assert b[i] in a;
      var j :| 0 <= j < |a| && a[j] == b[i];
    }
  }

  lemma {:induction false} SpecDepends(count: u32, live: seq<OutputRange>, live': seq<OutputRange>,
                                       discarded: seq<OutputRange>, discarded': seq<OutputRange>)
    requires forall l :: l in live <==> l in live'
    requires multiset(discarded) == multiset(discarded')
    ensures LedgerSpec(count, live, discarded) <==> LedgerSpec(count, live', discarded')
  {
    SameElements(discarded, discarded');
    SameLaminar(live, live');
    forall l: OutputRange
      ensures FullyDiscarded(discarded, l) <==> FullyDiscarded(discarded', l)
    {
      forall token: nat
        ensures Covered(discarded, token) <==> Covered(discarded', token)
      {
        SameCover(discarded, discarded', token);
      }
    }
  }

  /* ---------- token by token ---------- */

  ghost predicate Outside(discarded: seq<OutputRange>, token: nat) {
    forall k :: 0 <= k < |discarded| ==> token < discarded[k].start || discarded[k].end <= token
  }

  /** What a ledger demands: live ranges are laminar, discarded ones apart, and every live one fits. */
  lemma {:induction false} LedgerMeans(count: u32, live: seq<OutputRange>, discarded: seq<OutputRange>)
    ensures LedgerSpec(count, live, discarded) <==>
      && Laminar(live)
      && DisjointOutputs(discarded, count)
      && (forall j :: 0 <= j < |live| ==> FitsLive(discarded, live[j], count))
  {
    hide Laminar;
    hide DisjointOutputs;
    hide FitsLive;
    assert forall j :: 0 <= j < |live| ==> live[j] in live;
  }

  /** A live range fits when it is non-empty and in bounds, every discarded range is apart from it or inside it, and
      some token of it lies outside all of them. */
  lemma {:induction false} FitsMeans(discarded: seq<OutputRange>, live: OutputRange, count: u32)
    ensures FitsLive(discarded, live, count) <==>
      && live.start < live.end <= count
      && (forall i :: 0 <= i < |discarded| ==>
            || discarded[i].end <= live.start || live.end <= discarded[i].start
            || (live.start <= discarded[i].start && discarded[i].end <= live.end))
      && (exists token: nat :: live.start <= token < live.end && Outside(discarded, token))
  {
    forall token: nat
      ensures Covered(discarded, token) <==> !Outside(discarded, token)
    {
    }
    hide Covered;
    hide Outside;
    assert forall i :: 0 <= i < |discarded| ==> discarded[i] in discarded;
  }

  /** Non-empty, and any two apart or one inside the other. */
  lemma {:induction false} LaminarMeans(live: seq<OutputRange>)
    ensures Laminar(live) <==>
      && (forall i :: 0 <= i < |live| ==> live[i].start < live[i].end)
      && (forall i, j :: 0 <= i < j < |live| ==>
            || live[i].end <= live[j].start || live[j].end <= live[i].start
            || (live[i].start <= live[j].start && live[j].end <= live[i].end)
            || (live[j].start <= live[i].start && live[i].end <= live[j].end))
  {
    assert forall i :: 0 <= i < |live| ==> live[i] in live;
  }

  /** Non-empty, in bounds, and any two entries of the list apart. */
  lemma {:induction false} DisjointMeans(discarded: seq<OutputRange>, count: u32)
    ensures DisjointOutputs(discarded, count) <==>
      && (forall i :: 0 <= i < |discarded| ==> discarded[i].start < discarded[i].end <= count)
      && (forall i, j :: 0 <= i < j < |discarded| ==>
            discarded[i].end <= discarded[j].start || discarded[j].end <= discarded[i].start)
  {
    if DisjointOutputs(discarded, count) {
      forall i, j | 0 <= i < j < |discarded|
        ensures Apart(discarded[i], discarded[j])
      {
        if discarded[i] == discarded[j] { TwiceInMultiset(discarded, i, j); }
      }
      assert forall i :: 0 <= i < |discarded| ==> discarded[i] in discarded;
    } else if && (forall i :: 0 <= i < |discarded| ==> InOutput(discarded[i], count))
              && (forall i, j :: 0 <= i < j < |discarded| ==> Apart(discarded[i], discarded[j])) {
      ApartIsDisjoint(discarded, count);
    }
  }

  lemma {:induction false} ApartIsDisjoint(discarded: seq<OutputRange>, count: u32)
    requires forall i :: 0 <= i < |discarded| ==> InOutput(discarded[i], count)
    requires forall i, j :: 0 <= i < j < |discarded| ==> Apart(discarded[i], discarded[j])
    ensures DisjointOutputs(discarded, count)
  {
    forall a | a in discarded
      ensures multiset(discarded)[a] == 1
    {
      MultisetOfDistinct(discarded, a);
    }
    forall a, b | a in discarded && b in discarded && a != b
      ensures Apart(a, b)
    {
      var i :| 0 <= i < |discarded| && discarded[i] == a;
      var j :| 0 <= j < |discarded| && discarded[j] == b;
      assert i < j ==> Apart(discarded[i], discarded[j]);
      assert j < i ==> Apart(discarded[j], discarded[i]);
    }
  }
}
