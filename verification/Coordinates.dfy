/** What `original_range` promises about every rewrite `splice` can return (src/rewrite.rs). */
module Coordinates {
  import opened Wrappers
  import opened Text
  import opened Ordering
  import opened Rewrite

  ghost predicate TiledRewrite(rewrite: SourceRewrite) {
    && |rewrite.source| < U32_LIMIT
    && Tiles(rewrite.pieces, |rewrite.source|, rewrite.originalLen)
    && (forall i :: 0 <= i < |rewrite.pieces| ==>
          rewrite.pieces[i].originalRange.start <= rewrite.pieces[i].originalRange.end)
  }

  /** The piece that holds output byte `k`. */
  lemma {:induction false} HoldingPiece(pieces: seq<SourcePiece>, outputLen: nat, originalEnd: nat, k: nat)
    returns (i: nat)
    requires Tiles(pieces, outputLen, originalEnd) && k < outputLen
    ensures i < |pieces| && pieces[i].outputRange.start <= k < pieces[i].outputRange.end
  {
    var n := |pieces| - 1;
    if pieces[n].outputRange.start <= k {
      i := n;
    } else {
      i := HoldingPiece(pieces[..n], pieces[n].outputRange.start, pieces[n].originalRange.start, k);
    }
  }

  /** Right-biased lookup: an offset before the end maps to the original position of the byte at it,
      the end maps just past the last copied byte, and an empty output maps to 0. */
  lemma {:induction false} RightBiased(rewrite: SourceRewrite, offset: u32)
    requires TiledRewrite(rewrite) && offset <= |rewrite.source|
    ensures
      var p := PieceOffsets(rewrite.pieces);
      && |p| == |rewrite.source|
      && rewrite.OriginalOffset(offset, true) ==
           Ok(if offset < |p| then p[offset] else if p != [] then p[|p| - 1] + 1 else 0)
  {
    var pieces, n := rewrite.pieces, |rewrite.source|;
    PieceOffsetsLength(pieces, n, rewrite.originalLen);
    if offset < n {
      var i := HoldingPiece(pieces, n, rewrite.originalLen, offset);
      var found := rewrite.PieceAt(offset, true);
      assert pieces[i] in pieces;
      var j :| 0 <= j < |pieces| && pieces[j] == found.value;
      TilesFacts(pieces, n, rewrite.originalLen, j);
      PieceOffsetAt(pieces, n, rewrite.originalLen, j, offset);
    } else if n > 0 {
      EndPiece(rewrite);
    }
  }

  lemma {:induction false} EndPiece(rewrite: SourceRewrite)
    requires TiledRewrite(rewrite) && |rewrite.source| > 0
    ensures
      var p := PieceOffsets(rewrite.pieces);
      |p| == |rewrite.source| && rewrite.OriginalOffset(|rewrite.source|, true) == Ok(p[|p| - 1] + 1)
  {
    var pieces, n := rewrite.pieces, |rewrite.source|;
    PieceOffsetsLength(pieces, n, rewrite.originalLen);
    forall p | p in pieces
      ensures p.outputRange.start < p.outputRange.end <= n
    {
      var j :| 0 <= j < |pieces| && pieces[j] == p;
      TilesFacts(pieces, n, rewrite.originalLen, j);
    }
    var last := |pieces| - 1;
    TilesFacts(pieces, n, rewrite.originalLen, last);
    PieceOffsetAt(pieces, n, rewrite.originalLen, last, n - 1);
  }

  /** Left-biased lookup: a positive offset maps just past the byte before it. */
  lemma {:induction false} LeftBiased(rewrite: SourceRewrite, offset: u32)
    requires TiledRewrite(rewrite) && 0 < offset <= |rewrite.source|
    ensures
      var p := PieceOffsets(rewrite.pieces);
      && |p| == |rewrite.source|
      && rewrite.OriginalOffset(offset, false) == Ok(p[offset - 1] + 1)
  {
    var pieces, n := rewrite.pieces, |rewrite.source|;
    PieceOffsetsLength(pieces, n, rewrite.originalLen);
    var i := HoldingPiece(pieces, n, rewrite.originalLen, offset - 1);
    var found := rewrite.PieceAt(offset, false);
    assert pieces[i] in pieces;
    var j :| 0 <= j < |pieces| && pieces[j] == found.value;
    TilesFacts(pieces, n, rewrite.originalLen, j);
    PieceOffsetAt(pieces, n, rewrite.originalLen, j, offset - 1);
  }

  lemma {:induction false} PieceOffsetsAscend(pieces: seq<SourcePiece>, outputLen: nat, originalEnd: nat)
    requires Tiles(pieces, outputLen, originalEnd)
    requires forall j :: 0 <= j < |pieces| ==> pieces[j].originalRange.start <= pieces[j].originalRange.end
    ensures forall k :: 0 <= k < |PieceOffsets(pieces)| ==> PieceOffsets(pieces)[k] < originalEnd
    ensures StrictlyAscending(PieceOffsets(pieces))
  {
    if pieces != [] {
      var n := |pieces| - 1;
      PieceOffsetsAscend(pieces[..n], pieces[n].outputRange.start, pieces[n].originalRange.start);
    }
  }

  /** `original_range` in closed form; it succeeds exactly on the valid ranges of the output. */
  lemma {:induction false} OriginalRangeClosedForm(rewrite: SourceRewrite, range: ByteRange)
    requires TiledRewrite(rewrite)
    ensures rewrite.OriginalRange(range).Ok? <==> ValidRange(rewrite.source, range)
    ensures ValidRange(rewrite.source, range) ==>
      var p, m := PieceOffsets(rewrite.pieces), rewrite.OriginalRange(range).value;
      && |p| == |rewrite.source|
      && m.end <= rewrite.originalLen
      && m.start == (if range.start < |p| then p[range.start] else if p != [] then p[|p| - 1] + 1 else 0)
      && m.end == (if range.start == range.end then m.start else p[range.end - 1] + 1)
  {
    hide SourceRewrite.OriginalOffset;
    hide Tiles;
    hide PieceOffsets;
    hide ValidUtf8;
    if ValidRange(rewrite.source, range) {
      RightBiased(rewrite, range.start);
      PieceOffsetsAscend(rewrite.pieces, |rewrite.source|, rewrite.originalLen);
      if range.start < range.end {
        LeftBiased(rewrite, range.end);
        var p := PieceOffsets(rewrite.pieces);
        assert range.start < range.end - 1 ==> p[range.start] < p[range.end - 1];
      }
    }
  }

  lemma {:induction false} RewriteIsTiled(rewrite: SourceRewrite, original: seq<byte>, deletions: seq<ByteRange>)
    requires Rewrites(rewrite, original, deletions)
    ensures TiledRewrite(rewrite) && |original| == rewrite.originalLen
    ensures PieceOffsets(rewrite.pieces) == Survivors(deletions, 0, |original|)
    ensures rewrite.source == Pick(original, Survivors(deletions, 0, |original|))
  {
  }

  /** `original_range` succeeds on exactly the char-aligned in-bounds ranges and keeps emptiness. */
  lemma {:induction false} OriginalRangeTotal(rewrite: SourceRewrite, range: ByteRange)
    requires TiledRewrite(rewrite)
    ensures rewrite.OriginalRange(range).Ok? <==> ValidRange(rewrite.source, range)
    ensures ValidRange(rewrite.source, range) ==>
      && rewrite.OriginalRange(range).value.end <= rewrite.originalLen
      && rewrite.OriginalRange(range).value.start <= rewrite.OriginalRange(range).value.end
      && (rewrite.OriginalRange(range).value.IsEmpty() <==> range.IsEmpty())
  {
    hide SourceRewrite.OriginalRange;
    OriginalRangeClosedForm(rewrite, range);
    PieceOffsetsAscend(rewrite.pieces, |rewrite.source|, rewrite.originalLen);
    if ValidRange(rewrite.source, range) && range.start < range.end - 1 {
      var p := PieceOffsets(rewrite.pieces);
      assert p[range.start] < p[range.end - 1];
    }
  }

  /** Two different output ranges never share an original range. */
  lemma {:induction false} OriginalRangeInjective(rewrite: SourceRewrite, a: ByteRange, b: ByteRange)
    requires TiledRewrite(rewrite)
    requires rewrite.OriginalRange(a).Ok? && rewrite.OriginalRange(a) == rewrite.OriginalRange(b)
    ensures a == b
  {
    hide SourceRewrite.OriginalRange;
    OriginalRangeTotal(rewrite, a);
    OriginalRangeTotal(rewrite, b);
    OriginalRangeClosedForm(rewrite, a);
    OriginalRangeClosedForm(rewrite, b);
    var p := PieceOffsets(rewrite.pieces);
    PieceOffsetsAscend(rewrite.pieces, |rewrite.source|, rewrite.originalLen);
    assert forall j, k :: 0 <= j < |p| && 0 <= k < |p| && p[j] == p[k] ==> j == k;
    assert forall j :: 0 <= j < |p| ==> p[j] < p[|p| - 1] + 1;
  }

  lemma {:induction false} NonEmptyRange(s: seq<byte>, range: ByteRange)
    requires ValidRange(s, range) && !range.IsEmpty()
    ensures range.start < range.end <= |s|
  {
  }

  /** The surviving part of the mapped original slice is exactly the output slice. */
  lemma {:induction false} OriginalRangeContent(rewrite: SourceRewrite, original: seq<byte>,
                                                deletions: seq<ByteRange>, range: ByteRange)
    returns (m: ByteRange)
    requires Rewrites(rewrite, original, deletions)
    requires ValidRange(rewrite.source, range) && !range.IsEmpty()
    ensures rewrite.OriginalRange(range) == Ok(m)
    ensures m.start < m.end <= |original|
    ensures !Deleted(deletions, m.start) && !Deleted(deletions, m.end - 1)
    ensures Pick(original, Survivors(deletions, m.start, m.end)) == rewrite.source[range.start..range.end]
  {
    hide *;
    NonEmptyRange(rewrite.source, range);
    RewriteIsTiled(rewrite, original, deletions);
    OriginalRangeTotal(rewrite, range);
    OriginalRangeClosedForm(rewrite, range);
    m := rewrite.OriginalRange(range).value;
    ContentOf(original, deletions, Survivors(deletions, 0, |original|), range.start, range.end);
  }

  lemma {:induction false} ContentOf(original: seq<byte>, deletions: seq<ByteRange>, all: seq<nat>, a: nat, b: nat)
    requires all == Survivors(deletions, 0, |original|) && a < b <= |all|
    ensures all[a] <= all[b - 1] < |original|
    ensures !Deleted(deletions, all[a]) && !Deleted(deletions, all[b - 1])
    ensures Pick(original, Survivors(deletions, all[a], all[b - 1] + 1)) == Pick(original, all)[a..b]
  {
    hide Survivors;
    hide Deleted;
    SurvivorsExact(deletions, 0, |original|);
    SurvivorsSlice(deletions, |original|, all, a, b);
    assert all[a] in all && all[b - 1] in all;
    assert Pick(original, all[a..b]) == Pick(original, all)[a..b];
  }

  /** Consecutive survivors `[a, b)` are the survivors of the interval they span. */
  lemma {:induction false} SurvivorsSlice(deletions: seq<ByteRange>, n: nat, all: seq<nat>, a: nat, b: nat)
    requires all == Survivors(deletions, 0, n) && a < b <= |all|
    ensures all[a] <= all[b - 1] < n
    ensures Survivors(deletions, all[a], all[b - 1] + 1) == all[a..b]
  {
    hide Survivors;
    hide Deleted;
    SurvivorsAscend(deletions, 0, n);
    AscendingOrder(all, a, b - 1);
    var lo, hi := all[a], all[b - 1] + 1;
    var left, mid, right := Survivors(deletions, 0, lo), Survivors(deletions, lo, hi), Survivors(deletions, hi, n);
    SurvivorsSplit(deletions, 0, lo, n);
    SurvivorsSplit(deletions, lo, hi, n);
    AppendSplit(all, left, mid, right);
    SliceBetween(all, left, mid, right, a, b);
  }

  lemma {:induction false} AppendSplit(all: seq<nat>, left: seq<nat>, mid: seq<nat>, right: seq<nat>)
    requires all == left + (mid + right)
    ensures all == left + mid + right
  {
  }

  lemma {:induction false} SliceBetween(all: seq<nat>, left: seq<nat>, mid: seq<nat>, right: seq<nat>, a: nat, b: nat)
    requires all == left + mid + right && a < b <= |all| && all[a] <= all[b - 1]
    requires StrictlyAscending(all)
    requires forall k :: 0 <= k < |left| ==> left[k] < all[a]
    requires forall k :: 0 <= k < |mid| ==> all[a] <= mid[k] < all[b - 1] + 1
    requires forall k :: 0 <= k < |right| ==> all[b - 1] + 1 <= right[k]
    ensures all[a..b] == mid
  {
    var lo, hi := all[a], all[b - 1] + 1;
    forall j | 0 <= j < |all|
      ensures (all[j] < lo <==> j < |left|) && (all[j] < hi <==> j < |left| + |mid|)
      ensures (all[j] < lo <==> j < a) && (all[j] < hi <==> j < b)
    {
      if j < |left| { assert all[j] == left[j]; }
      else if j < |left| + |mid| { assert all[j] == mid[j - |left|]; }
      else { assert all[j] == right[j - |left| - |mid|]; }
      AscendingOrder(all, j, a);
      AscendingOrder(all, j, b - 1);
    }
    CountsAgree(all, |left|, a, lo);
    CountsAgree(all, |left| + |mid|, b, hi);
  }

  lemma {:induction false} CountsAgree(s: seq<nat>, x: nat, y: nat, bound: nat)
    requires x <= |s| && y <= |s|
    requires forall j :: 0 <= j < |s| ==> (s[j] < bound <==> j < x)
    requires forall j :: 0 <= j < |s| ==> (s[j] < bound <==> j < y)
    ensures x == y
  {
    assert x < |s| ==> !(s[x] < bound);
    assert y < |s| ==> !(s[y] < bound);
  }

  /** A mapped non-empty range is char-aligned in the original text. */
  lemma {:induction false} OriginalRangeAligned(rewrite: SourceRewrite, original: Utf8, deletions: seq<ByteRange>,
                                                range: ByteRange)
    requires Rewrites(rewrite, original, deletions)
    requires forall d :: d in deletions ==> ValidRange(original, d)
    requires ValidRange(rewrite.source, range) && !range.IsEmpty()
    ensures rewrite.OriginalRange(range).Ok?
    ensures ValidRange(original, rewrite.OriginalRange(range).value)
  {
    hide SourceRewrite.OriginalRange;
    hide Survivors;
    hide Deleted;
    hide ValidUtf8;
    RewriteIsTiled(rewrite, original, deletions);
    OriginalRangeTotal(rewrite, range);
    OriginalRangeClosedForm(rewrite, range);
    StartAligned(original, deletions, range.start);
    EndAligned(original, deletions, range.end);
  }

  lemma {:induction false} StartAligned(original: Utf8, deletions: seq<ByteRange>, k: nat)
    requires k < |Survivors(deletions, 0, |original|)|
    requires ValidUtf8(Pick(original, Survivors(deletions, 0, |original|)))
    requires IsCharBoundary(Pick(original, Survivors(deletions, 0, |original|)), k)
    ensures IsCharBoundary(original, Survivors(deletions, 0, |original|)[k])
  {
    FirstByteLeads(Pick(original, Survivors(deletions, 0, |original|)));
  }

  lemma {:induction false} EndAligned(original: Utf8, deletions: seq<ByteRange>, k: nat)
    requires 0 < k <= |Survivors(deletions, 0, |original|)|
    requires forall d :: d in deletions ==> ValidRange(original, d)
    requires IsCharBoundary(Pick(original, Survivors(deletions, 0, |original|)), k)
    ensures IsCharBoundary(original, Survivors(deletions, 0, |original|)[k - 1] + 1)
  {
    hide Survivors;
    hide Deleted;
    var all := Survivors(deletions, 0, |original|);
    var end := all[k - 1] + 1;
    if end < |original| && !(k < |all| && all[k] == end) {
      DeletionStartsAt(deletions, |original|, k - 1);
    }
  }

  lemma {:induction false} FirstByteLeads(s: seq<byte>)
    requires ValidUtf8(s)
    ensures s != [] ==> !Continuation(s[0])
  {
  }

  /** If the byte after survivor `k` does not survive, a deletion starts right there. */
  lemma {:induction false} DeletionStartsAt(deletions: seq<ByteRange>, n: nat, k: nat)
    requires k < |Survivors(deletions, 0, n)|
    requires var all := Survivors(deletions, 0, n);
      all[k] + 1 < n && (k + 1 < |all| ==> all[k + 1] != all[k] + 1)
    ensures exists d :: d in deletions && d.start == Survivors(deletions, 0, n)[k] + 1 && d.start < d.end
  {
    var all := Survivors(deletions, 0, n);
    SurvivorsExact(deletions, 0, n);
    SurvivorsAscend(deletions, 0, n);
    var p := all[k] + 1;
    assert p !in all by {
      forall j | 0 <= j < |all|
        ensures all[j] != p
      {
        if j > k + 1 { assert all[k] < all[k + 1] < all[j]; }
        if j < k { assert all[j] < all[k]; }
      }
    }
    var i :| 0 <= i < |deletions| && deletions[i].start <= p < deletions[i].end;
    assert !Deleted(deletions, all[k]);
    assert deletions[i] in deletions;
  }

  /** Order and containment of non-empty ranges are kept, in both directions. */
  lemma {:induction false} OriginalRangeMonotone(rewrite: SourceRewrite, a: ByteRange, b: ByteRange)
    requires TiledRewrite(rewrite)
    requires ValidRange(rewrite.source, a) && !a.IsEmpty()
    requires ValidRange(rewrite.source, b) && !b.IsEmpty()
    ensures rewrite.OriginalRange(a).Ok? && rewrite.OriginalRange(b).Ok?
    ensures var m, n := rewrite.OriginalRange(a).value, rewrite.OriginalRange(b).value;
      && (a.end <= b.start <==> m.end <= n.start)
      && (a.Contains(b) <==> m.Contains(n))
  {
    hide SourceRewrite.OriginalRange;
    OriginalRangeClosedForm(rewrite, a);
    OriginalRangeClosedForm(rewrite, b);
    PieceOffsetsAscend(rewrite.pieces, |rewrite.source|, rewrite.originalLen);
    var p := PieceOffsets(rewrite.pieces);
    AscendingOrder(p, a.end - 1, b.start);
    AscendingOrder(p, a.start, b.start);
    AscendingOrder(p, b.end - 1, a.end - 1);
  }

  lemma {:induction false} AscendingOrder(p: seq<nat>, j: nat, k: nat)
    requires j < |p| && k < |p| && StrictlyAscending(p)
    ensures (j < k <==> p[j] < p[k]) && (j <= k <==> p[j] <= p[k])
  {
    if j < k { assert p[j] < p[k]; } else if k < j { assert p[k] < p[j]; }
  }

  /** A position where something was deleted between the byte before and the byte after. */
  ghost predicate AtSeam(rewrite: SourceRewrite, at: nat)
    requires TiledRewrite(rewrite)
  {
    var p := PieceOffsets(rewrite.pieces);
    0 < at < |p| && p[at] != p[at - 1] + 1
  }

  /** An empty range inside a non-empty one stays inside exactly when it does not sit at the end of it
      on a seam, where bytes were deleted between the last byte of the one and the position of the other. */
  lemma {:induction false} EmptyRangeContained(rewrite: SourceRewrite, outer: ByteRange, at: u32)
    requires TiledRewrite(rewrite)
    requires ValidRange(rewrite.source, outer) && !outer.IsEmpty()
    requires outer.start <= at <= outer.end && IsCharBoundary(rewrite.source, at)
    ensures rewrite.OriginalRange(outer).Ok? && rewrite.OriginalRange(ByteRange(at, at)).Ok?
    ensures rewrite.OriginalRange(outer).value.Contains(rewrite.OriginalRange(ByteRange(at, at)).value)
      <==> !(at == outer.end && AtSeam(rewrite, at))
  {
    hide SourceRewrite.OriginalRange;
    OriginalRangeClosedForm(rewrite, outer);
    OriginalRangeClosedForm(rewrite, ByteRange(at, at));
    PieceOffsetsAscend(rewrite.pieces, |rewrite.source|, rewrite.originalLen);
    var p := PieceOffsets(rewrite.pieces);
    assert forall j, k :: 0 <= j < k < |p| ==> p[j] < p[k];
    assert outer.start < at < |p| ==> p[outer.start] < p[at];
    assert at < outer.end - 1 ==> p[at] < p[outer.end - 1];
  }

  /* ---------- the whole pipeline: sort, merge, splice ---------- */

  /** The tail of `rewrite_source`: whatever order and overlap the collected deletions have,
      the result is the original text without exactly their bytes. */
  method ApplyDeletions(source: Utf8, deletions: seq<ByteRange>, boundaries: set<u32>)
    returns (r: Result<SourceRewrite, RewriteError>)
    requires |source| < U32_LIMIT
    ensures r.Ok? <==> forall d :: d in deletions ==> AcceptedDeletion(source, d, boundaries)
    ensures r.Err? ==> r.error == InvalidInventory
    ensures r.Ok? ==> Rewrites(r.value, source, deletions)
  {
    var sorted := SortBy(deletions, RangeLe);
    SortSorts(deletions, RangeLe);
    var merged := MergeDeletions(source, sorted, boundaries);
    match merged {
      case Err(e) => r := Err(e);
      case Ok(ranges) =>
        r := Splice(source, ranges);
        SortedSameBytes(deletions, sorted);
        SurvivorsDepend(deletions, ranges, 0, |source|);
    }
  }

  lemma {:induction false} SortedSameBytes(a: seq<ByteRange>, b: seq<ByteRange>)
    requires forall d :: d in a <==> d in b
    ensures SameDeletedBytes(a, b)
  {
    forall p: nat
      ensures Deleted(a, p) <==> Deleted(b, p)
    {
      if Deleted(a, p) {
        var i :| 0 <= i < |a| && a[i].start <= p < a[i].end;
        assert a[i] in b;
        var j :| 0 <= j < |b| && b[j] == a[i];
        assert b[j].start <= p < b[j].end;
      }
      if Deleted(b, p) {
        var i :| 0 <= i < |b| && b[i].start <= p < b[i].end;
        assert b[i] in a;
        var j :| 0 <= j < |a| && a[j] == b[i];
        assert a[j].start <= p < a[j].end;
      }
    }
  }
}
