/** Deleting byte ranges from a source text, and the piece map that leads every
    output position back to the original (src/rewrite.rs). */
module Rewrite {
  import opened Wrappers
  import opened Text

  datatype RewriteError = InvalidInventory | InvalidRetention | InvalidUseTree

  datatype SourcePiece = SourcePiece(outputRange: ByteRange, originalRange: ByteRange)

  /* ---------- reference view: which original bytes survive ---------- */

  ghost predicate Deleted(deletions: seq<ByteRange>, position: nat) {
    exists i :: 0 <= i < |deletions| && deletions[i].start <= position < deletions[i].end
  }

  /** The positions of `[lo, hi)` outside every deletion, ascending. */
  ghost function Survivors(deletions: seq<ByteRange>, lo: nat, hi: nat): (r: seq<nat>)
    ensures forall k :: 0 <= k < |r| ==> lo <= r[k] < hi
    ensures |r| <= if lo <= hi then hi - lo else 0
    decreases hi
  {
    if hi <= lo then []
    else Survivors(deletions, lo, hi - 1) + if Deleted(deletions, hi - 1) then [] else [hi - 1]
  }

  predicate StrictlyAscending(s: seq<nat>) {
    forall j, k :: 0 <= j < k < |s| ==> s[j] < s[k]
  }

  lemma {:induction false} SurvivorsAscend(deletions: seq<ByteRange>, lo: nat, hi: nat)
    ensures StrictlyAscending(Survivors(deletions, lo, hi))
    decreases hi
  {
    if lo < hi {
      SurvivorsAscend(deletions, lo, hi - 1);
    }
  }

  /** `Survivors` lists exactly the undeleted positions. */
  lemma {:induction false} SurvivorsExact(deletions: seq<ByteRange>, lo: nat, hi: nat)
    ensures forall p :: p in Survivors(deletions, lo, hi) <==> lo <= p < hi && !Deleted(deletions, p)
    decreases hi
  {
    if lo < hi {
      SurvivorsExact(deletions, lo, hi - 1);
      var shorter := Survivors(deletions, lo, hi - 1);
      forall p | lo <= p < hi && !Deleted(deletions, p)
        ensures p in Survivors(deletions, lo, hi)
      {
        if p < hi - 1 { assert p in shorter; }
      }
    }
  }

  function Pick(text: seq<byte>, positions: seq<nat>): (r: seq<byte>)
    requires forall k :: 0 <= k < |positions| ==> positions[k] < |text|
    ensures |r| == |positions|
    ensures forall k :: 0 <= k < |r| ==> r[k] == text[positions[k]]
  {
    seq(|positions|, k requires 0 <= k < |positions| => text[positions[k]])
  }

  /** Every original position a piece list copies, in output order. */
  function PieceOffsets(pieces: seq<SourcePiece>): (r: seq<nat>)
    requires forall i :: 0 <= i < |pieces| ==> pieces[i].originalRange.start <= pieces[i].originalRange.end
  {
    if pieces == [] then []
    else
      var last := pieces[|pieces| - 1].originalRange;
      PieceOffsets(pieces[..|pieces| - 1]) + Interval(last.start, last.end)
  }

  function Interval(lo: nat, hi: nat): (r: seq<nat>)
    requires lo <= hi
    ensures |r| == hi - lo && forall k :: 0 <= k < |r| ==> r[k] == lo + k
  {
    seq(hi - lo, k requires 0 <= k => lo + k)
  }

  /** Pieces are non-empty, tile `[0, outputLen)`, keep lengths and advance through the original. */
  predicate Tiles(pieces: seq<SourcePiece>, outputLen: nat, originalEnd: nat)
  {
    if pieces == [] then outputLen == 0
    else
      var piece := pieces[|pieces| - 1];
      && piece.outputRange.start < piece.outputRange.end == outputLen
      && piece.originalRange.start < piece.originalRange.end <= originalEnd
      && piece.outputRange.end - piece.outputRange.start == piece.originalRange.end - piece.originalRange.start
      && Tiles(pieces[..|pieces| - 1], piece.outputRange.start, piece.originalRange.start)
  }

  lemma {:induction false} TilesFacts(pieces: seq<SourcePiece>, outputLen: nat, originalEnd: nat, i: nat)
    requires Tiles(pieces, outputLen, originalEnd) && i < |pieces|
    ensures pieces[i].outputRange.start < pieces[i].outputRange.end <= outputLen
    ensures pieces[i].originalRange.start < pieces[i].originalRange.end <= originalEnd
    ensures pieces[i].outputRange.Len() == pieces[i].originalRange.Len()
    ensures i == 0 ==> pieces[i].outputRange.start == 0
    ensures i > 0 ==> pieces[i].outputRange.start == pieces[i - 1].outputRange.end
    ensures i > 0 ==> pieces[i].originalRange.start >= pieces[i - 1].originalRange.end
    ensures i == |pieces| - 1 ==> pieces[i].outputRange.end == outputLen
  {
    var n := |pieces| - 1;
    if i < n {
      TilesFacts(pieces[..n], pieces[n].outputRange.start, pieces[n].originalRange.start, i);
    } else if n > 0 {
      TilesFacts(pieces[..n], pieces[n].outputRange.start, pieces[n].originalRange.start, n - 1);
    }
  }

  /** The reference meaning of a piece map: output byte `k` of piece `i` comes from position `k` of `PieceOffsets`. */
  lemma {:induction false} PieceOffsetAt(pieces: seq<SourcePiece>, outputLen: nat, originalEnd: nat, i: nat, k: nat)
    requires Tiles(pieces, outputLen, originalEnd) && i < |pieces|
    requires pieces[i].outputRange.start <= k < pieces[i].outputRange.end
    requires forall j :: 0 <= j < |pieces| ==> pieces[j].originalRange.start <= pieces[j].originalRange.end
    ensures k < outputLen == |PieceOffsets(pieces)|
    ensures PieceOffsets(pieces)[k] == pieces[i].originalRange.start + k - pieces[i].outputRange.start
  {
    var n := |pieces| - 1;
    var piece, init := pieces[n], pieces[..n];
    PieceOffsetsLength(pieces, outputLen, originalEnd);
    PieceOffsetsLength(init, piece.outputRange.start, piece.originalRange.start);
    if i < n {
      TilesFacts(init, piece.outputRange.start, piece.originalRange.start, i);
      PieceOffsetAt(init, piece.outputRange.start, piece.originalRange.start, i, k);
    }
  }

  lemma {:induction false} PieceOffsetsLength(pieces: seq<SourcePiece>, outputLen: nat, originalEnd: nat)
    requires Tiles(pieces, outputLen, originalEnd)
    requires forall j :: 0 <= j < |pieces| ==> pieces[j].originalRange.start <= pieces[j].originalRange.end
    ensures |PieceOffsets(pieces)| == outputLen
  {
    if pieces != [] {
      var n := |pieces| - 1;
      PieceOffsetsLength(pieces[..n], pieces[n].outputRange.start, pieces[n].originalRange.start);
    }
  }

  /* ---------- the rewrite and its coordinate map ---------- */

  function FindFirst(pieces: seq<SourcePiece>, test: SourcePiece -> bool): (r: Option<SourcePiece>)
    ensures r.Some? ==> r.value in pieces && test(r.value)
    ensures r.None? ==> forall p :: p in pieces ==> !test(p)
  {
    if pieces == [] then None
    else if test(pieces[0]) then Some(pieces[0])
    else FindFirst(pieces[1..], test)
  }

  function FindLast(pieces: seq<SourcePiece>, test: SourcePiece -> bool): (r: Option<SourcePiece>)
    ensures r.Some? ==> r.value in pieces && test(r.value)
    ensures r.None? ==> forall p :: p in pieces ==> !test(p)
  {
    if pieces == [] then None
    else
      var last := pieces[|pieces| - 1];
      if test(last) then Some(last) else FindLast(pieces[..|pieces| - 1], test)
  }

  datatype SourceRewrite = SourceRewrite(source: Utf8, pieces: seq<SourcePiece>, originalLen: u32) {

    function PieceAt(offset: u32, rightBiased: bool): Option<SourcePiece> {
      if rightBiased then
        var holding := FindFirst(pieces, (p: SourcePiece) => p.outputRange.start <= offset < p.outputRange.end);
        if holding.Some? then holding
        else
          var starting := FindFirst(pieces, (p: SourcePiece) => p.outputRange.start == offset);
          if starting.Some? then starting
          else if pieces != [] && pieces[|pieces| - 1].outputRange.end == offset then Some(pieces[|pieces| - 1])
          else None
      else
        var holding := FindFirst(pieces, (p: SourcePiece) => p.outputRange.start < offset <= p.outputRange.end);
        if holding.Some? then holding
        else FindLast(pieces, (p: SourcePiece) => p.outputRange.end == offset)
    }

    function OriginalOffset(offset: u32, rightBiased: bool): Result<u32, RewriteError> {
      match PieceAt(offset, rightBiased)
      case None =>
        if offset == 0 && pieces == [] then Ok(0) else Err(InvalidInventory)
      case Some(piece) =>
        // `offset - start` cannot underflow in any branch of PieceAt
        var mapped := piece.originalRange.start + (offset - piece.outputRange.start);
        if 0 <= mapped < U32_LIMIT then Ok(mapped) else Err(InvalidInventory)
    }

    function OriginalRange(range: ByteRange): Result<ByteRange, RewriteError> {
      if |source| >= U32_LIMIT || !ValidRange(source, range) then Err(InvalidInventory)
      else
        match OriginalOffset(range.start, true)
        case Err(e) => Err(e)
        case Ok(start) =>
          match OriginalOffset(range.end, range.start == range.end)
          case Err(e) => Err(e)
          case Ok(end) => if start <= end then Ok(ByteRange(start, end)) else Err(InvalidInventory)
    }

    function OriginalCrateRange(range: ByteRange): Result<ByteRange, RewriteError> {
      if |source| >= U32_LIMIT || range != ByteRange(0, |source|) then Err(InvalidInventory)
      else Ok(ByteRange(0, originalLen))
    }

    /** `valid_piece_map`, a cursor walk over the pieces. */
    method ValidPieceMap(sourceLen: u32) returns (valid: bool)
      ensures valid <==> Tiles(pieces, sourceLen, originalLen)
    {
      var outputCursor: u32, originalCursor: u32 := 0, 0;
      var i := 0;
      assert Tiles(pieces[..0], 0, 0);
      while i < |pieces|
        invariant 0 <= i <= |pieces|
        invariant 0 <= outputCursor && 0 <= originalCursor
        invariant i == 0 ==> outputCursor == 0 && originalCursor == 0
        invariant originalCursor <= originalLen
        invariant Tiles(pieces[..i], outputCursor, originalCursor)
        invariant i > 0 ==>
          pieces[i - 1].outputRange.end == outputCursor && pieces[i - 1].originalRange.end == originalCursor
      {
        var piece := pieces[i];
        ghost var next := pieces[..i + 1];
        assert next[..i] == pieces[..i];
        if || piece.outputRange.start != outputCursor
           || piece.outputRange.start >= piece.outputRange.end
           || piece.originalRange.start >= piece.originalRange.end
           || piece.outputRange.Len() != piece.originalRange.Len()
           || piece.originalRange.start < originalCursor
           || piece.originalRange.end > originalLen
        {
          if Tiles(pieces, sourceLen, originalLen) {
            TilesFacts(pieces, sourceLen, originalLen, i);
            assert false;
          }
          return false;
        }
        TilesWiden(pieces[..i], outputCursor, originalCursor, piece.originalRange.start);
        outputCursor := piece.outputRange.end;
        originalCursor := piece.originalRange.end;
        i := i + 1;
      }
      assert pieces[..i] == pieces;
      TilesWiden(pieces, outputCursor, originalCursor, originalLen);
      valid := outputCursor == sourceLen && (sourceLen == 0 || pieces != []);
    }
  }

  lemma {:induction false} TilesWiden(pieces: seq<SourcePiece>, outputLen: nat, originalEnd: nat, wider: nat)
    requires Tiles(pieces, outputLen, originalEnd) && originalEnd <= wider
    ensures Tiles(pieces, outputLen, wider)
  {
  }

  /* ---------- merging and splicing ---------- */

  predicate RangeLe(a: ByteRange, b: ByteRange) {
    a.start < b.start || (a.start == b.start && a.end <= b.end)
  }

  predicate AcceptedDeletion(source: seq<byte>, deletion: ByteRange, boundaries: set<u32>) {
    && deletion.start != deletion.end
    && ValidRange(source, deletion)
    && deletion.start in boundaries
    && deletion.end in boundaries
  }

  /** Non-empty valid ranges in ascending order, disjoint; `splice` accepts touching ones. */
  predicate Ascending(source: seq<byte>, deletions: seq<ByteRange>) {
    && (forall i :: 0 <= i < |deletions| ==> !deletions[i].IsEmpty() && ValidRange(source, deletions[i]))
    && (forall i, j :: 0 <= i < j < |deletions| ==> deletions[i].end <= deletions[j].start)
  }

  predicate StrictGaps(deletions: seq<ByteRange>) {
    forall i, j :: 0 <= i < j < |deletions| ==> deletions[i].end < deletions[j].start
  }

  ghost predicate SameDeletedBytes(a: seq<ByteRange>, b: seq<ByteRange>) {
    forall p: nat :: Deleted(a, p) <==> Deleted(b, p)
  }

  /** One turn of the merging loop: widen the last range or start a new one. */
  function Absorb(merged: seq<ByteRange>, deletion: ByteRange): seq<ByteRange> {
    var last := |merged| - 1;
    if merged != [] && deletion.start <= merged[last].end then
      merged[last := ByteRange(merged[last].start,
                               if merged[last].end >= deletion.end then merged[last].end else deletion.end)]
    else merged + [deletion]
  }

  lemma {:induction false} AbsorbKeepsShape(source: seq<byte>, merged: seq<ByteRange>, deletion: ByteRange)
    requires Ascending(source, merged) && StrictGaps(merged)
    requires !deletion.IsEmpty() && ValidRange(source, deletion)
    requires merged != [] ==> merged[|merged| - 1].start <= deletion.start
    ensures Ascending(source, Absorb(merged, deletion)) && StrictGaps(Absorb(merged, deletion))
    ensures Absorb(merged, deletion) != []
    ensures Absorb(merged, deletion)[|Absorb(merged, deletion)| - 1].start <= deletion.start
  {
    hide ValidRange;
    var r := Absorb(merged, deletion);
    var last := |r| - 1;
    assert last > 0 ==> r[last - 1] == merged[last - 1];
    forall i | 0 <= i < |r|
      ensures !r[i].IsEmpty() && ValidRange(source, r[i])
    {
      if i == last { WidenedIsValid(source, merged, deletion); } else { assert r[i] == merged[i]; }
    }
    forall i, j | 0 <= i < j < |r|
      ensures r[i].end < r[j].start
    {
      assert r[i] == merged[i];
      if j < last || |r| == |merged| { assert r[j].start == merged[j].start; }
      else {
        assert merged[last - 1].end < deletion.start;
        assert i < last - 1 ==> merged[i].end < merged[last - 1].start;
        LastEnds(source, merged, i);
      }
    }
  }

  lemma {:induction false} WidenedIsValid(source: seq<byte>, merged: seq<ByteRange>, deletion: ByteRange)
    requires Ascending(source, merged) && !deletion.IsEmpty() && ValidRange(source, deletion)
    requires merged != [] ==> merged[|merged| - 1].start <= deletion.start
    ensures Absorb(merged, deletion) != []
    ensures !Absorb(merged, deletion)[|Absorb(merged, deletion)| - 1].IsEmpty()
    ensures ValidRange(source, Absorb(merged, deletion)[|Absorb(merged, deletion)| - 1])
  {
  }

  lemma {:induction false} LastEnds(source: seq<byte>, merged: seq<ByteRange>, i: nat)
    requires Ascending(source, merged) && i < |merged|
    ensures merged[i].end <= merged[|merged| - 1].end
  {
    var last := |merged| - 1;
    assert ValidRange(source, merged[last]);
    if i < last { assert merged[i].end <= merged[last].start; }
  }

  lemma {:induction false} AbsorbKeepsBytes(merged: seq<ByteRange>, deletion: ByteRange, p: nat)
    requires merged != [] ==> merged[|merged| - 1].start <= deletion.start
    ensures Deleted(Absorb(merged, deletion), p) <==> Deleted(merged, p) || deletion.start <= p < deletion.end
  {
    var r := Absorb(merged, deletion);
    var last := |merged| - 1;
    if Deleted(merged, p) {
      var i :| 0 <= i < |merged| && merged[i].start <= p < merged[i].end;
      assert r[i].start <= p < r[i].end;
    }
    if deletion.start <= p < deletion.end {
      assert r[|r| - 1].start <= p < r[|r| - 1].end;
    }
    if Deleted(r, p) {
      var i :| 0 <= i < |r| && r[i].start <= p < r[i].end;
      if i < last { assert merged[i] == r[i]; }
      else if i == last && p < merged[last].end { assert merged[last].start <= p; }
    }
  }

  lemma {:induction false} DeletedByPrefix(deletions: seq<ByteRange>, k: nat, p: nat)
    requires k < |deletions|
    ensures Deleted(deletions[..k + 1], p) <==> Deleted(deletions[..k], p) || deletions[k].start <= p < deletions[k].end
  {
    var longer, shorter := deletions[..k + 1], deletions[..k];
    if Deleted(shorter, p) {
      var i :| 0 <= i < k && shorter[i].start <= p < shorter[i].end;
      assert longer[i] == shorter[i];
    }
    if deletions[k].start <= p < deletions[k].end { assert longer[k] == deletions[k]; }
    if Deleted(longer, p) {
      var i :| 0 <= i < k + 1 && longer[i].start <= p < longer[i].end;
      if i < k { assert shorter[i] == longer[i]; }
    }
  }

  lemma {:induction false} AbsorbSameBytes(deletions: seq<ByteRange>, k: nat, merged: seq<ByteRange>)
    requires k < |deletions| && SameDeletedBytes(deletions[..k], merged)
    requires merged != [] ==> merged[|merged| - 1].start <= deletions[k].start
    ensures SameDeletedBytes(deletions[..k + 1], Absorb(merged, deletions[k]))
  {
    forall p: nat
      ensures Deleted(deletions[..k + 1], p) <==> Deleted(Absorb(merged, deletions[k]), p)
    {
      DeletedByPrefix(deletions, k, p);
      AbsorbKeepsBytes(merged, deletions[k], p);
    }
  }

  method MergeDeletions(source: Utf8, deletions: seq<ByteRange>, boundaries: set<u32>)
    returns (r: Result<seq<ByteRange>, RewriteError>)
    requires forall i, j :: 0 <= i < j < |deletions| ==> RangeLe(deletions[i], deletions[j])
    ensures r.Ok? <==> forall d :: d in deletions ==> AcceptedDeletion(source, d, boundaries)
    ensures r.Ok? <==> forall d :: d in deletions ==>
      && d.start < d.end <= |source| && IsCharBoundary(source, d.start) && IsCharBoundary(source, d.end)
      && d.start in boundaries && d.end in boundaries
    ensures r.Err? ==> r.error == InvalidInventory
    ensures r.Ok? ==> Ascending(source, r.value)
    ensures r.Ok? ==> forall i, j :: 0 <= i < j < |r.value| ==> r.value[i].end < r.value[j].start
    ensures r.Ok? ==> SameDeletedBytes(deletions, r.value)
  {
    var merged: seq<ByteRange> := [];
    for k := 0 to |deletions|
      invariant forall i :: 0 <= i < k ==> AcceptedDeletion(source, deletions[i], boundaries)
      invariant Ascending(source, merged) && StrictGaps(merged)
      invariant merged != [] ==> k > 0 && merged[|merged| - 1].start <= deletions[k - 1].start
      invariant SameDeletedBytes(deletions[..k], merged)
    {
      var deletion := deletions[k];
      if !AcceptedDeletion(source, deletion, boundaries) {
        return Err(InvalidInventory);
      }
      assert k > 0 ==> RangeLe(deletions[k - 1], deletion);
      AbsorbKeepsShape(source, merged, deletion);
      AbsorbSameBytes(deletions, k, merged);
      merged := Absorb(merged, deletion);
    }
    assert deletions[..|deletions|] == deletions;
    r := Ok(merged);
  }

  /** What a rewrite of `original` by `deletions` must be, whatever way it was computed. */
  ghost predicate Rewrites(rewrite: SourceRewrite, original: seq<byte>, deletions: seq<ByteRange>) {
    var kept := Survivors(deletions, 0, |original|);
    && |original| == rewrite.originalLen
    && rewrite.source == Pick(original, kept)
    && Tiles(rewrite.pieces, |rewrite.source|, rewrite.originalLen)
    && (forall i :: 0 <= i < |rewrite.pieces| ==>
          rewrite.pieces[i].originalRange.start <= rewrite.pieces[i].originalRange.end)
    && PieceOffsets(rewrite.pieces) == kept
  }

  lemma {:induction false} SurvivorsSplit(deletions: seq<ByteRange>, lo: nat, mid: nat, hi: nat)
    requires lo <= mid <= hi
    ensures Survivors(deletions, lo, hi) == Survivors(deletions, lo, mid) + Survivors(deletions, mid, hi)
    decreases hi
  {
    if mid < hi {
      SurvivorsSplit(deletions, lo, mid, hi - 1);
    }
  }

  lemma {:induction false} SurvivorsAllKept(deletions: seq<ByteRange>, lo: nat, hi: nat)
    requires lo <= hi && forall p :: lo <= p < hi ==> !Deleted(deletions, p)
    ensures Survivors(deletions, lo, hi) == Interval(lo, hi)
    decreases hi
  {
    if lo < hi {
      SurvivorsAllKept(deletions, lo, hi - 1);
      assert Interval(lo, hi) == Interval(lo, hi - 1) + [hi - 1];
    }
  }

  lemma {:induction false} SurvivorsAllDeleted(deletions: seq<ByteRange>, lo: nat, hi: nat)
    requires lo <= hi && forall p :: lo <= p < hi ==> Deleted(deletions, p)
    ensures Survivors(deletions, lo, hi) == []
    decreases hi
  {
    if lo < hi {
      SurvivorsAllDeleted(deletions, lo, hi - 1);
    }
  }

  lemma {:induction false} SurvivorsDepend(a: seq<ByteRange>, b: seq<ByteRange>, lo: nat, hi: nat)
    requires SameDeletedBytes(a, b)
    ensures Survivors(a, lo, hi) == Survivors(b, lo, hi)
    decreases hi
  {
    if lo < hi {
      SurvivorsDepend(a, b, lo, hi - 1);
    }
  }

  /** `append_piece`: copies `[start, end)` of the original, and records where it went. */
  method AppendPiece(source: Utf8, output: Utf8, pieces: seq<SourcePiece>, start: u32, end: u32)
    returns (r: Result<(Utf8, seq<SourcePiece>), RewriteError>)
    ensures r.Ok?
      <==> start == end || (ValidRange(source, ByteRange(start, end)) && |output| + (end - start) < U32_LIMIT)
    ensures r.Err? ==> r.error == InvalidInventory
    ensures r.Ok? && start == end ==> r.value == (output, pieces)
    ensures r.Ok? && start != end ==>
      && r.value.0 == output + source[start..end]
      && r.value.1 == pieces + [SourcePiece(ByteRange(|output|, |r.value.0|), ByteRange(start, end))]
  {
    if start == end {
      return Ok((output, pieces));
    }
    if !ValidRange(source, ByteRange(start, end)) {
      return Err(InvalidInventory);
    }
    SliceUtf8(source, start, end);
    ConcatUtf8(output, source[start..end]);
    var grown: Utf8 := output + source[start..end];
    if |output| >= U32_LIMIT || |grown| >= U32_LIMIT {
      return Err(InvalidInventory);
    }
    r := Ok((grown, pieces + [SourcePiece(ByteRange(|output|, |grown|), ByteRange(start, end))]));
  }

  /** The output so far is the surviving part of `[0, cursor)` and the pieces say where it came from. */
  ghost predicate Copied(source: seq<byte>, deletions: seq<ByteRange>, output: seq<byte>, pieces: seq<SourcePiece>,
                         cursor: nat) {
    && cursor <= |source|
    && Tiles(pieces, |output|, cursor)
    && (forall i :: 0 <= i < |pieces| ==> pieces[i].originalRange.start <= pieces[i].originalRange.end)
    && PieceOffsets(pieces) == Survivors(deletions, 0, cursor)
    && output == Pick(source, Survivors(deletions, 0, cursor))
  }

  lemma {:induction false} AppendCopied(source: seq<byte>, deletions: seq<ByteRange>, output: seq<byte>,
                                        pieces: seq<SourcePiece>, start: nat, end: nat, piece: SourcePiece)
    requires Copied(source, deletions, output, pieces, start) && start < end <= |source|
    requires Survivors(deletions, start, end) == Interval(start, end)
    requires piece.originalRange.start == start && piece.originalRange.end == end
    requires piece.outputRange.start == |output| && piece.outputRange.end == |output| + (end - start)
    ensures Copied(source, deletions, output + source[start..end], pieces + [piece], end)
  {
    var more := pieces + [piece];
    assert more[..|more| - 1] == pieces;
    SurvivorsSplit(deletions, 0, start, end);
    hide Survivors;
    PickInterval(source, Survivors(deletions, 0, start), start, end);
    hide Pick;
    assert Tiles(more, |output| + (end - start), end);
    assert PieceOffsets(more) == PieceOffsets(pieces) + Interval(start, end);
  }

  lemma {:induction false} PickInterval(source: seq<byte>, positions: seq<nat>, start: nat, end: nat)
    requires start < end <= |source| && forall k :: 0 <= k < |positions| ==> positions[k] < |source|
    ensures Pick(source, positions + Interval(start, end)) == Pick(source, positions) + source[start..end]
  {
  }

  lemma {:induction false} SkipCopied(source: seq<byte>, deletions: seq<ByteRange>, output: seq<byte>,
                                      pieces: seq<SourcePiece>, start: nat, end: nat)
    requires Copied(source, deletions, output, pieces, start) && start <= end <= |source|
    requires Survivors(deletions, start, end) == []
    ensures Copied(source, deletions, output, pieces, end)
  {
    SurvivorsSplit(deletions, 0, start, end);
    TilesWiden(pieces, |output|, start, end);
  }

  /** The validating loop at the head of `splice`. */
  method CheckAscending(source: Utf8, deletions: seq<ByteRange>) returns (ok: bool)
    ensures ok <==> Ascending(source, deletions)
  {
    var previousEnd: u32 := 0;
    for i := 0 to |deletions|
      invariant forall j :: 0 <= j < i ==> !deletions[j].IsEmpty() && ValidRange(source, deletions[j])
      invariant forall j :: 0 <= j < i ==> deletions[j].end <= previousEnd
      invariant forall j, k :: 0 <= j < k < i ==> deletions[j].end <= deletions[k].start
      invariant previousEnd == if i == 0 then 0 else deletions[i - 1].end
    {
      var deletion := deletions[i];
      if deletion.start < previousEnd || deletion.IsEmpty() || !ValidRange(source, deletion) {
        return false;
      }
      previousEnd := deletion.end;
    }
    ok := true;
  }

  /** The copying loop of `splice`. */
  method CopySurvivors(source: Utf8, deletions: seq<ByteRange>) returns (output: Utf8, pieces: seq<SourcePiece>)
    requires |source| < U32_LIMIT && Ascending(source, deletions)
    ensures Copied(source, deletions, output, pieces, |source|)
  {
    output, pieces := [], [];
    var cursor: u32 := 0;
    for i := 0 to |deletions|
      invariant cursor == if i == 0 then 0 else deletions[i - 1].end
      invariant Copied(source, deletions, output, pieces, cursor)
    {
      output, pieces, cursor := SpliceStep(source, deletions, i, output, pieces, cursor);
    }
    output, pieces := CopyTail(source, deletions, output, pieces, cursor);
  }

  method CopyTail(source: Utf8, deletions: seq<ByteRange>, output: Utf8, pieces: seq<SourcePiece>, cursor: u32)
    returns (output': Utf8, pieces': seq<SourcePiece>)
    requires |source| < U32_LIMIT && Ascending(source, deletions)
    requires cursor == if |deletions| == 0 then 0 else deletions[|deletions| - 1].end
    requires Copied(source, deletions, output, pieces, cursor)
    ensures Copied(source, deletions, output', pieces', |source|)
  {
    GapSurvives(source, deletions, |deletions|);
    var step := AppendPiece(source, output, pieces, cursor, |source|);
    output', pieces' := step.value.0, step.value.1;
    if cursor != |source| {
      AppendCopied(source, deletions, output, pieces, cursor, |source|, pieces'[|pieces|]);
    }
  }

  method Splice(source: Utf8, deletions: seq<ByteRange>) returns (r: Result<SourceRewrite, RewriteError>)
    ensures r.Ok? <==>
      && |source| < U32_LIMIT
      && (forall i :: 0 <= i < |deletions| ==>
            && deletions[i].start < deletions[i].end <= |source|
            && IsCharBoundary(source, deletions[i].start) && IsCharBoundary(source, deletions[i].end))
      && forall i, j :: 0 <= i < j < |deletions| ==> deletions[i].end <= deletions[j].start
    ensures r.Err? ==> r.error == InvalidInventory
    ensures r.Ok? ==> Rewrites(r.value, source, deletions)
  {
    if |source| >= U32_LIMIT {
      return Err(InvalidInventory);
    }
    var ascending := CheckAscending(source, deletions);
    if !ascending {
      return Err(InvalidInventory);
    }
    var output, pieces := CopySurvivors(source, deletions);
    var rewrite := SourceRewrite(output, pieces, |source|);
    var valid := rewrite.ValidPieceMap(|rewrite.source|);
    if !valid {
      return Err(InvalidInventory);
    }
    r := Ok(rewrite);
  }

  /** One turn of the copying loop: the gap before deletion `i` is copied, the deletion is skipped. */
  method SpliceStep(source: Utf8, deletions: seq<ByteRange>, i: nat, output: Utf8, pieces: seq<SourcePiece>,
                    cursor: u32)
    returns (output': Utf8, pieces': seq<SourcePiece>, cursor': u32)
    requires |source| < U32_LIMIT && Ascending(source, deletions) && i < |deletions|
    requires cursor == if i == 0 then 0 else deletions[i - 1].end
    requires Copied(source, deletions, output, pieces, cursor)
    ensures cursor' == deletions[i].end
    ensures Copied(source, deletions, output', pieces', cursor')
  {
    var deletion := deletions[i];
    GapSurvives(source, deletions, i);
    var step := AppendPiece(source, output, pieces, cursor, deletion.start);
    output', pieces' := step.value.0, step.value.1;
    if cursor != deletion.start {
      AppendCopied(source, deletions, output, pieces, cursor, deletion.start, pieces'[|pieces|]);
    }
    SkipCopied(source, deletions, output', pieces', deletion.start, deletion.end);
    cursor' := deletion.end;
  }

  /** Between two consecutive deletions every byte survives; inside a deletion none does. */
  lemma {:induction false} GapSurvives(source: seq<byte>, deletions: seq<ByteRange>, i: nat)
    requires Ascending(source, deletions) && i <= |deletions|
    ensures
      var from := if i == 0 then 0 else deletions[i - 1].end;
      var to := if i == |deletions| then |source| else deletions[i].start;
      from <= to && Survivors(deletions, from, to) == Interval(from, to)
    ensures i < |deletions| ==> Survivors(deletions, deletions[i].start, deletions[i].end) == []
  {
    var from := if i == 0 then 0 else deletions[i - 1].end;
    var to := if i == |deletions| then |source| else deletions[i].start;
    forall p: nat | from <= p < to
      ensures !Deleted(deletions, p)
    {
      forall j | 0 <= j < |deletions|
        ensures !(deletions[j].start <= p < deletions[j].end)
      {
        if j < i { assert deletions[j].end <= from; } else { assert to <= deletions[j].start; }
      }
    }
    SurvivorsAllKept(deletions, from, to);
    if i < |deletions| {
      SurvivorsAllDeleted(deletions, deletions[i].start, deletions[i].end);
    }
  }
}
