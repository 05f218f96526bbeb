/** Source text: the bytes of a Rust `String`, its char boundaries, and half-open byte ranges.
    A text is always well-formed UTF-8 in the sense of RFC 3629, sections 3 and 4. */
module Text {

  const U32_LIMIT: nat := 0x1_0000_0000

  type u32 = x: int | 0 <= x < 0x1_0000_0000

  /** UTF-8 well-formedness keeps every element of a text below 0xF5. */
  type byte = int

  datatype ByteRange = ByteRange(start: u32, end: u32) {

    predicate Contains(other: ByteRange) {
      start <= other.start && other.end <= end
    }

    function Len(): u32
      requires start <= end
    {
      end - start
    }

    predicate IsEmpty() {
      start == end
    }
  }

  predicate Continuation(b: byte) {
    128 <= b < 192
  }

  /** Width announced by a lead byte; 0 when the byte cannot lead a character. */
  function CharWidth(lead: byte): (n: nat)
    ensures n <= 4
  {
    if 0 <= lead < 0x80 then 1
    else if 0xC2 <= lead < 0xE0 then 2
    else if 0xE0 <= lead < 0xF0 then 3
    else if 0xF0 <= lead < 0xF5 then 4
    else 0
  }

  /** One character of RFC 3629's grammar, section 4. */
  predicate WellFormedChar(c: seq<byte>) {
    && |c| > 0
    && |c| == CharWidth(c[0])
    && (forall i :: 1 <= i < |c| ==> Continuation(c[i]))
    && (c[0] == 0xE0 ==> c[1] >= 0xA0)
    && (c[0] == 0xED ==> c[1] < 0xA0)
    && (c[0] == 0xF0 ==> c[1] >= 0x90)
    && (c[0] == 0xF4 ==> c[1] < 0x90)
  }

  predicate ValidUtf8(s: seq<byte>) {
    s != [] ==>
      var n := CharWidth(s[0]);
      0 < n <= |s| && WellFormedChar(s[..n]) && ValidUtf8(s[n..])
  }

  type Utf8 = s: seq<byte> | ValidUtf8(s) witness []

  /** `str::is_char_boundary`. */
  predicate IsCharBoundary(s: seq<byte>, i: int) {
    i == 0 || i == |s| || (0 < i < |s| && !Continuation(s[i]))
  }

  /** `valid_range` of src/rewrite.rs: in bounds, ordered, on char boundaries. */
  predicate ValidRange(s: seq<byte>, range: ByteRange) {
    && range.start <= range.end <= |s|
    && IsCharBoundary(s, range.start)
    && IsCharBoundary(s, range.end)
  }

  /** No boundary falls strictly inside the first character. */
  lemma {:induction false} BoundaryAfterFirst(s: seq<byte>, i: nat)
    requires s != [] && ValidUtf8(s) && 0 < i <= |s| && IsCharBoundary(s, i)
    ensures CharWidth(s[0]) <= i
  {
    var c := s[..CharWidth(s[0])];
    assert forall k :: 1 <= k < |c| ==> Continuation(c[k]) && c[k] == s[k];
  }

  lemma {:induction false} SplitUtf8(s: seq<byte>, i: nat)
    requires ValidUtf8(s) && i <= |s| && IsCharBoundary(s, i)
    ensures ValidUtf8(s[..i]) && ValidUtf8(s[i..])
    decreases |s|
  {
    if i == 0 {
      assert s[..i] == [] && s[i..] == s;
    } else {
      BoundaryAfterFirst(s, i);
      hide ValidUtf8;
      hide WellFormedChar;
      var c, t := FirstChar(s);
      var k := i - |c|;
      assert k < |t| ==> t[k] == s[i];
      SplitUtf8(t, k);
      PrependUtf8(c, t[..k]);
      SliceConcat(c, t, i);
    }
  }

  lemma {:induction false} SliceConcat<T>(c: seq<T>, t: seq<T>, i: nat)
    requires |c| <= i <= |c| + |t|
    ensures (c + t)[..i] == c + t[..i - |c|] && (c + t)[i..] == t[i - |c|..]
  {
  }

  lemma {:induction false} PrependUtf8(c: seq<byte>, t: seq<byte>)
    requires c != [] && |c| == CharWidth(c[0]) && WellFormedChar(c) && ValidUtf8(t)
    ensures ValidUtf8(c + t)
  {
    assert (c + t)[..|c|] == c && (c + t)[|c|..] == t;
  }

  lemma {:induction false} FirstChar(s: seq<byte>) returns (c: seq<byte>, rest: seq<byte>)
    requires s != [] && ValidUtf8(s)
    ensures s == c + rest && c != [] && |c| == CharWidth(s[0]) && c[0] == s[0] && WellFormedChar(c) && ValidUtf8(rest)
  {
    c, rest := s[..CharWidth(s[0])], s[CharWidth(s[0])..];
  }

  lemma {:induction false} ConcatUtf8(s: seq<byte>, t: seq<byte>)
    requires ValidUtf8(s) && ValidUtf8(t)
    ensures ValidUtf8(s + t)
    decreases |s|
  {
    if s == [] {
      assert s + t == t;
    } else {
      hide *;
      var c, rest := FirstChar(s);
      ConcatUtf8(rest, t);
      PrependUtf8(c, rest + t);
      ConcatAssociates(c, rest, t);
    }
  }

  lemma {:induction false} ConcatAssociates<T>(a: seq<T>, b: seq<T>, c: seq<T>)
    ensures (a + b) + c == a + (b + c)
  {
  }

  /** What `str::get(start..end)` returns is text again. */
  lemma {:induction false} SliceUtf8(s: seq<byte>, start: nat, end: nat)
    requires ValidUtf8(s) && start <= end <= |s|
    requires IsCharBoundary(s, start) && IsCharBoundary(s, end)
    ensures ValidUtf8(s[start..end])
  {
    SplitUtf8(s, end);
    var head := s[..end];
    assert start < end ==> head[start] == s[start];
    SplitUtf8(head, start);
    assert head[start..] == s[start..end];
  }

  /** A char boundary of a text is a position at which it falls into two texts. */
  lemma {:induction false} BoundaryMeans(s: seq<byte>, i: nat)
    requires ValidUtf8(s) && i <= |s|
    ensures IsCharBoundary(s, i) <==> ValidUtf8(s[..i]) && ValidUtf8(s[i..])
  {
    if IsCharBoundary(s, i) {
      SplitUtf8(s, i);
    }
    if ValidUtf8(s[i..]) && i < |s| {
      assert s[i..][0] == s[i];
      assert CharWidth(s[i]) > 0;
    }
  }
}
