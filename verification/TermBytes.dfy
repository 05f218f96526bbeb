/** The bytes of compiler terms, spelled out (src/compiler_terms.rs, lines 18-286). */
module TermBytes {
  import opened Wrappers
  import opened Text
  import opened GraphKeys
  import opened CompilerTerms

  const TERM_KINDS: seq<CompilerTermKind> :=
    [CompilerTermKind.Type, CompilerTermKind.Const, Region, GenericArgument, GenericArguments, Instance, TraitGoal,
     ProjectionGoal, Predicate, SolverSource, SolverTrace, AssociatedItemProof, VTable, CompilerTermKind.Allocation,
     Synthetic]

  lemma {:induction false} TermKindsTagged(kind: CompilerTermKind)
    ensures |TERM_KINDS| == 15 && Tag(kind) < 15 && TERM_KINDS[Tag(kind)] == kind
  {
  }

  /** Byte `k` of a number is its digit of weight 256 to the `k`. */
  lemma {:induction false} DigitAt(value: nat, width: nat, k: nat)
    requires k < width
    ensures 0 < Power256(k) && LittleEndian(value, width)[k] == value / Power256(k) % 256
  {
    if k > 0 {
      DigitAt(value / 256, width - 1, k - 1);
      DivideTwice(value, Power256(k - 1));
    }
  }

  lemma {:induction false} DivideTwice(value: nat, d: nat)
    requires d > 0
    ensures value / 256 / d == value / (256 * d)
  {
    var q := value / 256 / d;
    var r := value / 256 - q * d;
    assert value == 256 * (value / 256) + value % 256;
    assert value == 256 * d * q + (256 * r + value % 256);
    assert 256 * r + value % 256 < 256 * d;
    Quotient(value, 256 * d, q, 256 * r + value % 256);
  }

  lemma {:induction false} Quotient(value: nat, d: nat, q: nat, r: nat)
    requires r < d && value == d * q + r
    ensures value / d == q
  {
    var e := value / d - q;
    assert d * e == r - value % d;
    AtLeast(d, e);
  }

  lemma {:induction false} AtLeast(d: int, e: int)
    requires d > 0
    ensures (e >= 1 ==> d * e >= d) && (e <= -1 ==> d * e <= -d)
  {
    assert d * e - d == d * (e - 1) && d * e + d == d * (e + 1);
  }

  const ROOT_PART :=
    DefinitionKeyPart(Crate, WrittenKey(ByteRange(0, 258), CrateRoot), None, 0)

  const FUNCTION_PART :=
    DefinitionKeyPart(Function, ExpandedKey(ByteRange(3, 9), Some(CoroutineBody)), Some("f"), 7)

  const PLAIN_PART := DefinitionKeyPart(Macro, ExpandedKey(ByteRange(3, 9), None), None, 0)

  const GENERATED_PART := DefinitionKeyPart(OpaqueType, CompilerGeneratedKey(GeneratedOpaqueType), None, 1)

  const INJECTED_PART := DefinitionKeyPart(Use, InjectedKey(PreludeImport), None, 0)

  /** The parts of a key, each with its kind, its origin behind a tag, its name and its ordinal. */
  lemma {:induction false} WrittenBytes(codec: Codec)
    ensures EncodePart(codec, ROOT_PART)
      == [0] + [0, 0, 0, 0, 0, 2, 1, 0, 0, 0] + codec.names(None) + [0, 0, 0, 0]
  {
    Four(0);
    Four(258);
    hide LittleEndian;
    assert EncodeOrigin(ROOT_PART.origin) == [0, 0, 0, 0, 0, 2, 1, 0, 0, 0];
    hide EncodeOrigin;
  }

  lemma {:induction false} ExpandedBytes(codec: Codec)
    ensures EncodePart(codec, FUNCTION_PART)
      == [2] + [1, 3, 0, 0, 0, 9, 0, 0, 0, 1, 3] + codec.names(Some("f")) + [7, 0, 0, 0]
    ensures EncodePart(codec, PLAIN_PART)
      == [33] + [1, 3, 0, 0, 0, 9, 0, 0, 0, 0] + codec.names(None) + [0, 0, 0, 0]
  {
    Four(3);
    Four(9);
    Four(7);
    Four(0);
    hide LittleEndian;
    assert EncodeOrigin(FUNCTION_PART.origin) == [1, 3, 0, 0, 0, 9, 0, 0, 0, 1, 3];
    assert EncodeOrigin(PLAIN_PART.origin) == [1, 3, 0, 0, 0, 9, 0, 0, 0, 0];
    hide EncodeOrigin;
  }

  lemma {:induction false} UnwrittenBytes(codec: Codec)
    ensures EncodePart(codec, GENERATED_PART) == [6] + [2, 8] + codec.names(None) + [1, 0, 0, 0]
    ensures EncodePart(codec, INJECTED_PART) == [23] + [3, 1] + codec.names(None) + [0, 0, 0, 0]
  {
    Four(1);
    Four(0);
    hide LittleEndian;
    assert EncodeOrigin(GENERATED_PART.origin) == [2, 8] && EncodeOrigin(INJECTED_PART.origin) == [3, 1];
    hide EncodeOrigin;
  }

  lemma {:induction false} Four(value: nat)
    requires value < 0x1_0000
    ensures LittleEndian(value, 4) == [value % 256, value / 256, 0, 0]
  {
    assert LittleEndian(0, 2) == [0] + LittleEndian(0, 1);
  }

  lemma {:induction false} Eight(value: nat)
    requires value < 256
    ensures LittleEndian(value, 8) == [value, 0, 0, 0, 0, 0, 0, 0]
  {
    Four(0);
    assert LittleEndian(0, 5) == [0] + LittleEndian(0, 4);
    assert LittleEndian(0, 6) == [0] + LittleEndian(0, 5);
    assert LittleEndian(0, 7) == [0] + LittleEndian(0, 6);
    assert LittleEndian(value, 8) == [value] + ([0] + ([0] + ([0] + LittleEndian(0, 4))));
  }

  /** A local reference is its tag, the number of parts and the parts; an external one its tag, the crate's identity and
      name, and the path hash. */
  lemma {:induction false} ReferenceBytes(codec: Codec, a: DefinitionKeyPart, b: DefinitionKeyPart, hash: seq<byte>)
    ensures EncodeReference(codec, Local([a, b]))
      == [0, 2, 0, 0, 0, 0, 0, 0, 0] + (EncodePart(codec, a) + EncodePart(codec, b))
    ensures EncodeReference(codec, External(ExternalDefinitionKey(5, "std", hash)))
      == [1, 5, 0, 0, 0, 0, 0, 0, 0] + (codec.strings("std") + hash)
  {
    Eight(2);
    Eight(5);
    TwoParts(codec, a, b);
    hide LittleEndian;
    hide EncodePart;
    hide EncodeParts;
    Behind(0, [2, 0, 0, 0, 0, 0, 0, 0], EncodePart(codec, a) + EncodePart(codec, b));
    Behind(1, [5, 0, 0, 0, 0, 0, 0, 0], codec.strings("std") + hash);
    assert EncodeExternal(codec, ExternalDefinitionKey(5, "std", hash))
      == [5, 0, 0, 0, 0, 0, 0, 0] + (codec.strings("std") + hash);
  }

  lemma {:induction false} TwoParts(codec: Codec, a: DefinitionKeyPart, b: DefinitionKeyPart)
    ensures EncodeParts(codec, [a, b]) == EncodePart(codec, a) + EncodePart(codec, b)
  {
    hide EncodePart;
    assert [a, b][1..] == [b] && [b][1..] == [];
    assert EncodeParts(codec, [b]) == EncodePart(codec, b) + [];
  }

  lemma {:induction false} Behind(tag: byte, number: seq<byte>, rest: seq<byte>)
    requires |number| == 8
    ensures [tag] + (number + rest)
      == [tag, number[0], number[1], number[2], number[3], number[4], number[5], number[6], number[7]] + rest
  {
  }

  const STEPS: seq<Step> :=
    [Byte(5), Unsupported(SpanError), Definition(None), SharedType(1, [9, 9]), SharedType(1, [9, 9])]

  /** A term starts with "RIDTERM" and the tag of its kind. A rejected value leaves the marker and the first error; a
      type met again is written as the position at which it was written first. */
  lemma {:induction false} RunBytes(codec: Codec)
    ensures Initial(SolverTrace) == State([0x52, 0x49, 0x44, 0x54, 0x45, 0x52, 0x4D, 10], map[], None)
    ensures Run(codec, Initial(SolverTrace), STEPS).error == Some(SpanError)
    ensures Run(codec, Initial(SolverTrace), STEPS).bytes
      == Initial(SolverTrace).bytes + [5, 0xFF, 0xFF] + [9, 9] + [11, 0, 0, 0, 0, 0, 0, 0]
    ensures TERM_ENCODING_SCHEMA == 2
  {
    Eight(11);
    hide LittleEndian;
    var start := Initial(SolverTrace);
    FirstThree(codec);
    assert STEPS[..3] + [STEPS[3]] == STEPS[..4] && STEPS[..4] + [STEPS[4]] == STEPS;
    OneMore(codec, start, STEPS[..3], STEPS[3]);
    OneMore(codec, start, STEPS[..4], STEPS[4]);
    hide Run;
    assert Run(codec, start, STEPS[..4])
      == State(start.bytes + [5, 0xFF, 0xFF] + [9, 9], map[1 := 11], Some(SpanError));
  }

  lemma {:induction false} FirstThree(codec: Codec)
    ensures Run(codec, Initial(SolverTrace), STEPS[..3])
      == State(Initial(SolverTrace).bytes + [5, 0xFF, 0xFF], map[], Some(SpanError))
  {
    hide LittleEndian;
    var start := Initial(SolverTrace);
    assert [] + [STEPS[0]] == STEPS[..1] && STEPS[..1] + [STEPS[1]] == STEPS[..2];
    assert STEPS[..2] + [STEPS[2]] == STEPS[..3];
    OneMore(codec, start, [], STEPS[0]);
    OneMore(codec, start, STEPS[..1], STEPS[1]);
    OneMore(codec, start, STEPS[..2], STEPS[2]);
    assert Run(codec, start, []) == start;
    hide Run;
    assert start.bytes + [5] + [0xFF] + [0xFF] == start.bytes + [5, 0xFF, 0xFF];
  }

  lemma {:induction false} OneMore(codec: Codec, state: State, steps: seq<Step>, step: Step)
    ensures Run(codec, state, steps + [step]) == After(codec, Run(codec, state, steps), step)
  {
    assert (steps + [step])[..|steps|] == steps;
  }
}
