/** The append-only encoder whose bytes identify compiler terms (src/compiler_terms.rs, lines 18-286). */
module CompilerTerms {
  import opened Wrappers
  import opened Text
  import opened GraphKeys
  import Definitions
  import Canonical
  import DependencyTypes

  datatype CompilerTermKind =
    | Type | Const | Region | GenericArgument | GenericArguments | Instance | TraitGoal | ProjectionGoal | Predicate
    | SolverSource | SolverTrace | AssociatedItemProof | VTable | Allocation | Synthetic

  function Tag(kind: CompilerTermKind): byte {
    match kind
    case Type => 0 case Const => 1 case Region => 2 case GenericArgument => 3 case GenericArguments => 4
    case Instance => 5 case TraitGoal => 6 case ProjectionGoal => 7 case Predicate => 8 case SolverSource => 9
    case SolverTrace => 10 case AssociatedItemProof => 11 case VTable => 12 case Allocation => 13 case Synthetic => 14
  }

  datatype CompilerTermError =
    | MissingLocalDefinition | SpanError | ExpansionError | SyntaxContextError | CrateNumberError | DefinitionIndexError
    | AllocationError | IntegerWidth

  const TERM_ENCODING_SCHEMA: u32 := 2

  /** "RIDTERM". */
  const MAGIC: seq<byte> := [0x52, 0x49, 0x44, 0x54, 0x45, 0x52, 0x4D]

  const U64_LIMIT: nat := 0x1_0000_0000_0000_0000

  /* ---------- encodings ---------- */

  function LittleEndian(value: nat, width: nat): (r: seq<byte>)
    ensures |r| == width
  {
    if width == 0 then [] else [value % 256] + LittleEndian(value / 256, width - 1)
  }

  /** rustc's encodings of strings and of optional strings. */
  datatype Codec = Codec(strings: string -> seq<byte>, names: Option<string> -> seq<byte>)

  /** No encoding begins another. */
  ghost predicate PrefixFree<T(!new)>(encode: T -> seq<byte>) {
    forall a, b :: encode(a) <= encode(b) ==> a == b
  }

  ghost predicate SoundCodec(codec: Codec) {
    PrefixFree(codec.strings) && PrefixFree(codec.names)
  }

  function EncodeRole(role: Option<GeneratedRole>): seq<byte> {
    if role.Some? then [1, Canonical.RoleRank(role.value)] else [0]
  }

  function InjectedTag(role: InjectedRole): byte {
    match role case InjectedExternCrate => 0 case PreludeImport => 1
  }

  function EncodeOrigin(origin: DefinitionOriginKey): seq<byte> {
    match origin
    case WrittenKey(anchor, unitKind) =>
      [0] + LittleEndian(anchor.start, 4) + LittleEndian(anchor.end, 4) + [Definitions.UnitKindRank(unitKind)]
    case ExpandedKey(range, role) =>
      [1] + LittleEndian(range.start, 4) + LittleEndian(range.end, 4) + EncodeRole(role)
    case CompilerGeneratedKey(role) => [2, Canonical.RoleRank(role)]
    case InjectedKey(role) => [3, InjectedTag(role)]
  }

  function EncodePart(codec: Codec, part: DefinitionKeyPart): seq<byte> {
    [Canonical.DefinitionKindRank(part.kind)] + EncodeOrigin(part.origin) + codec.names(part.name)
    + LittleEndian(part.sameRoleOrdinal, 4)
  }

  function EncodeParts(codec: Codec, key: DefinitionKey): seq<byte> {
    if key == [] then [] else EncodePart(codec, key[0]) + EncodeParts(codec, key[1..])
  }

  function EncodeKey(codec: Codec, key: DefinitionKey): seq<byte> {
    LittleEndian(|key|, 8) + EncodeParts(codec, key)
  }

  function EncodeExternal(codec: Codec, key: ExternalDefinitionKey): seq<byte> {
    LittleEndian(key.crateIdentity, 8) + codec.strings(key.crateName) + key.defPathHash
  }

  function EncodeReference(codec: Codec, reference: DefinitionReferenceKey): seq<byte> {
    match reference
    case Local(key) => [0] + EncodeKey(codec, key)
    case External(key) => [1] + EncodeExternal(codec, key)
  }

  /** What the Rust types guarantee: lengths and crate ids fit 64 bits, hashes have 16 bytes. */
  predicate Encodable(reference: DefinitionReferenceKey) {
    match reference
    case Local(key) => |key| < U64_LIMIT
    case External(key) => key.crateIdentity < U64_LIMIT && |key.defPathHash| == 16
  }

  /* ---------- nothing else begins with the same bytes ---------- */

  /** A prefix-free encoding can be read off the front of any text. */
  lemma {:induction false} Cut<T(!new)>(encode: T -> seq<byte>, a: T, x: seq<byte>, b: T, y: seq<byte>)
    requires PrefixFree(encode) && encode(a) + x == encode(b) + y
    ensures a == b && x == y
  {
    if |encode(a)| <= |encode(b)| {
      ShorterIsPrefix(encode(a), x, encode(b), y);
    } else {
      ShorterIsPrefix(encode(b), y, encode(a), x);
    }
    CutFixed(encode(a), x, encode(b), y);
  }

  lemma {:induction false} ShorterIsPrefix(a: seq<byte>, x: seq<byte>, b: seq<byte>, y: seq<byte>)
    requires |a| <= |b| && a + x == b + y
    ensures a <= b
  {
    assert a == (a + x)[..|a|] && b[..|a|] == (b + y)[..|a|];
  }

  lemma {:induction false} CutFixed(a: seq<byte>, x: seq<byte>, b: seq<byte>, y: seq<byte>)
    requires |a| == |b| && a + x == b + y
    ensures a == b && x == y
  {
    assert a == (a + x)[..|a|] && b == (b + y)[..|a|];
    assert x == (a + x)[|a|..] && y == (b + y)[|a|..];
  }

  /* ---------- a sound codec ---------- */

  /** Every character announced by a 1, the end by a 0. */
  function EncodeText(text: string): seq<byte> {
    if text == [] then [0] else [1, text[0] as int] + EncodeText(text[1..])
  }

  function EncodeName(name: Option<string>): seq<byte> {
    if name.Some? then [1] + EncodeText(name.value) else [0]
  }

  lemma {:induction false} EncodeTextPrefixFree(a: string, b: string)
    requires EncodeText(a) <= EncodeText(b)
    ensures a == b
  {
    var x, y := EncodeText(a), EncodeText(b);
    assert x[0] == y[0];
    if a != [] {
      assert x[1] == y[1] && x[2..] == EncodeText(a[1..]) && y[2..] == EncodeText(b[1..]);
      EncodeTextPrefixFree(a[1..], b[1..]);
      assert a == [a[0]] + a[1..] && b == [b[0]] + b[1..];
    }
  }

  /** The assumption on the codec can be met. */
  lemma {:induction false} SomeCodecSound()
    ensures SoundCodec(Codec(EncodeText, EncodeName))
  {
    forall a, b | EncodeText(a) <= EncodeText(b)
      ensures a == b
    {
      EncodeTextPrefixFree(a, b);
    }
    forall a, b | EncodeName(a) <= EncodeName(b)
      ensures a == b
    {
      var x, y := EncodeName(a), EncodeName(b);
      assert x[0] == y[0];
      if a.Some? {
        assert x[1..] == EncodeText(a.value) && y[1..] == EncodeText(b.value);
        EncodeTextPrefixFree(a.value, b.value);
      }
    }
  }

  function Power256(width: nat): nat {
    if width == 0 then 1 else 256 * Power256(width - 1)
  }

  lemma {:induction false} LittleEndianInjective(v: nat, w: nat, width: nat)
    requires v < Power256(width) && w < Power256(width) && LittleEndian(v, width) == LittleEndian(w, width)
    ensures v == w
  {
    if width > 0 {
      var a, b := LittleEndian(v, width), LittleEndian(w, width);
      assert a[0] == v % 256 && b[0] == w % 256;
      assert a[1..] == LittleEndian(v / 256, width - 1) && b[1..] == LittleEndian(w / 256, width - 1);
      LittleEndianInjective(v / 256, w / 256, width - 1);
      assert v == 256 * (v / 256) + v % 256 && w == 256 * (w / 256) + w % 256;
    }
  }

  lemma {:induction false} Widths()
    ensures Power256(4) == U32_LIMIT && Power256(8) == U64_LIMIT
  {
    assert Power256(2) == 0x1_0000;
    assert Power256(4) == U32_LIMIT;
    assert Power256(6) == 0x1_0000_0000_0000;
  }

  lemma {:induction false} CutNumber(v: nat, x: seq<byte>, w: nat, y: seq<byte>, width: nat)
    requires v < Power256(width) && w < Power256(width) && LittleEndian(v, width) + x == LittleEndian(w, width) + y
    ensures v == w && x == y
  {
    hide Power256;
    CutFixed(LittleEndian(v, width), x, LittleEndian(w, width), y);
    LittleEndianInjective(v, w, width);
  }

  lemma {:induction false} KindRankInjective(a: DefinitionKind, b: DefinitionKind)
    requires Canonical.DefinitionKindRank(a) == Canonical.DefinitionKindRank(b)
    ensures a == b
  {
  }

  lemma {:induction false} RoleRankInjective(a: GeneratedRole, b: GeneratedRole)
    requires Canonical.RoleRank(a) == Canonical.RoleRank(b)
    ensures a == b
  {
  }

  lemma {:induction false} UnitRankInjective(a: WrittenUnitKind, b: WrittenUnitKind)
    requires Definitions.UnitKindRank(a) == Definitions.UnitKindRank(b)
    ensures a == b
  {
  }

  lemma {:induction false} TagInjective(a: CompilerTermKind, b: CompilerTermKind)
    requires Tag(a) == Tag(b)
    ensures a == b
  {
  }

  lemma {:induction false} CutRole(a: Option<GeneratedRole>, x: seq<byte>, b: Option<GeneratedRole>, y: seq<byte>)
    requires EncodeRole(a) + x == EncodeRole(b) + y
    ensures a == b && x == y
  {
    hide Canonical.RoleRank;
    assert (EncodeRole(a) + x)[0] == EncodeRole(a)[0] && (EncodeRole(b) + y)[0] == EncodeRole(b)[0];
    CutFixed(EncodeRole(a), x, EncodeRole(b), y);
    if a.Some? {
      assert EncodeRole(a)[1] == Canonical.RoleRank(a.value) && EncodeRole(b)[1] == Canonical.RoleRank(b.value);
      RoleRankInjective(a.value, b.value);
    }
  }

  /** Two ranges written one after the other. */
  lemma {:induction false} CutRange(a: ByteRange, x: seq<byte>, b: ByteRange, y: seq<byte>)
    requires LittleEndian(a.start, 4) + (LittleEndian(a.end, 4) + x)
      == LittleEndian(b.start, 4) + (LittleEndian(b.end, 4) + y)
    ensures a == b && x == y
  {
    Widths();
    hide Power256;
    hide LittleEndian;
    CutNumber(a.start, LittleEndian(a.end, 4) + x, b.start, LittleEndian(b.end, 4) + y, 4);
    CutNumber(a.end, x, b.end, y, 4);
  }

  lemma {:induction false} CutByte(a: byte, x: seq<byte>, b: byte, y: seq<byte>)
    requires [a] + x == [b] + y
    ensures a == b && x == y
  {
    CutFixed([a], x, [b], y);
    assert [a][0] == [b][0];
  }

  lemma {:induction false} Assoc3(a: seq<byte>, b: seq<byte>, c: seq<byte>, x: seq<byte>)
    ensures (a + b + c) + x == a + (b + (c + x))
  {
  }

  lemma {:induction false} Assoc4(a: seq<byte>, b: seq<byte>, c: seq<byte>, d: seq<byte>, x: seq<byte>)
    ensures (a + b + c + d) + x == a + (b + (c + (d + x)))
  {
  }

  lemma {:induction false} OriginHead(origin: DefinitionOriginKey, x: seq<byte>)
    ensures (EncodeOrigin(origin) + x)[0] ==
      match origin
      case WrittenKey(_, _) => 0
      case ExpandedKey(_, _) => 1
      case CompilerGeneratedKey(_) => 2
      case InjectedKey(_) => 3
  {
    hide LittleEndian;
  }

  lemma {:induction false} CutOrigin(a: DefinitionOriginKey, x: seq<byte>, b: DefinitionOriginKey, y: seq<byte>)
    requires EncodeOrigin(a) + x == EncodeOrigin(b) + y
    ensures a == b && x == y
  {
    OriginHead(a, x);
    OriginHead(b, y);
    hide LittleEndian;
    hide Definitions.UnitKindRank;
    hide Canonical.RoleRank;
    hide EncodeRole;
    match (a, b)
    case (WrittenKey(r, k), WrittenKey(s, l)) =>
      var m, n := [Definitions.UnitKindRank(k)], [Definitions.UnitKindRank(l)];
      Assoc4([0], LittleEndian(r.start, 4), LittleEndian(r.end, 4), m, x);
      Assoc4([0], LittleEndian(s.start, 4), LittleEndian(s.end, 4), n, y);
      CutByte(0, LittleEndian(r.start, 4) + (LittleEndian(r.end, 4) + (m + x)), 0,
              LittleEndian(s.start, 4) + (LittleEndian(s.end, 4) + (n + y)));
      CutRange(r, m + x, s, n + y);
      CutByte(Definitions.UnitKindRank(k), x, Definitions.UnitKindRank(l), y);
      UnitRankInjective(k, l);
    case (ExpandedKey(r, k), ExpandedKey(s, l)) =>
      Assoc4([1], LittleEndian(r.start, 4), LittleEndian(r.end, 4), EncodeRole(k), x);
      Assoc4([1], LittleEndian(s.start, 4), LittleEndian(s.end, 4), EncodeRole(l), y);
      CutByte(1, LittleEndian(r.start, 4) + (LittleEndian(r.end, 4) + (EncodeRole(k) + x)), 1,
              LittleEndian(s.start, 4) + (LittleEndian(s.end, 4) + (EncodeRole(l) + y)));
      CutRange(r, EncodeRole(k) + x, s, EncodeRole(l) + y);
      CutRole(k, x, l, y);
    case (CompilerGeneratedKey(k), CompilerGeneratedKey(l)) =>
      CutFixed([2, Canonical.RoleRank(k)], x, [2, Canonical.RoleRank(l)], y);
      assert [2, Canonical.RoleRank(k)][1] == [2, Canonical.RoleRank(l)][1];
      RoleRankInjective(k, l);
    case (InjectedKey(k), InjectedKey(l)) =>
      CutFixed([3, InjectedTag(k)], x, [3, InjectedTag(l)], y);
      assert [3, InjectedTag(k)][1] == [3, InjectedTag(l)][1];
    case _ =>
  }

  lemma {:induction false} CutPart(codec: Codec, a: DefinitionKeyPart, x: seq<byte>, b: DefinitionKeyPart,
                                   y: seq<byte>)
    requires SoundCodec(codec) && EncodePart(codec, a) + x == EncodePart(codec, b) + y
    ensures a == b && x == y
  {
    hide EncodeOrigin;
    hide LittleEndian;
    hide PrefixFree;
    hide Canonical.DefinitionKindRank;
    var k, l := Canonical.DefinitionKindRank(a.kind), Canonical.DefinitionKindRank(b.kind);
    var m, n := LittleEndian(a.sameRoleOrdinal, 4), LittleEndian(b.sameRoleOrdinal, 4);
    Assoc4([k], EncodeOrigin(a.origin), codec.names(a.name), m, x);
    Assoc4([l], EncodeOrigin(b.origin), codec.names(b.name), n, y);
    CutByte(k, EncodeOrigin(a.origin) + (codec.names(a.name) + (m + x)), l,
            EncodeOrigin(b.origin) + (codec.names(b.name) + (n + y)));
    CutOrigin(a.origin, codec.names(a.name) + (m + x), b.origin, codec.names(b.name) + (n + y));
    Cut(codec.names, a.name, m + x, b.name, n + y);
    Widths();
    CutNumber(a.sameRoleOrdinal, x, b.sameRoleOrdinal, y, 4);
    KindRankInjective(a.kind, b.kind);
  }

  lemma {:induction false} CutParts(codec: Codec, a: DefinitionKey, x: seq<byte>, b: DefinitionKey, y: seq<byte>)
    requires SoundCodec(codec) && |a| == |b| && EncodeParts(codec, a) + x == EncodeParts(codec, b) + y
    ensures a == b && x == y
    decreases |a|
  {
    hide EncodePart;
    hide PrefixFree;
    if a == [] {
      assert [] + x == x && [] + y == y;
    } else {
      var p, q := EncodePart(codec, a[0]), EncodePart(codec, b[0]);
      assert EncodeParts(codec, a) + x == p + (EncodeParts(codec, a[1..]) + x);
      assert EncodeParts(codec, b) + y == q + (EncodeParts(codec, b[1..]) + y);
      CutPart(codec, a[0], EncodeParts(codec, a[1..]) + x, b[0], EncodeParts(codec, b[1..]) + y);
      CutParts(codec, a[1..], x, b[1..], y);
      assert a == [a[0]] + a[1..] && b == [b[0]] + b[1..];
    }
  }

  lemma {:induction false} CutKey(codec: Codec, a: DefinitionKey, x: seq<byte>, b: DefinitionKey, y: seq<byte>)
    requires SoundCodec(codec) && |a| < U64_LIMIT && |b| < U64_LIMIT
    requires EncodeKey(codec, a) + x == EncodeKey(codec, b) + y
    ensures a == b && x == y
  {
    hide EncodeParts;
    hide LittleEndian;
    hide PrefixFree;
    var m, n := LittleEndian(|a|, 8), LittleEndian(|b|, 8);
    assert EncodeKey(codec, a) + x == m + (EncodeParts(codec, a) + x);
    assert EncodeKey(codec, b) + y == n + (EncodeParts(codec, b) + y);
    Widths();
    CutNumber(|a|, EncodeParts(codec, a) + x, |b|, EncodeParts(codec, b) + y, 8);
    CutParts(codec, a, x, b, y);
  }

  lemma {:induction false} CutExternal(codec: Codec, a: ExternalDefinitionKey, x: seq<byte>, b: ExternalDefinitionKey,
                                       y: seq<byte>)
    requires SoundCodec(codec) && Encodable(External(a)) && Encodable(External(b))
    requires EncodeExternal(codec, a) + x == EncodeExternal(codec, b) + y
    ensures a == b && x == y
  {
    hide LittleEndian;
    hide PrefixFree;
    Assoc3(LittleEndian(a.crateIdentity, 8), codec.strings(a.crateName), a.defPathHash, x);
    Assoc3(LittleEndian(b.crateIdentity, 8), codec.strings(b.crateName), b.defPathHash, y);
    Widths();
    CutNumber(a.crateIdentity, codec.strings(a.crateName) + (a.defPathHash + x), b.crateIdentity,
              codec.strings(b.crateName) + (b.defPathHash + y), 8);
    Cut(codec.strings, a.crateName, a.defPathHash + x, b.crateName, b.defPathHash + y);
    CutFixed(a.defPathHash, x, b.defPathHash, y);
  }

  /** References can be read back off the front of any bytes: the encoding is prefix-free and injective. */
  lemma {:induction false} CutReference(codec: Codec, a: DefinitionReferenceKey, x: seq<byte>,
                                        b: DefinitionReferenceKey, y: seq<byte>)
    requires SoundCodec(codec) && Encodable(a) && Encodable(b)
    requires EncodeReference(codec, a) + x == EncodeReference(codec, b) + y
    ensures a == b && x == y
  {
    hide PrefixFree;
    ReferenceHead(codec, a, x);
    ReferenceHead(codec, b, y);
    hide EncodeReference;
    hide EncodeKey;
    hide EncodeExternal;
    hide Encodable;
    CutByte(ReferenceTag(a), ReferenceBody(codec, a) + x, ReferenceTag(b), ReferenceBody(codec, b) + y);
    match (a, b)
    case (Local(k), Local(l)) =>
      assert |k| < U64_LIMIT && |l| < U64_LIMIT by { LocalFits(a); LocalFits(b); }
      CutKey(codec, k, x, l, y);
    case (External(k), External(l)) =>
      CutExternal(codec, k, x, l, y);
    case _ =>
  }

  lemma {:induction false} LocalFits(a: DefinitionReferenceKey)
    requires a.Local? && Encodable(a)
    ensures |a.key| < U64_LIMIT
  {
  }

  function ReferenceTag(a: DefinitionReferenceKey): byte { if a.Local? then 0 else 1 }

  function ReferenceBody(codec: Codec, a: DefinitionReferenceKey): seq<byte> {
    match a
    case Local(key) => EncodeKey(codec, key)
    case External(key) => EncodeExternal(codec, key)
  }

  lemma {:induction false} ReferenceHead(codec: Codec, a: DefinitionReferenceKey, x: seq<byte>)
    requires Encodable(a)
    ensures EncodeReference(codec, a) + x == [ReferenceTag(a)] + (ReferenceBody(codec, a) + x)
  {
    hide EncodeKey;
    hide EncodeExternal;
  }

  lemma {:induction false} ReferencePrefixFree(codec: Codec, a: DefinitionReferenceKey, b: DefinitionReferenceKey)
    requires SoundCodec(codec) && Encodable(a) && Encodable(b)
    requires EncodeReference(codec, a) <= EncodeReference(codec, b)
    ensures a == b
  {
    hide EncodeReference;
    hide PrefixFree;
    var rest := EncodeReference(codec, b)[|EncodeReference(codec, a)|..];
    assert EncodeReference(codec, a) + rest == EncodeReference(codec, b) + [];
    CutReference(codec, a, rest, b, []);
  }

  /* ---------- values as encoding steps ---------- */

  /** What encoding a value asks of the encoder. A type already written is replaced by its position; values that
      only mean something inside one compiler session are rejected. */
  datatype Step =
    | Byte(value: byte)
    | Number(number: nat, width: nat)
    | Length(length: nat)
    | Raw(raw: seq<byte>)
    | Str(text: string)
    | SharedType(ty: nat, body: seq<byte>)
    | Definition(reference: Option<DefinitionReferenceKey>)
    | Unsupported(reason: CompilerTermError)

  datatype State = State(bytes: seq<byte>, types: map<nat, nat>, error: Option<CompilerTermError>)

  function Appended(state: State, more: seq<byte>): State {
    state.(bytes := state.bytes + more)
  }

  /** The first error is kept, and a marker byte keeps positions deterministic. */
  function Rejected(state: State, error: CompilerTermError): State {
    State(state.bytes + [0xFF], state.types, if state.error.Some? then state.error else Some(error))
  }

  function AfterLength(state: State, n: nat): State {
    if n < U64_LIMIT then Appended(state, LittleEndian(n, 8)) else Rejected(state, IntegerWidth)
  }

  function AfterReference(codec: Codec, state: State, reference: DefinitionReferenceKey): State {
    match reference
    case External(key) => Appended(state, [1] + EncodeExternal(codec, key))
    case Local(key) => Appended(AfterLength(Appended(state, [0]), |key|), EncodeParts(codec, key))
  }

  function After(codec: Codec, state: State, step: Step): State {
    match step
    case Byte(value) => Appended(state, [value])
    case Number(number, width) => Appended(state, LittleEndian(number, width))
    case Length(length) => AfterLength(state, length)
    case Raw(raw) => Appended(state, raw)
    case Str(text) => Appended(state, codec.strings(text))
    case SharedType(ty, body) =>
      if ty in state.types then AfterLength(state, state.types[ty])
      else Appended(state, body).(types := state.types[ty := |state.bytes|])
    case Definition(reference) =>
      if reference.Some? then AfterReference(codec, state, reference.value) else Rejected(state, MissingLocalDefinition)
    case Unsupported(reason) => Rejected(state, reason)
  }

  function Run(codec: Codec, state: State, steps: seq<Step>): State {
    if steps == [] then state else After(codec, Run(codec, state, steps[..|steps| - 1]), steps[|steps| - 1])
  }

  /** A cleared encoder that has written the header. */
  function Initial(kind: CompilerTermKind): State {
    State(MAGIC + [Tag(kind)], map[], None)
  }

  /** The error a step raises in a state, if any. */
  function Raises(codec: Codec, state: State, step: Step): Option<CompilerTermError> {
    match step
    case Length(length) => if length < U64_LIMIT then None else Some(IntegerWidth)
    case SharedType(ty, _) => if ty in state.types && state.types[ty] >= U64_LIMIT then Some(IntegerWidth) else None
    case Definition(reference) =>
      if reference.None? then Some(MissingLocalDefinition)
      else if reference.value.Local? && |reference.value.key| >= U64_LIMIT then Some(IntegerWidth)
      else None
    case Unsupported(reason) => Some(reason)
    case _ => None
  }

  /** The first step that raises an error decides the error. */
  ghost predicate FirstRaised(codec: Codec, state: State, steps: seq<Step>, error: Option<CompilerTermError>) {
    match error
    case None => forall k :: 0 <= k < |steps| ==> Raises(codec, Run(codec, state, steps[..k]), steps[k]).None?
    case Some(_) => exists k :: 0 <= k < |steps| && RaisedAt(codec, state, steps, k, error)
  }

  ghost predicate RaisedAt(codec: Codec, state: State, steps: seq<Step>, k: nat, error: Option<CompilerTermError>)
    requires k < |steps|
  {
    && Raises(codec, Run(codec, state, steps[..k]), steps[k]) == error
    && forall j :: 0 <= j < k ==> Raises(codec, Run(codec, state, steps[..j]), steps[j]).None?
  }

  lemma {:induction false} RunError(codec: Codec, state: State, steps: seq<Step>)
    requires state.error.None?
    ensures FirstRaised(codec, state, steps, Run(codec, state, steps).error)
    decreases |steps|
  {
    if steps != [] {
      var n := |steps| - 1;
      var init := steps[..n];
      RunError(codec, state, init);
      forall k | 0 <= k <= n
        ensures steps[..k] == init[..k]
      {
      }
      StepError(codec, Run(codec, state, init), steps[n]);
      var before := Run(codec, state, init).error;
      hide Run;
      hide Raises;
      if before.Some? {
        var k :| 0 <= k < |init| && RaisedAt(codec, state, init, k, before);
        assert RaisedAt(codec, state, steps, k, before);
      } else if Raises(codec, Run(codec, state, init), steps[n]).Some? {
        assert RaisedAt(codec, state, steps, n, Raises(codec, Run(codec, state, init), steps[n]));
      }
    }
  }

  lemma {:induction false} StepError(codec: Codec, state: State, step: Step)
    ensures After(codec, state, step).error == if state.error.Some? then state.error else Raises(codec, state, step)
  {
  }

  /* ---------- the encoder ---------- */

  class TermHasher {
    const codec: Codec
    var bytes: seq<byte>
    var typeShorthands: map<nat, nat>
    var predicateShorthands: map<nat, nat>
    var error: Option<CompilerTermError>

    constructor (codec: Codec)
      ensures this.codec == codec && Now() == State([], map[], None)
    {
      this.codec := codec;
      bytes, typeShorthands, predicateShorthands, error := [], map[], map[], None;
    }

    function Now(): State
      reads this
    {
      State(bytes, typeShorthands, error)
    }

    method EmitU8(value: byte)
      modifies `bytes
      ensures Now() == Appended(old(Now()), [value])
    {
      bytes := bytes + [value];
    }

    method EmitLittleEndian(value: nat, width: nat)
      modifies `bytes
      ensures Now() == Appended(old(Now()), LittleEndian(value, width))
    {
      bytes := bytes + LittleEndian(value, width);
    }

    method EmitRawBytes(raw: seq<byte>)
      modifies `bytes
      ensures Now() == Appended(old(Now()), raw)
    {
      bytes := bytes + raw;
    }

    method Reject(reason: CompilerTermError)
      modifies `bytes, `error
      ensures Now() == Rejected(old(Now()), reason)
    {
      if error.None? {
        error := Some(reason);
      }
      bytes := bytes + [0xFF];
    }

    method EmitUsize(value: nat)
      modifies `bytes, `error
      ensures Now() == AfterLength(old(Now()), value)
    {
      if value < U64_LIMIT {
        EmitLittleEndian(value, 8);
      } else {
        Reject(IntegerWidth);
      }
    }

    method EncodeGeneratedRole(role: Option<GeneratedRole>)
      modifies `bytes
      ensures Now() == Appended(old(Now()), EncodeRole(role))
    {
      if role.Some? {
        EmitU8(1);
        EmitU8(Canonical.RoleRank(role.value));
      } else {
        EmitU8(0);
      }
    }

    method EncodeKeyPart(part: DefinitionKeyPart)
      modifies `bytes
      ensures Now() == Appended(old(Now()), EncodePart(codec, part))
    {
      hide LittleEndian;
      hide Canonical.DefinitionKindRank;
      EmitU8(Canonical.DefinitionKindRank(part.kind));
      EncodeOriginKey(part.origin);
      EmitRawBytes(codec.names(part.name));
      EmitLittleEndian(part.sameRoleOrdinal, 4);
      Gathered4(old(bytes), [Canonical.DefinitionKindRank(part.kind)], EncodeOrigin(part.origin),
                codec.names(part.name), LittleEndian(part.sameRoleOrdinal, 4));
    }

    method EncodeOriginKey(origin: DefinitionOriginKey)
      modifies `bytes
      ensures Now() == Appended(old(Now()), EncodeOrigin(origin))
    {
      hide LittleEndian;
      hide EncodeRole;
      match origin {
        case WrittenKey(anchor, unitKind) =>
          EmitU8(0);
          EmitLittleEndian(anchor.start, 4);
          EmitLittleEndian(anchor.end, 4);
          EmitU8(Definitions.UnitKindRank(unitKind));
          Gathered4(old(bytes), [0], LittleEndian(anchor.start, 4), LittleEndian(anchor.end, 4),
                    [Definitions.UnitKindRank(unitKind)]);
        case ExpandedKey(range, role) =>
          EmitU8(1);
          EmitLittleEndian(range.start, 4);
          EmitLittleEndian(range.end, 4);
          EncodeGeneratedRole(role);
          Gathered4(old(bytes), [1], LittleEndian(range.start, 4), LittleEndian(range.end, 4), EncodeRole(role));
        case CompilerGeneratedKey(role) =>
          EmitU8(2);
          EmitU8(Canonical.RoleRank(role));
        case InjectedKey(role) =>
          EmitU8(3);
          EmitU8(InjectedTag(role));
      }
    }

    /** `encode_definition_key`: the length, then every part. */
    method EncodeDefinitionKey(key: DefinitionKey)
      modifies `bytes, `error
      ensures Now() == Appended(AfterLength(old(Now()), |key|), EncodeParts(codec, key))
    {
      hide EncodePart;
      hide LittleEndian;
      EmitUsize(|key|);
      ghost var start := Now();
      for i := 0 to |key|
        invariant Now() == Appended(start, EncodeParts(codec, key[..i]))
      {
        EncodeKeyPart(key[i]);
        PartsGrow(codec, key, i);
        Gathered(start.bytes, EncodeParts(codec, key[..i]), EncodePart(codec, key[i]));
      }
      assert key[..|key|] == key;
    }

    method EncodeExternalDefinitionKey(key: ExternalDefinitionKey)
      modifies `bytes
      ensures Now() == Appended(old(Now()), EncodeExternal(codec, key))
    {
      hide LittleEndian;
      EmitLittleEndian(key.crateIdentity, 8);
      EmitRawBytes(codec.strings(key.crateName));
      EmitRawBytes(key.defPathHash);
    }

    method EncodeDefinitionReference(reference: DefinitionReferenceKey)
      modifies `bytes, `error
      ensures Now() == AfterReference(codec, old(Now()), reference)
    {
      match reference {
        case Local(key) =>
          EmitU8(0);
          EncodeDefinitionKey(key);
        case External(key) =>
          EmitU8(1);
          EncodeExternalDefinitionKey(key);
          Gathered(old(bytes), [1], EncodeExternal(codec, key));
      }
    }

    method Encode(step: Step)
      modifies this
      ensures Now() == After(codec, old(Now()), step)
    {
      match step {
        case Byte(value) => EmitU8(value);
        case Number(number, width) => EmitLittleEndian(number, width);
        case Length(length) => EmitUsize(length);
        case Raw(raw) => EmitRawBytes(raw);
        case Str(text) => EmitRawBytes(codec.strings(text));
        case SharedType(ty, body) =>
          if ty in typeShorthands {
            EmitUsize(typeShorthands[ty]);
          } else {
            var start := |bytes|;
            EmitRawBytes(body);
            typeShorthands := typeShorthands[ty := start];
          }
        case Definition(reference) =>
          if reference.Some? {
            EncodeDefinitionReference(reference.value);
          } else {
            Reject(MissingLocalDefinition);
          }
        case Unsupported(reason) => Reject(reason);
      }
    }

    /** `canonicalize_with`: whatever the encoder did before, the result is that of a cleared encoder; bytes come back
        only when no step was rejected, and otherwise the first rejection does. */
    method CanonicalizeWith(kind: CompilerTermKind, steps: seq<Step>)
      returns (r: Result<DependencyTypes.CanonicalCompilerTerm, CompilerTermError>)
      modifies this
      ensures
        var done := Run(codec, Initial(kind), steps);
        && r == (match done.error
                 case Some(error) => Err(error)
                 case None => Ok(DependencyTypes.CanonicalCompilerTerm(TERM_ENCODING_SCHEMA, done.bytes)))
        && Now() == (if done.error.Some? then done else done.(bytes := []))
    {
      bytes, typeShorthands, predicateShorthands, error := [], map[], map[], None;
      EmitRawBytes(MAGIC);
      EmitU8(Tag(kind));
      assert Now() == Initial(kind);
      for i := 0 to |steps|
        invariant Now() == Run(codec, Initial(kind), steps[..i])
      {
        Encode(steps[i]);
        assert steps[..i + 1][..i] == steps[..i];
      }
      assert steps[..|steps|] == steps;
      if error.Some? {
        return Err(error.value);
      }
      r := Ok(DependencyTypes.CanonicalCompilerTerm(TERM_ENCODING_SCHEMA, bytes));
      bytes := [];
    }
  }

  lemma {:induction false} Gathered(start: seq<byte>, a: seq<byte>, b: seq<byte>)
    ensures start + a + b == start + (a + b)
  {
  }

  lemma {:induction false} Gathered4(start: seq<byte>, a: seq<byte>, b: seq<byte>, c: seq<byte>, d: seq<byte>)
    ensures start + a + b + c + d == start + (a + b + c + d)
  {
  }

  lemma {:induction false} PartsGrow(codec: Codec, key: DefinitionKey, i: nat)
    requires i < |key|
    ensures EncodeParts(codec, key[..i + 1]) == EncodeParts(codec, key[..i]) + EncodePart(codec, key[i])
  {
    assert key[..i + 1] == key[..i] + [key[i]];
    PartsConcat(codec, key[..i], key[i]);
  }

  lemma {:induction false} PartsConcat(codec: Codec, key: DefinitionKey, part: DefinitionKeyPart)
    ensures EncodeParts(codec, key + [part]) == EncodeParts(codec, key) + EncodePart(codec, part)
    decreases |key|
  {
    hide EncodePart;
    if key == [] {
      assert key + [part] == [part];
      assert EncodeParts(codec, [part]) == EncodePart(codec, part) + EncodeParts(codec, []);
    } else {
      assert (key + [part])[1..] == key[1..] + [part];
      PartsConcat(codec, key[1..], part);
    }
  }

  /* ---------- identities ---------- */

  /** A single reference is encoded as it stands. */
  lemma {:induction false} ReferenceRun(codec: Codec, kind: CompilerTermKind, reference: DefinitionReferenceKey)
    requires Encodable(reference)
    ensures Run(codec, Initial(kind), [Definition(Some(reference))]) ==
      State(MAGIC + [Tag(kind)] + EncodeReference(codec, reference), map[], None)
  {
    hide EncodeParts;
    hide EncodeExternal;
    hide LittleEndian;
    var steps := [Definition(Some(reference))];
    assert steps[..0] == [];
    var start := Initial(kind).bytes;
    match reference
    case Local(key) =>
      assert start + [0] + LittleEndian(|key|, 8) + EncodeParts(codec, key)
        == start + ([0] + (LittleEndian(|key|, 8) + EncodeParts(codec, key)));
    case External(key) =>
  }

  /** Terms of different roles or of different references never share their bytes. */
  lemma {:induction false} TermsDiffer(codec: Codec, k: CompilerTermKind, a: DefinitionReferenceKey,
                                       l: CompilerTermKind, b: DefinitionReferenceKey)
    requires SoundCodec(codec) && Encodable(a) && Encodable(b)
    requires Run(codec, Initial(k), [Definition(Some(a))]).bytes == Run(codec, Initial(l), [Definition(Some(b))]).bytes
    ensures k == l && a == b
  {
    hide Run;
    hide EncodeReference;
    hide PrefixFree;
    hide Tag;
    ReferenceRun(codec, k, a);
    ReferenceRun(codec, l, b);
    var x, y := EncodeReference(codec, a), EncodeReference(codec, b);
    assert MAGIC + [Tag(k)] + x == MAGIC + ([Tag(k)] + x);
    assert MAGIC + [Tag(l)] + y == MAGIC + ([Tag(l)] + y);
    CutFixed(MAGIC, [Tag(k)] + x, MAGIC, [Tag(l)] + y);
    CutByte(Tag(k), x, Tag(l), y);
    TagInjective(k, l);
    assert x + [] == x && y + [] == y;
    CutReference(codec, a, [], b, []);
  }
}
