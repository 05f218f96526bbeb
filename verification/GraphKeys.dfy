/** Source-derived identities of definitions (src/graph.rs, lines 13-171) and of expansions
    (src/dependency_graph.rs, lines 21-123). */
module GraphKeys {
  import opened Wrappers
  import opened Text

  datatype DefinitionKind =
    | Crate | Module | Function | Static | Const | TypeAlias | OpaqueType | Struct | Enum | Union
    | Variant | Field | Constructor | Trait | TraitAlias | AssociatedType | AssociatedFunction
    | AssociatedConst | Impl | TypeParameter | ConstParameter | LifetimeParameter | ExternCrate | Use
    | ForeignModule | ForeignType | GlobalAsm | Closure | Coroutine | CoroutineClosure
    | SyntheticCoroutineBody | AnonymousConst | InlineConst | Macro

  datatype GeneratedRole =
    | AnonymousAssociatedType | GeneratedAnonymousConst | GeneratedCoroutine | CoroutineBody
    | GeneratedCoroutineClosure | ElidedLifetime | NestedStatic | OpaqueLifetime | GeneratedOpaqueType

  datatype InjectedRole = InjectedExternCrate | PreludeImport

  datatype WrittenUnitKind =
    | CrateRoot | InlineModule | Item | TraitMember | ImplMember | UseItem | UseLeaf
    | MacroDefinition | MacroInvocation | NestedItem | MacroRule | NoEffectCfgAttr | InactiveCfgComponent

  datatype DefinitionOriginKey =
    | WrittenKey(anchor: ByteRange, unitKind: WrittenUnitKind)
    | ExpandedKey(invocationRange: ByteRange, generatedRole: Option<GeneratedRole>)
    | CompilerGeneratedKey(role: GeneratedRole)
    | InjectedKey(injectedRole: InjectedRole)

  datatype DefinitionOrigin =
    | Written(unit: u32, unitRange: ByteRange, anchor: ByteRange, unitKind: WrittenUnitKind, unitOrdinal: u32)
    | Expanded(invocation: u32, invocationRange: ByteRange, generatedRole: Option<GeneratedRole>, ordinal: u32)
    | CompilerGenerated(role: GeneratedRole, ordinal: u32)
    | Injected(injectedRole: InjectedRole, ordinal: u32)
  {
    function Key(): DefinitionOriginKey {
      match this
      case Written(_, _, anchor, unitKind, _) => WrittenKey(anchor, unitKind)
      case Expanded(_, range, role, _) => ExpandedKey(range, role)
      case CompilerGenerated(role, _) => CompilerGeneratedKey(role)
      case Injected(role, _) => InjectedKey(role)
    }

    /** Overwrites the ordinal of every origin that carries one. */
    function WithOrdinal(n: u32): DefinitionOrigin {
      match this
      case Written(_, _, _, _, _) => this
      case Expanded(i, range, role, _) => Expanded(i, range, role, n)
      case CompilerGenerated(role, _) => CompilerGenerated(role, n)
      case Injected(role, _) => Injected(role, n)
    }
  }

  datatype DefinitionKeyPart =
    DefinitionKeyPart(kind: DefinitionKind, origin: DefinitionOriginKey, name: Option<string>, sameRoleOrdinal: u32)

  type DefinitionKey = seq<DefinitionKeyPart>

  datatype ExternalDefinitionKey = ExternalDefinitionKey(crateIdentity: nat, crateName: string, defPathHash: seq<byte>)

  datatype DefinitionReferenceKey = Local(key: DefinitionKey) | External(external: ExternalDefinitionKey)

  datatype MacroStyle = Bang | Attribute | Derive

  datatype ExpansionKind =
    | MacroExpansion(style: MacroStyle, name: string) | AstPass(pass: nat) | Desugaring(desugaring: nat)

  datatype ExpansionKeyPart = ExpansionKeyPart(
    kind: ExpansionKind,
    fragment: Option<nat>,
    implementation: Option<nat>,
    invocationRange: Option<ByteRange>,
    nodeRange: Option<ByteRange>,
    targetRange: Option<ByteRange>,
    macroDefinition: Option<DefinitionReferenceKey>,
    selectedMacroRule: Option<ByteRange>,
    sameRoleOrdinal: u32)

  type ExpansionKey = seq<ExpansionKeyPart>
}
