// Unresolved type definitions, the scopes their indices refer to, and conversion to value types.

module TypeDefs {
  import opened Words
  import opened Wrappers
  import opened Values
  import opened Types

  datatype ValTypeRef = ValTypeRef(isPrimitive: bool, primitive: byte, typeIdx: uint32, isOwn: bool, isBorrow: bool)

  datatype FieldDef = FieldDef(name: Bytes, ref: ValTypeRef)
  datatype CaseDef = CaseDef(name: Bytes, ref: Option<ValTypeRef>)

  /** The one structure a definition carries; NoShape when none of the decoded structures is present. */
  datatype Shape =
    | RecordDef(fields: seq<FieldDef>)
    | OptionDef(inner: ValTypeRef)
    | ListDef(elem: ValTypeRef)
    | ResultDef(ok: Option<ValTypeRef>, err: Option<ValTypeRef>)
    | VariantDef(cases: seq<CaseDef>)
    | TupleDef(types: seq<ValTypeRef>)
    | FlagsDef(names: seq<Bytes>)
    | EnumDef(names: seq<Bytes>)
    | HandleDef(handle: ValTypeRef)
    | NoShape

  datatype DefKind = FuncKind | ComponentKind | InstanceKind | ResourceKind | DefinedKind

  /** `source` names the scope the definition's own indices refer to, when it carries one. */
  datatype TypeDef = TypeDef(kind: DefKind, shape: Shape, source: Option<nat>)

  type Scope = map<uint32, TypeDef>

  /** Scopes by name: definitions refer to scopes, and scopes may contain themselves. */
  type Scopes = map<nat, Scope>

  // ----- primitives -----

  function PrimOf(opcode: byte): Option<PrimKind> {
    match opcode
    case 0x7f => Some(PBool)
    case 0x7e => Some(PS8)
    case 0x7d => Some(PU8)
    case 0x7c => Some(PS16)
    case 0x7b => Some(PU16)
    case 0x7a => Some(PS32)
    case 0x79 => Some(PU32)
    case 0x78 => Some(PS64)
    case 0x77 => Some(PU64)
    case 0x76 => Some(PF32)
    case 0x75 => Some(PF64)
    case 0x74 => Some(PChar)
    case 0x73 => Some(PString)
    case _ => None
  }

  // ----- lookup -----

  function LookupIdx(scopes: Scopes, local: Option<nat>, idx: uint32): Option<TypeDef> {
    if local.Some? && local.value in scopes && idx in scopes[local.value]
    then Some(scopes[local.value][idx]) else None
  }

  /** resolveInnerType: only a plain type index resolves. */
  function ResolveInner(scopes: Scopes, local: Option<nat>, ref: ValTypeRef): Option<TypeDef> {
    if ref.isPrimitive || ref.isOwn || ref.isBorrow then None else LookupIdx(scopes, local, ref.typeIdx)
  }

  /** A definition's own scope takes priority over the scope it is used in. */
  function Effective(td: TypeDef, local: Option<nat>): Option<nat> {
    if td.source.Some? then td.source else local
  }

  // ----- acyclicity -----

  function CaseRefs(cases: seq<CaseDef>): seq<ValTypeRef> {
    if cases == [] then []
    else (if cases[0].ref.Some? then [cases[0].ref.value] else []) + CaseRefs(cases[1..])
  }

  function Refs(s: Shape): seq<ValTypeRef> {
    match s
    case RecordDef(fields) => seq(|fields|, i requires 0 <= i < |fields| => fields[i].ref)
    case OptionDef(inner) => [inner]
    case ListDef(elem) => [elem]
    case ResultDef(ok, err) => (if ok.Some? then [ok.value] else []) + (if err.Some? then [err.value] else [])
    case VariantDef(cases) => CaseRefs(cases)
    case TupleDef(types) => types
    case FlagsDef(_) => []
    case EnumDef(_) => []
    case HandleDef(handle) => [handle]
    case NoShape => []
  }

  /** A rank for every index of every scope; it witnesses that definitions do not contain themselves. */
  type Rank = (nat, uint32) -> nat

  /** Only a reference that is looked up has a rank; a known primitive or a handle leads nowhere. */
  ghost function RefRank(scopes: Scopes, rank: Rank, local: Option<nat>, ref: ValTypeRef): nat {
    if (ref.isPrimitive && PrimOf(ref.primitive).Some?) || ref.isOwn || ref.isBorrow then 0
    else if LookupIdx(scopes, local, ref.typeIdx).Some? then rank(local.value, ref.typeIdx) + 1 else 0
  }

  ghost predicate RefsBelow(scopes: Scopes, rank: Rank, local: Option<nat>, td: TypeDef, n: nat) {
    forall r :: r in Refs(td.shape) ==> RefRank(scopes, rank, local, r) <= n
  }

  ghost predicate Ranked(scopes: Scopes, rank: Rank) {
    forall s, i :: s in scopes && i in scopes[s] ==>
      RefsBelow(scopes, rank, Effective(scopes[s][i], Some(s)), scopes[s][i], rank(s, i))
  }

  lemma {:induction false} CaseRefsIn(cases: seq<CaseDef>, i: nat)
    requires i < |cases| && cases[i].ref.Some?
    ensures cases[i].ref.value in CaseRefs(cases)
  {
    if i > 0 {
      CaseRefsIn(cases[1..], i - 1);
    }
  }

  lemma FieldRefIn(td: TypeDef, i: nat)
    requires td.shape.RecordDef? && i < |td.shape.fields|
    ensures td.shape.fields[i].ref in Refs(td.shape)
  {
    assert Refs(td.shape)[i] == td.shape.fields[i].ref;
  }

  // ----- conversion to value types -----

  function RefToValType(scopes: Scopes, ghost rank: Rank, local: Option<nat>, ref: ValTypeRef): ValType
    requires Ranked(scopes, rank)
    decreases RefRank(scopes, rank, local, ref), 0
  {
    if ref.isPrimitive && PrimOf(ref.primitive).Some? then Prim(PrimOf(ref.primitive).value)
    else if ref.isOwn then OwnType(ref.typeIdx)
    else if ref.isBorrow then BorrowType(ref.typeIdx)
    else
      var td := LookupIdx(scopes, local, ref.typeIdx);
      if td.None? then Prim(PU32)
      else
        var vt := DefToValType(scopes, rank, local, td.value, rank(local.value, ref.typeIdx));
        if vt.Some? then vt.value else Prim(PU32)
  }

  function DefToValType(scopes: Scopes, ghost rank: Rank, local: Option<nat>, td: TypeDef, ghost n: nat): Option<ValType>
    requires Ranked(scopes, rank) && RefsBelow(scopes, rank, Effective(td, local), td, n)
    decreases n, 2
  {
    if td.kind != DefinedKind then None
    else
      var eff := Effective(td, local);
      match td.shape
      case HandleDef(h) =>
        if h.isPrimitive then Some(RefToValType(scopes, rank, eff, h))
        else if h.isOwn then Some(OwnType(h.typeIdx))
        else if h.isBorrow then Some(BorrowType(h.typeIdx))
        else None
      case OptionDef(inner) => Some(OptionType(RefToValType(scopes, rank, eff, inner)))
      case ResultDef(ok, err) =>
        assert ok.Some? ==> ok.value in Refs(td.shape);
        assert err.Some? ==> err.value in Refs(td.shape);
        Some(ResultType(if ok.Some? then Some(RefToValType(scopes, rank, eff, ok.value)) else None,
                        if err.Some? then Some(RefToValType(scopes, rank, eff, err.value)) else None))
      case RecordDef(fields) =>
        Some(RecordType(seq(|fields|, i requires 0 <= i < |fields| =>
          FieldRefIn(td, i); Field(fields[i].name, RefToValType(scopes, rank, eff, fields[i].ref)))))
      case TupleDef(types) =>
        Some(TupleType(seq(|types|, i requires 0 <= i < |types| => RefToValType(scopes, rank, eff, types[i]))))
      case ListDef(elem) => Some(ListType(RefToValType(scopes, rank, eff, elem)))
      case VariantDef(cases) =>
        Some(VariantType(seq(|cases|, i requires 0 <= i < |cases| =>
          Case(cases[i].name,
               if cases[i].ref.Some? then CaseRefsIn(cases, i); Some(RefToValType(scopes, rank, eff, cases[i].ref.value)) else None))))
      case FlagsDef(names) => Some(FlagsType(names))
      case EnumDef(names) => Some(EnumType(names))
      case NoShape => None
  }
}
