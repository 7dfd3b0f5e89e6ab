// Resolved component value types and their memory layout.

module Types {
  import opened Words
  import opened Wrappers
  import opened Values

  datatype PrimKind =
    | PBool | PS8 | PU8 | PS16 | PU16 | PS32 | PU32 | PS64 | PU64 | PF32 | PF64 | PChar | PString

  datatype ValType =
    | Prim(kind: PrimKind)
    | ListType(elem: ValType)
    | RecordType(fields: seq<Field>)
    | TupleType(types: seq<ValType>)
    | VariantType(cases: seq<Case>)
    | EnumType(labels: seq<Bytes>)
    | OptionType(some: ValType)
    | ResultType(ok: Option<ValType>, error: Option<ValType>)
    | FlagsType(names: seq<Bytes>)
    | OwnType(resource: uint32)
    | BorrowType(resource: uint32)

  datatype Field = Field(name: Bytes, typ: ValType)

  /** A case without payload has no type. */
  datatype Case = Case(name: Bytes, typ: Option<ValType>)

  const NONE_NAME: Bytes := [110, 111, 110, 101]
  const SOME_NAME: Bytes := [115, 111, 109, 101]
  const OK_NAME: Bytes := [111, 107]
  const ERROR_NAME: Bytes := [101, 114, 114, 111, 114]

  /** option<T> is sugar for variant { none, some(T) }. */
  function OptionCases(some: ValType): seq<Case> {
    [Case(NONE_NAME, None), Case(SOME_NAME, Some(some))]
  }

  /** result<T, E> is sugar for variant { ok(T), error(E) }. */
  function ResultCases(ok: Option<ValType>, error: Option<ValType>): seq<Case> {
    [Case(OK_NAME, ok), Case(ERROR_NAME, error)]
  }

  function Max(a: nat, b: nat): nat {
    if a < b then b else a
  }

  /** Words needed for n flags, 32 to a word. */
  function FlagWords(n: nat): nat {
    (n + 31) / 32
  }

  // ----- the declared flat count -----

  function FlattenCount(t: ValType): nat
    decreases t, 1
  {
    match t
    case Prim(k) => if k == PString then 2 else 1
    case ListType(_) => 2
    case RecordType(fs) => FieldsCount(fs)
    case TupleType(ts) => TypesCount(ts)
    case VariantType(cs) => 1 + CasesCount(cs)
    case EnumType(_) => 1
    case OptionType(some) => 1 + FlattenCount(some)
    case ResultType(ok, error) =>
      1 + Max(if ok.Some? then FlattenCount(ok.value) else 0, if error.Some? then FlattenCount(error.value) else 0)
    case FlagsType(names) => FlagWords(|names|)
    case OwnType(_) => 1
    case BorrowType(_) => 1
  }

  function FieldsCount(fs: seq<Field>): nat
    decreases fs, 0
  {
    if fs == [] then 0 else FlattenCount(fs[0].typ) + FieldsCount(fs[1..])
  }

  function TypesCount(ts: seq<ValType>): nat
    decreases ts, 0
  {
    if ts == [] then 0 else FlattenCount(ts[0]) + TypesCount(ts[1..])
  }

  /** The largest payload count over the cases. */
  function CasesCount(cs: seq<Case>): nat
    decreases cs, 0
  {
    if cs == [] then 0
    else Max(if cs[0].typ.Some? then FlattenCount(cs[0].typ.value) else 0, CasesCount(cs[1..]))
  }
}
