// Resolution of type references to value types through a cache.

module TypeResolution {
  import opened Words
  import opened Wrappers
  import opened Values
  import opened Types
  import opened TypeDefs

  datatype ResolveError = UnknownPrimitive | NotFound | FuncAsValue | ResourceAsValue | UnsupportedKind | Unhandled

  /**
    Where indices lead: the component's compact list of definitions, the sparse index space mapped into
    it, the type space of an instance if there is one, and the local scopes.
   */
  datatype Universe = Universe(types: seq<TypeDef>, stored: map<uint32, uint32>, space: Option<map<uint32, TypeDef>>, scopes: Scopes)

  datatype Found = Local(def: TypeDef) | Shared(def: TypeDef) | Nowhere

  /** The local scope first, then the mapped definition if it can be a value, the type space, and the list itself. */
  function Find(u: Universe, local: Option<nat>, idx: uint32): Found {
    var own := LookupIdx(u.scopes, local, idx);
    if own.Some? then Local(own.value)
    else if idx in u.stored && u.stored[idx] < |u.types| && MayBeValue(u.types[u.stored[idx]].kind) then Shared(u.types[u.stored[idx]])
    else if u.space.Some? && idx in u.space.value then Shared(u.space.value[idx])
    else if idx < |u.types| then Shared(u.types[idx])
    else Nowhere
  }

  predicate MayBeValue(k: DefKind) {
    k == DefinedKind || k == ResourceKind || k == FuncKind
  }

  // ----- which definition wins -----

  /** The scope at hand; empty if there is none. */
  ghost function LocalLayer(u: Universe, local: Option<nat>): map<uint32, TypeDef> {
    if local.Some? && local.value in u.scopes then u.scopes[local.value] else map[]
  }

  /** The mapped definitions that are value types, resources or functions. */
  ghost function MappedLayer(u: Universe): map<uint32, TypeDef> {
    map i | i in u.stored && u.stored[i] < |u.types| && !u.types[u.stored[i]].kind.ComponentKind? && !u.types[u.stored[i]].kind.InstanceKind? :: u.types[u.stored[i]]
  }

  ghost function ListLayer(types: seq<TypeDef>): map<uint32, TypeDef> {
    map i | 0 <= i < |types| && i < TWO_32 :: types[i]
  }

  /** What is visible: each layer hides the ones before it. */
  ghost function Visible(u: Universe, local: Option<nat>): map<uint32, TypeDef> {
    ListLayer(u.types) + (if u.space.Some? then u.space.value else map[]) + MappedLayer(u) + LocalLayer(u, local)
  }

  /** The definition found is the visible one, and it is local exactly when the scope at hand has it. */
  lemma FoundIsVisible(u: Universe, local: Option<nat>, idx: uint32)
    ensures Find(u, local, idx).Nowhere? <==> idx !in Visible(u, local)
    ensures !Find(u, local, idx).Nowhere? ==> Find(u, local, idx).def == Visible(u, local)[idx]
    ensures Find(u, local, idx).Local? <==> idx in LocalLayer(u, local)
  {
  }

  /** Only an index that is visible resolves, and outside the scope at hand only one that is a value type. */
  lemma RefusedByKind(u: Universe, rank: URank, local: Option<nat>, ref: ValTypeRef)
    requires Acyclic(u, rank) && Plain(ref)
    ensures ref.typeIdx !in Visible(u, local) ==> ResolveRef(u, rank, local, ref) == Err(NotFound)
    ensures ref.typeIdx in Visible(u, local) && ref.typeIdx !in LocalLayer(u, local) ==>
      match Visible(u, local)[ref.typeIdx].kind
      case FuncKind => ResolveRef(u, rank, local, ref) == Err(FuncAsValue)
      case ResourceKind => ResolveRef(u, rank, local, ref) == Err(ResourceAsValue)
      case ComponentKind => ResolveRef(u, rank, local, ref) == Err(UnsupportedKind)
      case InstanceKind => Visible(u, local)[ref.typeIdx].shape == NoShape ==> ResolveRef(u, rank, local, ref) == Err(UnsupportedKind)
      case DefinedKind => Visible(u, local)[ref.typeIdx].shape == NoShape ==> ResolveRef(u, rank, local, ref) == Err(Unhandled)
  {
    hide Find, Visible, LocalLayer, Acyclic;
    FoundIsVisible(u, local, ref.typeIdx);
  }

  predicate Plain(ref: ValTypeRef) {
    !ref.isPrimitive && !ref.isOwn && !ref.isBorrow
  }

  // ----- acyclicity -----

  /** The references of a shape in order, with the places that have none. */
  function Parts(s: Shape): seq<Option<ValTypeRef>> {
    match s
    case RecordDef(fields) => seq(|fields|, i requires 0 <= i < |fields| => Some(fields[i].ref))
    case OptionDef(inner) => [Some(inner)]
    case ListDef(elem) => [Some(elem)]
    case ResultDef(ok, err) => [ok, err]
    case VariantDef(cases) => seq(|cases|, i requires 0 <= i < |cases| => cases[i].ref)
    case TupleDef(types) => seq(|types|, i requires 0 <= i < |types| => Some(types[i]))
    case _ => []
  }

  /** A rank for every index in every scope, and with no scope. */
  type URank = (Option<nat>, uint32) -> nat

  ghost function RankOf(u: Universe, rank: URank, local: Option<nat>, ref: ValTypeRef): nat {
    if Plain(ref) && !Find(u, local, ref.typeIdx).Nowhere? then rank(local, ref.typeIdx) + 1 else 0
  }

  ghost predicate PartsBelow(u: Universe, rank: URank, local: Option<nat>, parts: seq<Option<ValTypeRef>>, n: nat) {
    forall k :: 0 <= k < |parts| && parts[k].Some? ==> RankOf(u, rank, local, parts[k].value) <= n
  }

  /** Every definition refers only to definitions of lower rank, in the scope its references are read in. */
  ghost predicate Acyclic(u: Universe, rank: URank) {
    forall local: Option<nat>, idx: uint32 :: !Find(u, local, idx).Nowhere? ==>
      var td := Find(u, local, idx).def;
      PartsBelow(u, rank, Effective(td, local), Parts(td.shape), rank(local, idx))
  }

  // ----- the cache-free definition -----

  function ResolvePrimitive(opcode: byte): Result<ValType, ResolveError> {
    if PrimOf(opcode).Some? then Ok(Prim(PrimOf(opcode).value)) else Err(UnknownPrimitive)
  }

  function ResolveRef(u: Universe, ghost rank: URank, local: Option<nat>, ref: ValTypeRef): Result<ValType, ResolveError>
    requires Acyclic(u, rank)
    decreases RankOf(u, rank, local, ref), 0, 0
  {
    if ref.isPrimitive then ResolvePrimitive(ref.primitive)
    else if ref.isOwn then Ok(OwnType(ref.typeIdx))
    else if ref.isBorrow then Ok(BorrowType(ref.typeIdx))
    else
      match Find(u, local, ref.typeIdx)
      case Nowhere => Err(NotFound)
      case Local(td) => ResolveDef(u, rank, local, td, rank(local, ref.typeIdx))
      case Shared(td) =>
        var error := KindError(td);
        if error.Some? then Err(error.value) else ResolveDef(u, rank, local, td, rank(local, ref.typeIdx))
  }

  /** A definition outside the local scopes must be a value type. */
  function KindError(td: TypeDef): Option<ResolveError> {
    match td.kind
    case DefinedKind => None
    case FuncKind => Some(FuncAsValue)
    case ResourceKind => Some(ResourceAsValue)
    case InstanceKind => if td.shape == NoShape then Some(UnsupportedKind) else None
    case ComponentKind => Some(UnsupportedKind)
  }

  function ResolveDef(u: Universe, ghost rank: URank, local: Option<nat>, td: TypeDef, ghost n: nat): Result<ValType, ResolveError>
    requires Acyclic(u, rank) && PartsBelow(u, rank, Effective(td, local), Parts(td.shape), n)
    decreases n, 2, 0
  {
    match td.shape
    case HandleDef(h) => ResolveHandle(h)
    case NoShape => Err(Unhandled)
    case _ =>
      var vs := ResolveParts(u, rank, Effective(td, local), Parts(td.shape), n);
      if vs.Ok? then Ok(Assemble(td.shape, vs.value)) else Err(vs.error)
  }

  function ResolveHandle(h: ValTypeRef): Result<ValType, ResolveError> {
    if h.isPrimitive then ResolvePrimitive(h.primitive)
    else if h.isOwn then Ok(OwnType(h.typeIdx))
    else if h.isBorrow then Ok(BorrowType(h.typeIdx))
    else Err(Unhandled)
  }

  /** Each reference in turn, stopping at the first error. */
  function ResolveParts(u: Universe, ghost rank: URank, local: Option<nat>, parts: seq<Option<ValTypeRef>>, ghost n: nat)
    : (r: Result<seq<Option<ValType>>, ResolveError>)
    requires Acyclic(u, rank) && PartsBelow(u, rank, local, parts, n)
    ensures r.Ok? ==> |r.value| == |parts| && forall k :: 0 <= k < |parts| ==> (r.value[k].Some? <==> parts[k].Some?)
    decreases n, 1, |parts|
  {
    if parts == [] then Ok([])
    else
      var last := |parts| - 1;
      var before := ResolveParts(u, rank, local, parts[..last], n);
      if before.Err? then before
      else if parts[last].None? then Ok(before.value + [None])
      else
        var v := ResolveRef(u, rank, local, parts[last].value);
        if v.Ok? then Ok(before.value + [Some(v.value)]) else Err(v.error)
  }

  /** A shape with its references resolved. */
  function Assemble(s: Shape, vs: seq<Option<ValType>>): ValType
    requires !s.HandleDef? && s != NoShape
    requires |vs| == |Parts(s)| && forall k :: 0 <= k < |vs| ==> (vs[k].Some? <==> Parts(s)[k].Some?)
  {
    match s
    case RecordDef(fields) => RecordType(seq(|fields|, i requires 0 <= i < |fields| => Field(fields[i].name, vs[i].value)))
    case OptionDef(_) => OptionType(vs[0].value)
    case ListDef(_) => ListType(vs[0].value)
    case ResultDef(_, _) => ResultType(vs[0], vs[1])
    case VariantDef(cases) => VariantType(seq(|cases|, i requires 0 <= i < |cases| => Case(cases[i].name, vs[i])))
    case TupleDef(types) => TupleType(seq(|types|, i requires 0 <= i < |types| => vs[i].value))
    case FlagsDef(names) => FlagsType(names)
    case EnumDef(names) => EnumType(names)
  }

  // ----- the resolver -----

  class TypeResolver {
    const u: Universe
    const local: Option<nat>
    var cache: map<uint32, ValType>

    /** Whatever is cached is what the definition gives. */
    ghost predicate Valid(rank: URank)
      reads this
    {
      && Acyclic(u, rank)
      && forall idx :: idx in cache ==> ResolveRef(u, rank, local, IndexRef(idx)) == Ok(cache[idx])
    }

    static function IndexRef(idx: uint32): ValTypeRef {
      ValTypeRef(false, 0, idx, false, false)
    }

    constructor (u: Universe, local: Option<nat>)
      ensures this.u == u && this.local == local && cache == map[]
    {
      this.u, this.local := u, local;
      cache := map[];
    }

    method ResolveValType(ref: ValTypeRef, ghost rank: URank) returns (r: Result<ValType, ResolveError>)
      requires Valid(rank)
      modifies this
      ensures Valid(rank) && r == ResolveRef(u, rank, local, ref)
      decreases RankOf(u, rank, local, ref), 0, 1
    {
      hide Acyclic;
      if ref.isPrimitive {
        return ResolvePrimitive(ref.primitive);
      }
      if ref.isOwn {
        return Ok(OwnType(ref.typeIdx));
      }
      if ref.isBorrow {
        return Ok(BorrowType(ref.typeIdx));
      }
      r := ResolveTypeIdx(ref.typeIdx, rank);
      PlainSame(u, rank, local, ref);
    }

    method ResolveTypeIdx(idx: uint32, ghost rank: URank) returns (r: Result<ValType, ResolveError>)
      requires Valid(rank)
      modifies this
      ensures Valid(rank) && r == ResolveRef(u, rank, local, IndexRef(idx))
      decreases RankOf(u, rank, local, IndexRef(idx)), 0, 0
    {
      if idx in cache {
        return Ok(cache[idx]);
      }
      match Find(u, local, idx)
      case Nowhere => return Err(NotFound);
      case Local(td) => r := ResolveDefinedType(td, rank, rank(local, idx));
      case Shared(td) =>
        if KindError(td).Some? {
          return Err(KindError(td).value);
        }
        r := ResolveDefinedType(td, rank, rank(local, idx));
        if r.Err? {
          return;
        }
        cache := cache[idx := r.value];
    }

    method ResolveDefinedType(td: TypeDef, ghost rank: URank, ghost n: nat) returns (r: Result<ValType, ResolveError>)
      requires Valid(rank) && PartsBelow(u, rank, Effective(td, local), Parts(td.shape), n)
      modifies this
      ensures Valid(rank) && r == ResolveDef(u, rank, local, td, n)
      decreases n, 2, 0
    {
      hide Acyclic, PartsBelow, ResolveParts;
      if td.shape.HandleDef? {
        return ResolveHandle(td.shape.handle);
      }
      if td.shape == NoShape {
        return Err(Unhandled);
      }
      var resolver := this;
      if td.source.Some? {
        resolver := new TypeResolver(u, td.source);
      }
      var vs := resolver.ResolveEach(Parts(td.shape), rank, n);
      r := if vs.Ok? then Ok(Assemble(td.shape, vs.value)) else Err(vs.error);
    }

    /** The references of a record, variant, tuple or result, or of an option or list. */
    method ResolveEach(parts: seq<Option<ValTypeRef>>, ghost rank: URank, ghost n: nat)
      returns (r: Result<seq<Option<ValType>>, ResolveError>)
      requires Valid(rank) && PartsBelow(u, rank, local, parts, n)
      modifies this
      ensures Valid(rank) && r == ResolveParts(u, rank, local, parts, n)
      decreases n, 1, 0
    {
      hide Acyclic;
      var vs: seq<Option<ValType>> := [];
      for i := 0 to |parts|
        invariant Valid(rank)
        invariant ResolveParts(u, rank, local, parts[..i], n) == Ok(vs)
      {
        assert parts[..i + 1][..i] == parts[..i];
        if parts[i].None? {
          vs := vs + [None];
        } else {
          var v := ResolveValType(parts[i].value, rank);
          if v.Err? {
            StaysErr(u, rank, local, parts, i, n);
            return Err(v.error);
          }
          vs := vs + [Some(v.value)];
        }
      }
      assert parts[..|parts|] == parts;
      r := Ok(vs);
    }
  }

  lemma PlainSame(u: Universe, rank: URank, local: Option<nat>, ref: ValTypeRef)
    requires Acyclic(u, rank) && Plain(ref)
    ensures ResolveRef(u, rank, local, ref) == ResolveRef(u, rank, local, TypeResolver.IndexRef(ref.typeIdx))
  {
  }

  lemma {:induction false} StaysErr(u: Universe, rank: URank, local: Option<nat>, parts: seq<Option<ValTypeRef>>, i: nat, n: nat)
    requires Acyclic(u, rank) && PartsBelow(u, rank, local, parts, n) && i < |parts|
    requires ResolveParts(u, rank, local, parts[..i + 1], n).Err?
    ensures ResolveParts(u, rank, local, parts, n) == ResolveParts(u, rank, local, parts[..i + 1], n)
    decreases |parts|
  {
    if i + 1 == |parts| {
      assert parts[..i + 1] == parts;
    } else {
      var shorter := parts[..|parts| - 1];
      assert shorter[..i + 1] == parts[..i + 1];
      StaysErr(u, rank, local, shorter, i, n);
    }
  }

  // ----- agreement with the conversion that has no cache and no errors -----

  predicate ClosedRef(scopes: Scopes, local: Option<nat>, ref: ValTypeRef) {
    if ref.isPrimitive then PrimOf(ref.primitive).Some?
    else ref.isOwn || ref.isBorrow || LookupIdx(scopes, local, ref.typeIdx).Some?
  }

  /** A value definition whose references are all found in the scope they are read in. */
  ghost predicate ClosedDef(scopes: Scopes, local: Option<nat>, td: TypeDef) {
    && td.kind == DefinedKind && td.shape != NoShape
    && (td.shape.HandleDef? ==> !Plain(td.shape.handle) && ClosedRef(scopes, local, td.shape.handle))
    && forall k :: 0 <= k < |Parts(td.shape)| && Parts(td.shape)[k].Some? ==>
         ClosedRef(scopes, Effective(td, local), Parts(td.shape)[k].value)
  }

  ghost predicate ClosedScopes(scopes: Scopes) {
    forall s, i :: s in scopes && i in scopes[s] ==> ClosedDef(scopes, Some(s), scopes[s][i])
  }

  /** On closed scopes the resolver gives what the plain conversion gives. */
  lemma {:induction false} RefAgrees(u: Universe, rank: URank, rank': Rank, local: Option<nat>, ref: ValTypeRef)
    requires Acyclic(u, rank) && Ranked(u.scopes, rank') && ClosedScopes(u.scopes) && ClosedRef(u.scopes, local, ref)
    ensures ResolveRef(u, rank, local, ref) == Ok(RefToValType(u.scopes, rank', local, ref))
    decreases RefRank(u.scopes, rank', local, ref), 0
  {
    hide DefToValType, ResolveDef;
    if Plain(ref) {
      var td := LookupIdx(u.scopes, local, ref.typeIdx).value;
      assert ClosedDef(u.scopes, local, td);
      DefAgrees(u, rank, rank', local, td, rank(local, ref.typeIdx), rank'(local.value, ref.typeIdx));
    }
  }

  lemma {:induction false} DefAgrees(u: Universe, rank: URank, rank': Rank, local: Option<nat>, td: TypeDef, n: nat, n': nat)
    requires Acyclic(u, rank) && PartsBelow(u, rank, Effective(td, local), Parts(td.shape), n)
    requires Ranked(u.scopes, rank') && RefsBelow(u.scopes, rank', Effective(td, local), td, n')
    requires ClosedScopes(u.scopes) && ClosedDef(u.scopes, local, td)
    ensures ResolveDef(u, rank, local, td, n).Ok?
    ensures DefToValType(u.scopes, rank', local, td, n') == Some(ResolveDef(u, rank, local, td, n).value)
    decreases n', 2
  {
    hide Acyclic, Ranked, ClosedScopes, ResolveRef, RefToValType;
    if !td.shape.HandleDef? {
      var eff, parts := Effective(td, local), Parts(td.shape);
      forall k | 0 <= k < |parts| && parts[k].Some?
        ensures ResolveRef(u, rank, eff, parts[k].value) == Ok(RefToValType(u.scopes, rank', eff, parts[k].value))
      {
        PartIsRef(td.shape, k);
        RefAgrees(u, rank, rank', eff, parts[k].value);
      }
      PartsAgree(u, rank, rank', eff, parts, n);
      AssembledAgrees(u, rank', local, td, n', ResolveParts(u, rank, eff, parts, n).value);
    } else {
      HandleAgrees(u, rank', local, td, n');
    }
  }

  lemma HandleAgrees(u: Universe, rank': Rank, local: Option<nat>, td: TypeDef, n': nat)
    requires Ranked(u.scopes, rank') && RefsBelow(u.scopes, rank', Effective(td, local), td, n')
    requires td.shape.HandleDef? && ClosedDef(u.scopes, local, td)
    ensures ResolveHandle(td.shape.handle).Ok?
    ensures DefToValType(u.scopes, rank', local, td, n') == Some(ResolveHandle(td.shape.handle).value)
  {
  }

  lemma AssembledAgrees(u: Universe, rank': Rank, local: Option<nat>, td: TypeDef, n': nat, vs: seq<Option<ValType>>)
    requires Ranked(u.scopes, rank') && RefsBelow(u.scopes, rank', Effective(td, local), td, n')
    requires td.kind == DefinedKind && !td.shape.HandleDef? && td.shape != NoShape
    requires |vs| == |Parts(td.shape)|
    requires forall k :: 0 <= k < |vs| ==>
      vs[k] == if Parts(td.shape)[k].Some? then Some(RefToValType(u.scopes, rank', Effective(td, local), Parts(td.shape)[k].value)) else None
    ensures DefToValType(u.scopes, rank', local, td, n') == Some(Assemble(td.shape, vs))
  {
    hide Ranked, RefToValType;
    var t := DefToValType(u.scopes, rank', local, td, n').value;
    match td.shape
    case RecordDef(fields) => assert t.fields == Assemble(td.shape, vs).fields;
    case VariantDef(cases) => assert t.cases == Assemble(td.shape, vs).cases;
    case TupleDef(types) => assert t.types == Assemble(td.shape, vs).types;
    case _ =>
  }

  lemma PartIsRef(s: Shape, k: nat)
    requires k < |Parts(s)| && Parts(s)[k].Some?
    ensures Parts(s)[k].value in Refs(s)
  {
    match s
    case RecordDef(fields) => assert Refs(s)[k] == fields[k].ref;
    case VariantDef(cases) => CaseRefsIn(cases, k);
    case TupleDef(types) => assert Refs(s)[k] == types[k];
    case _ =>
  }

  lemma {:induction false} PartsAgree(u: Universe, rank: URank, rank': Rank, local: Option<nat>, parts: seq<Option<ValTypeRef>>, n: nat)
    requires Acyclic(u, rank) && Ranked(u.scopes, rank') && PartsBelow(u, rank, local, parts, n)
    requires forall k :: 0 <= k < |parts| && parts[k].Some? ==>
      ResolveRef(u, rank, local, parts[k].value) == Ok(RefToValType(u.scopes, rank', local, parts[k].value))
    ensures ResolveParts(u, rank, local, parts, n).Ok?
    ensures forall k :: 0 <= k < |parts| && parts[k].Some? ==>
      ResolveParts(u, rank, local, parts, n).value[k] == Some(RefToValType(u.scopes, rank', local, parts[k].value))
    decreases |parts|
  {
    hide Acyclic, Ranked, ResolveRef, RefToValType;
    if parts != [] {
      PartsAgree(u, rank, rank', local, parts[..|parts| - 1], n);
    }
  }
}
