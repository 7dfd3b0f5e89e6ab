// Lifting parameters of a lowered function from the core stack.

module LiftStack {
  import opened Words
  import opened Wrappers
  import opened Values
  import opened Types
  import opened TypeDefs
  import opened Flattening
  import opened Layout
  import TypeResolution

  // ----- scopes and ranks -----

  /**
    The scopes, and ghost ranks that witness that following definitions ends: `rank` when each is read in
    the scope it carries, `flat` when all are read in the scope at hand.
   */
  datatype Space = Space(scopes: Scopes, ghost rank: Rank, ghost flat: Rank) {
    ghost predicate Acyclic() {
      && Ranked(scopes, rank)
      && forall s, i :: s in scopes && i in scopes[s] ==> RefsBelow(scopes, flat, Some(s), scopes[s][i], flat(s, i))
    }
  }

  /** h is the highest rank among the references of a definition. */
  ghost predicate IsHeight(scopes: Scopes, rank: Rank, local: Option<nat>, td: TypeDef, h: nat) {
    RefsBelow(scopes, rank, local, td, h) && (h > 0 ==> !RefsBelow(scopes, rank, local, td, h - 1))
  }

  lemma {:induction false} SomeBound(scopes: Scopes, rank: Rank, local: Option<nat>, refs: seq<ValTypeRef>) returns (n: nat)
    ensures forall r :: r in refs ==> RefRank(scopes, rank, local, r) <= n
  {
    n := 0;
    if refs != [] {
      n := SomeBound(scopes, rank, local, refs[..|refs| - 1]);
      n := Max(n, RefRank(scopes, rank, local, refs[|refs| - 1]));
    }
  }

  lemma {:induction false} HasHeight(scopes: Scopes, rank: Rank, local: Option<nat>, td: TypeDef, n: nat)
    requires RefsBelow(scopes, rank, local, td, n)
    ensures exists h: nat :: IsHeight(scopes, rank, local, td, h)
  {
    hide RefsBelow;
    if n > 0 && RefsBelow(scopes, rank, local, td, n - 1) {
      HasHeight(scopes, rank, local, td, n - 1);
    } else {
      assert IsHeight(scopes, rank, local, td, n);
    }
  }

  lemma AnyHeight(scopes: Scopes, rank: Rank, local: Option<nat>, td: TypeDef)
    ensures exists h: nat :: IsHeight(scopes, rank, local, td, h)
  {
    hide IsHeight;
    var n := SomeBound(scopes, rank, local, Refs(td.shape));
    HasHeight(scopes, rank, local, td, n);
  }

  ghost function DefHeight(scopes: Scopes, rank: Rank, local: Option<nat>, td: TypeDef): (h: nat)
    ensures RefsBelow(scopes, rank, local, td, h)
  {
    AnyHeight(scopes, rank, local, td);
    var h: nat :| IsHeight(scopes, rank, local, td, h);
    h
  }

  lemma HeightAtMost(scopes: Scopes, rank: Rank, local: Option<nat>, td: TypeDef, n: nat)
    requires RefsBelow(scopes, rank, local, td, n)
    ensures DefHeight(scopes, rank, local, td) <= n
  {
    var h := DefHeight(scopes, rank, local, td);
    assert IsHeight(scopes, rank, local, td, h);
    assert n < h ==> RefsBelow(scopes, rank, local, td, h - 1);
  }

  lemma FieldBelow(scopes: Scopes, rank: Rank, local: Option<nat>, td: TypeDef, i: nat)
    requires td.shape.RecordDef? && i < |td.shape.fields|
    ensures RefRank(scopes, rank, local, td.shape.fields[i].ref) <= DefHeight(scopes, rank, local, td)
  {
    hide RefRank;
    FieldRefIn(td, i);
  }

  /** A definition lies below the reference that leads to it, in either reading. */
  lemma FoundBelow(sp: Space, local: Option<nat>, ref: ValTypeRef)
    requires sp.Acyclic() && ResolveInner(sp.scopes, local, ref).Some?
    ensures var td := ResolveInner(sp.scopes, local, ref).value;
      && DefHeight(sp.scopes, sp.rank, Effective(td, local), td) < RefRank(sp.scopes, sp.rank, local, ref)
      && DefHeight(sp.scopes, sp.flat, local, td) < RefRank(sp.scopes, sp.flat, local, ref)
  {
    hide DefHeight;
    var td := ResolveInner(sp.scopes, local, ref).value;
    HeightAtMost(sp.scopes, sp.rank, Effective(td, local), td, sp.rank(local.value, ref.typeIdx));
    HeightAtMost(sp.scopes, sp.flat, local, td, sp.flat(local.value, ref.typeIdx));
  }

  // ----- flattened slots of references and definitions -----

  ghost function RefSlots(sp: Space, local: Option<nat>, ref: ValTypeRef): nat
    requires sp.Acyclic()
  {
    |Flatten(RefToValType(sp.scopes, sp.rank, local, ref))|
  }

  ghost function DefType(sp: Space, local: Option<nat>, td: TypeDef): Option<ValType>
    requires sp.Acyclic()
  {
    DefToValType(sp.scopes, sp.rank, local, td, DefHeight(sp.scopes, sp.rank, Effective(td, local), td))
  }

  /** A definition that cannot be converted takes one slot where it is nested. */
  ghost function DefSlots(sp: Space, local: Option<nat>, td: TypeDef): nat
    requires sp.Acyclic()
  {
    if DefType(sp, local, td).Some? then |Flatten(DefType(sp, local, td).value)| else 1
  }

  /** The conversion does not depend on the rank it is given. */
  lemma AnyRank(scopes: Scopes, rank: Rank, local: Option<nat>, td: TypeDef, n: nat, m: nat)
    requires Ranked(scopes, rank)
    requires RefsBelow(scopes, rank, Effective(td, local), td, n) && RefsBelow(scopes, rank, Effective(td, local), td, m)
    ensures DefToValType(scopes, rank, local, td, n) == DefToValType(scopes, rank, local, td, m)
  {
    hide RefToValType;
    if td.kind == DefinedKind {
      var a, b := DefToValType(scopes, rank, local, td, n), DefToValType(scopes, rank, local, td, m);
      match td.shape
      case RecordDef(_) => assert a.value.fields == b.value.fields;
      case TupleDef(_) => assert a.value.types == b.value.types;
      case VariantDef(_) => assert a.value.cases == b.value.cases;
      case _ =>
    }
  }

  lemma RefSlotsOfDef(sp: Space, local: Option<nat>, ref: ValTypeRef)
    requires sp.Acyclic() && ResolveInner(sp.scopes, local, ref).Some?
    ensures RefSlots(sp, local, ref) == DefSlots(sp, local, ResolveInner(sp.scopes, local, ref).value)
  {
    hide Flatten;
    var td := ResolveInner(sp.scopes, local, ref).value;
    AnyRank(sp.scopes, sp.rank, local, td, sp.rank(local.value, ref.typeIdx), DefHeight(sp.scopes, sp.rank, Effective(td, local), td));
    PrimSlots(PU32);
  }

  lemma PrimSlots(k: PrimKind)
    ensures |Flatten(Prim(k))| == if k == PString then 2 else 1
  {
  }

  lemma HandleSlots(idx: uint32)
    ensures |Flatten(OwnType(idx))| == 1 && |Flatten(BorrowType(idx))| == 1
  {
  }

  /** The slots of a reference that leads to no definition. */
  lemma LeafSlots(sp: Space, local: Option<nat>, ref: ValTypeRef)
    requires sp.Acyclic() && ResolveInner(sp.scopes, local, ref).None? && (ref.isPrimitive ==> PrimOf(ref.primitive).Some?)
    ensures RefSlots(sp, local, ref) == if ref.isPrimitive && ref.primitive == 0x73 then 2 else 1
  {
    hide Flatten;
    if ref.isPrimitive {
      PrimSlots(PrimOf(ref.primitive).value);
    } else {
      PrimSlots(PU32);
      HandleSlots(ref.typeIdx);
    }
  }

  ghost function FieldTypes(sp: Space, local: Option<nat>, fields: seq<FieldDef>): seq<Field>
    requires sp.Acyclic()
  {
    seq(|fields|, i requires 0 <= i < |fields| => Field(fields[i].name, RefToValType(sp.scopes, sp.rank, local, fields[i].ref)))
  }

  ghost function CaseType(sp: Space, local: Option<nat>, c: CaseDef): Case
    requires sp.Acyclic()
  {
    Case(c.name, if c.ref.Some? then Some(RefToValType(sp.scopes, sp.rank, local, c.ref.value)) else None)
  }

  ghost function CaseTypes(sp: Space, local: Option<nat>, cases: seq<CaseDef>): seq<Case>
    requires sp.Acyclic()
  {
    seq(|cases|, i requires 0 <= i < |cases| => CaseType(sp, local, cases[i]))
  }

  ghost function FieldsSlots(sp: Space, local: Option<nat>, fields: seq<FieldDef>): nat
    requires sp.Acyclic()
  {
    |FlattenFields(FieldTypes(sp, local, fields))|
  }

  ghost function CasesSlots(sp: Space, local: Option<nat>, cases: seq<CaseDef>): nat
    requires sp.Acyclic()
  {
    Longest(CaseFlats(CaseTypes(sp, local, cases)))
  }

  lemma FieldsSlotsNext(sp: Space, local: Option<nat>, fields: seq<FieldDef>, k: nat)
    requires sp.Acyclic() && k < |fields|
    ensures FieldsSlots(sp, local, fields[..k + 1]) == FieldsSlots(sp, local, fields[..k]) + RefSlots(sp, local, fields[k].ref)
  {
    hide RefToValType;
    var ts := FieldTypes(sp, local, fields[..k]);
    var f := Field(fields[k].name, RefToValType(sp.scopes, sp.rank, local, fields[k].ref));
    assert FieldTypes(sp, local, fields[..k + 1]) == ts + [f];
    FlattenFieldsSnoc(ts, f);
  }

  lemma CasesSlotsNext(sp: Space, local: Option<nat>, cases: seq<CaseDef>, k: nat)
    requires sp.Acyclic() && k < |cases|
    ensures CasesSlots(sp, local, cases[..k + 1])
            == Max(CasesSlots(sp, local, cases[..k]), if cases[k].ref.Some? then RefSlots(sp, local, cases[k].ref.value) else 0)
  {
    hide RefToValType;
    var ts := CaseTypes(sp, local, cases[..k]);
    var c := CaseType(sp, local, cases[k]);
    assert CaseTypes(sp, local, cases[..k + 1]) == ts + [c];
    CaseFlatsSnoc(ts, c);
    LongestSnoc(CaseFlats(ts), OptionalFlat(c.typ));
  }

  lemma RecordSlots(sp: Space, local: Option<nat>, td: TypeDef)
    requires sp.Acyclic() && Effective(td, local) == local && td.kind == DefinedKind && td.shape.RecordDef?
    ensures DefSlots(sp, local, td) == FieldsSlots(sp, local, td.shape.fields)
  {
    hide RefToValType;
    assert DefType(sp, local, td).value.fields == FieldTypes(sp, local, td.shape.fields);
  }

  lemma VariantSlots(sp: Space, local: Option<nat>, td: TypeDef)
    requires sp.Acyclic() && Effective(td, local) == local && td.kind == DefinedKind && td.shape.VariantDef?
    ensures DefSlots(sp, local, td) == 1 + CasesSlots(sp, local, td.shape.cases)
  {
    hide RefToValType;
    assert DefType(sp, local, td).value.cases == CaseTypes(sp, local, td.shape.cases);
  }

  lemma SimpleSlots(sp: Space, local: Option<nat>, td: TypeDef)
    requires sp.Acyclic() && Effective(td, local) == local
    ensures td.kind == DefinedKind && td.shape.OptionDef? ==> DefSlots(sp, local, td) == 1 + RefSlots(sp, local, td.shape.inner)
    ensures td.kind == DefinedKind && td.shape.ListDef? ==> DefSlots(sp, local, td) == 2
    ensures td.kind == DefinedKind && td.shape.FlagsDef? ==> DefSlots(sp, local, td) == FlagWords(|td.shape.names|)
    ensures td.kind == DefinedKind && td.shape.EnumDef? ==> DefSlots(sp, local, td) == 1
    ensures td.shape.NoShape? || td.kind != DefinedKind ==> DefSlots(sp, local, td) == 1
  {
    hide RefToValType;
  }

  // ----- the slots the code counts, for every type -----

  /** What flatSlotCount gives: it stays in the scope at hand. */
  ghost function RefCount(sp: Space, local: Option<nat>, ref: ValTypeRef): nat
    requires sp.Acyclic()
    decreases RefRank(sp.scopes, sp.flat, local, ref), 0, 0
  {
    var td := ResolveInner(sp.scopes, local, ref);
    if td.Some? then FoundBelow(sp, local, ref); DefCount(sp, local, td.value)
    else if ref.isPrimitive && ref.primitive == 0x73 then 2 else 1
  }

  /** Tuples, results, flags and aliases count as one slot, whatever they hold. */
  ghost function DefCount(sp: Space, local: Option<nat>, td: TypeDef): nat
    requires sp.Acyclic()
    decreases DefHeight(sp.scopes, sp.flat, local, td), 2, 0
  {
    match td.shape
    case ListDef(_) => 2
    case OptionDef(inner) => 1 + RefCount(sp, local, inner)
    case RecordDef(fields) => FieldsCount(sp, local, td, |fields|)
    case VariantDef(cases) => 1 + CasesCount(sp, local, td, |cases|)
    case _ => 1
  }

  ghost function FieldsCount(sp: Space, local: Option<nat>, td: TypeDef, k: nat): nat
    requires sp.Acyclic() && td.shape.RecordDef? && k <= |td.shape.fields|
    decreases DefHeight(sp.scopes, sp.flat, local, td), 1, k
  {
    if k == 0 then 0
    else FieldBelow(sp.scopes, sp.flat, local, td, k - 1); FieldsCount(sp, local, td, k - 1) + RefCount(sp, local, td.shape.fields[k - 1].ref)
  }

  ghost function CasesCount(sp: Space, local: Option<nat>, td: TypeDef, k: nat): nat
    requires sp.Acyclic() && td.shape.VariantDef? && k <= |td.shape.cases|
    decreases DefHeight(sp.scopes, sp.flat, local, td), 1, k
  {
    if k == 0 then 0
    else
      var ref := td.shape.cases[k - 1].ref;
      Max(CasesCount(sp, local, td, k - 1),
          if ref.Some? then CaseRefsIn(td.shape.cases, k - 1); RefCount(sp, local, ref.value) else 0)
  }

  lemma {:induction false} CaseCountFits(sp: Space, local: Option<nat>, td: TypeDef, k: nat, i: nat)
    requires sp.Acyclic() && td.shape.VariantDef? && i < k <= |td.shape.cases| && td.shape.cases[i].ref.Some?
    ensures RefCount(sp, local, td.shape.cases[i].ref.value) <= CasesCount(sp, local, td, k)
    decreases k
  {
    hide RefCount;
    if i < k - 1 {
      CaseCountFits(sp, local, td, k - 1, i);
    }
  }

  // ----- the slots the lift consumes -----

  /**
    The lift reads a definition in the scope it carries, and only a value definition. Where an option is
    absent, and around every payload of a variant, it counts instead.
   */
  ghost function LiftRefCount(sp: Space, local: Option<nat>, ref: ValTypeRef): nat
    requires sp.Acyclic()
    decreases RefRank(sp.scopes, sp.rank, local, ref), 0, 0
  {
    var td := ResolveInner(sp.scopes, local, ref);
    if td.Some? && td.value.kind == DefinedKind then FoundBelow(sp, local, ref); LiftDefCount(sp, Effective(td.value, local), td.value)
    else if ref.isPrimitive && ref.primitive == 0x73 then 2 else 1
  }

  ghost function LiftDefCount(sp: Space, local: Option<nat>, td: TypeDef): nat
    requires sp.Acyclic()
    decreases DefHeight(sp.scopes, sp.rank, local, td), 2, 0
  {
    match td.shape
    case ListDef(_) => 2
    case OptionDef(inner) => 1 + LiftRefCount(sp, local, inner)
    case RecordDef(fields) => LiftFieldsCount(sp, local, td, |fields|)
    case VariantDef(cases) => 1 + CasesCount(sp, local, td, |cases|)
    case _ => 1
  }

  ghost function LiftFieldsCount(sp: Space, local: Option<nat>, td: TypeDef, k: nat): nat
    requires sp.Acyclic() && td.shape.RecordDef? && k <= |td.shape.fields|
    decreases DefHeight(sp.scopes, sp.rank, local, td), 1, k
  {
    if k == 0 then 0
    else FieldBelow(sp.scopes, sp.rank, local, td, k - 1); LiftFieldsCount(sp, local, td, k - 1) + LiftRefCount(sp, local, td.shape.fields[k - 1].ref)
  }

  lemma {:induction false} LiftFieldsPrefix(sp: Space, local: Option<nat>, td: TypeDef, k: nat, m: nat)
    requires sp.Acyclic() && td.shape.RecordDef? && k <= m <= |td.shape.fields|
    ensures LiftFieldsCount(sp, local, td, k) <= LiftFieldsCount(sp, local, td, m)
    decreases m
  {
    hide LiftRefCount;
    if k < m {
      LiftFieldsPrefix(sp, local, td, k, m - 1);
    }
  }

  /** flatSlotCount and the lift take the same slots for a reference. */
  ghost predicate Agreed(sp: Space, local: Option<nat>, ref: ValTypeRef)
    requires sp.Acyclic()
  {
    RefCount(sp, local, ref) == LiftRefCount(sp, local, ref)
  }

  /** Count and lift agree on the payload of every option and variant that the lift reaches. */
  ghost predicate SteadyRef(sp: Space, local: Option<nat>, ref: ValTypeRef)
    requires sp.Acyclic()
    decreases RefRank(sp.scopes, sp.rank, local, ref), 0
  {
    var td := ResolveInner(sp.scopes, local, ref);
    td.Some? && td.value.kind == DefinedKind ==>
      (FoundBelow(sp, local, ref); SteadyDef(sp, Effective(td.value, local), td.value))
  }

  ghost predicate SteadyDef(sp: Space, local: Option<nat>, td: TypeDef)
    requires sp.Acyclic()
    decreases DefHeight(sp.scopes, sp.rank, local, td), 2
  {
    match td.shape
    case OptionDef(inner) => SteadyRef(sp, local, inner) && Agreed(sp, local, inner)
    case RecordDef(fields) =>
      forall i :: 0 <= i < |fields| ==> (FieldRefIn(td, i); SteadyRef(sp, local, fields[i].ref))
    case VariantDef(cases) =>
      forall i :: 0 <= i < |cases| && cases[i].ref.Some? ==>
        (CaseRefsIn(cases, i); SteadyRef(sp, local, cases[i].ref.value) && Agreed(sp, local, cases[i].ref.value))
    case _ => true
  }

  // ----- a single scope -----

  /** Every definition of scope s refers to scope s. */
  ghost predicate OneScope(sp: Space, s: nat) {
    s in sp.scopes && forall i :: i in sp.scopes[s] ==> Effective(sp.scopes[s][i], Some(s)) == Some(s)
  }

  /** Whatever is reached is a value definition or carries no shape: lifting looks at the kind, counting does not. */
  ghost predicate KindedRef(sp: Space, local: Option<nat>, ref: ValTypeRef)
    requires sp.Acyclic()
    decreases RefRank(sp.scopes, sp.flat, local, ref), 0
  {
    var td := ResolveInner(sp.scopes, local, ref);
    td.Some? ==> (FoundBelow(sp, local, ref); KindedDef(sp, local, td.value))
  }

  ghost predicate KindedDef(sp: Space, local: Option<nat>, td: TypeDef)
    requires sp.Acyclic()
    decreases DefHeight(sp.scopes, sp.flat, local, td), 2
  {
    && (td.kind == DefinedKind || td.shape == NoShape)
    && match td.shape
       case OptionDef(inner) => KindedRef(sp, local, inner)
       case RecordDef(fields) => forall i :: 0 <= i < |fields| ==> (FieldRefIn(td, i); KindedRef(sp, local, fields[i].ref))
       case VariantDef(cases) =>
         forall i :: 0 <= i < |cases| && cases[i].ref.Some? ==> (CaseRefsIn(cases, i); KindedRef(sp, local, cases[i].ref.value))
       case _ => true
  }

  /** Within one scope count and lift always agree. */
  lemma {:induction false} OneScopeAgrees(sp: Space, s: nat, ref: ValTypeRef)
    requires sp.Acyclic() && OneScope(sp, s) && KindedRef(sp, Some(s), ref)
    ensures Agreed(sp, Some(s), ref) && SteadyRef(sp, Some(s), ref)
    decreases RefRank(sp.scopes, sp.flat, Some(s), ref), 0
  {
    hide KindedDef, DefCount, LiftDefCount, SteadyDef;
    var td := ResolveInner(sp.scopes, Some(s), ref);
    if td.Some? {
      FoundBelow(sp, Some(s), ref);
      OneScopeDefAgrees(sp, s, td.value);
    }
  }

  lemma {:induction false} OneScopeDefAgrees(sp: Space, s: nat, td: TypeDef)
    requires sp.Acyclic() && OneScope(sp, s) && KindedDef(sp, Some(s), td)
    ensures DefCount(sp, Some(s), td) == LiftDefCount(sp, Some(s), td) && SteadyDef(sp, Some(s), td)
    ensures td.kind != DefinedKind ==> DefCount(sp, Some(s), td) == 1
    decreases DefHeight(sp.scopes, sp.flat, Some(s), td), 2
  {
    hide KindedRef, RefCount, LiftRefCount, SteadyRef;
    match td.shape
    case OptionDef(inner) =>
      assert inner in Refs(td.shape);
      OneScopeAgrees(sp, s, inner);
    case RecordDef(fields) =>
      forall i | 0 <= i < |fields| ensures Agreed(sp, Some(s), fields[i].ref) && SteadyRef(sp, Some(s), fields[i].ref) {
        FieldRefIn(td, i);
        OneScopeAgrees(sp, s, fields[i].ref);
      }
      FieldsAgree(sp, Some(s), td, |fields|);
    case VariantDef(cases) =>
      forall i | 0 <= i < |cases| && cases[i].ref.Some?
        ensures Agreed(sp, Some(s), cases[i].ref.value) && SteadyRef(sp, Some(s), cases[i].ref.value)
      {
        CaseRefsIn(cases, i);
        OneScopeAgrees(sp, s, cases[i].ref.value);
      }
    case _ =>
  }

  lemma {:induction false} FieldsAgree(sp: Space, local: Option<nat>, td: TypeDef, k: nat)
    requires sp.Acyclic() && td.shape.RecordDef? && k <= |td.shape.fields|
    requires forall i :: 0 <= i < k ==> Agreed(sp, local, td.shape.fields[i].ref)
    ensures FieldsCount(sp, local, td, k) == LiftFieldsCount(sp, local, td, k)
    decreases k
  {
    hide RefCount, LiftRefCount;
    if k > 0 {
      FieldsAgree(sp, local, td, k - 1);
    }
  }

  // ----- the types whose slots are those of the flattening -----

  /** Built from primitives, handles, enums, flags of 1 to 32 names, lists, options, records and variants. */
  ghost predicate SupportedRef(sp: Space, local: Option<nat>, ref: ValTypeRef)
    requires sp.Acyclic()
    decreases RefRank(sp.scopes, sp.rank, local, ref), 0
  {
    var td := ResolveInner(sp.scopes, local, ref);
    if td.Some? then FoundBelow(sp, local, ref); SupportedDef(sp, Effective(td.value, local), td.value)
    else ref.isPrimitive ==> PrimOf(ref.primitive).Some?
  }

  ghost predicate SupportedDef(sp: Space, local: Option<nat>, td: TypeDef)
    requires sp.Acyclic()
    decreases DefHeight(sp.scopes, sp.rank, local, td), 2
  {
    td.shape == NoShape || td.kind != DefinedKind ||
      match td.shape
      case RecordDef(fields) => forall i :: 0 <= i < |fields| ==> (FieldRefIn(td, i); SupportedRef(sp, local, fields[i].ref))
      case OptionDef(inner) => SupportedRef(sp, local, inner)
      case VariantDef(cases) =>
        forall i :: 0 <= i < |cases| && cases[i].ref.Some? ==> (CaseRefsIn(cases, i); SupportedRef(sp, local, cases[i].ref.value))
      case ListDef(_) => true
      case EnumDef(_) => true
      case FlagsDef(_) => OneSlotIsRight(sp, local, td.shape)
      case HandleDef(_) => OneSlotIsRight(sp, local, td.shape)
      case TupleDef(_) => OneSlotIsRight(sp, local, td.shape)
      case ResultDef(_, _) => OneSlotIsRight(sp, local, td.shape)
  }

  /** On the supported types the lift takes the slots of the flattening. */
  lemma {:induction false} SupportedRefAgrees(sp: Space, local: Option<nat>, ref: ValTypeRef)
    requires sp.Acyclic() && SupportedRef(sp, local, ref) && SteadyRef(sp, local, ref)
    ensures LiftRefCount(sp, local, ref) == RefSlots(sp, local, ref)
    decreases RefRank(sp.scopes, sp.rank, local, ref), 0
  {
    hide RefSlots, SupportedDef, SteadyDef, LiftDefCount, DefSlots;
    var td := ResolveInner(sp.scopes, local, ref);
    if td.Some? {
      FoundBelow(sp, local, ref);
      RefSlotsOfDef(sp, local, ref);
      DefSlotsAtHome(sp, local, td.value);
      if td.value.kind == DefinedKind {
        SupportedDefAgrees(sp, Effective(td.value, local), td.value);
      }
    } else {
      LeafSlots(sp, local, ref);
    }
  }

  lemma DefSlotsAtHome(sp: Space, local: Option<nat>, td: TypeDef)
    requires sp.Acyclic()
    ensures DefSlots(sp, local, td) == DefSlots(sp, Effective(td, local), td)
    ensures td.kind != DefinedKind ==> DefSlots(sp, local, td) == 1
  {
    hide RefToValType, Flatten;
  }

  lemma {:induction false} SupportedDefAgrees(sp: Space, local: Option<nat>, td: TypeDef)
    requires sp.Acyclic() && Effective(td, local) == local && td.kind == DefinedKind
    requires SupportedDef(sp, local, td) && SteadyDef(sp, local, td)
    ensures LiftDefCount(sp, local, td) == DefSlots(sp, local, td)
    decreases DefHeight(sp.scopes, sp.rank, local, td), 2
  {
    hide DefSlots, RefSlots, SupportedRef, SteadyRef, LiftRefCount, OneSlotIsRight, RefCount;
    SimpleSlots(sp, local, td);
    match td.shape
    case OptionDef(inner) =>
      assert inner in Refs(td.shape);
      SupportedRefAgrees(sp, local, inner);
    case RecordDef(fields) =>
      RecordSlots(sp, local, td);
      SupportedFieldsAgree(sp, local, td, |fields|);
      assert fields[..|fields|] == fields;
    case VariantDef(cases) =>
      VariantSlots(sp, local, td);
      SupportedCasesAgree(sp, local, td, |cases|);
      assert cases[..|cases|] == cases;
    case ListDef(_) =>
    case EnumDef(_) =>
    case NoShape =>
    case _ => OneSlotExactly(sp, local, td);
  }

  lemma {:induction false} SupportedFieldsAgree(sp: Space, local: Option<nat>, td: TypeDef, k: nat)
    requires sp.Acyclic() && td.shape.RecordDef? && td.kind == DefinedKind && k <= |td.shape.fields|
    requires SupportedDef(sp, local, td) && SteadyDef(sp, local, td)
    ensures LiftFieldsCount(sp, local, td, k) == FieldsSlots(sp, local, td.shape.fields[..k])
    decreases DefHeight(sp.scopes, sp.rank, local, td), 1, k
  {
    hide RefSlots, SupportedRef, SteadyRef, LiftRefCount;
    if k > 0 {
      var fields := td.shape.fields;
      SupportedFieldsAgree(sp, local, td, k - 1);
      FieldRefIn(td, k - 1);
      SupportedRefAgrees(sp, local, fields[k - 1].ref);
      FieldsSlotsNext(sp, local, fields, k - 1);
    }
  }

  lemma {:induction false} SupportedCasesAgree(sp: Space, local: Option<nat>, td: TypeDef, k: nat)
    requires sp.Acyclic() && td.shape.VariantDef? && td.kind == DefinedKind && k <= |td.shape.cases|
    requires SupportedDef(sp, local, td) && SteadyDef(sp, local, td)
    ensures CasesCount(sp, local, td, k) == CasesSlots(sp, local, td.shape.cases[..k])
    decreases DefHeight(sp.scopes, sp.rank, local, td), 1, k
  {
    hide RefSlots, SupportedRef, SteadyRef, LiftRefCount, RefCount;
    if k > 0 {
      var cases := td.shape.cases;
      SupportedCasesAgree(sp, local, td, k - 1);
      CasesSlotsNext(sp, local, cases, k - 1);
      if cases[k - 1].ref.Some? {
        CaseRefsIn(cases, k - 1);
        SupportedRefAgrees(sp, local, cases[k - 1].ref.value);
      }
    }
  }

  // ----- kinds that are always one slot -----

  /** Kinds that are always counted and lifted as a single slot; a HandleDef is an alias. */
  predicate OneSlotShape(s: Shape) {
    s.TupleDef? || s.ResultDef? || s.FlagsDef? || s.HandleDef?
  }

  ghost function SlotsOf(sp: Space, local: Option<nat>, ref: Option<ValTypeRef>): nat
    requires sp.Acyclic()
  {
    if ref.Some? then RefSlots(sp, local, ref.value) else 0
  }

  ghost function TupleSlots(sp: Space, local: Option<nat>, refs: seq<ValTypeRef>): nat
    requires sp.Acyclic()
  {
    if refs == [] then 0 else TupleSlots(sp, local, refs[..|refs| - 1]) + RefSlots(sp, local, refs[|refs| - 1])
  }

  ghost function TupleTypes(sp: Space, local: Option<nat>, refs: seq<ValTypeRef>): seq<ValType>
    requires sp.Acyclic()
  {
    seq(|refs|, i requires 0 <= i < |refs| => RefToValType(sp.scopes, sp.rank, local, refs[i]))
  }

  lemma {:induction false} TupleSlotsAre(sp: Space, local: Option<nat>, refs: seq<ValTypeRef>)
    requires sp.Acyclic()
    ensures |FlattenTypes(TupleTypes(sp, local, refs))| == TupleSlots(sp, local, refs)
  {
    hide RefToValType;
    if refs != [] {
      var rest, last := refs[..|refs| - 1], refs[|refs| - 1];
      TupleSlotsAre(sp, local, rest);
      FlattenTypesSnoc(TupleTypes(sp, local, rest), RefToValType(sp.scopes, sp.rank, local, last));
      assert TupleTypes(sp, local, refs) == TupleTypes(sp, local, rest) + [RefToValType(sp.scopes, sp.rank, local, last)];
    }
  }

  /**
    When one slot is right: flags of 1 to 32 names, a tuple whose elements take one slot together, a
    result whose payloads take none, and an alias of anything but a string.
   */
  ghost predicate OneSlotIsRight(sp: Space, local: Option<nat>, shape: Shape)
    requires sp.Acyclic() && OneSlotShape(shape)
  {
    match shape
    case FlagsDef(names) => 1 <= |names| <= 32
    case TupleDef(types) => TupleSlots(sp, local, types) == 1
    case ResultDef(ok, err) => SlotsOf(sp, local, ok) == 0 && SlotsOf(sp, local, err) == 0
    case HandleDef(h) => h.isPrimitive ==> if PrimOf(h.primitive).Some? then h.primitive != 0x73 else RefSlots(sp, local, h) == 1
  }

  lemma OneSlotExactly(sp: Space, local: Option<nat>, td: TypeDef)
    requires sp.Acyclic() && Effective(td, local) == local && td.kind == DefinedKind && OneSlotShape(td.shape)
    ensures LiftDefCount(sp, local, td) == 1 && DefCount(sp, local, td) == 1
    ensures DefSlots(sp, local, td) == 1 <==> OneSlotIsRight(sp, local, td.shape)
  {
    hide RefToValType;
    SimpleSlots(sp, local, td);
    match td.shape
    case TupleDef(types) =>
      TupleSlotsAre(sp, local, types);
      assert DefType(sp, local, td).value.types == TupleTypes(sp, local, types);
    case ResultDef(ok, err) =>
      var t := DefType(sp, local, td).value;
      assert |Flatten(t)| == 1 + Max(|OptionalFlat(t.ok)|, |OptionalFlat(t.error)|) by {
        assert [OptionalFlat(t.ok), OptionalFlat(t.error)][1..] == [OptionalFlat(t.error)];
        assert Longest([OptionalFlat(t.error)]) == |OptionalFlat(t.error)|;
      }
    case HandleDef(h) => AliasSlots(sp, local, td);
    case FlagsDef(_) =>
  }

  lemma AliasSlots(sp: Space, local: Option<nat>, td: TypeDef)
    requires sp.Acyclic() && Effective(td, local) == local && td.kind == DefinedKind && td.shape.HandleDef?
    ensures var h := td.shape.handle;
      DefSlots(sp, local, td) ==
        if h.isPrimitive then if PrimOf(h.primitive).Some? then if h.primitive == 0x73 then 2 else 1 else RefSlots(sp, local, h)
        else 1
  {
    hide Flatten;
    var h := td.shape.handle;
    if h.isPrimitive && PrimOf(h.primitive).Some? {
      PrimSlots(PrimOf(h.primitive).value);
      assert RefToValType(sp.scopes, sp.rank, local, h) == Prim(PrimOf(h.primitive).value);
    } else if !h.isPrimitive {
      HandleSlots(h.typeIdx);
    }
  }

  // ----- flatSlotCount -----

  /** The slots a reference occupies, counted without lifting; 1 for kinds the count does not know. */
  method FlatSlotCount(sp: Space, ref: ValTypeRef, local: Option<nat>) returns (slots: nat)
    requires sp.Acyclic()
    ensures slots == RefCount(sp, local, ref)
    decreases RefRank(sp.scopes, sp.flat, local, ref), 0
  {
    if ref.isPrimitive {
      return if ref.primitive == 0x73 then 2 else 1;
    }
    if ref.isOwn || ref.isBorrow {
      return 1;
    }
    if local.None? {
      return 1;
    }
    var found := LookupIdx(sp.scopes, local, ref.typeIdx);
    if found.None? {
      return 1;
    }
    FoundBelow(sp, local, ref);
    var td := found.value;
    match td.shape {
      case EnumDef(_) => slots := 1;
      case FlagsDef(_) => slots := 1;
      case ListDef(_) => slots := 2;
      case OptionDef(inner) =>
        assert inner in Refs(td.shape);
        var rest := FlatSlotCount(sp, inner, local);
        slots := 1 + rest;
      case RecordDef(fields) =>
        slots := 0;
        for k := 0 to |fields|
          invariant slots == FieldsCount(sp, local, td, k)
        {
          FieldRefIn(td, k);
          var one := FlatSlotCount(sp, fields[k].ref, local);
          slots := slots + one;
        }
      case VariantDef(cases) =>
        var widest := MaxPayloadSlots(sp, td, local);
        slots := 1 + widest;
      case _ => slots := 1;
    }
  }

  /** The loop both flatSlotCount and the variant lift run over the payloads. */
  method MaxPayloadSlots(sp: Space, td: TypeDef, local: Option<nat>) returns (widest: nat)
    requires sp.Acyclic() && td.shape.VariantDef?
    ensures widest == CasesCount(sp, local, td, |td.shape.cases|)
    decreases DefHeight(sp.scopes, sp.flat, local, td), 1
  {
    hide RefCount;
    var cases := td.shape.cases;
    widest := 0;
    for k := 0 to |cases|
      invariant widest == CasesCount(sp, local, td, k)
    {
      if cases[k].ref.Some? {
        CaseRefsIn(cases, k);
        var one := FlatSlotCount(sp, cases[k].ref.value, local);
        if one > widest {
          widest := one;
        }
      }
    }
  }

  // ----- liftFromStack -----

  /** The memory visible to the lift, and Go's conversions from a 64-bit integer to a float, as bit patterns. */
  datatype Host = Host(mem: Option<seq<byte>>, toF32: uint64 -> uint32, toF64: uint64 -> uint64)

  /** A lifted value and the slots it consumed; None is an index past the end of the stack. */
  type Lifted = Option<(Val, nat)>

  predicate PlainIndex(ref: ValTypeRef) {
    !ref.isPrimitive && !ref.isOwn && !ref.isBorrow
  }

  /** The reference is lifted as it stands, without a look at the definition. */
  predicate Direct(ref: ValTypeRef, resolved: Option<TypeDef>) {
    || (ref.isPrimitive && PrimOf(ref.primitive).Some?) || ref.isOwn || ref.isBorrow
    || resolved.None? || resolved.value.kind != DefinedKind
  }

  ghost function LiftCount(sp: Space, local: Option<nat>, ref: ValTypeRef, resolved: Option<TypeDef>): nat
    requires sp.Acyclic()
  {
    if Direct(ref, resolved) then if ref.isPrimitive && ref.primitive == 0x73 then 2 else 1
    else LiftDefCount(sp, Effective(resolved.value, local), resolved.value)
  }

  ghost predicate LiftSteady(sp: Space, local: Option<nat>, ref: ValTypeRef, resolved: Option<TypeDef>)
    requires sp.Acyclic()
  {
    Direct(ref, resolved) || SteadyDef(sp, Effective(resolved.value, local), resolved.value)
  }

  /** A lift that takes n slots: all it returns is consumed exactly, and a stack of n slots suffices. */
  predicate Takes(r: Lifted, stack: seq<uint64>, n: nat) {
    (r.Some? ==> r.value.1 == n) && (|stack| >= n ==> r.Some?)
  }

  function Low(x: uint64, m: nat): nat
    requires m > 0
  {
    x % m
  }

  function LiftPrim(host: Host, k: PrimKind, stack: seq<uint64>): Lifted {
    if k == PString then
      if host.mem.Some? && |stack| >= 2 && Low(stack[0], TWO_32) + Low(stack[1], TWO_32) <= |host.mem.value| then
        var ptr, len := Low(stack[0], TWO_32), Low(stack[1], TWO_32);
        Some((Val.String(host.mem.value[ptr..ptr + len]), 2))
      else Some((Val.String([]), 2))
    else if stack == [] then None
    else
      var x := stack[0];
      match k
      case PBool => Some((Val.Bool(x != 0), 1))
      case PS8 => Some((Val.S8(ToInt8(Low(x, TWO_8))), 1))
      case PU8 => Some((Val.U8(Low(x, TWO_8)), 1))
      case PS16 => Some((Val.S16(ToInt16(Low(x, TWO_16))), 1))
      case PU16 => Some((Val.U16(Low(x, TWO_16)), 1))
      case PS32 => Some((Val.S32(ToInt32(Low(x, TWO_32))), 1))
      case PU32 => Some((Val.U32(Low(x, TWO_32)), 1))
      case PS64 => Some((Val.S64(ToInt64(x)), 1))
      case PU64 => Some((Val.U64(x), 1))
      case PF32 => Some((Val.F32(host.toF32(x)), 1))
      case PF64 => Some((Val.F64(host.toF64(x)), 1))
      case PChar => Some((Val.Char(ToInt32(Low(x, TWO_32))), 1))
      case PString => None
  }

  // ----- the value, by static offsets -----

  predicate IsByte(elem: ValTypeRef) {
    elem.isPrimitive && PrimOf(elem.primitive) == Some(PU8)
  }

  /** The bytes a pointer and a length on the stack lead to; none if they are not all in memory. */
  function ListBytes(host: Host, stack: seq<uint64>): seq<Val> {
    if host.mem.Some? && |stack| >= 2 && Low(stack[0], TWO_32) + Low(stack[1], TWO_32) <= |host.mem.value|
    then Bytes8(host.mem.value, Low(stack[0], TWO_32), Low(stack[1], TWO_32)) else []
  }

  /** The elements of any other list: element i is the value at its place in the block. */
  ghost predicate CompositesRead(sp: Space, mem: seq<byte>, local: Option<nat>, elem: ValTypeRef, ptr: nat, len: nat, vals: seq<Val>)
    requires sp.Acyclic()
  {
    var td := ResolveInner(sp.scopes, local, elem);
    if td.None? then vals == []
    else
      var n := sp.rank(local.value, elem.typeIdx);
      assert RefsBelow(sp.scopes, sp.rank, Effective(td.value, local), td.value, n);
      var size := SizeOfDef(sp.scopes, sp.rank, td.value, n);
      CarriesDef(sp.scopes, sp.rank, td.value, n) && ListPlaced(ptr, len, size, AlignOfDef(sp.scopes, sp.rank, td.value, n)) ==>
        && (len > 0 && 0 < size < TWO_32 ==> |vals| == len)
        && ElementsRead(sp.scopes, sp.rank, mem, td.value, n, ptr, size, vals)
  }

  /** The value a lift gives; None for lists of anything but bytes, and past the end of the stack. */
  ghost function DecodeRef(host: Host, sp: Space, local: Option<nat>, ref: ValTypeRef, stack: seq<uint64>): Option<Val>
    requires sp.Acyclic()
    decreases RefRank(sp.scopes, sp.rank, local, ref), 0, 0
  {
    var td := ResolveInner(sp.scopes, local, ref);
    if td.Some? && td.value.kind == DefinedKind
    then FoundBelow(sp, local, ref); DecodeDef(host, sp, Effective(td.value, local), td.value, stack)
    else DecodeLeaf(host, ref, stack)
  }

  function DecodeLeaf(host: Host, ref: ValTypeRef, stack: seq<uint64>): Option<Val> {
    if ref.isPrimitive && PrimOf(ref.primitive).Some? then
      var r := LiftPrim(host, PrimOf(ref.primitive).value, stack);
      if r.Some? then Some(r.value.0) else None
    else if stack == [] then None
    else if ref.isOwn then Some(Val.Own(Low(stack[0], TWO_32)))
    else if ref.isBorrow then Some(Val.Borrow(Low(stack[0], TWO_32)))
    else Some(Val.S32(ToInt32(Low(stack[0], TWO_32))))
  }

  /** Field k of a record is read behind the slots of the fields before it. */
  ghost function DecodeDef(host: Host, sp: Space, local: Option<nat>, td: TypeDef, stack: seq<uint64>): Option<Val>
    requires sp.Acyclic()
    decreases DefHeight(sp.scopes, sp.rank, local, td), 2, 0
  {
    match td.shape
    case ListDef(elem) => if IsByte(elem) then Some(Val.List(ListBytes(host, stack))) else None
    case RecordDef(fields) =>
      var vs := DecodeFields(host, sp, local, td, |fields|, stack);
      if vs.Some? then Some(Val.Record(vs.value)) else None
    case EnumDef(names) =>
      if stack == [] then None
      else Some(Val.Enum(if stack[0] < |names| && stack[0] < TWO_63 then names[stack[0]] else []))
    case FlagsDef(names) => if stack == [] then None else Some(Val.Flags(FlagMap(names, Low(stack[0], TWO_32))))
    case OptionDef(inner) =>
      if stack == [] then None
      else if Low(stack[0], TWO_32) == 0 then Some(Val.Optional(None))
      else
        var v := DecodeRef(host, sp, local, inner, stack[1..]);
        if v.Some? then Some(Val.Optional(v)) else None
    case VariantDef(cases) =>
      if stack == [] then None
      else if stack[0] >= TWO_63 || stack[0] >= |cases| then Some(Val.Variant([], None))
      else
        var c := cases[stack[0]];
        if c.ref.None? then Some(Val.Variant(c.name, None))
        else
          CaseRefsIn(cases, stack[0]);
          var v := DecodeRef(host, sp, local, c.ref.value, stack[1..]);
          if v.Some? then Some(Val.Variant(c.name, v)) else None
    case _ => if stack == [] then None else Some(Val.S32(ToInt32(Low(stack[0], TWO_32))))
  }

  ghost function DecodeFields(host: Host, sp: Space, local: Option<nat>, td: TypeDef, k: nat, stack: seq<uint64>): Option<map<Bytes, Val>>
    requires sp.Acyclic() && td.shape.RecordDef? && k <= |td.shape.fields|
    decreases DefHeight(sp.scopes, sp.rank, local, td), 1, k
  {
    if k == 0 then Some(map[])
    else
      FieldBelow(sp.scopes, sp.rank, local, td, k - 1);
      var field := td.shape.fields[k - 1];
      AddField(DecodeFields(host, sp, local, td, k - 1, stack), field.name,
               DecodeRef(host, sp, local, field.ref, Above(stack, LiftFieldsCount(sp, local, td, k - 1))))
  }

  function AddField(before: Option<map<Bytes, Val>>, name: Bytes, v: Option<Val>): Option<map<Bytes, Val>> {
    if before.Some? && v.Some? then Some(before.value[name := v.value]) else None
  }

  function Above(stack: seq<uint64>, at: nat): seq<uint64> {
    if at <= |stack| then stack[at..] else []
  }

  ghost function Decode(host: Host, sp: Space, local: Option<nat>, ref: ValTypeRef, resolved: Option<TypeDef>, stack: seq<uint64>): Option<Val>
    requires sp.Acyclic()
  {
    if Direct(ref, resolved) then DecodeLeaf(host, ref, stack)
    else DecodeDef(host, sp, Effective(resolved.value, local), resolved.value, stack)
  }

  /** What is described of a lifted value is what was lifted. */
  predicate Gives(r: Lifted, v: Option<Val>) {
    r.Some? && v.Some? ==> r.value.0 == v.value
  }

  // ----- the lift -----

  /** Whatever the values on the stack, the lift takes the counted slots. */
  method LiftFromStack(host: Host, sp: Space, stack: seq<uint64>, ref: ValTypeRef, resolved: Option<TypeDef>, local: Option<nat>)
    returns (r: Lifted)
    requires sp.Acyclic()
    ensures LiftSteady(sp, local, ref, resolved) ==>
      Takes(r, stack, LiftCount(sp, local, ref, resolved)) && Gives(r, Decode(host, sp, local, ref, resolved, stack))
    decreases if resolved.Some? then DefHeight(sp.scopes, sp.rank, Effective(resolved.value, local), resolved.value) + 1 else 0, 1
  {
    hide SteadyRef, RefCount, LiftRefCount, DecodeRef, DecodeFields;
    if ref.isPrimitive && PrimOf(ref.primitive).Some? {
      return LiftPrim(host, PrimOf(ref.primitive).value, stack);
    }
    if ref.isOwn || ref.isBorrow {
      if stack == [] {
        return None;
      }
      var idx := Low(stack[0], TWO_32);
      return Some((if ref.isOwn then Val.Own(idx) else Val.Borrow(idx), 1));
    }
    if resolved.Some? && resolved.value.kind == DefinedKind {
      var td := resolved.value;
      match td.shape {
        case EnumDef(names) =>
          if stack == [] {
            return None;
          }
          return Some((Val.Enum(if stack[0] < |names| && stack[0] < TWO_63 then names[stack[0]] else []), 1));
        case FlagsDef(names) =>
          if stack == [] {
            return None;
          }
          return Some((Val.Flags(FlagMap(names, Low(stack[0], TWO_32))), 1));
        case RecordDef(fields) =>
          r := LiftRecordFromStack(host, sp, stack, td, Effective(td, local));
          return;
        case OptionDef(inner) =>
          r := LiftOptionFromStack(host, sp, stack, td, Effective(td, local));
          return;
        case VariantDef(cases) =>
          r := LiftVariantFromStack(host, sp, stack, td, Effective(td, local));
          return;
        case ListDef(elem) =>
          var vals := LiftListFromStack(host, sp, stack, td, Effective(td, local));
          return Some((Val.List(vals), 2));
        case _ =>
      }
    }
    if stack == [] {
      return None;
    }
    r := Some((Val.S32(ToInt32(Low(stack[0], TWO_32))), 1));
  }

  function FlagMap(names: seq<Bytes>, bits: uint32): map<Bytes, bool> {
    if names == [] then map[]
    else FlagMap(names[..|names| - 1], bits)[names[|names| - 1] := Bit(bits, |names| - 1)]
  }

  /** Flag i is set if and only if bit i is; of flags with the same name the last one counts. */
  lemma {:induction false} FlagIsBit(names: seq<Bytes>, bits: uint32, i: nat)
    requires i < |names| && forall j :: i < j < |names| ==> names[j] != names[i]
    ensures names[i] in FlagMap(names, bits) && (FlagMap(names, bits)[names[i]] <==> bits / Pow2(i) % 2 == 1)
  {
    hide Pow2;
    if i == |names| - 1 {
      BitIs(bits, i);
    } else {
      FlagIsBit(names[..|names| - 1], bits, i);
    }
  }

  /** Resolves a nested reference in the scope and lifts it. */
  method LiftRef(host: Host, sp: Space, stack: seq<uint64>, ref: ValTypeRef, local: Option<nat>) returns (r: Lifted)
    requires sp.Acyclic()
    ensures SteadyRef(sp, local, ref) ==>
      Takes(r, stack, LiftRefCount(sp, local, ref)) && Gives(r, DecodeRef(host, sp, local, ref, stack))
    decreases RefRank(sp.scopes, sp.rank, local, ref), 2
  {
    hide SteadyDef, LiftDefCount, DecodeDef, DecodeLeaf;
    var resolved := ResolveInner(sp.scopes, local, ref);
    if resolved.Some? {
      FoundBelow(sp, local, ref);
    }
    r := LiftFromStack(host, sp, stack, ref, resolved, local);
  }

  method LiftRecordFromStack(host: Host, sp: Space, stack: seq<uint64>, td: TypeDef, local: Option<nat>) returns (r: Lifted)
    requires sp.Acyclic() && td.shape.RecordDef?
    ensures SteadyDef(sp, local, td) ==>
      Takes(r, stack, LiftDefCount(sp, local, td)) && Gives(r, DecodeDef(host, sp, local, td, stack))
    decreases DefHeight(sp.scopes, sp.rank, local, td) + 1, 0
  {
    hide SteadyRef, LiftRefCount, DecodeRef;
    var fields := td.shape.fields;
    ghost var ok := SteadyDef(sp, local, td);
    var lifted: map<Bytes, Val> := map[];
    var stackIdx: nat := 0;
    for k := 0 to |fields|
      invariant ok ==> stackIdx == LiftFieldsCount(sp, local, td, k)
      invariant ok && DecodeFields(host, sp, local, td, k, stack).Some? ==> lifted == DecodeFields(host, sp, local, td, k, stack).value
    {
      FieldRefIn(td, k);
      LiftFieldsPrefix(sp, local, td, k + 1, |fields|);
      if stackIdx > |stack| {
        return None;
      }
      var one := LiftRef(host, sp, stack[stackIdx..], fields[k].ref, local);
      if one.None? {
        return None;
      }
      lifted := lifted[fields[k].name := one.value.0];
      stackIdx := stackIdx + one.value.1;
    }
    r := Some((Val.Record(lifted), stackIdx));
  }

  method LiftOptionFromStack(host: Host, sp: Space, stack: seq<uint64>, td: TypeDef, local: Option<nat>) returns (r: Lifted)
    requires sp.Acyclic() && td.shape.OptionDef?
    ensures stack == [] ==> r == None
    ensures stack != [] && SteadyRef(sp, local, td.shape.inner) ==>
      Takes(r, stack, 1 + if Low(stack[0], TWO_32) == 0 then RefCount(sp, local, td.shape.inner) else LiftRefCount(sp, local, td.shape.inner))
    ensures SteadyRef(sp, local, td.shape.inner) ==> Gives(r, DecodeDef(host, sp, local, td, stack))
    decreases DefHeight(sp.scopes, sp.rank, local, td) + 1, 0
  {
    hide SteadyRef, RefCount, LiftRefCount, DecodeRef;
    if stack == [] {
      return None;
    }
    var inner := td.shape.inner;
    assert inner in Refs(td.shape);
    if Low(stack[0], TWO_32) == 0 {
      var innerSlots := FlatSlotCount(sp, inner, local);
      return Some((Val.Optional(None), 1 + innerSlots));
    }
    var one := LiftRef(host, sp, stack[1..], inner, local);
    if one.None? {
      return None;
    }
    r := Some((Val.Optional(Some(one.value.0)), 1 + one.value.1));
  }

  method LiftVariantFromStack(host: Host, sp: Space, stack: seq<uint64>, td: TypeDef, local: Option<nat>) returns (r: Lifted)
    requires sp.Acyclic() && td.shape.VariantDef?
    ensures SteadyDef(sp, local, td) ==>
      Takes(r, stack, LiftDefCount(sp, local, td)) && Gives(r, DecodeDef(host, sp, local, td, stack))
    decreases DefHeight(sp.scopes, sp.rank, local, td) + 1, 0
  {
    hide SteadyRef, RefCount, LiftRefCount, DecodeRef;
    if stack == [] {
      return None;
    }
    var cases := td.shape.cases;
    var widest := MaxPayloadSlots(sp, td, local);
    var disc := stack[0];
    if disc >= TWO_63 || disc >= |cases| {
      return Some((Val.Variant([], None), 1 + widest));
    }
    var c := cases[disc];
    if c.ref.None? {
      return Some((Val.Variant(c.name, None), 1 + widest));
    }
    CaseRefsIn(cases, disc);
    CaseCountFits(sp, local, td, |cases|, disc);
    var one := LiftRef(host, sp, stack[1..], c.ref.value, local);
    if one.None? {
      return None;
    }
    r := Some((Val.Variant(c.name, Some(one.value.0)), 1 + widest));
  }

  method LiftListFromStack(host: Host, sp: Space, stack: seq<uint64>, td: TypeDef, local: Option<nat>) returns (vals: seq<Val>)
    requires sp.Acyclic() && td.shape.ListDef?
    ensures IsByte(td.shape.elem) ==> vals == ListBytes(host, stack)
    ensures host.mem.None? || |stack| < 2 ==> vals == []
    ensures !IsByte(td.shape.elem) && host.mem.Some? && |stack| >= 2 ==>
      CompositesRead(sp, host.mem.value, local, td.shape.elem, Low(stack[0], TWO_32), Low(stack[1], TWO_32), vals)
  {
    hide CompositesRead;
    if host.mem.None? || |stack| < 2 {
      return [];
    }
    var ptr, len := Low(stack[0], TWO_32), Low(stack[1], TWO_32);
    var elem := td.shape.elem;
    if elem.isPrimitive && elem.primitive == 0x7d {
      if ptr + len <= |host.mem.value| {
        return Bytes8(host.mem.value, ptr, len);
      }
      return [];
    }
    vals := LiftComposites(host.mem.value, sp, local, elem, ptr, len);
  }

  method LiftComposites(mem: seq<byte>, sp: Space, local: Option<nat>, elem: ValTypeRef, ptr: uint32, len: uint32) returns (vals: seq<Val>)
    requires sp.Acyclic()
    ensures CompositesRead(sp, mem, local, elem, ptr, len, vals)
  {
    hide SizeOfDef, AlignOfDef, CarriesDef, ElementsRead, ListPlaced;
    var resolved := ResolveInner(sp.scopes, local, elem);
    ghost var m := if resolved.Some? then sp.rank(local.value, elem.typeIdx) else 0;
    vals := LiftListFromMemory(sp.scopes, sp.rank, mem, ptr, len, elem, resolved, local, m);
  }

  // ----- where the slots depend on the value -----

  /** An absent option and a present one take the same slots exactly when count and lift agree on the payload. */
  method OptionBothWays(host: Host, sp: Space, td: TypeDef, local: Option<nat>, rest: seq<uint64>) returns (none: Lifted, some: Lifted)
    requires sp.Acyclic() && td.shape.OptionDef? && SteadyRef(sp, local, td.shape.inner)
    requires |rest| >= Max(RefCount(sp, local, td.shape.inner), LiftRefCount(sp, local, td.shape.inner))
    ensures none.Some? && some.Some?
    ensures none.value.1 == some.value.1 <==> Agreed(sp, local, td.shape.inner)
  {
    hide SteadyRef, RefCount, LiftRefCount, DecodeDef;
    none := LiftOptionFromStack(host, sp, [0] + rest, td, local);
    some := LiftOptionFromStack(host, sp, [1] + rest, td, local);
  }

  const IDX0 := ValTypeRef(false, 0, 0, false, false)
  const IDX1 := ValTypeRef(false, 0, 1, false, false)
  const U8REF := ValTypeRef(true, 0x7d, 0, false, false)

  /** Scope 0 holds a record that carries scope 1; its field is a list there, and nothing in scope 0. */
  const TWO_SCOPES: Scopes := map[
    0 := map[0 := TypeDef(DefinedKind, RecordDef([FieldDef([], IDX1)]), Some(1))],
    1 := map[1 := TypeDef(DefinedKind, ListDef(U8REF), None)]]

  /** An option of that record takes two slots when absent and three when present. */
  method TwoScopesDisagree(host: Host, rest: seq<uint64>) returns (none: Lifted, some: Lifted)
    requires |rest| >= 2
    ensures none.Some? && none.value.1 == 2
    ensures some.Some? && some.value.1 == 3
  {
    hide RefToValType, Flatten, DecodeDef, SteadyRef, RefCount, LiftRefCount;
    var sp := Space(TWO_SCOPES, (s, i) => if s == 0 then 1 else 0, (s, i) => 0);
    var td := TypeDef(DefinedKind, OptionDef(IDX0), None);
    TwoScopesCounts(sp);
    none := LiftOptionFromStack(host, sp, [0] + rest, td, Some(0));
    some := LiftOptionFromStack(host, sp, [1] + rest, td, Some(0));
  }

  lemma TwoScopesCounts(sp: Space)
    requires sp.Acyclic() && sp.scopes == TWO_SCOPES
    ensures RefCount(sp, Some(0), IDX0) == 1 && LiftRefCount(sp, Some(0), IDX0) == 2 && SteadyRef(sp, Some(0), IDX0)
  {
    var td, list := TWO_SCOPES[0][0], TWO_SCOPES[1][1];
    assert SteadyDef(sp, Some(1), list) && SteadyRef(sp, Some(1), IDX1) && SteadyDef(sp, Some(1), td);
    assert RefCount(sp, Some(0), IDX0) == 1 by {
      assert RefCount(sp, Some(0), IDX1) == 1;
      assert FieldsCount(sp, Some(0), td, 1) == FieldsCount(sp, Some(0), td, 0) + RefCount(sp, Some(0), IDX1);
      assert DefCount(sp, Some(0), td) == FieldsCount(sp, Some(0), td, 1);
    }
    assert LiftRefCount(sp, Some(0), IDX0) == 2 by {
      assert LiftDefCount(sp, Some(1), list) == 2 == LiftRefCount(sp, Some(1), IDX1);
      assert LiftFieldsCount(sp, Some(1), td, 1) == LiftFieldsCount(sp, Some(1), td, 0) + LiftRefCount(sp, Some(1), IDX1);
      assert LiftDefCount(sp, Some(1), td) == LiftFieldsCount(sp, Some(1), td, 1);
    }
  }

  /** Tuples, results, flags and aliases are lifted as one slot, which is right exactly for the shapes above. */
  method LiftUnsupported(host: Host, sp: Space, stack: seq<uint64>, ref: ValTypeRef, td: TypeDef, local: Option<nat>) returns (r: Lifted)
    requires sp.Acyclic() && PlainIndex(ref) && td.kind == DefinedKind && OneSlotShape(td.shape) && stack != []
    ensures r.Some? && r.value.1 == 1
    ensures r.value.1 == DefSlots(sp, local, td) <==> OneSlotIsRight(sp, Effective(td, local), td.shape)
  {
    hide Flatten, DefSlots, OneSlotIsRight;
    OneSlotExactly(sp, Effective(td, local), td);
    DefSlotsAtHome(sp, local, td);
    r := LiftFromStack(host, sp, stack, ref, Some(td), local);
  }

  /** Type 0 is an alias of string. */
  const ALIAS_SCOPE: Scopes := map[0 := map[0 := TypeDef(DefinedKind, HandleDef(ValTypeRef(true, 0x73, 0, false, false)), None)]]

  /** A field that names an alias of string: it flattens to two slots, and is counted and lifted as one. */
  method StringAliasMiscounted(host: Host, sp: Space, stack: seq<uint64>) returns (slots: nat, r: Lifted)
    requires sp.scopes == ALIAS_SCOPE && stack != []
    ensures sp.Acyclic() && RefSlots(sp, Some(0), IDX0) == 2
    ensures slots == 1 && r.Some? && r.value.1 == 1
  {
    hide Flatten, RefSlots;
    var td := ALIAS_SCOPE[0][0];
    AliasSlots(sp, Some(0), td);
    RefSlotsOfDef(sp, Some(0), IDX0);
    assert SteadyDef(sp, Some(0), td) && LiftDefCount(sp, Some(0), td) == 1 && DefCount(sp, Some(0), td) == 1;
    assert SteadyRef(sp, Some(0), IDX0) && LiftRefCount(sp, Some(0), IDX0) == 1;
    slots := FlatSlotCount(sp, IDX0, Some(0));
    r := LiftRef(host, sp, stack, IDX0, Some(0));
  }

  // ----- the parameters of a lowered function -----

  /** A parameter: its reference, the definition it was resolved to, and the scope it was resolved in. */
  datatype ParamDef = ParamDef(ref: ValTypeRef, resolved: Option<TypeDef>, local: Option<nat>)

  /** The scope a parameter is lifted in: its own, else the one its definition carries. */
  function ParamScope(p: ParamDef): Option<nat> {
    if p.local.None? && p.resolved.Some? then p.resolved.value.source else p.local
  }

  /** The type of a parameter in the signature; None drops the parameter from it. */
  ghost function SigType(u: TypeResolution.Universe, urank: TypeResolution.URank, sp: Space, p: ParamDef): Option<ValType>
    requires TypeResolution.Acyclic(u, urank) && sp.Acyclic()
  {
    if p.resolved.Some? then DefType(sp, p.local, p.resolved.value)
    else if !PlainIndex(p.ref) then Some(RefToValType(sp.scopes, sp.rank, None, p.ref))
    else
      var t := TypeResolution.ResolveRef(u, urank, None, p.ref);
      if t.Ok? then Some(t.value) else None
  }

  method ResolveToValType(resolver: TypeResolution.TypeResolver, ghost urank: TypeResolution.URank, sp: Space, p: ParamDef)
    returns (t: Option<ValType>)
    requires resolver.Valid(urank) && resolver.local == None && sp.Acyclic()
    modifies resolver
    ensures resolver.Valid(urank) && t == SigType(resolver.u, urank, sp, p)
  {
    hide TypeResolution.Acyclic, RefToValType;
    if p.resolved.Some? {
      var td := p.resolved.value;
      return DefToValType(sp.scopes, sp.rank, p.local, td, DefHeight(sp.scopes, sp.rank, Effective(td, p.local), td));
    }
    if p.ref.isPrimitive || p.ref.isOwn || p.ref.isBorrow {
      return Some(RefToValType(sp.scopes, sp.rank, None, p.ref));
    }
    var r := resolver.ResolveValType(p.ref, urank);
    t := if r.Ok? then Some(r.value) else None;
  }

  ghost function SigTypes(u: TypeResolution.Universe, urank: TypeResolution.URank, sp: Space, params: seq<ParamDef>): seq<ValType>
    requires TypeResolution.Acyclic(u, urank) && sp.Acyclic()
  {
    if params == [] then []
    else
      var t := SigType(u, urank, sp, params[|params| - 1]);
      SigTypes(u, urank, sp, params[..|params| - 1]) + if t.Some? then [t.value] else []
  }

  ghost function Dropped(u: TypeResolution.Universe, urank: TypeResolution.URank, sp: Space, params: seq<ParamDef>): nat
    requires TypeResolution.Acyclic(u, urank) && sp.Acyclic()
  {
    if params == [] then 0
    else Dropped(u, urank, sp, params[..|params| - 1]) + if SigType(u, urank, sp, params[|params| - 1]).Some? then 0 else 1
  }

  /** The types the signature is flattened from, in order; parameters that cannot be converted are left out. */
  method SignatureTypes(resolver: TypeResolution.TypeResolver, ghost urank: TypeResolution.URank, sp: Space, params: seq<ParamDef>)
    returns (types: seq<ValType>)
    requires resolver.Valid(urank) && resolver.local == None && sp.Acyclic()
    modifies resolver
    ensures resolver.Valid(urank) && types == SigTypes(resolver.u, urank, sp, params)
    ensures |types| == |params| - Dropped(resolver.u, urank, sp, params)
  {
    hide TypeResolution.Acyclic, SigType;
    types := [];
    for k := 0 to |params|
      invariant resolver.Valid(urank) && types == SigTypes(resolver.u, urank, sp, params[..k])
      invariant |types| == k - Dropped(resolver.u, urank, sp, params[..k])
    {
      assert params[..k + 1][..k] == params[..k];
      var t := ResolveToValType(resolver, urank, sp, params[k]);
      if t.Some? {
        types := types + [t.value];
      }
    }
    assert params[..|params|] == params;
  }

  // ----- the walk over the parameters -----

  ghost function ParamCount(sp: Space, p: ParamDef): nat
    requires sp.Acyclic()
  {
    LiftCount(sp, ParamScope(p), p.ref, p.resolved)
  }

  ghost function WalkSlots(sp: Space, params: seq<ParamDef>): nat
    requires sp.Acyclic()
  {
    if params == [] then 0 else WalkSlots(sp, params[..|params| - 1]) + ParamCount(sp, params[|params| - 1])
  }

  lemma {:induction false} WalkSlotsPrefix(sp: Space, params: seq<ParamDef>, k: nat)
    requires sp.Acyclic() && k < |params|
    ensures WalkSlots(sp, params[..k + 1]) == WalkSlots(sp, params[..k]) + ParamCount(sp, params[k]) <= WalkSlots(sp, params)
    decreases |params| - k
  {
    hide ParamCount;
    assert params[..k + 1][..k] == params[..k];
    if k + 1 < |params| {
      WalkSlotsPrefix(sp, params, k + 1);
    } else {
      assert params[..k + 1] == params;
    }
  }

  ghost predicate Steady(sp: Space, params: seq<ParamDef>)
    requires sp.Acyclic()
  {
    forall i :: 0 <= i < |params| ==> LiftSteady(sp, ParamScope(params[i]), params[i].ref, params[i].resolved)
  }

  /** Lifts the parameters in order. However the discriminants on the stack fall, the walk takes the same slots. */
  method LiftParams(host: Host, sp: Space, params: seq<ParamDef>, stack: seq<uint64>) returns (args: Option<seq<Val>>, stackIdx: nat)
    requires sp.Acyclic()
    ensures args.Some? ==> |args.value| == |params|
    ensures Steady(sp, params) ==> (args.Some? ==> stackIdx == WalkSlots(sp, params)) && (|stack| >= WalkSlots(sp, params) ==> args.Some?)
  {
    hide LiftSteady, LiftCount, Decode;
    var vals := [];
    stackIdx := 0;
    for k := 0 to |params|
      invariant |vals| == k
      invariant Steady(sp, params) ==> stackIdx == WalkSlots(sp, params[..k])
    {
      WalkSlotsPrefix(sp, params, k);
      if stackIdx > |stack| {
        return None, stackIdx;
      }
      var p := params[k];
      var one := LiftFromStack(host, sp, stack[stackIdx..], p.ref, p.resolved, ParamScope(p));
      if one.None? {
        return None, stackIdx;
      }
      vals := vals + [one.value.0];
      stackIdx := stackIdx + one.value.1;
    }
    assert params[..|params|] == params;
    args := Some(vals);
  }

  // ----- walk and signature -----

  /** The reference as it is stored beside a resolved definition: the handle of an alias, else a plain index. */
  predicate Built(p: ParamDef) {
    p.resolved.Some? ==>
      var td := p.resolved.value;
      if td.kind == DefinedKind && td.shape.HandleDef? then p.ref == td.shape.handle else PlainIndex(p.ref)
  }

  /** A supported definition, or an index the resolver refuses or converts to a type of one slot. */
  ghost predicate ParamOk(u: TypeResolution.Universe, urank: TypeResolution.URank, sp: Space, p: ParamDef)
    requires TypeResolution.Acyclic(u, urank) && sp.Acyclic()
  {
    && Built(p) && LiftSteady(sp, ParamScope(p), p.ref, p.resolved)
    && if p.resolved.Some? then Direct(p.ref, p.resolved) || SupportedDef(sp, Effective(p.resolved.value, p.local), p.resolved.value)
       else PlainIndex(p.ref) ==> var t := SigType(u, urank, sp, p); t.Some? ==> FlattenCount(t.value) == 1
  }

  /** A dropped parameter is lifted as one slot, every other one as the slots it flattens to. */
  lemma ParamTakes(u: TypeResolution.Universe, urank: TypeResolution.URank, sp: Space, p: ParamDef)
    requires TypeResolution.Acyclic(u, urank) && sp.Acyclic() && ParamOk(u, urank, sp, p)
    ensures var t := SigType(u, urank, sp, p);
      ParamCount(sp, p) == if t.Some? then |Flatten(t.value)| else 1
  {
    hide TypeResolution.Acyclic, Flatten, SupportedDef, SteadyDef, FlattenCount, TypeResolution.ResolveRef;
    var t := SigType(u, urank, sp, p);
    if p.resolved.None? {
      if PlainIndex(p.ref) {
        if t.Some? {
          FlattenCountIsLength(t.value);
        }
      } else if p.ref.isPrimitive && PrimOf(p.ref.primitive).Some? {
        PrimSlots(PrimOf(p.ref.primitive).value);
      } else {
        PrimSlots(PU32);
        HandleSlots(p.ref.typeIdx);
      }
    } else {
      ResolvedTakes(sp, p);
    }
  }

  lemma ResolvedTakes(sp: Space, p: ParamDef)
    requires sp.Acyclic() && Built(p) && p.resolved.Some? && LiftSteady(sp, ParamScope(p), p.ref, p.resolved)
    requires Direct(p.ref, p.resolved) || SupportedDef(sp, Effective(p.resolved.value, p.local), p.resolved.value)
    ensures var t := DefType(sp, p.local, p.resolved.value);
      ParamCount(sp, p) == if t.Some? then |Flatten(t.value)| else 1
  {
    hide Flatten, SupportedDef, SteadyDef, LiftDefCount;
    var td := p.resolved.value;
    DefSlotsAtHome(sp, p.local, td);
    if td.kind == DefinedKind {
      if Direct(p.ref, p.resolved) {
        AliasSlots(sp, Effective(td, p.local), td);
        HandleSlots(p.ref.typeIdx);
      } else {
        SupportedDefAgrees(sp, Effective(td, p.local), td);
      }
    }
  }

  ghost predicate ParamsOk(u: TypeResolution.Universe, urank: TypeResolution.URank, sp: Space, params: seq<ParamDef>)
    requires TypeResolution.Acyclic(u, urank) && sp.Acyclic()
  {
    forall i :: 0 <= i < |params| ==> ParamOk(u, urank, sp, params[i])
  }

  /** The walk takes the slots of the signature and one more for every parameter dropped from it. */
  lemma {:induction false} WalkIsSignature(u: TypeResolution.Universe, urank: TypeResolution.URank, sp: Space, params: seq<ParamDef>)
    requires TypeResolution.Acyclic(u, urank) && sp.Acyclic() && ParamsOk(u, urank, sp, params)
    ensures Steady(sp, params)
    ensures WalkSlots(sp, params) == TypesCount(SigTypes(u, urank, sp, params)) + Dropped(u, urank, sp, params)
  {
    hide TypeResolution.Acyclic, Flatten, LiftSteady, SigType, ParamCount;
    TypesCountIsLength(SigTypes(u, urank, sp, params));
    if params != [] {
      var rest, p := params[..|params| - 1], params[|params| - 1];
      WalkIsSignature(u, urank, sp, rest);
      TypesCountIsLength(SigTypes(u, urank, sp, rest));
      ParamTakes(u, urank, sp, p);
      var t := SigType(u, urank, sp, p);
      if t.Some? {
        FlattenTypesSnoc(SigTypes(u, urank, sp, rest), t.value);
      } else {
        assert SigTypes(u, urank, sp, params) == SigTypes(u, urank, sp, rest);
      }
    }
  }

  /** The stack of a call: the signature's slots, then the return pointer if there is one; else room for the result. */
  ghost predicate StackFits(stack: seq<uint64>, slots: nat, needsRetptr: bool) {
    if needsRetptr then |stack| == slots + 1 else |stack| >= slots
  }

  /**
    On the stack of the signature the walk ends at the signature's last slot, where the return pointer
    follows, exactly when it takes as many slots; for the parameters above, exactly when none was dropped.
   */
  method LiftCall(host: Host, ghost u: TypeResolution.Universe, ghost urank: TypeResolution.URank, sp: Space, params: seq<ParamDef>,
                  needsRetptr: bool, stack: seq<uint64>)
    returns (args: Option<seq<Val>>, retptr: Option<uint32>, stackIdx: nat)
    requires TypeResolution.Acyclic(u, urank) && sp.Acyclic()
    requires StackFits(stack, TypesCount(SigTypes(u, urank, sp, params)), needsRetptr)
    ensures args.Some? ==> |args.value| == |params|
    ensures Steady(sp, params) && |stack| >= WalkSlots(sp, params) ==> args.Some?
    ensures retptr == if needsRetptr then Some(Low(stack[TypesCount(SigTypes(u, urank, sp, params))], TWO_32)) else None
    ensures Steady(sp, params) ==>
      (WalkSlots(sp, params) == TypesCount(SigTypes(u, urank, sp, params)) <==>
       args.Some? && stackIdx == TypesCount(SigTypes(u, urank, sp, params)))
    ensures ParamsOk(u, urank, sp, params) ==>
      && (args.Some? ==> stackIdx == TypesCount(SigTypes(u, urank, sp, params)) + Dropped(u, urank, sp, params))
      && (args.Some? && stackIdx == TypesCount(SigTypes(u, urank, sp, params)) <==> Dropped(u, urank, sp, params) == 0)
  {
    hide TypeResolution.Acyclic, Steady, SigTypes, ParamsOk, WalkSlots, Dropped;
    retptr := None;
    if needsRetptr {
      retptr := Some(Low(stack[|stack| - 1], TWO_32));
    }
    args, stackIdx := LiftParams(host, sp, params, stack);
    if ParamsOk(u, urank, sp, params) {
      WalkIsSignature(u, urank, sp, params);
    }
  }

  /** An index without a definition is lifted as one slot: right exactly when the resolver gives a type of one slot. */
  lemma UnresolvedIndex(u: TypeResolution.Universe, urank: TypeResolution.URank, sp: Space, p: ParamDef)
    requires TypeResolution.Acyclic(u, urank) && sp.Acyclic() && p.resolved.None? && PlainIndex(p.ref)
    ensures ParamCount(sp, p) == TypesCount(SigTypes(u, urank, sp, [p])) <==>
      var t := TypeResolution.ResolveRef(u, urank, None, p.ref); t.Ok? && FlattenCount(t.value) == 1
  {
    hide TypeResolution.Acyclic, TypeResolution.ResolveRef, FlattenCount;
    assert [p][..0] == [];
    var t := TypeResolution.ResolveRef(u, urank, None, p.ref);
    if t.Ok? {
      assert SigTypes(u, urank, sp, [p]) == [t.value];
      assert [t.value][1..] == [];
      assert TypesCount([t.value]) == FlattenCount(t.value) + TypesCount([]);
    } else {
      assert SigTypes(u, urank, sp, [p]) == [];
    }
  }

  /** A definition with none of the shapes, as a stream or future has. */
  const UNCONVERTIBLE := ParamDef(IDX0, Some(TypeDef(DefinedKind, NoShape, None)), None)

  /** Its parameter is dropped from the signature, and the walk takes the slot of the return pointer for it. */
  method UnconvertibleTakesRetptr(host: Host, ghost u: TypeResolution.Universe, ghost urank: TypeResolution.URank, sp: Space, stack: seq<uint64>)
    returns (args: Option<seq<Val>>, retptr: Option<uint32>, stackIdx: nat)
    requires TypeResolution.Acyclic(u, urank) && sp.Acyclic() && |stack| == 1
    ensures SigTypes(u, urank, sp, [UNCONVERTIBLE]) == []
    ensures args.Some? && stackIdx == 1 && retptr == Some(Low(stack[0], TWO_32))
  {
    hide TypeResolution.Acyclic;
    assert [UNCONVERTIBLE][..0] == [];
    assert SigType(u, urank, sp, UNCONVERTIBLE) == None;
    assert ParamsOk(u, urank, sp, [UNCONVERTIBLE]) && Dropped(u, urank, sp, [UNCONVERTIBLE]) == Dropped(u, urank, sp, []) + 1;
    assert WalkSlots(sp, [UNCONVERTIBLE]) == WalkSlots(sp, []) + 1;
    args, retptr, stackIdx := LiftCall(host, u, urank, sp, [UNCONVERTIBLE], true, stack);
  }
}
