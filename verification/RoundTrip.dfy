// Values lowered to core words and lifted from the stack again.

module StackRoundTrip {
  import opened Words
  import opened Wrappers
  import opened Values
  import opened Types
  import opened TypeDefs
  import opened LittleEndian
  import opened GuestMemory
  import opened Lowering
  import opened Flattening
  import L = LiftStack
  import opened TypedLowering

  // ----- scalars and strings -----

  /** Integers, bools and chars come back as they were, whatever lies above them on the stack. */
  lemma ScalarComesBack(host: L.Host, k: PrimKind, v: Val, ws: seq<uint64>, above: seq<uint64>)
    requires k != PString && k != PF32 && k != PF64
    requires Represents(ws, v, Prim(k))
    ensures L.LiftPrim(host, k, ws + above) == Some((v, 1))
  {
    hide L.Low, FromInt8, FromInt16, FromInt32, FromInt64, ToInt8, ToInt16, ToInt32, ToInt64;
    var w := ws[0];
    assert (ws + above)[0] == w;
    if k == PChar {
      RuneLowBits(v.rune);
    } else if ScalarSize(k) == 1 {
      LowIs(w, TWO_8);
    } else if ScalarSize(k) == 2 {
      LowIs(w, TWO_16);
    } else if ScalarSize(k) == 4 {
      LowIs(w, TWO_32);
    }
  }

  /** Any word on the stack lifts to the scalar whose number is congruent to it in the width of its kind. */
  lemma AnyWordLifts(host: L.Host, k: PrimKind, stack: seq<uint64>)
    requires k != PString && k != PF32 && k != PF64 && stack != []
    ensures L.LiftPrim(host, k, stack).Some? && L.LiftPrim(host, k, stack).value.1 == 1
    ensures var v, x := L.LiftPrim(host, k, stack).value.0, stack[0];
      && KindOf(v) == Some(k)
      && if k == PBool then v.b == (x != 0)
         else
           match ScalarSize(k)
           case 1 => NumberOf(v) % TWO_8 == x % TWO_8
           case 2 => NumberOf(v) % TWO_16 == x % TWO_16
           case 4 => NumberOf(v) % TWO_32 == x % TWO_32
           case _ => NumberOf(v) % TWO_64 == x
  {
    hide ToInt8, ToInt16, ToInt32, ToInt64;
    var x := stack[0];
    SignedIs(x % TWO_8, x % TWO_16, x % TWO_32, x);
  }

  /** A string outside the memory, or without one, lifts to the empty string and still takes two slots. */
  lemma StringOutside(host: L.Host, stack: seq<uint64>)
    requires host.mem.Some? && |stack| >= 2 ==> stack[0] % TWO_32 + stack[1] % TWO_32 > |host.mem.value|
    ensures L.LiftPrim(host, PString, stack) == Some((Val.String([]), 2))
  {
  }

  lemma LowIs(w: uint64, m: nat)
    requires w < m
    ensures L.Low(w, m) == w
  {
  }

  lemma RuneLowBits(rune: int32)
    ensures ToInt32(L.Low(FromInt64(rune), TWO_32)) == rune
  {
  }

  /** A string whose bytes lie at the pointer comes back as it was. */
  lemma StringComesBack(host: L.Host, blocks: set<nat>, text: Bytes, ws: seq<uint64>, above: seq<uint64>)
    requires Represents(ws, Val.String(text), Prim(PString)) && host.mem.Some? && TextAt(host.mem.value, blocks, ws, text)
    ensures L.LiftPrim(host, PString, ws + above) == Some((Val.String(text), 2))
  {
    hide L.Low, Represents;
    PrimRepresents(ws, Val.String(text), PString);
    LowIs(ws[0], TWO_32);
    LowIs(ws[1], TWO_32);
    assert (ws + above)[0] == ws[0] && (ws + above)[1] == ws[1];
    if text == [] && ws[0] <= |host.mem.value| {
      assert host.mem.value[ws[0]..ws[0] + 0] == [];
    }
  }

  // ----- what comes back -----

  function DefNames(cases: seq<CaseDef>): (names: seq<Bytes>)
    ensures |names| == |cases| && forall i :: 0 <= i < |cases| ==> names[i] == cases[i].name
  {
    seq(|cases|, i requires 0 <= i < |cases| => cases[i].name)
  }

  ghost function NameSet(names: seq<Bytes>): set<Bytes> {
    set i | 0 <= i < |names| :: names[i]
  }

  ghost function FieldNames(fields: seq<FieldDef>): set<Bytes> {
    set i | 0 <= i < |fields| :: fields[i].name
  }

  /** A value of the type as it is lifted, with none of the coercions the lowering allows: no floats, handles and lists. */
  ghost predicate Canonical(sp: L.Space, local: Option<nat>, ref: ValTypeRef, v: Val)
    requires sp.Acyclic()
    decreases RefRank(sp.scopes, sp.rank, local, ref), 0
  {
    var td := ResolveInner(sp.scopes, local, ref);
    if td.Some? then td.value.kind == DefinedKind && (L.FoundBelow(sp, local, ref); CanonicalDef(sp, Effective(td.value, local), td.value, v))
    else
      && ref.isPrimitive && PrimOf(ref.primitive).Some? && PrimOf(ref.primitive).value != PF32 && PrimOf(ref.primitive).value != PF64
      && (v.String? ==> |v.text| < TWO_32)
  }

  ghost predicate CanonicalDef(sp: L.Space, local: Option<nat>, td: TypeDef, v: Val)
    requires sp.Acyclic()
    decreases L.DefHeight(sp.scopes, sp.rank, local, td), 2
  {
    match td.shape
    case EnumDef(names) => v.Enum? && |names| <= TWO_63
    case FlagsDef(names) => v.Flags? && v.flags.Keys == NameSet(names)
    case RecordDef(fields) =>
      && v.Record? && v.fields.Keys == FieldNames(fields)
      && forall i :: 0 <= i < |fields| ==>
           fields[i].name in v.fields
           && (L.FieldBelow(sp.scopes, sp.rank, local, td, i); Canonical(sp, local, fields[i].ref, v.fields[fields[i].name]))
    case OptionDef(inner) => v.Optional? && (v.some.Some? ==> Canonical(sp, local, inner, v.some.value))
    case VariantDef(cases) =>
      && v.Variant? && |cases| <= TWO_63
      && var i := FirstIndex(DefNames(cases), v.caseName);
         i < |cases| ==>
           && (v.payload.Some? <==> cases[i].ref.Some?)
           && (v.payload.Some? && cases[i].ref.Some? ==>
                 (CaseRefsIn(cases, i); Canonical(sp, local, cases[i].ref.value, v.payload.value)))
    case _ => false
  }

  // ----- the words of one field -----

  lemma SliceAbove(ws: seq<uint64>, n: nat, at: nat, m: nat)
    requires n + at + m <= |ws|
    ensures ws[n..][at..at + m] == ws[n + at..n + at + m]
  {
  }

  /** Field k of a record has the words behind those of the fields before it. */
  lemma {:induction false} FieldWords(mem: Bytes, blocks: set<nat>, ws: seq<uint64>, values: map<Bytes, Val>, fs: seq<Field>, k: nat)
    requires FieldsRepresent(ws, values, fs) && FieldsTextsAt(mem, blocks, ws, values, fs) && k < |fs|
    ensures fs[k].name in values
    ensures var at, n := FieldsCount(fs[..k]), FlattenCount(fs[k].typ);
      && at + n <= |ws|
      && Represents(ws[at..at + n], values[fs[k].name], fs[k].typ)
      && TextsAt(mem, blocks, ws[at..at + n], values[fs[k].name], fs[k].typ)
    decreases k
  {
    hide Represents, TextsAt, FlattenCount;
    var n := FlattenCount(fs[0].typ);
    if k == 0 {
      assert fs[..0] == [];
      assert ws[0..n] == ws[..n];
    } else {
      FieldWords(mem, blocks, ws[n..], values, fs[1..], k - 1);
      assert fs[..k][1..] == fs[1..][..k - 1];
      var at, m := FieldsCount(fs[1..][..k - 1]), FlattenCount(fs[k].typ);
      SliceAbove(ws, n, at, m);
    }
  }

  // ----- the round trip -----

  ghost function TypeAt(sp: L.Space, local: Option<nat>, ref: ValTypeRef): ValType
    requires sp.Acyclic()
  {
    RefToValType(sp.scopes, sp.rank, local, ref)
  }

  /** The words of a value, decoded by the type they were made with, are the value. */
  lemma {:induction false} RefComesBack(host: L.Host, blocks: set<nat>, sp: L.Space, local: Option<nat>, ref: ValTypeRef, v: Val, ws: seq<uint64>, above: seq<uint64>)
    requires sp.Acyclic() && L.SupportedRef(sp, local, ref) && L.SteadyRef(sp, local, ref) && Canonical(sp, local, ref, v)
    requires Represents(ws, v, TypeAt(sp, local, ref)) && host.mem.Some? && TextsAt(host.mem.value, blocks, ws, v, TypeAt(sp, local, ref))
    ensures L.DecodeRef(host, sp, local, ref, ws + above) == Some(v)
    decreases RefRank(sp.scopes, sp.rank, local, ref), 0
  {
    hide L.SupportedDef, L.SteadyDef, CanonicalDef, L.DecodeDef, L.LiftPrim;
    var resolved := ResolveInner(sp.scopes, local, ref);
    if resolved.None? {
      var k := PrimOf(ref.primitive).value;
      if k == PString {
        hide Represents;
        PrimRepresents(ws, v, k);
        StringComesBack(host, blocks, v.text, ws, above);
      } else {
        ScalarComesBack(host, k, v, ws, above);
      }
    } else {
      var td := resolved.value;
      L.FoundBelow(sp, local, ref);
      CanonicalShape(sp, Effective(td, local), td, v);
      DefinedType(sp, local, ref);
      DefComesBack(host, blocks, sp, Effective(td, local), td, v, ws, above);
    }
  }

  lemma CanonicalShape(sp: L.Space, local: Option<nat>, td: TypeDef, v: Val)
    requires sp.Acyclic() && CanonicalDef(sp, local, td, v)
    ensures td.shape != NoShape && !td.shape.HandleDef?
  {
    hide Canonical;
  }

  lemma DefinedType(sp: L.Space, local: Option<nat>, ref: ValTypeRef)
    requires sp.Acyclic() && ResolveInner(sp.scopes, local, ref).Some?
    ensures var td := ResolveInner(sp.scopes, local, ref).value;
      td.kind == DefinedKind && td.shape != NoShape && (td.shape.HandleDef? ==> !L.PlainIndex(td.shape.handle)) ==>
        L.DefType(sp, Effective(td, local), td) == Some(TypeAt(sp, local, ref))
  {
    var td := ResolveInner(sp.scopes, local, ref).value;
    var e := Effective(td, local);
    L.AnyRank(sp.scopes, sp.rank, local, td, sp.rank(local.value, ref.typeIdx), L.DefHeight(sp.scopes, sp.rank, e, td));
    HomeType(sp.scopes, sp.rank, local, td, L.DefHeight(sp.scopes, sp.rank, e, td));
  }

  lemma HomeType(scopes: Scopes, rank: Rank, local: Option<nat>, td: TypeDef, n: nat)
    requires Ranked(scopes, rank) && RefsBelow(scopes, rank, Effective(td, local), td, n)
    ensures DefToValType(scopes, rank, local, td, n) == DefToValType(scopes, rank, Effective(td, local), td, n)
  {
    hide RefToValType;
  }

  lemma {:induction false} DefComesBack(host: L.Host, blocks: set<nat>, sp: L.Space, local: Option<nat>, td: TypeDef, v: Val, ws: seq<uint64>, above: seq<uint64>)
    requires sp.Acyclic() && Effective(td, local) == local && td.kind == DefinedKind
    requires L.SupportedDef(sp, local, td) && L.SteadyDef(sp, local, td) && CanonicalDef(sp, local, td, v)
    requires L.DefType(sp, local, td).Some? && Represents(ws, v, L.DefType(sp, local, td).value)
    requires host.mem.Some? && TextsAt(host.mem.value, blocks, ws, v, L.DefType(sp, local, td).value)
    ensures L.DecodeDef(host, sp, local, td, ws + above) == Some(v)
    decreases L.DefHeight(sp.scopes, sp.rank, local, td), 2
  {
    hide RefToValType, L.SupportedRef, L.SteadyRef, Canonical, L.DecodeRef, L.Agreed, L.DecodeFields, FieldsRepresent, FieldsTextsAt,
      FirstFields, FlattenCount, Represents, TextsAt;
    var t := L.DefType(sp, local, td).value;
    match td.shape
    case EnumDef(names) =>
      EnumWords(ws, v, names);
      assert (ws + above)[0] == ws[0];
    case FlagsDef(names) =>
      FlagWord(ws, v, names);
      assert (ws + above)[0] == ws[0];
    case RecordDef(fields) =>
      assert t.fields == L.FieldTypes(sp, local, fields);
      RecordIs(host.mem.value, blocks, ws, v, t.fields);
      assert RecordWords(host, blocks, sp, local, td, v.fields, ws);
      FieldsComeBack(host, blocks, sp, local, td, v.fields, ws, above, |fields|);
      AllFields(fields, v.fields);
    case OptionDef(inner) =>
      OptionWords(host.mem.value, blocks, ws, v, TypeAt(sp, local, inner));
      assert (ws + above)[0] == ws[0];
      if v.some.Some? {
        assert inner in Refs(td.shape);
        assert (ws + above)[1..] == ws[1..] + above;
        RefComesBack(host, blocks, sp, local, inner, v.some.value, ws[1..], above);
      }
    case VariantDef(cases) =>
      assert t.cases == L.CaseTypes(sp, local, cases);
      CaseComesBack(host, blocks, sp, local, td, v, ws, above);
    case _ =>
  }

  lemma OptionWords(mem: Bytes, blocks: set<nat>, ws: seq<uint64>, v: Val, some: ValType)
    requires v.Optional? && Represents(ws, v, OptionType(some)) && TextsAt(mem, blocks, ws, v, OptionType(some))
    ensures ws != [] && L.Low(ws[0], TWO_32) == ws[0] == if v.some.Some? then 1 else 0
    ensures v.some.Some? ==> Represents(ws[1..], v.some.value, some) && TextsAt(mem, blocks, ws[1..], v.some.value, some)
  {
    hide FlattenCount;
  }

  lemma FlagBits(ws: seq<uint64>, v: Val, names: seq<Bytes>)
    requires v.Flags? && 1 <= |names| <= 32 && Represents(ws, v, FlagsType(names))
    ensures |ws| == 1 && ws[0] < TWO_32 && forall i :: 0 <= i < |names| ==> Bit(ws[0], i) == FlagSet(v, names[i])
  {
    hide Bit, FlagSet;
    forall i | 0 <= i < |names| ensures Bit(ws[0], i) == FlagSet(v, names[i]) {
      assert Bit(ws[i / 32], i % 32) == FlagSet(v, names[i]) && i / 32 == 0 && i % 32 == i;
    }
  }

  /** The word of up to 32 flags gives the flags back. */
  lemma FlagWord(ws: seq<uint64>, v: Val, names: seq<Bytes>)
    requires v.Flags? && 1 <= |names| <= 32 && v.flags.Keys == NameSet(names) && Represents(ws, v, FlagsType(names))
    ensures ws != [] && L.Low(ws[0], TWO_32) == ws[0] < TWO_32 && L.FlagMap(names, ws[0]) == v.flags
  {
    hide Represents, Bit, FlagSet, L.FlagMap, L.Low, NameSet;
    FlagBits(ws, v, names);
    LowIs(ws[0], TWO_32);
    FlagsSoFar(names, ws[0], v, |names|);
    assert names[..|names|] == names;
  }

  lemma {:induction false} FlagsSoFar(names: seq<Bytes>, w: uint32, v: Val, k: nat)
    requires v.Flags? && k <= |names| && v.flags.Keys == NameSet(names)
    requires forall i :: 0 <= i < |names| ==> Bit(w, i) == FlagSet(v, names[i])
    ensures L.FlagMap(names[..k], w).Keys == NameSet(names[..k])
    ensures forall x :: x in L.FlagMap(names[..k], w) ==> x in v.flags && L.FlagMap(names[..k], w)[x] == v.flags[x]
  {
    hide Bit;
    if k > 0 {
      FlagsSoFar(names, w, v, k - 1);
      assert names[..k][..k - 1] == names[..k - 1];
      assert names[k - 1] in NameSet(names);
      NameSetSnoc(names, k);
    }
  }

  lemma NameSetSnoc(names: seq<Bytes>, k: nat)
    requires 0 < k <= |names|
    ensures NameSet(names[..k]) == NameSet(names[..k - 1]) + {names[k - 1]}
  {
    assert forall i :: 0 <= i < k - 1 ==> names[..k][i] == names[..k - 1][i];
    assert names[..k][k - 1] in NameSet(names[..k]);
    forall x | x in NameSet(names[..k - 1]) ensures x in NameSet(names[..k]) {
      var i :| 0 <= i < k - 1 && names[..k - 1][i] == x;
      assert names[..k][i] == x;
    }
  }

  lemma EnumWords(ws: seq<uint64>, v: Val, labels: seq<Bytes>)
    requires v.Enum? && |labels| <= TWO_63 && Represents(ws, v, EnumType(labels))
    ensures ws != [] && ws[0] < |labels| && ws[0] < TWO_63 && labels[ws[0]] == v.name
  {
  }

  lemma RecordIs(mem: Bytes, blocks: set<nat>, ws: seq<uint64>, v: Val, fs: seq<Field>)
    requires v.Record? && Represents(ws, v, RecordType(fs)) && TextsAt(mem, blocks, ws, v, RecordType(fs))
    ensures FieldsRepresent(ws, v.fields, fs) && FieldsTextsAt(mem, blocks, ws, v.fields, fs)
  {
    hide FieldsRepresent, FieldsTextsAt;
  }

  /** The words of a variant: the position of its case, then its payload's words. */
  lemma VariantWords(mem: Bytes, blocks: set<nat>, ws: seq<uint64>, v: Val, cs: seq<Case>)
    requires v.Variant? && |cs| <= TWO_63 && Represents(ws, v, VariantType(cs)) && TextsAt(mem, blocks, ws, v, VariantType(cs))
    ensures var i := FirstIndex(CaseNames(cs), v.caseName);
      && i < |cs| && ws != [] && ws[0] == i
      && (cs[i].typ.Some? && v.payload.Some? ==>
            var n := FlattenCount(cs[i].typ.value);
            && 1 + n <= |ws|
            && Represents(ws[1..1 + n], v.payload.value, cs[i].typ.value)
            && TextsAt(mem, blocks, ws[1..1 + n], v.payload.value, cs[i].typ.value))
  {
    hide FlattenCount;
  }

  lemma CaseParts(host: L.Host, blocks: set<nat>, sp: L.Space, local: Option<nat>, cases: seq<CaseDef>, v: Val, ws: seq<uint64>, above: seq<uint64>)
    returns (mine: seq<uint64>, rest: seq<uint64>)
    requires sp.Acyclic() && v.Variant? && |cases| <= TWO_63 && host.mem.Some?
    requires Represents(ws, v, VariantType(L.CaseTypes(sp, local, cases)))
    requires TextsAt(host.mem.value, blocks, ws, v, VariantType(L.CaseTypes(sp, local, cases)))
    ensures var i := FirstIndex(DefNames(cases), v.caseName);
      && i < |cases| && ws != [] && ws[0] == i
      && (cases[i].ref.Some? && v.payload.Some? ==>
            && (ws + above)[1..] == mine + rest
            && Represents(mine, v.payload.value, TypeAt(sp, local, cases[i].ref.value))
            && TextsAt(host.mem.value, blocks, mine, v.payload.value, TypeAt(sp, local, cases[i].ref.value)))
  {
    hide RefToValType, FlattenCount, Represents, TextsAt;
    var cs := L.CaseTypes(sp, local, cases);
    assert CaseNames(cs) == DefNames(cases);
    VariantWords(host.mem.value, blocks, ws, v, cs);
    var i := FirstIndex(DefNames(cases), v.caseName);
    mine, rest := [], [];
    if cases[i].ref.Some? && v.payload.Some? {
      var n := FlattenCount(cs[i].typ.value);
      mine, rest := ws[1..1 + n], ws[1 + n..] + above;
      assert (ws + above)[1..] == mine + rest;
    }
  }

  lemma {:induction false} CaseComesBack(host: L.Host, blocks: set<nat>, sp: L.Space, local: Option<nat>, td: TypeDef, v: Val, ws: seq<uint64>, above: seq<uint64>)
    requires sp.Acyclic() && td.kind == DefinedKind && td.shape.VariantDef?
    requires L.SupportedDef(sp, local, td) && L.SteadyDef(sp, local, td) && CanonicalDef(sp, local, td, v)
    requires Represents(ws, v, VariantType(L.CaseTypes(sp, local, td.shape.cases))) && host.mem.Some?
    requires TextsAt(host.mem.value, blocks, ws, v, VariantType(L.CaseTypes(sp, local, td.shape.cases)))
    ensures L.DecodeDef(host, sp, local, td, ws + above) == Some(v)
    decreases L.DefHeight(sp.scopes, sp.rank, local, td), 1
  {
    hide RefToValType, L.SupportedRef, L.SteadyRef, Canonical, L.DecodeRef, L.Agreed, Represents, TextsAt;
    var cases := td.shape.cases;
    var mine, rest := CaseParts(host, blocks, sp, local, cases, v, ws, above);
    var i := FirstIndex(DefNames(cases), v.caseName);
    assert (ws + above)[0] == i;
    if cases[i].ref.Some? {
      CaseRefsIn(cases, i);
      RefComesBack(host, blocks, sp, local, cases[i].ref.value, v.payload.value, mine, rest);
    }
  }

  /** The values of the first k fields. */
  ghost function FirstFields(fields: seq<FieldDef>, values: map<Bytes, Val>, k: nat): map<Bytes, Val>
    requires k <= |fields| && forall i :: 0 <= i < |fields| ==> fields[i].name in values
  {
    if k == 0 then map[] else FirstFields(fields, values, k - 1)[fields[k - 1].name := values[fields[k - 1].name]]
  }

  lemma {:induction false} FirstFieldsAre(fields: seq<FieldDef>, values: map<Bytes, Val>, k: nat)
    requires k <= |fields| && forall i :: 0 <= i < |fields| ==> fields[i].name in values
    ensures FirstFields(fields, values, k).Keys == FieldNames(fields[..k])
    ensures forall x :: x in FirstFields(fields, values, k) ==> x in values && FirstFields(fields, values, k)[x] == values[x]
  {
    if k > 0 {
      FirstFieldsAre(fields, values, k - 1);
      assert FieldNames(fields[..k]) == FieldNames(fields[..k - 1]) + {fields[k - 1].name} by {
        assert forall i :: 0 <= i < k - 1 ==> fields[..k][i] == fields[..k - 1][i];
        assert fields[..k][k - 1].name in FieldNames(fields[..k]);
        forall x | x in FieldNames(fields[..k - 1]) ensures x in FieldNames(fields[..k]) {
          var i :| 0 <= i < k - 1 && fields[..k - 1][i].name == x;
          assert fields[..k][i].name == x;
        }
      }
    }
  }

  lemma AllFields(fields: seq<FieldDef>, values: map<Bytes, Val>)
    requires values.Keys == FieldNames(fields) && forall i :: 0 <= i < |fields| ==> fields[i].name in values
    ensures FirstFields(fields, values, |fields|) == values
  {
    FirstFieldsAre(fields, values, |fields|);
    assert fields[..|fields|] == fields;
  }

  /** The words of a record of a supported type with these field values. */
  ghost predicate RecordWords(host: L.Host, blocks: set<nat>, sp: L.Space, local: Option<nat>, td: TypeDef, values: map<Bytes, Val>, ws: seq<uint64>)
    requires sp.Acyclic()
  {
    && td.kind == DefinedKind && td.shape.RecordDef?
    && L.SupportedDef(sp, local, td) && L.SteadyDef(sp, local, td) && CanonicalDef(sp, local, td, Val.Record(values))
    && FieldsRepresent(ws, values, L.FieldTypes(sp, local, td.shape.fields)) && host.mem.Some?
    && FieldsTextsAt(host.mem.value, blocks, ws, values, L.FieldTypes(sp, local, td.shape.fields))
  }

  lemma RecordFieldsIn(host: L.Host, blocks: set<nat>, sp: L.Space, local: Option<nat>, td: TypeDef, values: map<Bytes, Val>, ws: seq<uint64>)
    requires sp.Acyclic() && RecordWords(host, blocks, sp, local, td, values, ws)
    ensures forall i :: 0 <= i < |td.shape.fields| ==> td.shape.fields[i].name in values
  {
  }

  lemma FieldParts(host: L.Host, blocks: set<nat>, sp: L.Space, local: Option<nat>, td: TypeDef, values: map<Bytes, Val>, ws: seq<uint64>, above: seq<uint64>, k: nat)
    returns (mine: seq<uint64>, rest: seq<uint64>)
    requires sp.Acyclic() && RecordWords(host, blocks, sp, local, td, values, ws) && k < |td.shape.fields|
    ensures td.shape.fields[k].name in values
    ensures L.Above(ws + above, L.LiftFieldsCount(sp, local, td, k)) == mine + rest
    ensures Represents(mine, values[td.shape.fields[k].name], TypeAt(sp, local, td.shape.fields[k].ref))
    ensures TextsAt(host.mem.value, blocks, mine, values[td.shape.fields[k].name], TypeAt(sp, local, td.shape.fields[k].ref))
  {
    hide RefToValType, L.SupportedDef, L.SteadyDef, CanonicalDef, Represents, TextsAt, FlattenCount, L.LiftFieldsCount, FieldsRepresent, FieldsTextsAt;
    var fs := L.FieldTypes(sp, local, td.shape.fields);
    FieldWords(host.mem.value, blocks, ws, values, fs, k);
    var at, n := FieldsCount(fs[..k]), FlattenCount(fs[k].typ);
    FieldOffset(sp, local, td, k);
    mine, rest := ws[at..at + n], ws[at + n..] + above;
    assert (ws + above)[at..] == mine + rest;
  }

  lemma {:induction false} FieldComesBack(host: L.Host, blocks: set<nat>, sp: L.Space, local: Option<nat>, td: TypeDef, values: map<Bytes, Val>,
                                          ws: seq<uint64>, above: seq<uint64>, k: nat)
    requires sp.Acyclic() && RecordWords(host, blocks, sp, local, td, values, ws) && k < |td.shape.fields|
    ensures td.shape.fields[k].name in values
    ensures L.DecodeRef(host, sp, local, td.shape.fields[k].ref, L.Above(ws + above, L.LiftFieldsCount(sp, local, td, k)))
         == Some(values[td.shape.fields[k].name])
    decreases L.DefHeight(sp.scopes, sp.rank, local, td), 1, 0
  {
    hide RefToValType, L.SupportedRef, L.SteadyRef, Canonical, L.DecodeRef, Represents, TextsAt, L.LiftFieldsCount, FieldsRepresent, FieldsTextsAt;
    var mine, rest := FieldParts(host, blocks, sp, local, td, values, ws, above, k);
    L.FieldBelow(sp.scopes, sp.rank, local, td, k);
    RefComesBack(host, blocks, sp, local, td.shape.fields[k].ref, values[td.shape.fields[k].name], mine, rest);
  }

  lemma {:induction false} FieldsComeBack(host: L.Host, blocks: set<nat>, sp: L.Space, local: Option<nat>, td: TypeDef, values: map<Bytes, Val>,
                                          ws: seq<uint64>, above: seq<uint64>, k: nat)
    requires sp.Acyclic() && RecordWords(host, blocks, sp, local, td, values, ws) && k <= |td.shape.fields|
    ensures forall i :: 0 <= i < |td.shape.fields| ==> td.shape.fields[i].name in values
    ensures L.DecodeFields(host, sp, local, td, k, ws + above) == Some(FirstFields(td.shape.fields, values, k))
    decreases L.DefHeight(sp.scopes, sp.rank, local, td), 1, k
  {
    hide RecordWords, L.DecodeRef, L.LiftFieldsCount;
    RecordFieldsIn(host, blocks, sp, local, td, values, ws);
    if k > 0 {
      FieldsComeBack(host, blocks, sp, local, td, values, ws, above, k - 1);
      FieldComesBack(host, blocks, sp, local, td, values, ws, above, k - 1);
    }
  }

  lemma FieldOffset(sp: L.Space, local: Option<nat>, td: TypeDef, k: nat)
    requires sp.Acyclic() && td.kind == DefinedKind && td.shape.RecordDef? && k <= |td.shape.fields|
    requires L.SupportedDef(sp, local, td) && L.SteadyDef(sp, local, td)
    ensures L.LiftFieldsCount(sp, local, td, k) == FieldsCount(L.FieldTypes(sp, local, td.shape.fields)[..k])
  {
    hide RefToValType, L.SupportedRef, L.SteadyRef, L.LiftRefCount;
    L.SupportedFieldsAgree(sp, local, td, k);
    FieldsCountIsLength(L.FieldTypes(sp, local, td.shape.fields[..k]));
    assert L.FieldTypes(sp, local, td.shape.fields[..k]) == L.FieldTypes(sp, local, td.shape.fields)[..k];
  }

  // ----- through memory -----

  lemma {:induction false} CanonicalIsTame(sp: L.Space, local: Option<nat>, ref: ValTypeRef, v: Val)
    requires sp.Acyclic() && Canonical(sp, local, ref, v)
    ensures Tame(v, TypeAt(sp, local, ref))
    decreases RefRank(sp.scopes, sp.rank, local, ref), 0
  {
    hide CanonicalDef;
    var resolved := ResolveInner(sp.scopes, local, ref);
    if resolved.Some? {
      var td := resolved.value;
      L.FoundBelow(sp, local, ref);
      CanonicalShape(sp, Effective(td, local), td, v);
      DefinedType(sp, local, ref);
      CanonicalDefIsTame(sp, Effective(td, local), td, v);
    }
  }

  lemma {:induction false} CanonicalDefIsTame(sp: L.Space, local: Option<nat>, td: TypeDef, v: Val)
    requires sp.Acyclic() && Effective(td, local) == local && td.kind == DefinedKind && CanonicalDef(sp, local, td, v)
    ensures L.DefType(sp, local, td).Some? && Tame(v, L.DefType(sp, local, td).value)
    decreases L.DefHeight(sp.scopes, sp.rank, local, td), 2
  {
    hide RefToValType, Canonical;
    var t := L.DefType(sp, local, td).value;
    match td.shape
    case RecordDef(fields) =>
      forall i | 0 <= i < |fields| ensures Tame(v.fields[fields[i].name], TypeAt(sp, local, fields[i].ref)) {
        L.FieldBelow(sp.scopes, sp.rank, local, td, i);
        CanonicalIsTame(sp, local, fields[i].ref, v.fields[fields[i].name]);
      }
      assert t.fields == L.FieldTypes(sp, local, fields);
    case OptionDef(inner) =>
      if v.some.Some? {
        assert inner in Refs(td.shape);
        CanonicalIsTame(sp, local, inner, v.some.value);
      }
    case VariantDef(cases) =>
      var cs := L.CaseTypes(sp, local, cases);
      assert t.cases == cs && CaseNames(cs) == DefNames(cases);
      var i := FirstIndex(DefNames(cases), v.caseName);
      if i < |cases| && cases[i].ref.Some? {
        CaseRefsIn(cases, i);
        CanonicalIsTame(sp, local, cases[i].ref.value, v.payload.value);
      }
    case _ =>
  }

  /**
    A value lowered by its type and lifted from the stack is the value: records, options, variants, enums and
    flags, nested to any depth, over integers, bools, chars and strings, whose bytes go through the guest's memory.
   */
  method LowerThenLift(f: ExportedFunc, lowering: Host, lifting: L.Host, sp: L.Space, local: Option<nat>, ref: ValTypeRef, v: Val)
    returns (ws: Option<seq<uint64>>, r: L.Lifted)
    requires f.Valid() && sp.Acyclic() && L.SupportedRef(sp, local, ref) && L.SteadyRef(sp, local, ref) && Canonical(sp, local, ref, v)
    modifies f
    ensures ws.None? ==> !Accepts(lowering, v, TypeAt(sp, local, ref)) || !f.hasMemory || f.refused
    ensures ws.Some? ==> r == Some((v, |ws.value|))
  {
    hide RefToValType, L.SupportedRef, L.SteadyRef, Canonical, Represents, Accepts, L.DecodeRef, Flatten, L.LiftRefCount, TextsAt, Tame, Same;
    CanonicalIsTame(sp, local, ref, v);
    ws := LowerTyped(f, lowering, v, RefToValType(sp.scopes, sp.rank, local, ref));
    r := None;
    if ws.Some? {
      var host := lifting.(mem := Some(f.memory));
      r := L.LiftRef(host, sp, ws.value, ref, local);
      assert ws.value + [] == ws.value;
      RefComesBack(host, f.reserved - old(f.reserved), sp, local, ref, v, ws.value, []);
      L.SupportedRefAgrees(sp, local, ref);
    }
  }
}
