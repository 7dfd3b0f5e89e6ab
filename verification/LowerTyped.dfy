// Type-driven lowering of a value to core words.

module TypeSizes {
  import opened Words
  import opened Wrappers
  import opened Types
  import opened Layout

  /** Bytes of a discriminant that tells n cases apart. */
  function DiscriminantSize(n: nat): nat {
    if n <= 0x100 then 1 else if n <= 0x1_0000 then 2 else 4
  }

  function KindSize(k: PrimKind): nat {
    match k
    case PBool => 1
    case PS8 => 1
    case PU8 => 1
    case PS16 => 2
    case PU16 => 2
    case PS64 => 8
    case PU64 => 8
    case PF64 => 8
    case PString => 8
    case _ => 4
  }

  function AlignOf(t: ValType): (a: nat)
    ensures IsAlign(a)
    decreases t, 1
  {
    match t
    case Prim(k) => if k == PString then 4 else KindSize(k)
    case ListType(_) => 4
    case RecordType(fs) => FieldsAlign(fs)
    case TupleType(ts) => TypesAlign(ts)
    case VariantType(cs) => Max(DiscriminantSize(|cs|), CasesAlign(cs))
    case EnumType(labels) => DiscriminantSize(|labels|)
    case OptionType(some) => AlignOf(some)
    case ResultType(ok, error) =>
      Max(if ok.Some? then AlignOf(ok.value) else 1, if error.Some? then AlignOf(error.value) else 1)
    case FlagsType(names) => if |names| <= 8 then 1 else if |names| <= 16 then 2 else 4
    case OwnType(_) => 4
    case BorrowType(_) => 4
  }

  function FieldsAlign(fs: seq<Field>): (a: nat)
    ensures IsAlign(a)
    decreases fs, 0
  {
    if fs == [] then 1 else Max(AlignOf(fs[0].typ), FieldsAlign(fs[1..]))
  }

  function TypesAlign(ts: seq<ValType>): (a: nat)
    ensures IsAlign(a)
    decreases ts, 0
  {
    if ts == [] then 1 else Max(AlignOf(ts[0]), TypesAlign(ts[1..]))
  }

  function CasesAlign(cs: seq<Case>): (a: nat)
    ensures IsAlign(a)
    decreases cs, 0
  {
    if cs == [] then 1
    else Max(if cs[0].typ.Some? then AlignOf(cs[0].typ.value) else 1, CasesAlign(cs[1..]))
  }

  /** Bytes a value of the type takes in memory, in 32-bit arithmetic. */
  function SizeOf(t: ValType): uint32
    decreases t, 1
  {
    match t
    case Prim(k) => KindSize(k)
    case ListType(_) => 8
    case RecordType(fs) => AlignUp32(FieldsEnd(fs), FieldsAlign(fs))
    case TupleType(ts) => AlignUp32(TypesEnd(ts), TypesAlign(ts))
    case VariantType(cs) => TaggedSize(DiscriminantSize(|cs|), CasesAlign(cs), CasesSize(cs))
    case EnumType(labels) => DiscriminantSize(|labels|)
    case OptionType(some) => TaggedSize(1, AlignOf(some), SizeOf(some))
    case ResultType(ok, error) =>
      TaggedSize(1, AlignOf(t), Max(if ok.Some? then SizeOf(ok.value) else 0, if error.Some? then SizeOf(error.value) else 0))
    case FlagsType(names) =>
      if names == [] then 0 else if |names| <= 8 then 1 else if |names| <= 16 then 2 else WrapU32(4 * FlagWords(|names|))
    case OwnType(_) => 4
    case BorrowType(_) => 4
  }

  function FieldsEnd(fs: seq<Field>): uint32
    decreases fs, 0
  {
    if fs == [] then 0
    else
      var f := fs[|fs| - 1];
      WrapU32(AlignUp32(FieldsEnd(fs[..|fs| - 1]), AlignOf(f.typ)) + SizeOf(f.typ))
  }

  function TypesEnd(ts: seq<ValType>): uint32
    decreases ts, 0
  {
    if ts == [] then 0
    else
      var t := ts[|ts| - 1];
      WrapU32(AlignUp32(TypesEnd(ts[..|ts| - 1]), AlignOf(t)) + SizeOf(t))
  }

  function CasesSize(cs: seq<Case>): uint32
    decreases cs, 0
  {
    if cs == [] then 0 else Max(if cs[0].typ.Some? then SizeOf(cs[0].typ.value) else 0, CasesSize(cs[1..]))
  }

  /** A discriminant, then the payload at its alignment, padded to the alignment of the whole. */
  function TaggedSize(disc: nat, payloadAlign: nat, payloadSize: uint32): uint32
    requires IsAlign(disc) && IsAlign(payloadAlign)
  {
    AlignUp32(WrapU32(AlignUp32(disc, payloadAlign) + payloadSize), Max(disc, payloadAlign))
  }
}

module TypedLowering {
  import opened Words
  import opened Wrappers
  import opened Values
  import opened Types
  import opened TypeSizes
  import opened Flattening
  import opened LittleEndian
  import opened GuestMemory
  import opened Lowering

  // ----- which case a value selects, with the coercions -----

  const CASE_NAME: Bytes := [99, 97, 115, 101]
  const PAYLOAD_NAME: Bytes := [112, 97, 121, 108, 111, 97, 100]

  /** The case and payload of a variant, or of a record with a string field "case"; None is an error. */
  function CaseChoice(v: Val): Option<(Bytes, Option<Val>)> {
    if v.Record? then
      if CASE_NAME in v.fields && v.fields[CASE_NAME].String? then
        Some((v.fields[CASE_NAME].text, if PAYLOAD_NAME in v.fields then Some(v.fields[PAYLOAD_NAME]) else None))
      else None
    else if v.Variant? then Some((v.caseName, v.payload))
    else None
  }

  /** The case of an enum, or of a string used as one; None is an error. */
  function EnumChoice(v: Val): Option<Bytes> {
    if v.String? then Some(v.text) else if v.Enum? then Some(v.name) else None
  }

  /** An absent value is none; a value that is not an option is some of itself. */
  function OptionChoice(v: Val): Option<Val> {
    if v.Optional? then v.some else if v.Nil? then None else Some(v)
  }

  /** The position of the first occurrence of name, or |names|. */
  function FirstIndex(names: seq<Bytes>, name: Bytes): (i: nat)
    ensures i <= |names| && (i < |names| ==> names[i] == name)
    ensures forall j :: 0 <= j < i ==> names[j] != name
  {
    if names == [] || names[0] == name then 0 else 1 + FirstIndex(names[1..], name)
  }

  function CaseNames(cs: seq<Case>): (names: seq<Bytes>)
    ensures |names| == |cs| && forall i :: 0 <= i < |cs| ==> names[i] == cs[i].name
  {
    seq(|cs|, i requires 0 <= i < |cs| => cs[i].name)
  }

  // ----- bits -----

  /** `w | 1 << j`. */
  function SetBit(w: nat, j: nat): (w': nat)
    decreases j
  {
    if j == 0 then w / 2 * 2 + 1 else SetBit(w / 2, j - 1) * 2 + w % 2
  }

  lemma {:induction false} SetBitIs(w: nat, j: nat, k: nat)
    ensures Bit(SetBit(w, j), k) == (k == j || Bit(w, k))
    decreases j
  {
    if j != 0 && k != 0 {
      SetBitIs(w / 2, j - 1, k - 1);
    }
  }

  lemma {:induction false} ZeroBits(k: nat)
    ensures !Bit(0, k)
  {
    if k != 0 {
      ZeroBits(k - 1);
    }
  }

  lemma {:induction false} SetBitBelow(w: nat, j: nat, n: nat)
    requires j < n && w < Pow2(n)
    ensures SetBit(w, j) < Pow2(n)
    decreases j
  {
    assert Pow2(n) == 2 * Pow2(n - 1);
    if j != 0 {
      assert w / 2 < Pow2(n - 1);
      SetBitBelow(w / 2, j - 1, n - 1);
    }
  }

  lemma Pow2Of32()
    ensures Pow2(32) == TWO_32
  {
    assert Pow2(8) == 0x100;
    assert Pow2(16) == 0x1_0000;
    assert Pow2(24) == 0x100_0000;
  }

  // ----- what a sequence of words says about a value -----

  /** The single word of a scalar; a char is sign-extended, every other integer zero-extended. */
  function FlatBits(k: PrimKind, v: Val): Option<uint64>
    requires k != PString
  {
    if k == PChar && v.Char? then Some(FromInt64(v.rune))
    else Pow256Values(); ScalarBits(k, v)
  }

  predicate Zeros(ws: seq<uint64>) {
    forall i :: 0 <= i < |ws| ==> ws[i] == 0
  }

  predicate FlagSet(v: Val, name: Bytes)
    requires v.Flags?
  {
    name in v.flags && v.flags[name]
  }

  /**
    ws is a flat form of v as a t: discriminants, scalars, flags, lengths and padding are fixed by v,
    while pointers and handle indices may be any.
   */
  ghost predicate Represents(ws: seq<uint64>, v: Val, t: ValType)
    decreases t, 1
  {
    match t
    case Prim(k) =>
      if k == PString then v.String? && |ws| == 2 && ws[1] == WrapU32(|v.text|)
      else |ws| == 1 && FlatBits(k, v) == Some(ws[0])
    case ListType(elem) =>
      v.List? && |ws| == 2 && ws[1] == if WrapU32(WrapU32(|v.elems|) * SizeOf(elem)) == 0 then 0 else WrapU32(|v.elems|)
    case RecordType(fs) => v.Record? && FieldsRepresent(ws, v.fields, fs)
    case TupleType(ts) => v.Tuple? && TypesRepresent(ws, v.items, ts)
    case VariantType(cs) =>
      var choice := CaseChoice(v);
      choice.Some? &&
      var i := FirstIndex(CaseNames(cs), choice.value.0);
      i < |cs| && CaseRepresents(ws, i, cs[i].typ, choice.value.1, CasesCount(cs))
    case EnumType(labels) =>
      var choice := EnumChoice(v);
      |ws| == 1 && choice.Some? &&
      var i := FirstIndex(labels, choice.value);
      i < |labels| && ws[0] == i % TWO_64
    case OptionType(some) =>
      var choice := OptionChoice(v);
      if choice.None? then |ws| == 1 + FlattenCount(some) && Zeros(ws)
      else |ws| >= 1 && ws[0] == 1 && Represents(ws[1..], choice.value, some)
    case ResultType(ok, error) =>
      v.ResultOf? &&
      if v.isOk then CaseRepresents(ws, 0, ok, v.ok, FlattenCount(t) - 1)
      else CaseRepresents(ws, 1, error, v.err, FlattenCount(t) - 1)
    case FlagsType(names) =>
      && v.Flags?
      && |ws| == FlagWords(|names|)
      && (forall i :: 0 <= i < |ws| ==> ws[i] < TWO_32)
      && forall i :: 0 <= i < |names| ==> Bit(ws[i / 32], i % 32) == FlagSet(v, names[i])
    case OwnType(_) => v.Own? && |ws| == 1 && ws[0] < TWO_32
    case BorrowType(_) => v.Borrow? && |ws| == 1 && ws[0] < TWO_32
  }

  /** Discriminant, payload words if the case has a type and the value a payload, zeros up to the common width. */
  ghost predicate CaseRepresents(ws: seq<uint64>, disc: nat, typ: Option<ValType>, payload: Option<Val>, width: nat)
    decreases typ, 2
  {
    && |ws| == 1 + width
    && ws[0] == disc % TWO_64
    && if typ.Some? && payload.Some? then
         var n := FlattenCount(typ.value);
         n <= width && Represents(ws[1..1 + n], payload.value, typ.value) && Zeros(ws[1 + n..])
       else Zeros(ws[1..])
  }

  ghost predicate FieldsRepresent(ws: seq<uint64>, values: map<Bytes, Val>, fs: seq<Field>)
    decreases fs, 0
  {
    if fs == [] then ws == []
    else
      var n := FlattenCount(fs[0].typ);
      && fs[0].name in values && n <= |ws|
      && Represents(ws[..n], values[fs[0].name], fs[0].typ)
      && FieldsRepresent(ws[n..], values, fs[1..])
  }

  ghost predicate TypesRepresent(ws: seq<uint64>, values: seq<Val>, ts: seq<ValType>)
    decreases ts, 0
  {
    if ts == [] then ws == []
    else
      var n := FlattenCount(ts[0]);
      && values != [] && n <= |ws|
      && Represents(ws[..n], values[0], ts[0])
      && TypesRepresent(ws[n..], values[1..], ts[1..])
  }

  /** A flat form has as many words as the type has core types, whichever case was taken. */
  lemma {:induction false} RepresentsCount(ws: seq<uint64>, v: Val, t: ValType)
    requires Represents(ws, v, t)
    ensures |ws| == FlattenCount(t) == |Flatten(t)|
    decreases t, 1
  {
    FlattenCountIsLength(t);
    match t
    case RecordType(fs) => FieldsRepresentCount(ws, v.fields, fs);
    case TupleType(ts) => TypesRepresentCount(ws, v.items, ts);
    case OptionType(some) =>
      if OptionChoice(v).Some? {
        RepresentsCount(ws[1..], OptionChoice(v).value, some);
      }
    case _ =>
  }

  lemma {:induction false} FieldsRepresentCount(ws: seq<uint64>, values: map<Bytes, Val>, fs: seq<Field>)
    requires FieldsRepresent(ws, values, fs)
    ensures |ws| == FieldsCount(fs)
    decreases fs, 0
  {
    if fs != [] {
      FieldsRepresentCount(ws[FlattenCount(fs[0].typ)..], values, fs[1..]);
    }
  }

  lemma {:induction false} TypesRepresentCount(ws: seq<uint64>, values: seq<Val>, ts: seq<ValType>)
    requires TypesRepresent(ws, values, ts)
    ensures |ws| == TypesCount(ts)
    decreases ts, 0
  {
    if ts != [] {
      TypesRepresentCount(ws[FlattenCount(ts[0])..], values[1..], ts[1..]);
    }
  }

  // ----- the texts in memory -----

  /** No lists, and no texts of 2^32 bytes or more. */
  ghost predicate Tame(v: Val, t: ValType)
    decreases t, 1
  {
    match t
    case Prim(k) => k == PString && v.String? ==> |v.text| < TWO_32
    case ListType(_) => false
    case RecordType(fs) => v.Record? ==> forall i :: 0 <= i < |fs| && fs[i].name in v.fields ==> Tame(v.fields[fs[i].name], fs[i].typ)
    case TupleType(ts) => v.Tuple? ==> forall i :: 0 <= i < |ts| && i < |v.items| ==> Tame(v.items[i], ts[i])
    case VariantType(cs) =>
      CaseChoice(v).Some? ==>
        var i := FirstIndex(CaseNames(cs), CaseChoice(v).value.0);
        i < |cs| ==> TameCase(cs[i].typ, CaseChoice(v).value.1)
    case OptionType(some) => OptionChoice(v).Some? ==> Tame(OptionChoice(v).value, some)
    case ResultType(ok, error) => v.ResultOf? ==> if v.isOk then TameCase(ok, v.ok) else TameCase(error, v.err)
    case _ => true
  }

  ghost predicate TameCase(typ: Option<ValType>, payload: Option<Val>)
    decreases typ, 2
  {
    typ.Some? && payload.Some? ==> Tame(payload.value, typ.value)
  }

  /** The bytes of the text lie in the blocks where the words point. */
  ghost predicate TextAt(mem: Bytes, blocks: set<nat>, ws: seq<uint64>, text: Bytes) {
    && |ws| == 2 && ws[0] < TWO_32 && |text| < TWO_32
    && (text != [] ==> Held(mem, blocks, ws[0], |text|) && mem[ws[0]..ws[0] + |text|] == text)
  }

  /** So do the texts of all strings in records, options and variants. */
  ghost predicate TextsAt(mem: Bytes, blocks: set<nat>, ws: seq<uint64>, v: Val, t: ValType)
    decreases t, 1
  {
    match t
    case Prim(k) => k == PString && v.String? ==> TextAt(mem, blocks, ws, v.text)
    case RecordType(fs) => v.Record? ==> FieldsTextsAt(mem, blocks, ws, v.fields, fs)
    case OptionType(some) => OptionChoice(v).Some? && ws != [] ==> TextsAt(mem, blocks, ws[1..], OptionChoice(v).value, some)
    case VariantType(cs) =>
      CaseChoice(v).Some? ==>
        var i := FirstIndex(CaseNames(cs), CaseChoice(v).value.0);
        i < |cs| ==> CaseTextsAt(mem, blocks, ws, cs[i].typ, CaseChoice(v).value.1)
    case _ => true
  }

  ghost predicate CaseTextsAt(mem: Bytes, blocks: set<nat>, ws: seq<uint64>, typ: Option<ValType>, payload: Option<Val>)
    decreases typ, 2
  {
    typ.Some? && payload.Some? && 1 + FlattenCount(typ.value) <= |ws| ==>
      TextsAt(mem, blocks, ws[1..1 + FlattenCount(typ.value)], payload.value, typ.value)
  }

  ghost predicate FieldsTextsAt(mem: Bytes, blocks: set<nat>, ws: seq<uint64>, values: map<Bytes, Val>, fs: seq<Field>)
    decreases fs, 0
  {
    fs != [] ==>
      var n := FlattenCount(fs[0].typ);
      fs[0].name in values && n <= |ws| ==>
        && TextsAt(mem, blocks, ws[..n], values[fs[0].name], fs[0].typ)
        && FieldsTextsAt(mem, blocks, ws[n..], values, fs[1..])
  }

  /** Writes elsewhere leave the texts in place. */
  lemma {:induction false} TextsStay(mem: Bytes, blocks: set<nat>, mem': Bytes, blocks': set<nat>, ws: seq<uint64>, v: Val, t: ValType)
    requires TextsAt(mem, blocks, ws, v, t) && Same(mem, mem', blocks) && blocks <= blocks'
    ensures TextsAt(mem', blocks', ws, v, t)
    decreases t, 1
  {
    hide Same, Held, FlattenCount;
    match t
    case Prim(k) =>
      if k == PString && v.String? && v.text != [] {
        HeldSame(mem, mem', blocks, ws[0], |v.text|);
        HeldMore(mem', blocks, blocks', ws[0], |v.text|);
      }
    case RecordType(fs) =>
      if v.Record? {
        FieldsTextsStay(mem, blocks, mem', blocks', ws, v.fields, fs);
      }
    case OptionType(some) =>
      if OptionChoice(v).Some? && ws != [] {
        TextsStay(mem, blocks, mem', blocks', ws[1..], OptionChoice(v).value, some);
      }
    case VariantType(cs) =>
      if CaseChoice(v).Some? {
        var i, payload := FirstIndex(CaseNames(cs), CaseChoice(v).value.0), CaseChoice(v).value.1;
        if i < |cs| && cs[i].typ.Some? && payload.Some? && 1 + FlattenCount(cs[i].typ.value) <= |ws| {
          TextsStay(mem, blocks, mem', blocks', ws[1..1 + FlattenCount(cs[i].typ.value)], payload.value, cs[i].typ.value);
        }
      }
    case _ =>
  }

  lemma HeldMore(mem: Bytes, blocks: set<nat>, blocks': set<nat>, at: nat, n: nat)
    requires Held(mem, blocks, at, n) && blocks <= blocks'
    ensures Held(mem, blocks', at, n)
  {
  }

  lemma {:induction false} FieldsTextsStay(mem: Bytes, blocks: set<nat>, mem': Bytes, blocks': set<nat>, ws: seq<uint64>,
                                           values: map<Bytes, Val>, fs: seq<Field>)
    requires FieldsTextsAt(mem, blocks, ws, values, fs) && Same(mem, mem', blocks) && blocks <= blocks'
    ensures FieldsTextsAt(mem', blocks', ws, values, fs)
    decreases fs, 0
  {
    hide Same, TextsAt, FlattenCount;
    if fs != [] {
      var n := FlattenCount(fs[0].typ);
      if fs[0].name in values && n <= |ws| {
        TextsStay(mem, blocks, mem', blocks', ws[..n], values[fs[0].name], fs[0].typ);
        FieldsTextsStay(mem, blocks, mem', blocks', ws[n..], values, fs[1..]);
      }
    }
  }

  lemma {:induction false} FieldsTextsSnoc(mem: Bytes, blocks: set<nat>, ws: seq<uint64>, values: map<Bytes, Val>, fs: seq<Field>,
                                           more: seq<uint64>, f: Field)
    requires FieldsTextsAt(mem, blocks, ws, values, fs) && FieldsRepresent(ws, values, fs)
    requires f.name in values && |more| == FlattenCount(f.typ) && TextsAt(mem, blocks, more, values[f.name], f.typ)
    ensures FieldsTextsAt(mem, blocks, ws + more, values, fs + [f])
    decreases |fs|
  {
    hide Represents, FlattenCount, TextsAt;
    if fs == [] {
      assert ws + more == more && more[..|more|] == more && (fs + [f])[1..] == [];
    } else {
      var n := FlattenCount(fs[0].typ);
      FieldsTextsSnoc(mem, blocks, ws[n..], values, fs[1..], more, f);
      assert (ws + more)[..n] == ws[..n] && (ws + more)[n..] == ws[n..] + more && (fs + [f])[1..] == fs[1..] + [f];
    }
  }

  /** Lowering a tame value keeps the old blocks, and puts its texts in new ones. */
  ghost predicate TextsPlaced(mem: Bytes, blocks: set<nat>, mem': Bytes, blocks': set<nat>, r: Option<seq<uint64>>, v: Val, t: ValType) {
    Tame(v, t) ==>
      blocks <= blocks' && Same(mem, mem', blocks) && (r.Some? ==> TextsAt(mem', blocks' - blocks, r.value, v, t))
  }

  ghost predicate CasePlaced(mem: Bytes, blocks: set<nat>, mem': Bytes, blocks': set<nat>, r: Option<seq<uint64>>,
                             typ: Option<ValType>, payload: Option<Val>) {
    TameCase(typ, payload) ==>
      blocks <= blocks' && Same(mem, mem', blocks) && (r.Some? ==> CaseTextsAt(mem', blocks' - blocks, r.value, typ, payload))
  }

  lemma VariantPlaced(mem: Bytes, blocks: set<nat>, mem': Bytes, blocks': set<nat>, r: Option<seq<uint64>>, v: Val, cs: seq<Case>)
    requires CaseChoice(v).Some? && FirstIndex(CaseNames(cs), CaseChoice(v).value.0) < |cs|
    requires CasePlaced(mem, blocks, mem', blocks', r, cs[FirstIndex(CaseNames(cs), CaseChoice(v).value.0)].typ, CaseChoice(v).value.1)
    ensures TextsPlaced(mem, blocks, mem', blocks', r, v, VariantType(cs))
  {
    hide TameCase, CaseTextsAt, CaseChoice, Same;
  }

  lemma ResultPlaced(mem: Bytes, blocks: set<nat>, mem': Bytes, blocks': set<nat>, r: Option<seq<uint64>>, v: Val, ok: Option<ValType>, error: Option<ValType>)
    requires v.ResultOf?
    requires if v.isOk then CasePlaced(mem, blocks, mem', blocks', r, ok, v.ok) else CasePlaced(mem, blocks, mem', blocks', r, error, v.err)
    ensures TextsPlaced(mem, blocks, mem', blocks', r, v, ResultType(ok, error))
  {
    hide TameCase, CaseTextsAt, Same;
  }

  /** An option keeps its payload's words behind the discriminant. */
  lemma OptionPlaced(mem: Bytes, blocks: set<nat>, mem': Bytes, blocks': set<nat>, r: Option<seq<uint64>>, v: Val, some: ValType)
    requires OptionChoice(v).Some?
    requires TextsPlaced(mem, blocks, mem', blocks', r, OptionChoice(v).value, some)
    ensures TextsPlaced(mem, blocks, mem', blocks', if r.Some? then Some([1] + r.value) else None, v, OptionType(some))
  {
    hide OptionChoice, Same;
    if r.Some? {
      assert ([1] + r.value)[1..] == r.value;
    }
  }

  lemma StringPlacedIn(mem: Bytes, blocks: set<nat>, mem': Bytes, blocks': set<nat>, r: Option<(uint32, uint32)>, text: Bytes)
    requires blocks <= blocks'
    requires r.None? ==> Same(mem, mem', blocks)
    requires r.Some? ==> r.value.1 == WrapU32(|text|)
    requires r.Some? && r.value.1 == 0 ==> mem' == mem && blocks' == blocks
    requires r.Some? && 0 < |text| < TWO_32 ==>
      && r.value.0 + |text| <= |mem'| && mem'[r.value.0..r.value.0 + |text|] == text
      && Span(r.value.0, r.value.0 + |text|) !! blocks && blocks' == blocks + Span(r.value.0, r.value.0 + |text|)
      && Same(mem, mem', blocks)
    ensures TextsPlaced(mem, blocks, mem', blocks', if r.Some? then Some([r.value.0, r.value.1]) else None, Val.String(text), Prim(PString))
  {
    hide Span;
    if |text| < TWO_32 && r.Some? && text != [] {
      assert blocks' - blocks == Span(r.value.0, r.value.0 + |text|);
    }
  }

  /** Two lowerings in a row: the second leaves the texts of the first. */
  lemma PlacedThen(mem: Bytes, blocks: set<nat>, mem1: Bytes, blocks1: set<nat>, mem2: Bytes, blocks2: set<nat>)
    requires blocks <= blocks1 <= blocks2 && Same(mem, mem1, blocks) && Same(mem1, mem2, blocks1)
    ensures Same(mem, mem2, blocks) && Same(mem1, mem2, blocks1 - blocks)
    ensures blocks1 - blocks <= blocks2 - blocks && blocks2 - blocks1 <= blocks2 - blocks
  {
  }

  lemma NothingPlaced(mem: Bytes, blocks: set<nat>, r: Option<seq<uint64>>, v: Val, t: ValType)
    requires r.None? || t.EnumType? || t.FlagsType? || t.OwnType? || t.BorrowType? || (t.Prim? && t.kind != PString) || (t.OptionType? && OptionChoice(v).None?)
    ensures TextsPlaced(mem, blocks, mem, blocks, r, v, t)
  {
  }

  // ----- the lowering -----

  /**
    The parts of lowering that this model leaves to its surroundings: whether there is a resource
    table, and what writing elements of other than memory types does to the memory.
   */
  datatype Host = Host(hasTable: bool, writeOther: (seq<Val>, ValType, uint32, Bytes) -> Option<Bytes>)

  /** v can be lowered as a t as far as its own shape goes. */
  ghost predicate Accepts(host: Host, v: Val, t: ValType)
    decreases t, 1
  {
    match t
    case Prim(k) => if k == PString then v.String? && |v.text| < TWO_32 else FlatBits(k, v).Some?
    case ListType(elem) => v.List? && InMemory(elem) && Fits(v, t) && Conforms(v, t)
    case RecordType(fs) => v.Record? && FieldsAccept(host, v.fields, fs)
    case TupleType(ts) => v.Tuple? && TypesAccept(host, v.items, ts)
    case VariantType(cs) =>
      var choice := CaseChoice(v);
      choice.Some? &&
      var i := FirstIndex(CaseNames(cs), choice.value.0);
      i < |cs| && CaseAccepts(host, cs[i].typ, choice.value.1)
    case EnumType(labels) => EnumChoice(v).Some? && EnumChoice(v).value in labels
    case OptionType(some) => OptionChoice(v).Some? ==> Accepts(host, OptionChoice(v).value, some)
    case ResultType(ok, error) =>
      v.ResultOf? && if v.isOk then CaseAccepts(host, ok, v.ok) else CaseAccepts(host, error, v.err)
    case FlagsType(_) => v.Flags?
    case OwnType(_) => v.Own? && host.hasTable
    case BorrowType(_) => v.Borrow? && host.hasTable
  }

  ghost predicate CaseAccepts(host: Host, typ: Option<ValType>, payload: Option<Val>)
    decreases typ, 2
  {
    typ.Some? && payload.Some? ==> Accepts(host, payload.value, typ.value)
  }

  ghost predicate FieldsAccept(host: Host, values: map<Bytes, Val>, fs: seq<Field>)
    decreases fs, 0
  {
    forall i :: 0 <= i < |fs| ==> fs[i].name in values && Accepts(host, values[fs[i].name], fs[i].typ)
  }

  ghost predicate TypesAccept(host: Host, values: seq<Val>, ts: seq<ValType>)
    decreases ts, 0
  {
    |ts| <= |values| && forall i :: 0 <= i < |ts| ==> Accepts(host, values[i], ts[i])
  }

  /** The list's elements in a block of their own; a list of no bytes needs none. */
  method LowerList(f: ExportedFunc, host: Host, vs: seq<Val>, elem: ValType) returns (r: Option<seq<uint64>>)
    requires f.Valid()
    modifies f
    ensures f.Valid() && (old(f.refused) ==> f.refused)
    ensures r.None? ==> !Accepts(host, Val.List(vs), ListType(elem)) || !f.hasMemory || f.refused
    ensures r.Some? ==> Represents(r.value, Val.List(vs), ListType(elem))
    ensures WrapU32(WrapU32(|vs|) * SizeOf(elem)) == 0 ==> r == Some([0, 0]) && f.memory == old(f.memory)
    ensures r.Some? && InMemory(elem) && vs != [] && Fits(Val.List(vs), ListType(elem)) ==>
      r.value[1] == |vs| && StoredElements(f.memory, f.reserved - old(f.reserved), r.value[0], elem, vs)
    ensures InMemory(elem) && Fits(Val.List(vs), ListType(elem)) ==> Same(old(f.memory), f.memory, old(f.reserved))
  {
    hide Stored, Filled, Placed, Conforms, Span, Honest, SizeOf, BlockSize, ElementAt;
    var elemSize: nat := SizeOf(elem);
    var listLen: nat := WrapU32(|vs|);
    var listSize := WrapU32(listLen * elemSize);
    if InMemory(elem) {
      MemSizeIsSizeOf(elem);
      if Fits(Val.List(vs), ListType(elem)) {
        ListSizes(vs, elem);
      }
    }
    if listSize == 0 {
      return Some([0, 0]);
    }
    if !f.hasMemory {
      return None;
    }
    ghost var mem0, reserved0 := f.memory, f.reserved;
    var block := f.Allocate(listSize);
    if block.None? {
      return None;
    }
    var ptr := block.value;
    if InMemory(elem) {
      ghost var mem1, reserved1 := f.memory, f.reserved;
      var ok := f.LowerElements(vs, elem, ptr);
      if Fits(Val.List(vs), ListType(elem)) {
        ListLowered(mem0, reserved0, mem1, f.memory, f.reserved, ptr, elem, vs, ok, !f.hasMemory || f.refused);
      }
      if !ok {
        return None;
      }
    } else {
      var written := host.writeOther(vs, elem, ptr, f.memory);
      if written.None? || !(|f.memory| <= |written.value| <= TWO_32) {
        return None;
      }
      f.memory := written.value;
    }
    r := Some([ptr, listLen]);
  }

  /** The guest is told the length of a list if and only if it is empty, or fits 32 bits and so counted takes up bytes. */
  lemma LengthKept(ws: seq<uint64>, vs: seq<Val>, elem: ValType)
    requires |ws| == 2 && Represents(ws, Val.List(vs), ListType(elem))
    ensures ws[1] == |vs| <==> vs == [] || (|vs| < TWO_32 && WrapU32(|vs| * SizeOf(elem)) != 0)
  {
    hide SizeOf;
    if |vs| < TWO_32 {
      assert WrapU32(|vs|) == |vs|;
    }
  }

  /** 2^29 values of eight bytes are 2^32 bytes: the list is passed as an empty one, and nothing is written. */
  method HugeListLost(f: ExportedFunc, host: Host, vs: seq<Val>) returns (r: Option<seq<uint64>>)
    requires f.Valid() && |vs| == 0x2000_0000
    modifies f
    ensures r == Some([0, 0]) && f.memory == old(f.memory)
  {
    r := LowerList(f, host, vs, Prim(PU64));
  }

  lemma MemSizeIsSizeOf(elem: MemType)
    ensures SizeOf(elem) == MemSize(elem)
  {
  }

  lemma ListSizes(vs: seq<Val>, elem: MemType)
    requires Fits(Val.List(vs), ListType(elem))
    ensures WrapU32(|vs|) == |vs| && WrapU32(|vs| * MemSize(elem)) == BlockSize(|vs|, elem)
    ensures BlockSize(|vs|, elem) == 0 ==> vs == []
  {
    LengthFits(|vs|, elem);
  }

  lemma ListLowered(mem0: Bytes, reserved0: set<nat>, mem1: Bytes, mem2: Bytes, reserved2: set<nat>,
                    ptr: uint32, elem: MemType, vs: seq<Val>, ok: bool, excused: bool)
    requires Fits(Val.List(vs), ListType(elem)) && ptr + BlockSize(|vs|, elem) <= |mem1|
    requires reserved0 !! Span(ptr, ptr + BlockSize(|vs|, elem)) && Same(mem0, mem1, reserved0)
    requires ElementsOutcome(mem1, reserved0 + Span(ptr, ptr + BlockSize(|vs|, elem)), mem2, reserved2, ptr, elem, vs, ok, excused)
    ensures Same(mem0, mem2, reserved0)
    ensures ok ==> StoredElements(mem2, reserved2 - reserved0, ptr, elem, vs)
    ensures !ok ==> excused || !Conforms(Val.List(vs), ListType(elem))
  {
    hide Stored, Span, BlockSize;
    var block := Span(ptr, ptr + BlockSize(|vs|, elem));
    BlockOnly(mem0, reserved0, mem1, mem2, block, {});
    assert reserved0 - {} == reserved0;
    if ok {
      assert vs[..|vs|] == vs;
      assert block + (reserved2 - (reserved0 + block)) == reserved2 - reserved0;
    }
  }

  lemma {:induction false} FieldsSnoc(ws: seq<uint64>, values: map<Bytes, Val>, fs: seq<Field>, more: seq<uint64>, f: Field)
    requires FieldsRepresent(ws, values, fs) && f.name in values && Represents(more, values[f.name], f.typ)
    ensures FieldsRepresent(ws + more, values, fs + [f])
    decreases |fs|
  {
    hide Represents, FlattenCount, Flatten;
    if fs == [] {
      RepresentsCount(more, values[f.name], f.typ);
      assert ws + more == more && more[..|more|] == more && more[|more|..] == [] && (fs + [f])[1..] == [];
    } else {
      var n := FlattenCount(fs[0].typ);
      FieldsSnoc(ws[n..], values, fs[1..], more, f);
      assert (ws + more)[..n] == ws[..n] && (ws + more)[n..] == ws[n..] + more && (fs + [f])[1..] == fs[1..] + [f];
    }
  }

  lemma {:induction false} TypesSnoc(ws: seq<uint64>, values: seq<Val>, ts: seq<ValType>, more: seq<uint64>, t: ValType)
    requires TypesRepresent(ws, values, ts) && |ts| < |values| && Represents(more, values[|ts|], t)
    ensures TypesRepresent(ws + more, values, ts + [t])
    decreases |ts|
  {
    hide Represents, FlattenCount, Flatten;
    if ts == [] {
      RepresentsCount(more, values[0], t);
      assert ws + more == more && more[..|more|] == more && more[|more|..] == [] && (ts + [t])[1..] == [];
    } else {
      var n := FlattenCount(ts[0]);
      TypesSnoc(ws[n..], values[1..], ts[1..], more, t);
      assert (ws + more)[..n] == ws[..n] && (ws + more)[n..] == ws[n..] + more && (ts + [t])[1..] == ts[1..] + [t];
    }
  }

  ghost predicate FieldsPlaced(mem: Bytes, blocks: set<nat>, mem': Bytes, blocks': set<nat>, ws: seq<uint64>, values: map<Bytes, Val>, fs: seq<Field>) {
    blocks <= blocks' && Same(mem, mem', blocks) && FieldsTextsAt(mem', blocks' - blocks, ws, values, fs)
  }

  lemma FieldsTextsNone(mem: Bytes, blocks: set<nat>, values: map<Bytes, Val>)
    ensures FieldsTextsAt(mem, blocks, [], values, [])
  {
  }

  lemma FieldsPlacedIs(mem: Bytes, blocks: set<nat>, mem': Bytes, blocks': set<nat>, ws: seq<uint64>, v: Val, fs: seq<Field>, i: nat)
    requires v.Record? && i <= |fs|
    requires Tame(v, RecordType(fs)) ==> FieldsPlaced(mem, blocks, mem', blocks', ws, v.fields, fs[..i])
    ensures TextsPlaced(mem, blocks, mem', blocks', None, v, RecordType(fs))
    ensures i == |fs| ==> TextsPlaced(mem, blocks, mem', blocks', Some(ws), v, RecordType(fs))
  {
    hide Same, Tame, FieldsTextsAt;
    if i == |fs| {
      assert fs[..i] == fs;
    }
  }

  lemma FieldPlacedNext(mem: Bytes, blocks: set<nat>, mem1: Bytes, blocks1: set<nat>, mem2: Bytes, blocks2: set<nat>,
                        ws: seq<uint64>, v: Val, fs: seq<Field>, i: nat, more: Option<seq<uint64>>)
    requires v.Record? && i < |fs| && fs[i].name in v.fields && Tame(v, RecordType(fs))
    requires FieldsRepresent(ws, v.fields, fs[..i]) && FieldsPlaced(mem, blocks, mem1, blocks1, ws, v.fields, fs[..i])
    requires TextsPlaced(mem1, blocks1, mem2, blocks2, more, v.fields[fs[i].name], fs[i].typ)
    requires more.Some? ==> Represents(more.value, v.fields[fs[i].name], fs[i].typ)
    ensures TextsPlaced(mem, blocks, mem2, blocks2, None, v, RecordType(fs))
    ensures more.Some? ==> FieldsPlaced(mem, blocks, mem2, blocks2, ws + more.value, v.fields, fs[..i + 1])
  {
    assert Tame(v.fields[fs[i].name], fs[i].typ);
    hide Same, Represents, FlattenCount, TextsAt, FieldsTextsAt, FieldsRepresent, Tame;
    PlacedThen(mem, blocks, mem1, blocks1, mem2, blocks2);
    if more.Some? {
      RepresentsCount(more.value, v.fields[fs[i].name], fs[i].typ);
      FieldsTextsStay(mem1, blocks1 - blocks, mem2, blocks2 - blocks, ws, v.fields, fs[..i]);
      SameRefl(mem2, blocks2 - blocks1);
      TextsStay(mem2, blocks2 - blocks1, mem2, blocks2 - blocks, more.value, v.fields[fs[i].name], fs[i].typ);
      FieldsTextsSnoc(mem2, blocks2 - blocks, ws, v.fields, fs[..i], more.value, fs[i]);
      assert fs[..i + 1] == fs[..i] + [fs[i]];
    }
  }

  method LowerRecord(f: ExportedFunc, host: Host, v: Val, fs: seq<Field>) returns (r: Option<seq<uint64>>)
    requires f.Valid() && v.Record?
    modifies f
    ensures f.Valid() && (old(f.refused) ==> f.refused)
    ensures r.None? ==> !Accepts(host, v, RecordType(fs)) || !f.hasMemory || f.refused
    ensures r.Some? ==> Represents(r.value, v, RecordType(fs))
    ensures TextsPlaced(old(f.memory), old(f.reserved), f.memory, f.reserved, r, v, RecordType(fs))
    decreases fs, 0
  {
    hide FieldsRepresent, FieldsTextsAt, Same, TextsAt;
    var values := v.fields;
    var flat: seq<uint64> := [];
    FieldsNone(values);
    ghost var mem0, blocks0 := f.memory, f.reserved;
    SameRefl(mem0, blocks0);
    FieldsTextsNone(mem0, blocks0 - blocks0, values);
    for i := 0 to |fs|
      invariant f.Valid() && (old(f.refused) ==> f.refused) && FieldsRepresent(flat, values, fs[..i])
      invariant Tame(v, RecordType(fs)) ==> FieldsPlaced(mem0, blocks0, f.memory, f.reserved, flat, values, fs[..i])
    {
      hide FieldsPlaced;
      if fs[i].name !in values {
        FieldsPlacedIs(mem0, blocks0, f.memory, f.reserved, flat, v, fs, i);
        return None;
      }
      ghost var mem1, blocks1 := f.memory, f.reserved;
      var more := LowerTyped(f, host, values[fs[i].name], fs[i].typ);
      if Tame(v, RecordType(fs)) {
        FieldPlacedNext(mem0, blocks0, mem1, blocks1, f.memory, f.reserved, flat, v, fs, i, more);
      }
      if more.None? {
        return None;
      }
      FieldsSnoc(flat, values, fs[..i], more.value, fs[i]);
      assert fs[..i + 1] == fs[..i] + [fs[i]];
      flat := flat + more.value;
    }
    assert fs[..|fs|] == fs;
    FieldsPlacedIs(mem0, blocks0, f.memory, f.reserved, flat, v, fs, |fs|);
    r := Some(flat);
  }

  lemma FieldsNone(values: map<Bytes, Val>)
    ensures FieldsRepresent([], values, [])
  {
  }

  method LowerTuple(f: ExportedFunc, host: Host, v: Val, ts: seq<ValType>) returns (r: Option<seq<uint64>>)
    requires f.Valid() && v.Tuple?
    modifies f
    ensures f.Valid() && (old(f.refused) ==> f.refused)
    ensures r.None? ==> !Accepts(host, v, TupleType(ts)) || !f.hasMemory || f.refused
    ensures r.Some? ==> Represents(r.value, v, TupleType(ts))
    ensures TextsPlaced(old(f.memory), old(f.reserved), f.memory, f.reserved, r, v, TupleType(ts))
    decreases ts, 0
  {
    hide TypesRepresent, Same;
    var values := v.items;
    var flat: seq<uint64> := [];
    TypesNone(values);
    ghost var mem0, blocks0 := f.memory, f.reserved;
    SameRefl(mem0, blocks0);
    for i := 0 to |ts|
      invariant f.Valid() && (old(f.refused) ==> f.refused) && i <= |values| && TypesRepresent(flat, values, ts[..i])
      invariant Tame(v, TupleType(ts)) ==> blocks0 <= f.reserved && Same(mem0, f.memory, blocks0)
    {
      if i >= |values| {
        return None;
      }
      ghost var mem1, blocks1 := f.memory, f.reserved;
      var more := LowerTyped(f, host, values[i], ts[i]);
      if Tame(v, TupleType(ts)) {
        PlacedThen(mem0, blocks0, mem1, blocks1, f.memory, f.reserved);
      }
      if more.None? {
        return None;
      }
      TypesSnoc(flat, values, ts[..i], more.value, ts[i]);
      assert ts[..i + 1] == ts[..i] + [ts[i]];
      flat := flat + more.value;
    }
    assert ts[..|ts|] == ts;
    r := Some(flat);
  }

  lemma TypesNone(values: seq<Val>)
    ensures TypesRepresent([], values, [])
  {
  }

  /** A discriminant, the payload if there is one, and padding to the width of the widest case. */
  method LowerCase(f: ExportedFunc, host: Host, disc: nat, typ: Option<ValType>, payload: Option<Val>, width: nat)
    returns (r: Option<seq<uint64>>)
    requires f.Valid()
    requires typ.Some? ==> FlattenCount(typ.value) <= width
    modifies f
    ensures f.Valid() && (old(f.refused) ==> f.refused)
    ensures r.None? ==> !CaseAccepts(host, typ, payload) || !f.hasMemory || f.refused
    ensures r.Some? ==> CaseRepresents(r.value, disc, typ, payload, width)
    ensures CasePlaced(old(f.memory), old(f.reserved), f.memory, f.reserved, r, typ, payload)
    decreases typ, 2
  {
    hide Represents, FlattenCount, Accepts, Same, TextsAt, Tame;
    var flat: seq<uint64> := [disc % TWO_64];
    SameRefl(f.memory, f.reserved);
    if typ.Some? && payload.Some? {
      var more := LowerTyped(f, host, payload.value, typ.value);
      if more.None? {
        return None;
      }
      RepresentsCount(more.value, payload.value, typ.value);
      flat := flat + more.value;
    }
    ghost var unpadded := flat;
    while |flat| < 1 + width
      invariant |unpadded| <= |flat| <= 1 + width
      invariant flat[..|unpadded|] == unpadded && Zeros(flat[|unpadded|..])
    {
      flat := flat + [0];
    }
    if typ.Some? && payload.Some? {
      assert flat[1..1 + FlattenCount(typ.value)] == unpadded[1..];
    }
    r := Some(flat);
  }

  method LowerFlags(v: Val, names: seq<Bytes>) returns (ws: seq<uint64>)
    requires v.Flags?
    ensures Represents(ws, v, FlagsType(names))
  {
    hide Bit, SetBit, Pow2;
    var numWords := FlagWords(|names|);
    if numWords == 0 {
      return [];
    }
    ws := seq(numWords, _ => 0);
    forall i | 0 <= i < |names| ensures !Bit(0, i % 32) {
      ZeroBits(i % 32);
    }
    for i := 0 to |names|
      invariant |ws| == numWords
      invariant forall k :: 0 <= k < numWords ==> ws[k] < TWO_32
      invariant forall k :: 0 <= k < |names| ==> Bit(ws[k / 32], k % 32) == (k < i && FlagSet(v, names[k]))
    {
      if FlagSet(v, names[i]) {
        ghost var before := ws;
        Pow2Of32();
        SetBitBelow(ws[i / 32], i % 32, 32);
        ws := ws[i / 32 := SetBit(ws[i / 32], i % 32)];
        forall k | 0 <= k < |names| ensures Bit(ws[k / 32], k % 32) == (k < i + 1 && FlagSet(v, names[k])) {
          if k / 32 == i / 32 {
            SetBitIs(before[i / 32], i % 32, k % 32);
          }
        }
      }
    }
  }

  method FindName(names: seq<Bytes>, name: Bytes) returns (i: nat)
    ensures i == FirstIndex(names, name)
  {
    for k := 0 to |names|
      invariant forall j :: 0 <= j < k ==> names[j] != name
    {
      if names[k] == name {
        return k;
      }
    }
    i := |names|;
  }

  /** The largest payload over the cases. */
  method WidestPayload(cs: seq<Case>) returns (max: nat)
    ensures max == CasesCount(cs)
    ensures forall i :: 0 <= i < |cs| && cs[i].typ.Some? ==> FlattenCount(cs[i].typ.value) <= max
  {
    hide FlattenCount;
    max := 0;
    for i := 0 to |cs|
      invariant max == CasesCount(cs[..i])
      invariant forall j :: 0 <= j < i && cs[j].typ.Some? ==> FlattenCount(cs[j].typ.value) <= max
    {
      CasesCountSnoc(cs[..i], cs[i]);
      assert cs[..i + 1] == cs[..i] + [cs[i]];
      if cs[i].typ.Some? {
        var n := FlattenCount(cs[i].typ.value);
        if n > max {
          max := n;
        }
      }
    }
    assert cs[..|cs|] == cs;
  }

  lemma {:induction false} CasesCountSnoc(cs: seq<Case>, c: Case)
    ensures CasesCount(cs + [c]) == Max(CasesCount(cs), if c.typ.Some? then FlattenCount(c.typ.value) else 0)
    decreases |cs|
  {
    if cs != [] {
      CasesCountSnoc(cs[1..], c);
      assert (cs + [c])[1..] == cs[1..] + [c];
    } else {
      assert cs + [c] == [c];
    }
  }

  method LowerPrim(f: ExportedFunc, host: Host, v: Val, k: PrimKind) returns (r: Option<seq<uint64>>)
    requires f.Valid()
    modifies f
    ensures f.Valid() && (old(f.refused) ==> f.refused)
    ensures r.None? ==> !Accepts(host, v, Prim(k)) || !f.hasMemory || f.refused
    ensures r.Some? ==> Represents(r.value, v, Prim(k))
    ensures TextsPlaced(old(f.memory), old(f.reserved), f.memory, f.reserved, r, v, Prim(k))
  {
    hide FlatBits, Same, Span, WrapU32, Represents, Accepts, TextsPlaced;
    PrimAccepts(host, v, k);
    r := None;
    if k != PString {
      var bits := FlatBits(k, v);
      r := if bits.None? then None else Some([bits.value]);
      NothingPlaced(f.memory, f.reserved, r, v, Prim(k));
    } else if v.String? {
      var pair := f.LowerString(v.text);
      r := if pair.None? then None else Some([pair.value.0, pair.value.1]);
      StringPlacedIn(old(f.memory), old(f.reserved), f.memory, f.reserved, pair, v.text);
    } else {
      NothingPlaced(f.memory, f.reserved, None, v, Prim(k));
    }
    if r.Some? {
      PrimRepresents(r.value, v, k);
    }
  }

  lemma PrimRepresents(ws: seq<uint64>, v: Val, k: PrimKind)
    ensures Represents(ws, v, Prim(k)) <==>
      if k == PString then v.String? && |ws| == 2 && ws[1] == WrapU32(|v.text|) else |ws| == 1 && FlatBits(k, v) == Some(ws[0])
  {
  }

  lemma PrimAccepts(host: Host, v: Val, k: PrimKind)
    ensures Accepts(host, v, Prim(k)) <==> if k == PString then v.String? && |v.text| < TWO_32 else FlatBits(k, v).Some?
  {
  }

  /** The index of a new handle is whatever the resource table gives. */
  method LowerHandle(host: Host, v: Val, t: ValType) returns (r: Option<seq<uint64>>)
    requires t.OwnType? || t.BorrowType?
    ensures r.Some? ==> Represents(r.value, v, t)
    ensures r.None? ==> !Accepts(host, v, t)
  {
    if !host.hasTable || (t.OwnType? && !v.Own?) || (t.BorrowType? && !v.Borrow?) {
      return None;
    }
    var index: uint64 :| 0 <= index < TWO_32;
    r := Some([index]);
  }

  method LowerVariant(f: ExportedFunc, host: Host, v: Val, cs: seq<Case>) returns (r: Option<seq<uint64>>)
    requires f.Valid()
    modifies f
    ensures f.Valid() && (old(f.refused) ==> f.refused)
    ensures r.None? ==> !Accepts(host, v, VariantType(cs)) || !f.hasMemory || f.refused
    ensures r.Some? ==> Represents(r.value, v, VariantType(cs))
    ensures TextsPlaced(old(f.memory), old(f.reserved), f.memory, f.reserved, r, v, VariantType(cs))
    decreases cs, 0
  {
    hide CaseRepresents, CaseAccepts, CaseChoice, FlattenCount, TextsPlaced, CasePlaced;
    NothingPlaced(f.memory, f.reserved, None, v, VariantType(cs));
    var choice := CaseChoice(v);
    if choice.None? {
      return None;
    }
    var i := FindName(CaseNames(cs), choice.value.0);
    if i == |cs| {
      return None;
    }
    var max := WidestPayload(cs);
    r := LowerCase(f, host, i, cs[i].typ, choice.value.1, max);
    VariantPlaced(old(f.memory), old(f.reserved), f.memory, f.reserved, r, v, cs);
  }

  method LowerEnum(v: Val, labels: seq<Bytes>) returns (r: Option<seq<uint64>>)
    ensures r.Some? ==> Represents(r.value, v, EnumType(labels))
    ensures r.None? <==> EnumChoice(v).None? || EnumChoice(v).value !in labels
  {
    var choice := EnumChoice(v);
    if choice.None? {
      return None;
    }
    var i := FindName(labels, choice.value);
    r := if i == |labels| then None else Some([i % TWO_64]);
  }

  method LowerOption(f: ExportedFunc, host: Host, v: Val, some: ValType) returns (r: Option<seq<uint64>>)
    requires f.Valid()
    modifies f
    ensures f.Valid() && (old(f.refused) ==> f.refused)
    ensures r.None? ==> !Accepts(host, v, OptionType(some)) || !f.hasMemory || f.refused
    ensures r.Some? ==> Represents(r.value, v, OptionType(some))
    ensures OptionChoice(v).None? ==> r.Some?
    ensures TextsPlaced(old(f.memory), old(f.reserved), f.memory, f.reserved, r, v, OptionType(some))
    decreases some, 3
  {
    hide FlattenCount, Flatten, Represents, Accepts, OptionChoice, TextsPlaced;
    OptionAccepts(host, v, some);
    var choice := OptionChoice(v);
    if choice.None? {
      r := Some(seq(1 + FlattenCount(some), _ => 0));
      NothingPlaced(f.memory, f.reserved, r, v, OptionType(some));
    } else {
      var payload := LowerTyped(f, host, choice.value, some);
      OptionPlaced(old(f.memory), old(f.reserved), f.memory, f.reserved, payload, v, some);
      if payload.None? {
        return None;
      }
      r := Some([1] + payload.value);
      assert r.value[1..] == payload.value;
    }
    OptionRepresents(r.value, v, some);
  }

  /** A scalar's word is its number: sign-extended for a char, otherwise in two's complement of its own width. */
  lemma FlatBitsAre(k: PrimKind, v: Val)
    requires k != PString && KindOf(v) == Some(k)
    ensures FlatBits(k, v) == Some(NumberOf(v) % if k == PChar then TWO_64 else Pow256(ScalarSize(k)))
  {
    hide FromInt64, Pow256, ScalarBits, ScalarSize;
    ScalarBitsAre(k, v);
    if k == PChar {
      UnsignedIs(0, 0, 0, v.rune);
    }
  }

  /** A string stands for an enum, a record with a case and a payload for a variant. */
  lemma CaseCoercions(ws: seq<uint64>, name: Bytes, fields: map<Bytes, Val>, labels: seq<Bytes>, cs: seq<Case>)
    ensures Represents(ws, Val.String(name), EnumType(labels)) <==> Represents(ws, Val.Enum(name), EnumType(labels))
    ensures CASE_NAME in fields && fields[CASE_NAME] == Val.String(name) ==>
      (Represents(ws, Val.Record(fields), VariantType(cs)) <==>
       Represents(ws, Val.Variant(name, if PAYLOAD_NAME in fields then Some(fields[PAYLOAD_NAME]) else None), VariantType(cs)))
    ensures CASE_NAME !in fields ==> !Represents(ws, Val.Record(fields), VariantType(cs))
  {
  }

  /** Nothing stands for an absent option, and a value that is not an option for itself, present. */
  lemma OptionCoercions(ws: seq<uint64>, v: Val, some: ValType)
    requires !v.Optional?
    ensures Represents(ws, v, OptionType(some)) <==> Represents(ws, Val.Optional(if v.Nil? then None else Some(v)), OptionType(some))
  {
    hide Represents;
    OptionRepresents(ws, v, some);
    OptionRepresents(ws, Val.Optional(if v.Nil? then None else Some(v)), some);
  }

  /** A result is lowered as the variant it is sugar for. */
  lemma ResultAsVariant(ws: seq<uint64>, v: Val, ok: Option<ValType>, error: Option<ValType>)
    requires v.ResultOf?
    ensures Represents(ws, v, ResultType(ok, error)) <==>
      Represents(ws, if v.isOk then Val.Variant(OK_NAME, v.ok) else Val.Variant(ERROR_NAME, v.err), VariantType(ResultCases(ok, error)))
  {
    var cs := ResultCases(ok, error);
    var names := CaseNames(cs);
    assert cs[1..] == [cs[1]] && cs[1..][1..] == [] && names == [OK_NAME, ERROR_NAME];
    assert CasesCount(cs[1..]) == if error.Some? then FlattenCount(error.value) else 0;
    assert CasesCount(cs) == FlattenCount(ResultType(ok, error)) - 1;
    assert FirstIndex(names, OK_NAME) == 0 && FirstIndex(names, ERROR_NAME) == 1;
  }

  lemma OptionCase(ws: seq<uint64>, payload: Option<Val>, some: ValType)
    ensures Represents(ws, Val.Variant(if payload.Some? then SOME_NAME else NONE_NAME, payload), VariantType(OptionCases(some))) <==>
      if payload.Some? then CaseRepresents(ws, 1, Some(some), payload, FlattenCount(some)) else CaseRepresents(ws, 0, None, None, FlattenCount(some))
  {
    hide CaseRepresents;
    var cs := OptionCases(some);
    var names := CaseNames(cs);
    assert cs[1..] == [cs[1]] && cs[1..][1..] == [] && names == [NONE_NAME, SOME_NAME];
    assert CasesCount(cs[1..]) == FlattenCount(some) == CasesCount(cs);
    assert FirstIndex(names, NONE_NAME) == 0 && FirstIndex(names, SOME_NAME) == 1;
  }

  /** An option is lowered as the variant it is sugar for. */
  lemma OptionAsVariant(ws: seq<uint64>, v: Val, some: ValType)
    requires v.Optional?
    ensures Represents(ws, v, OptionType(some)) <==>
      Represents(ws, Val.Variant(if v.some.Some? then SOME_NAME else NONE_NAME, v.some), VariantType(OptionCases(some)))
  {
    hide Represents, FlattenCount;
    OptionRepresents(ws, v, some);
    OptionCase(ws, v.some, some);
    if v.some.Some? && ws != [] {
      var n := FlattenCount(some);
      if Represents(ws[1..], v.some.value, some) {
        RepresentsCount(ws[1..], v.some.value, some);
      }
      assert |ws| == 1 + n ==> ws[1..1 + n] == ws[1..];
    }
  }

  lemma OptionRepresents(ws: seq<uint64>, v: Val, some: ValType)
    ensures Represents(ws, v, OptionType(some)) <==>
      var choice := OptionChoice(v);
      if choice.None? then |ws| == 1 + FlattenCount(some) && Zeros(ws)
      else |ws| >= 1 && ws[0] == 1 && Represents(ws[1..], choice.value, some)
  {
  }

  lemma OptionAccepts(host: Host, v: Val, some: ValType)
    ensures Accepts(host, v, OptionType(some)) <==> OptionChoice(v).None? || Accepts(host, OptionChoice(v).value, some)
  {
  }

  method LowerResult(f: ExportedFunc, host: Host, v: Val, ok: Option<ValType>, error: Option<ValType>) returns (r: Option<seq<uint64>>)
    requires f.Valid() && v.ResultOf?
    modifies f
    ensures f.Valid() && (old(f.refused) ==> f.refused)
    ensures r.None? ==> !Accepts(host, v, ResultType(ok, error)) || !f.hasMemory || f.refused
    ensures r.Some? ==> Represents(r.value, v, ResultType(ok, error))
    ensures TextsPlaced(old(f.memory), old(f.reserved), f.memory, f.reserved, r, v, ResultType(ok, error))
    decreases ResultType(ok, error), 0
  {
    hide CaseRepresents, CaseAccepts, CasePlaced, TextsPlaced;
    var max := 0;
    if ok.Some? && FlattenCount(ok.value) > max {
      max := FlattenCount(ok.value);
    }
    if error.Some? && FlattenCount(error.value) > max {
      max := FlattenCount(error.value);
    }
    assert max == FlattenCount(ResultType(ok, error)) - 1;
    if v.isOk {
      r := LowerCase(f, host, 0, ok, v.ok, max);
    } else {
      r := LowerCase(f, host, 1, error, v.err, max);
    }
    ResultPlaced(old(f.memory), old(f.reserved), f.memory, f.reserved, r, v, ok, error);
  }

  /** The kinds that need no memory. */
  method LowerWords(host: Host, v: Val, t: ValType) returns (r: Option<seq<uint64>>)
    requires t.EnumType? || t.FlagsType? || t.OwnType? || t.BorrowType?
    ensures r.Some? ==> Represents(r.value, v, t)
    ensures r.None? ==> !Accepts(host, v, t)
  {
    hide Represents;
    r := None;
    match t {
      case EnumType(labels) => r := LowerEnum(v, labels);
      case FlagsType(names) =>
        if v.Flags? {
          var ws := LowerFlags(v, names);
          r := Some(ws);
        }
      case _ => r := LowerHandle(host, v, t);
    }
  }

  /** The core words of v as a t, or None for an error or a value of another kind. */
  method LowerTyped(f: ExportedFunc, host: Host, v: Val, t: ValType) returns (r: Option<seq<uint64>>)
    requires f.Valid()
    modifies f
    ensures f.Valid() && (old(f.refused) ==> f.refused)
    ensures r.None? ==> !Accepts(host, v, t) || !f.hasMemory || f.refused
    ensures r.Some? ==> Represents(r.value, v, t) && |r.value| == |Flatten(t)|
    ensures TextsPlaced(old(f.memory), old(f.reserved), f.memory, f.reserved, r, v, t)
    decreases t, 1
  {
    hide Flatten, FlattenCount, FlatBits, Represents, FieldsAccept, TypesAccept, CaseAccepts, Fits, Conforms, TextsPlaced;
    r := None;
    NothingPlaced(f.memory, f.reserved, None, v, t);
    match t {
      case Prim(k) => r := LowerPrim(f, host, v, k);
      case ListType(elem) =>
        if v.List? {
          r := LowerList(f, host, v.elems, elem);
          ListsNotTame(old(f.memory), old(f.reserved), f.memory, f.reserved, r, v, elem);
        }
      case RecordType(fs) =>
        if v.Record? {
          r := LowerRecord(f, host, v, fs);
        }
      case TupleType(ts) =>
        if v.Tuple? {
          r := LowerTuple(f, host, v, ts);
        }
      case VariantType(cs) => r := LowerVariant(f, host, v, cs);
      case OptionType(some) => r := LowerOption(f, host, v, some);
      case ResultType(ok, error) =>
        if v.ResultOf? {
          r := LowerResult(f, host, v, ok, error);
        }
      case _ =>
        r := LowerWords(host, v, t);
        NothingPlaced(f.memory, f.reserved, r, v, t);
    }
    if r.Some? {
      RepresentsCount(r.value, v, t);
    }
  }

  lemma ListsNotTame(mem: Bytes, blocks: set<nat>, mem': Bytes, blocks': set<nat>, r: Option<seq<uint64>>, v: Val, elem: ValType)
    ensures TextsPlaced(mem, blocks, mem', blocks', r, v, ListType(elem))
  {
  }
}
