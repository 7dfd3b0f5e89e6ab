// Flattening of component types to core wasm types.

module Flattening {
  import opened Words
  import opened Wrappers
  import opened Values
  import opened Types

  /** Core value types; NoType is the zero value a freshly extended slot holds. */
  datatype CoreType = NoType | I32 | F32 | I64 | F64

  function Width(t: CoreType): nat {
    match t
    case NoType => 0
    case I32 => 1
    case F32 => 2
    case I64 => 3
    case F64 => 4
  }

  function Wider(a: CoreType, b: CoreType): CoreType {
    if Width(a) > Width(b) then a else b
  }

  // ----- specification -----

  function FlattenPrim(k: PrimKind): seq<CoreType> {
    match k
    case PString => [I32, I32]
    case PS64 => [I64]
    case PU64 => [I64]
    case PF32 => [CoreType.F32]
    case PF64 => [CoreType.F64]
    case _ => [I32]
  }

  function Flatten(t: ValType): seq<CoreType>
    decreases t, 1
  {
    match t
    case Prim(k) => FlattenPrim(k)
    case ListType(_) => [I32, I32]
    case RecordType(fs) => FlattenFields(fs)
    case TupleType(ts) => FlattenTypes(ts)
    case VariantType(cs) => [I32] + Joined(CaseFlats(cs))
    case EnumType(_) => [I32]
    case OptionType(some) => [I32] + Flatten(some)
    case ResultType(ok, error) => [I32] + Joined([OptionalFlat(ok), OptionalFlat(error)])
    case FlagsType(names) => seq(FlagWords(|names|), _ => I32)
    case OwnType(_) => [I32]
    case BorrowType(_) => [I32]
  }

  function OptionalFlat(t: Option<ValType>): seq<CoreType>
    decreases t, 2
  {
    if t.Some? then Flatten(t.value) else []
  }

  function FlattenFields(fs: seq<Field>): seq<CoreType>
    decreases fs, 0
  {
    if fs == [] then [] else Flatten(fs[0].typ) + FlattenFields(fs[1..])
  }

  function FlattenTypes(ts: seq<ValType>): seq<CoreType>
    decreases ts, 0
  {
    if ts == [] then [] else Flatten(ts[0]) + FlattenTypes(ts[1..])
  }

  /** One flattening per case; a case without payload contributes nothing. */
  function CaseFlats(cs: seq<Case>): (fs: seq<seq<CoreType>>)
    ensures |fs| == |cs|
    decreases cs, 0
  {
    if cs == [] then [] else [OptionalFlat(cs[0].typ)] + CaseFlats(cs[1..])
  }

  function Longest(flats: seq<seq<CoreType>>): nat {
    if flats == [] then 0 else Max(|flats[0]|, Longest(flats[1..]))
  }

  /** The widest type any of the flattenings has in slot i. */
  function WidestAt(flats: seq<seq<CoreType>>, i: nat): CoreType {
    if flats == [] then NoType
    else Wider(if i < |flats[0]| then flats[0][i] else NoType, WidestAt(flats[1..], i))
  }

  /** The pointwise join: as long as the longest flattening, each slot as wide as the widest. */
  function Joined(flats: seq<seq<CoreType>>): (j: seq<CoreType>)
    ensures |j| == Longest(flats)
    ensures forall i :: 0 <= i < |j| ==> j[i] == WidestAt(flats, i)
  {
    seq(Longest(flats), i requires 0 <= i => WidestAt(flats, i))
  }

  // ----- every type in a slot is the widest over all cases -----

  lemma {:induction false} LongestIs(flats: seq<seq<CoreType>>, f: seq<CoreType>)
    requires f in flats
    ensures |f| <= Longest(flats)
  {
    if f != flats[0] {
      LongestIs(flats[1..], f);
    }
  }

  lemma {:induction false} LongestAttained(flats: seq<seq<CoreType>>) returns (f: seq<CoreType>)
    requires Longest(flats) > 0
    ensures f in flats && |f| == Longest(flats)
  {
    if |flats[0]| == Longest(flats) {
      f := flats[0];
    } else {
      f := LongestAttained(flats[1..]);
    }
  }

  lemma {:induction false} WidestIs(flats: seq<seq<CoreType>>, f: seq<CoreType>, i: nat)
    requires f in flats && i < |f|
    ensures Width(f[i]) <= Width(WidestAt(flats, i))
  {
    if f != flats[0] {
      WidestIs(flats[1..], f, i);
    }
  }

  lemma {:induction false} WidestAttained(flats: seq<seq<CoreType>>, i: nat) returns (f: seq<CoreType>)
    requires WidestAt(flats, i) != NoType
    ensures f in flats && i < |f| && f[i] == WidestAt(flats, i)
  {
    if i < |flats[0]| && flats[0][i] == WidestAt(flats, i) {
      f := flats[0];
    } else {
      f := WidestAttained(flats[1..], i);
    }
  }

  ghost predicate SameElements<T(!new)>(a: seq<T>, b: seq<T>) {
    forall x :: x in a <==> x in b
  }

  lemma LongestSame(a: seq<seq<CoreType>>, b: seq<seq<CoreType>>)
    requires SameElements(a, b)
    ensures Longest(a) <= Longest(b)
  {
    if Longest(a) > 0 {
      var f := LongestAttained(a);
      LongestIs(b, f);
    }
  }

  lemma WidestSame(a: seq<seq<CoreType>>, b: seq<seq<CoreType>>, i: nat)
    requires SameElements(a, b)
    ensures Width(WidestAt(a, i)) <= Width(WidestAt(b, i))
  {
    if WidestAt(a, i) != NoType {
      var f := WidestAttained(a, i);
      WidestIs(b, f, i);
    }
  }

  /** The join depends only on which flattenings occur, not on their order or number. */
  lemma JoinedSame(a: seq<seq<CoreType>>, b: seq<seq<CoreType>>)
    requires SameElements(a, b)
    ensures Joined(a) == Joined(b)
  {
    LongestSame(a, b);
    LongestSame(b, a);
    forall i | 0 <= i < Longest(a) ensures WidestAt(a, i) == WidestAt(b, i) {
      WidestSame(a, b, i);
      WidestSame(b, a, i);
    }
  }

  lemma {:induction false} CaseFlatsElements(cs: seq<Case>, f: seq<CoreType>)
    ensures f in CaseFlats(cs) <==> exists c :: c in cs && f == OptionalFlat(c.typ)
  {
    if cs != [] {
      assert cs == [cs[0]] + cs[1..];
      CaseFlatsElements(cs[1..], f);
    }
  }

  /** Flattening a variant does not depend on the order of its cases. */
  lemma VariantOrderIrrelevant(cs: seq<Case>, cs': seq<Case>)
    requires multiset(cs) == multiset(cs')
    ensures Flatten(VariantType(cs)) == Flatten(VariantType(cs'))
  {
    forall f ensures f in CaseFlats(cs) <==> f in CaseFlats(cs') {
      CaseFlatsElements(cs, f);
      CaseFlatsElements(cs', f);
      assert forall c :: c in cs <==> c in multiset(cs);
      assert forall c :: c in cs' <==> c in multiset(cs');
    }
    JoinedSame(CaseFlats(cs), CaseFlats(cs'));
  }

  lemma NoCaseWider(cs: seq<Case>, c: Case, i: nat)
    requires c in cs && i < |OptionalFlat(c.typ)|
    ensures i + 1 < |Flatten(VariantType(cs))|
    ensures Width(OptionalFlat(c.typ)[i]) <= Width(Flatten(VariantType(cs))[i + 1])
  {
    CaseFlatsElements(cs, OptionalFlat(c.typ));
    LongestIs(CaseFlats(cs), OptionalFlat(c.typ));
    WidestIs(CaseFlats(cs), OptionalFlat(c.typ), i);
  }

  lemma SomeCaseAsWide(cs: seq<Case>, i: nat) returns (c: Case)
    requires i + 1 < |Flatten(VariantType(cs))|
    ensures c in cs && i < |OptionalFlat(c.typ)| && OptionalFlat(c.typ)[i] == Flatten(VariantType(cs))[i + 1]
  {
    hide Flatten;
    var flats := CaseFlats(cs);
    FlattenTyped(VariantType(cs), i + 1);
    assert Flatten(VariantType(cs)) == [I32] + Joined(flats) by { VariantFlat(cs); }
    var f := WidestAttained(flats, i);
    CaseFlatsElements(cs, f);
    c :| c in cs && f == OptionalFlat(c.typ);
  }

  lemma VariantFlat(cs: seq<Case>)
    ensures Flatten(VariantType(cs)) == [I32] + Joined(CaseFlats(cs))
  {
  }

  /** Each payload slot of a variant holds a type some case puts there, and no case puts a wider one. */
  lemma VariantSlotIsWidest(cs: seq<Case>, i: nat)
    requires i + 1 < |Flatten(VariantType(cs))|
    ensures forall c :: c in cs && i < |OptionalFlat(c.typ)| ==>
      Width(OptionalFlat(c.typ)[i]) <= Width(Flatten(VariantType(cs))[i + 1])
    ensures exists c :: c in cs && i < |OptionalFlat(c.typ)| && OptionalFlat(c.typ)[i] == Flatten(VariantType(cs))[i + 1]
  {
    hide Flatten;
    forall c | c in cs && i < |OptionalFlat(c.typ)|
      ensures Width(OptionalFlat(c.typ)[i]) <= Width(Flatten(VariantType(cs))[i + 1])
    {
      NoCaseWider(cs, c, i);
    }
    var c := SomeCaseAsWide(cs, i);
  }

  // ----- flattenings only hold real types -----

  lemma {:induction false} JoinedTyped(flats: seq<seq<CoreType>>, i: nat)
    requires i < Longest(flats)
    requires forall f, k :: f in flats && 0 <= k < |f| ==> f[k] != NoType
    ensures Joined(flats)[i] != NoType
  {
    var f := LongestAttained(flats);
    WidestIs(flats, f, i);
  }

  lemma {:induction false} FlattenTyped(t: ValType, i: nat)
    requires i < |Flatten(t)|
    ensures Flatten(t)[i] != NoType
    decreases t, 1
  {
    match t
    case Prim(k) =>
    case ListType(_) =>
    case RecordType(fs) => FieldsTyped(fs, i);
    case TupleType(ts) => TypesTyped(ts, i);
    case VariantType(cs) =>
      if i > 0 {
        forall f, k | f in CaseFlats(cs) && 0 <= k < |f| ensures f[k] != NoType {
          CasesTyped(cs, f, k);
        }
        JoinedTyped(CaseFlats(cs), i - 1);
      }
    case EnumType(_) =>
    case OptionType(some) =>
      if i > 0 {
        FlattenTyped(some, i - 1);
      }
    case ResultType(ok, error) =>
      if i > 0 {
        var flats := [OptionalFlat(ok), OptionalFlat(error)];
        forall f, k | f in flats && 0 <= k < |f| ensures f[k] != NoType {
          OptionalFlatTyped(if f == OptionalFlat(ok) then ok else error, k);
        }
        JoinedTyped(flats, i - 1);
      }
    case FlagsType(names) =>
    case OwnType(_) =>
    case BorrowType(_) =>
  }

  lemma {:induction false} OptionalFlatTyped(t: Option<ValType>, i: nat)
    requires i < |OptionalFlat(t)|
    ensures OptionalFlat(t)[i] != NoType
    decreases t, 2
  {
    FlattenTyped(t.value, i);
  }

  lemma {:induction false} FieldsTyped(fs: seq<Field>, i: nat)
    requires i < |FlattenFields(fs)|
    ensures FlattenFields(fs)[i] != NoType
    decreases fs, 0
  {
    var n := |Flatten(fs[0].typ)|;
    if i < n {
      FlattenTyped(fs[0].typ, i);
    } else {
      FieldsTyped(fs[1..], i - n);
    }
  }

  lemma {:induction false} TypesTyped(ts: seq<ValType>, i: nat)
    requires i < |FlattenTypes(ts)|
    ensures FlattenTypes(ts)[i] != NoType
    decreases ts, 0
  {
    var n := |Flatten(ts[0])|;
    if i < n {
      FlattenTyped(ts[0], i);
    } else {
      TypesTyped(ts[1..], i - n);
    }
  }

  lemma {:induction false} CasesTyped(cs: seq<Case>, f: seq<CoreType>, i: nat)
    requires f in CaseFlats(cs) && i < |f|
    ensures f[i] != NoType
    decreases cs, 0
  {
    if f == OptionalFlat(cs[0].typ) {
      OptionalFlatTyped(cs[0].typ, i);
    } else {
      CasesTyped(cs[1..], f, i);
    }
  }

  // ----- sugar -----

  lemma OptionIsVariant(some: ValType)
    ensures Flatten(OptionType(some)) == Flatten(VariantType(OptionCases(some)))
  {
    var cs := OptionCases(some);
    assert cs[1..] == [cs[1]] && cs[1..][1..] == [];
    assert CaseFlats(cs[1..]) == [Flatten(some)] by {
      assert CaseFlats(cs[1..]) == [OptionalFlat(cs[1].typ)] + CaseFlats(cs[1..][1..]);
    }
    assert CaseFlats(cs) == [[], Flatten(some)];
    JoinedWithEmpty(Flatten(some));
  }

  lemma JoinedWithEmpty(f: seq<CoreType>)
    ensures Joined([[], f]) == f
  {
    var flats := [[], f];
    assert flats[1..] == [f] && flats[1..][1..] == [];
    assert Longest(flats[1..]) == |f|;
    forall i | 0 <= i < |f| ensures WidestAt(flats, i) == f[i] {
      assert WidestAt(flats[1..], i) == Wider(f[i], WidestAt(flats[1..][1..], i));
    }
  }

  lemma ResultIsVariant(ok: Option<ValType>, error: Option<ValType>)
    ensures Flatten(ResultType(ok, error)) == Flatten(VariantType(ResultCases(ok, error)))
  {
    var cs := ResultCases(ok, error);
    assert cs[1..] == [cs[1]] && cs[1..][1..] == [];
    assert CaseFlats(cs) == [OptionalFlat(ok), OptionalFlat(error)];
  }

  // ----- flat counts agree -----

  /** The declared flat count of a type is the length of its flattening. */
  lemma {:induction false} FlattenCountIsLength(t: ValType)
    ensures FlattenCount(t) == |Flatten(t)|
    decreases t, 1
  {
    match t
    case Prim(k) =>
    case ListType(_) =>
    case RecordType(fs) => FieldsCountIsLength(fs);
    case TupleType(ts) => TypesCountIsLength(ts);
    case VariantType(cs) => CasesCountIsLongest(cs);
    case EnumType(_) =>
    case OptionType(some) => FlattenCountIsLength(some);
    case ResultType(ok, error) =>
      var flats := [OptionalFlat(ok), OptionalFlat(error)];
      assert flats[1..] == [flats[1]] && flats[1..][1..] == [];
      if ok.Some? {
        FlattenCountIsLength(ok.value);
      }
      if error.Some? {
        FlattenCountIsLength(error.value);
      }
    case FlagsType(names) =>
    case OwnType(_) =>
    case BorrowType(_) =>
  }

  lemma {:induction false} FieldsCountIsLength(fs: seq<Field>)
    ensures FieldsCount(fs) == |FlattenFields(fs)|
    decreases fs, 0
  {
    if fs != [] {
      FlattenCountIsLength(fs[0].typ);
      FieldsCountIsLength(fs[1..]);
    }
  }

  lemma {:induction false} TypesCountIsLength(ts: seq<ValType>)
    ensures TypesCount(ts) == |FlattenTypes(ts)|
    decreases ts, 0
  {
    if ts != [] {
      FlattenCountIsLength(ts[0]);
      TypesCountIsLength(ts[1..]);
    }
  }

  lemma {:induction false} CasesCountIsLongest(cs: seq<Case>)
    ensures CasesCount(cs) == Longest(CaseFlats(cs))
    decreases cs, 0
  {
    if cs != [] {
      if cs[0].typ.Some? {
        FlattenCountIsLength(cs[0].typ.value);
      }
      CasesCountIsLongest(cs[1..]);
      assert CaseFlats(cs)[1..] == CaseFlats(cs[1..]);
    }
  }

  // ----- the core types, slot by slot -----

  /** 64-bit numbers and floats are core numbers of their own, a string or list is two words, everything else that is flat one word each. */
  lemma CoreTypesAre(t: ValType)
    ensures t.Prim? ==>
      Flatten(t) == match t.kind
        case PBool => [I32] case PS8 => [I32] case PU8 => [I32] case PS16 => [I32] case PU16 => [I32]
        case PS32 => [I32] case PU32 => [I32] case PS64 => [I64] case PU64 => [I64]
        case PF32 => [CoreType.F32] case PF64 => [CoreType.F64] case PChar => [I32] case PString => [I32, I32]
    ensures t.ListType? ==> Flatten(t) == [I32, I32]
    ensures t.EnumType? || t.OwnType? || t.BorrowType? ==> Flatten(t) == [I32]
    ensures t.FlagsType? ==>
      32 * |Flatten(t)| - 32 < |t.names| <= 32 * |Flatten(t)| && forall i :: 0 <= i < |Flatten(t)| ==> Flatten(t)[i] == I32
    ensures t.OptionType? ==> Flatten(t) == [I32] + Flatten(t.some)
    ensures Width(NoType) < Width(I32) < Width(CoreType.F32) < Width(I64) < Width(CoreType.F64)
  {
  }

  lemma TailSlice(head: seq<CoreType>, rest: seq<CoreType>, at: nat, n: nat)
    requires at + n <= |rest|
    ensures (head + rest)[|head| + at..|head| + at + n] == rest[at..at + n]
  {
  }

  /** Field k of a record has its own core types, behind the slots of the fields before it. */
  lemma {:induction false} FieldSlots(fs: seq<Field>, k: nat)
    requires k < |fs|
    ensures var at, n := FieldsCount(fs[..k]), FlattenCount(fs[k].typ);
      at + n <= |Flatten(RecordType(fs))| && Flatten(RecordType(fs))[at..at + n] == Flatten(fs[k].typ)
    decreases k
  {
    hide FlattenCount;
    FlattenCountIsLength(fs[0].typ);
    if k > 0 {
      FieldSlots(fs[1..], k - 1);
      assert fs[..k][1..] == fs[1..][..k - 1];
      TailSlice(Flatten(fs[0].typ), FlattenFields(fs[1..]), FieldsCount(fs[1..][..k - 1]), FlattenCount(fs[k].typ));
    }
  }

  /** The same of the elements of a tuple. */
  lemma {:induction false} TypeSlots(ts: seq<ValType>, k: nat)
    requires k < |ts|
    ensures var at, n := TypesCount(ts[..k]), FlattenCount(ts[k]);
      at + n <= |Flatten(TupleType(ts))| && Flatten(TupleType(ts))[at..at + n] == Flatten(ts[k])
    decreases k
  {
    hide FlattenCount;
    FlattenCountIsLength(ts[0]);
    if k > 0 {
      TypeSlots(ts[1..], k - 1);
      assert ts[..k][1..] == ts[1..][..k - 1];
      TailSlice(Flatten(ts[0]), FlattenTypes(ts[1..]), TypesCount(ts[1..][..k - 1]), FlattenCount(ts[k]));
    }
  }

  // ----- the loops compute the specification -----

  lemma {:induction false} FlattenFieldsSnoc(fs: seq<Field>, f: Field)
    ensures FlattenFields(fs + [f]) == FlattenFields(fs) + Flatten(f.typ)
  {
    if fs == [] {
      assert [f][1..] == [];
    } else {
      assert (fs + [f])[1..] == fs[1..] + [f];
      FlattenFieldsSnoc(fs[1..], f);
    }
  }

  lemma {:induction false} FlattenTypesSnoc(ts: seq<ValType>, t: ValType)
    ensures FlattenTypes(ts + [t]) == FlattenTypes(ts) + Flatten(t)
  {
    if ts == [] {
      assert [t][1..] == [];
    } else {
      assert (ts + [t])[1..] == ts[1..] + [t];
      FlattenTypesSnoc(ts[1..], t);
    }
  }

  lemma {:induction false} CaseFlatsSnoc(cs: seq<Case>, c: Case)
    ensures CaseFlats(cs + [c]) == CaseFlats(cs) + [OptionalFlat(c.typ)]
  {
    if cs == [] {
      assert [c][1..] == [];
    } else {
      assert (cs + [c])[1..] == cs[1..] + [c];
      CaseFlatsSnoc(cs[1..], c);
    }
  }

  lemma {:induction false} LongestSnoc(flats: seq<seq<CoreType>>, f: seq<CoreType>)
    ensures Longest(flats + [f]) == Max(Longest(flats), |f|)
  {
    if flats == [] {
      assert [f][1..] == [];
    } else {
      assert (flats + [f])[1..] == flats[1..] + [f];
      LongestSnoc(flats[1..], f);
    }
  }

  lemma {:induction false} WidestSnoc(flats: seq<seq<CoreType>>, f: seq<CoreType>, i: nat)
    ensures WidestAt(flats + [f], i) == Wider(if i < |f| then f[i] else NoType, WidestAt(flats, i))
  {
    if flats == [] {
      assert [f][1..] == [];
    } else {
      assert (flats + [f])[1..] == flats[1..] + [f];
      WidestSnoc(flats[1..], f, i);
    }
  }

  lemma {:induction false} WidestPastEnd(flats: seq<seq<CoreType>>, i: nat)
    requires i >= Longest(flats)
    ensures WidestAt(flats, i) == NoType
  {
    if flats != [] {
      WidestPastEnd(flats[1..], i);
    }
  }

  function SlotOf(f: seq<CoreType>, i: nat): CoreType {
    if i < |f| then f[i] else NoType
  }

  /** One more flattening widens the join slot by slot. */
  lemma JoinStep(flats: seq<seq<CoreType>>, f: seq<CoreType>, j: seq<CoreType>)
    requires |j| == Max(Longest(flats), |f|)
    requires forall i :: 0 <= i < |j| ==> j[i] == Wider(SlotOf(f, i), SlotOf(Joined(flats), i))
    ensures j == Joined(flats + [f])
  {
    LongestSnoc(flats, f);
    forall i | 0 <= i < |j| ensures j[i] == WidestAt(flats + [f], i) {
      WidestSnoc(flats, f, i);
      if i >= Longest(flats) {
        WidestPastEnd(flats, i);
      }
    }
  }

  method FlattenRecordType(fs: seq<Field>) returns (r: seq<CoreType>)
    ensures r == FlattenFields(fs)
    decreases fs, 0
  {
    r := [];
    for i := 0 to |fs|
      invariant r == FlattenFields(fs[..i])
    {
      var flat := FlattenValType(fs[i].typ);
      r := r + flat;
      FlattenFieldsSnoc(fs[..i], fs[i]);
      assert fs[..i + 1] == fs[..i] + [fs[i]];
    }
    assert fs[..|fs|] == fs;
  }

  method FlattenTupleType(ts: seq<ValType>) returns (r: seq<CoreType>)
    ensures r == FlattenTypes(ts)
    decreases ts, 0
  {
    r := [];
    for i := 0 to |ts|
      invariant r == FlattenTypes(ts[..i])
    {
      var flat := FlattenValType(ts[i]);
      r := r + flat;
      FlattenTypesSnoc(ts[..i], ts[i]);
      assert ts[..i + 1] == ts[..i] + [ts[i]];
    }
    assert ts[..|ts|] == ts;
  }

  /** Extends the accumulated payload to the length of one more case and widens each of its slots. */
  method WidenWith(maxFlat: seq<CoreType>, caseFlat: seq<CoreType>) returns (r: seq<CoreType>)
    ensures |r| == Max(|maxFlat|, |caseFlat|)
    ensures forall i :: 0 <= i < |r| ==> r[i] == Wider(SlotOf(caseFlat, i), SlotOf(maxFlat, i))
  {
    r := maxFlat;
    while |r| < |caseFlat|
      invariant |maxFlat| <= |r| <= Max(|maxFlat|, |caseFlat|)
      invariant forall i :: 0 <= i < |r| ==> r[i] == SlotOf(maxFlat, i)
    {
      r := r + [NoType];
    }
    for j := 0 to |caseFlat|
      invariant |r| == Max(|maxFlat|, |caseFlat|)
      invariant forall i :: 0 <= i < j ==> r[i] == Wider(SlotOf(caseFlat, i), SlotOf(maxFlat, i))
      invariant forall i :: j <= i < |r| ==> r[i] == SlotOf(maxFlat, i)
    {
      if Width(caseFlat[j]) > Width(r[j]) {
        r := r[j := caseFlat[j]];
      }
    }
  }

  method FlattenVariantType(cs: seq<Case>) returns (r: seq<CoreType>)
    ensures r == [I32] + Joined(CaseFlats(cs))
    decreases cs, 0
  {
    var maxFlat: seq<CoreType> := [];
    for i := 0 to |cs|
      invariant maxFlat == Joined(CaseFlats(cs[..i]))
    {
      var caseFlat: seq<CoreType> := [];
      if cs[i].typ.Some? {
        caseFlat := FlattenValType(cs[i].typ.value);
      }
      var widened := WidenWith(maxFlat, caseFlat);
      JoinStep(CaseFlats(cs[..i]), caseFlat, widened);
      CaseFlatsSnoc(cs[..i], cs[i]);
      assert cs[..i + 1] == cs[..i] + [cs[i]];
      maxFlat := widened;
    }
    assert cs[..|cs|] == cs;
    r := [I32] + maxFlat;
  }

  method FlattenResultType(t: ValType) returns (r: seq<CoreType>)
    requires t.ResultType?
    ensures r == [I32] + Joined([OptionalFlat(t.ok), OptionalFlat(t.error)])
    decreases t, 0
  {
    hide Longest, WidestAt, Joined;
    var ok, error := t.ok, t.error;
    var okFlat: seq<CoreType>, errFlat: seq<CoreType> := [], [];
    if ok.Some? {
      okFlat := FlattenValType(ok.value);
    }
    if error.Some? {
      errFlat := FlattenValType(error.value);
    }
    var maxLen := Max(|okFlat|, |errFlat|);
    var payload: seq<CoreType> := [];
    for i := 0 to maxLen
      invariant |payload| == i
      invariant forall k :: 0 <= k < i ==> payload[k] == Wider(SlotOf(errFlat, k), SlotOf(okFlat, k))
    {
      var okType, errType := SlotOf(okFlat, i), SlotOf(errFlat, i);
      payload := payload + [if Width(errType) > Width(okType) then errType else okType];
    }
    JoinedSingle(okFlat);
    JoinStep([okFlat], errFlat, payload);
    assert [okFlat] + [errFlat] == [OptionalFlat(ok), OptionalFlat(error)];
    r := [I32] + payload;
  }

  lemma JoinedSingle(f: seq<CoreType>)
    ensures Joined([f]) == f
  {
    assert [f][1..] == [];
    assert Longest([f]) == |f|;
    assert forall i :: 0 <= i < |f| ==> WidestAt([f], i) == Wider(f[i], WidestAt([f][1..], i));
  }

  /** flattenValType: the dispatch over kinds and the loops below it compute the specification. */
  method FlattenValType(t: ValType) returns (r: seq<CoreType>)
    ensures r == Flatten(t)
    decreases t, 1
  {
    match t
    case Prim(k) => r := FlattenPrim(k);
    case ListType(_) => r := [I32, I32];
    case RecordType(fs) => r := FlattenRecordType(fs);
    case TupleType(ts) => r := FlattenTupleType(ts);
    case VariantType(cs) => r := FlattenVariantType(cs);
    case EnumType(_) => r := [I32];
    case OptionType(some) =>
      var flat := FlattenValType(some);
      r := [I32] + flat;
    case ResultType(_, _) => r := FlattenResultType(t);
    case FlagsType(names) =>
      if |names| == 0 {
        r := [];
      } else {
        r := seq((|names| + 31) / 32, _ => I32);
      }
    case OwnType(_) => r := [I32];
    case BorrowType(_) => r := [I32];
  }

  // ----- signatures of lowered functions -----

  const MAX_FLAT_RESULTS := 1

  /** The core signature: flattened parameters, then a return pointer when the results do not fit. */
  method CoreSignature(params: seq<ValType>, results: seq<ValType>)
    returns (coreParams: seq<CoreType>, coreResults: seq<CoreType>, needsRetptr: bool)
    ensures needsRetptr <==> TypesCount(results) > MAX_FLAT_RESULTS
    ensures coreParams == FlattenTypes(params) + if needsRetptr then [I32] else []
    ensures |coreParams| == TypesCount(params) + if needsRetptr then 1 else 0
    ensures coreResults == if needsRetptr then [] else FlattenTypes(results)
    ensures |coreResults| <= MAX_FLAT_RESULTS
  {
    coreParams := FlattenTupleType(params);
    coreResults := FlattenTupleType(results);
    TypesCountIsLength(params);
    TypesCountIsLength(results);
    needsRetptr := |coreResults| > MAX_FLAT_RESULTS;
    if needsRetptr {
      coreResults := [];
      coreParams := coreParams + [I32];
    }
  }
}
