// Two layouts of the same values: the sizes computed from type definitions and those computed from value types.

module LayoutSizes {
  import opened Words
  import opened Wrappers
  import opened Values
  import opened Types
  import opened TypeDefs
  import opened LittleEndian
  import opened GuestMemory
  import opened Layout
  import T = TypeSizes

  /** The primitive kinds in the order of the binary format, whose opcodes count down from 0x7f. */
  const KINDS: seq<PrimKind> :=
    [PBool, PS8, PU8, PS16, PU16, PS32, PU32, PS64, PU64, PF32, PF64, PChar, PString]

  lemma OpcodesCountDown(opcode: byte)
    ensures PrimOf(opcode) == if 0x73 <= opcode <= 0x7f then Some(KINDS[0x7f - opcode]) else None
  {
  }

  /** A scalar is as wide as it is aligned; a string is two words. */
  lemma PrimLayout(opcode: byte, k: PrimKind)
    requires PrimOf(opcode) == Some(k)
    ensures PrimSize(opcode) == T.SizeOf(Prim(k)) && PrimAlign(opcode) == T.AlignOf(Prim(k))
    ensures if k == PString then PrimSize(opcode) == 8 && PrimAlign(opcode) == 4 else PrimSize(opcode) == ScalarSize(k) == PrimAlign(opcode)
  {
  }

  /**
    The seven kinds up to 32 bits are read: the number in the element's own bytes, in two's complement, or
    zero past the end of the memory. Every other primitive lifts to zero.
   */
  lemma PrimRead(mem: Bytes, at: nat, ref: ValTypeRef)
    requires ref.isPrimitive
    ensures var v := LiftPrimFromMemory(mem, at, ref);
      if 0x79 <= ref.primitive <= 0x7f then
        var k := KINDS[0x7f - ref.primitive];
        var n := if at + ScalarSize(k) <= |mem| then GetLe(mem, at, ScalarSize(k)) else 0;
        KindOf(v) == Some(k) && if v.Bool? then v.b == (n != 0) else NumberOf(v) % Pow256(ScalarSize(k)) == n
      else v == Val.U32(0)
  {
    hide LeValue, GetLe;
    Pow256Values();
  }

  // ----- value types -----

  /** A discriminant is wide enough for every case, and the next narrower one is not. */
  lemma DiscriminantFits(n: nat)
    requires n <= TWO_32
    ensures var bytes := T.DiscriminantSize(n);
      bytes in {1, 2, 4} && n <= Pow256(bytes) && (bytes > 1 ==> n > Pow256(bytes / 2))
  {
    Pow256Values();
  }

  /** Flags take a bit each: one or two bytes, or whole words, and no fewer would do. */
  lemma FlagsFit(names: seq<Bytes>)
    requires |names| <= TWO_32
    ensures var bytes := T.SizeOf(FlagsType(names));
      && |names| <= 8 * bytes && T.AlignOf(FlagsType(names)) == (if bytes <= 1 then 1 else if bytes == 2 then 2 else 4)
      && match bytes
         case 0 => names == []
         case 1 => true
         case 2 => |names| > 8
         case _ => bytes % 4 == 0 && |names| > 16 && |names| > 8 * (bytes - 4)
  {
  }

  /** Options and results are laid out as the variants they are sugar for. */
  lemma SugarSizes(some: ValType, ok: Option<ValType>, error: Option<ValType>)
    ensures T.SizeOf(OptionType(some)) == T.SizeOf(VariantType(OptionCases(some)))
    ensures T.AlignOf(OptionType(some)) == T.AlignOf(VariantType(OptionCases(some)))
    ensures T.SizeOf(ResultType(ok, error)) == T.SizeOf(VariantType(ResultCases(ok, error)))
    ensures T.AlignOf(ResultType(ok, error)) == T.AlignOf(VariantType(ResultCases(ok, error)))
  {
    hide AlignUp32, WrapU32;
    var cs, ds := OptionCases(some), ResultCases(ok, error);
    assert cs[1..] == [cs[1]] && cs[1..][1..] == [] && ds[1..] == [ds[1]] && ds[1..][1..] == [];
    assert T.CasesAlign(cs[1..]) == T.AlignOf(some) && T.CasesSize(cs[1..]) == T.SizeOf(some);
    assert T.CasesAlign(ds[1..]) == if error.Some? then T.AlignOf(error.value) else 1;
    assert T.CasesSize(ds[1..]) == if error.Some? then T.SizeOf(error.value) else 0;
  }

  /** A tuple is laid out as the record with its types. */
  lemma {:induction false} TupleIsRecord(ts: seq<ValType>, fs: seq<Field>)
    requires |fs| == |ts| && forall i :: 0 <= i < |ts| ==> fs[i].typ == ts[i]
    ensures T.TypesAlign(ts) == T.FieldsAlign(fs) && T.TypesEnd(ts) == T.FieldsEnd(fs)
    ensures T.SizeOf(TupleType(ts)) == T.SizeOf(RecordType(fs)) && T.AlignOf(TupleType(ts)) == T.AlignOf(RecordType(fs))
  {
    hide AlignUp32, WrapU32;
    SameAligns(ts, fs);
    if ts != [] {
      TupleIsRecord(ts[..|ts| - 1], fs[..|fs| - 1]);
    }
  }

  lemma {:induction false} SameAligns(ts: seq<ValType>, fs: seq<Field>)
    requires |fs| == |ts| && forall i :: 0 <= i < |ts| ==> fs[i].typ == ts[i]
    ensures T.TypesAlign(ts) == T.FieldsAlign(fs)
  {
    if ts != [] {
      SameAligns(ts[1..], fs[1..]);
    }
  }

  // ----- definitions -----

  /** A type both layouts cover: known primitives, and definitions in scopes of their own built with records, options, lists and small enums. */
  ghost predicate PlainRef(scopes: Scopes, rank: Rank, local: Option<nat>, ref: ValTypeRef)
    requires Ranked(scopes, rank)
    decreases RefRank(scopes, rank, local, ref), 0
  {
    if ref.isPrimitive then PrimOf(ref.primitive).Some?
    else
      var td := ResolveInner(scopes, local, ref);
      td.Some? ==>
        (assert RefsBelow(scopes, rank, Effective(td.value, local), td.value, rank(local.value, ref.typeIdx));
         PlainDef(scopes, rank, local, td.value, rank(local.value, ref.typeIdx)))
  }

  ghost predicate PlainDef(scopes: Scopes, rank: Rank, local: Option<nat>, td: TypeDef, n: nat)
    requires Ranked(scopes, rank) && RefsBelow(scopes, rank, Effective(td, local), td, n)
    decreases n, 2
  {
    && td.kind == DefinedKind && td.source.Some?
    && match td.shape
       case RecordDef(fields) =>
         forall i :: 0 <= i < |fields| ==> (FieldRefIn(td, i); PlainRef(scopes, rank, td.source, fields[i].ref))
       case OptionDef(inner) => PlainRef(scopes, rank, td.source, inner)
       case ListDef(_) => true
       case EnumDef(names) => |names| <= 256
       case _ => false
  }

  /** On those types the two layouts agree, modulo 2^32 as the sizes are 32-bit numbers. */
  lemma {:induction false} RefLayoutsAgree(scopes: Scopes, rank: Rank, local: Option<nat>, ref: ValTypeRef)
    requires Ranked(scopes, rank) && PlainRef(scopes, rank, local, ref)
    ensures T.AlignOf(RefToValType(scopes, rank, local, ref)) == AlignOfRef(scopes, rank, local, ref)
    ensures T.SizeOf(RefToValType(scopes, rank, local, ref)) == WrapU32(SizeOfRef(scopes, rank, local, ref))
    decreases RefRank(scopes, rank, local, ref), 0
  {
    hide PrimOf, PrimSize, PrimAlign, DefToValType, SizeOfDef, AlignOfDef, PlainDef;
    if ref.isPrimitive {
      PrimLayout(ref.primitive, PrimOf(ref.primitive).value);
    } else {
      var td := ResolveInner(scopes, local, ref);
      if td.Some? {
        var n := rank(local.value, ref.typeIdx);
        assert RefsBelow(scopes, rank, Effective(td.value, local), td.value, n);
        DefLayoutsAgree(scopes, rank, local, td.value, n);
      } else {
        assert T.SizeOf(RefToValType(scopes, rank, local, ref)) == 4 == T.AlignOf(RefToValType(scopes, rank, local, ref));
      }
    }
  }

  lemma {:induction false} DefLayoutsAgree(scopes: Scopes, rank: Rank, local: Option<nat>, td: TypeDef, n: nat)
    requires Ranked(scopes, rank) && RefsBelow(scopes, rank, Effective(td, local), td, n) && PlainDef(scopes, rank, local, td, n)
    ensures DefToValType(scopes, rank, local, td, n).Some?
    ensures T.AlignOf(DefToValType(scopes, rank, local, td, n).value) == AlignOfDef(scopes, rank, td, n)
    ensures T.SizeOf(DefToValType(scopes, rank, local, td, n).value) == WrapU32(SizeOfDef(scopes, rank, td, n))
    decreases n, 2
  {
    hide AlignUp, AlignUp32, WrapU32, RefToValType, AlignOfRef, SizeOfRef, PlainRef;
    match td.shape
    case RecordDef(fields) =>
      RecordRefsBelow(scopes, rank, td, n);
      var fs := DefToValType(scopes, rank, local, td, n).value.fields;
      FieldsLayoutsAgree(scopes, rank, td, fields, fs, n);
      assert fields[..|fields|] == fields && fs[..|fs|] == fs;
      AlignUpWraps(FieldsEnd(scopes, rank, td.source, fields, n), FieldsAlign(scopes, rank, td.source, fields, n));
    case OptionDef(inner) =>
      RefLayoutsAgree(scopes, rank, td.source, inner);
      OptionLayout(AlignOfRef(scopes, rank, td.source, inner), SizeOfRef(scopes, rank, td.source, inner));
    case ListDef(_) => assert WrapU32(8) == 8 by { SmallWraps(); }
    case EnumDef(names) => assert WrapU32(1) == 1 by { SmallWraps(); }
  }

  lemma SmallWraps()
    ensures WrapU32(0) == 0 && WrapU32(1) == 1 && WrapU32(8) == 8
  {
  }

  lemma OptionLayout(a: nat, size: nat)
    requires IsAlign(a)
    ensures T.TaggedSize(1, a, WrapU32(size)) == WrapU32(AlignUp(AlignUp(1, a) + size, a))
  {
    hide AlignUp, AlignUp32, WrapU32;
    SmallWraps();
    AlignUpWraps(1, a);
    WrapBoth(AlignUp(1, a), size);
    AlignUpWraps(AlignUp(1, a) + size, a);
  }

  lemma WrapBoth(x: nat, y: nat)
    ensures WrapU32(WrapU32(x) + WrapU32(y)) == WrapU32(x + y)
  {
    WrapAdd(x, WrapU32(y));
    WrapAdd(y, x);
  }

  /** One more field on the value type's side. */
  lemma {:induction false} FieldsAlignSnoc(fs: seq<Field>)
    requires fs != []
    ensures T.FieldsAlign(fs) == Max(T.FieldsAlign(fs[..|fs| - 1]), T.AlignOf(fs[|fs| - 1].typ))
  {
    var k := |fs| - 1;
    if k > 0 {
      FieldsAlignSnoc(fs[1..]);
      assert fs[1..][..k - 1] == fs[..k][1..];
    }
  }

  lemma {:induction false} FieldsLayoutsAgree(scopes: Scopes, rank: Rank, td: TypeDef, fields: seq<FieldDef>, fs: seq<Field>, n: nat)
    requires Ranked(scopes, rank) && FieldsBelow(scopes, rank, td.source, fields, n) && |fs| == |fields|
    requires forall i :: 0 <= i < |fields| ==>
      PlainRef(scopes, rank, td.source, fields[i].ref) && fs[i].typ == RefToValType(scopes, rank, td.source, fields[i].ref)
    ensures T.FieldsAlign(fs) == FieldsAlign(scopes, rank, td.source, fields, n)
    ensures T.FieldsEnd(fs) == WrapU32(FieldsEnd(scopes, rank, td.source, fields, n))
    decreases n, 1, |fields|
  {
    hide AlignUp, AlignUp32, WrapU32, RefToValType, AlignOfRef, SizeOfRef, PlainRef, T.AlignOf, T.SizeOf, Ranked, RefRank;
    if fields == [] {
      assert WrapU32(0) == 0 by { SmallWraps(); }
    } else {
      var k := |fields| - 1;
      FieldsLayoutsAgree(scopes, rank, td, fields[..k], fs[..k], n);
      FieldsAlignSnoc(fs);
      assert RefRank(scopes, rank, td.source, fields[k].ref) <= n;
      RefLayoutsAgree(scopes, rank, td.source, fields[k].ref);
      var end, a := FieldsEnd(scopes, rank, td.source, fields[..k], n), AlignOfRef(scopes, rank, td.source, fields[k].ref);
      AlignUpWraps(end, a);
      WrapBoth(AlignUp(end, a), SizeOfRef(scopes, rank, td.source, fields[k].ref));
    }
  }

  /** Nested bytes are the bytes at the pointer, if all of them are in memory; every other nested list lifts to nothing. */
  lemma NestedBytes(mem: Bytes, elem: ValTypeRef, ptr: nat, len: nat)
    ensures var vs := NestedList(mem, elem, ptr, len);
      if elem.isPrimitive && PrimOf(elem.primitive) == Some(PU8) && ptr + len <= |mem|
      then |vs| == len && forall i :: 0 <= i < len ==> vs[i] == Val.U8(mem[ptr + i])
      else vs == []
  {
  }

  /** Outside the plain types: flags take whole words, and a large enum or anything else takes one word. */
  lemma OtherSizes(scopes: Scopes, rank: Rank, td: TypeDef, n: nat)
    requires Ranked(scopes, rank) && SourceBelow(scopes, rank, td, n)
    ensures var size, align := SizeOfDef(scopes, rank, td, n), AlignOfDef(scopes, rank, td, n);
      match td.shape
      case FlagsDef(names) => size % 4 == 0 && 8 * size - 32 < |names| <= 8 * size && align == 4
      case EnumDef(names) => size == (if |names| <= 256 then 1 else 4) && align == 1
      case RecordDef(_) => true
      case OptionDef(_) => true
      case ListDef(_) => size == 8 && align == 4
      case _ => size == 4 && align == 4
  {
  }

  const U64REF := ValTypeRef(true, 0x77, 0, false, false)
  const PAIR := TypeDef(DefinedKind, TupleDef([U64REF, U64REF]), None)

  lemma AlignedStays(x: uint32, a: nat)
    requires IsAlign(a) && x < TWO_31 && Rem(x, a) == 0
    ensures AlignUp32(x, a) == x
  {
    assert WrapU32(x) == x;
    hide AlignUp, AlignUp32, Rem, WrapU32;
    AlignUpFacts(x, a);
    AlignUpWraps(x, a);
  }

  lemma PairEnd(u: ValType)
    requires u == Prim(PU64)
    ensures T.TypesEnd([u, u]) == 16 && T.TypesAlign([u, u]) == 8
  {
    hide AlignUp32;
    var ts := [u, u];
    AlignedStays(0, 8);
    AlignedStays(8, 8);
    assert T.TypesEnd(ts) == 16 by {
      assert ts[..1] == [u] && [u][..0] == [];
      assert T.TypesEnd([u]) == 8;
    }
    assert ts[1..] == [u] && [u][1..] == [];
    assert T.TypesAlign([u]) == 8;
  }

  lemma PairSize(u: ValType)
    requires u == Prim(PU64)
    ensures T.SizeOf(TupleType([u, u])) == 16
  {
    hide AlignUp32, T.TypesEnd, T.TypesAlign;
    PairEnd(u);
    AlignedStays(16, 8);
  }

  /** There the two layouts differ: a pair of 64-bit numbers is four bytes by its definition and sixteen by its type. */
  lemma TuplesDiffer(scopes: Scopes, rank: Rank)
    requires Ranked(scopes, rank)
    ensures RefsBelow(scopes, rank, None, PAIR, 0) && SizeOfDef(scopes, rank, PAIR, 0) == 4
    ensures DefToValType(scopes, rank, None, PAIR, 0).Some? && T.SizeOf(DefToValType(scopes, rank, None, PAIR, 0).value) == 16
  {
    hide T.SizeOf;
    var t := DefToValType(scopes, rank, None, PAIR, 0).value;
    assert t.types == [Prim(PU64), Prim(PU64)];
    PairSize(Prim(PU64));
  }
}
