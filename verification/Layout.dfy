// Sizes, alignments and the lifting of composite list elements from linear memory.

module Layout {
  import opened Words
  import opened Wrappers
  import opened Values
  import opened Types
  import opened TypeDefs
  import opened LittleEndian

  // ----- alignment -----

  predicate IsAlign(a: nat) {
    a == 1 || a == 2 || a == 4 || a == 8
  }

  function Rem(x: nat, a: nat): nat
    requires IsAlign(a)
  {
    match a
    case 1 => 0
    case 2 => x % 2
    case 4 => x % 4
    case _ => x % 8
  }

  function AlignUp(x: nat, a: nat): nat
    requires IsAlign(a)
  {
    x + a - 1 - Rem(x + a - 1, a)
  }

  /** The same on uint32, where the addition wraps. */
  function AlignUp32(x: uint32, a: nat): uint32
    requires IsAlign(a)
  {
    WrapU32(x + a - 1) - Rem(WrapU32(x + a - 1), a)
  }

  /** Go's `x &^ m`, bit by bit. */
  function AndNot(x: nat, m: nat): nat {
    if x == 0 then 0 else 2 * AndNot(x / 2, m / 2) + if m % 2 == 1 then 0 else x % 2
  }

  lemma {:induction false} AndNotZero(x: nat)
    ensures AndNot(x, 0) == x
  {
    if x != 0 {
      AndNotZero(x / 2);
    }
  }

  lemma RemHalf(y: nat, a: nat)
    requires a == 2 || a == 4 || a == 8
    ensures Rem(y, a) == y % 2 + 2 * Rem(y / 2, a / 2)
  {
  }

  lemma AndNotHalf(y: nat, a: nat)
    requires a == 2 || a == 4 || a == 8
    ensures AndNot(y, a - 1) == 2 * AndNot(y / 2, a / 2 - 1)
  {
    assert (a - 1) % 2 == 1 && (a - 1) / 2 == a / 2 - 1;
  }

  /** Clearing the low bits subtracts the remainder. */
  lemma {:induction false} AndNotIsRemainder(y: nat, a: nat)
    requires IsAlign(a)
    ensures AndNot(y, a - 1) == y - Rem(y, a)
    decreases a
  {
    if a == 1 {
      AndNotZero(y);
    } else {
      hide AndNot, Rem;
      AndNotHalf(y, a);
      RemHalf(y, a);
      AndNotIsRemainder(y / 2, a / 2);
    }
  }

  /** `(x + a - 1) &^ (a - 1)` on uint32. */
  lemma AlignUp32IsAndNot(x: uint32, a: nat)
    requires IsAlign(a)
    ensures AlignUp32(x, a) == AndNot(WrapU32(x + a - 1), a - 1)
  {
    hide AndNot, Rem, WrapU32;
    AndNotIsRemainder(WrapU32(x + a - 1), a);
  }

  lemma AlignUpFacts(x: nat, a: nat)
    requires IsAlign(a)
    ensures x <= AlignUp(x, a) < x + a && Rem(AlignUp(x, a), a) == 0
    ensures Rem(x, a) == 0 ==> AlignUp(x, a) == x
  {
  }

  lemma RemAdd(x: nat, y: nat, a: nat)
    requires IsAlign(a) && Rem(x, a) == 0
    ensures Rem(x + y, a) == Rem(y, a)
  {
  }

  lemma RemCoarse(x: nat, a: nat, b: nat)
    requires IsAlign(a) && IsAlign(b) && a <= b && Rem(x, b) == 0
    ensures Rem(x, a) == 0
  {
  }

  lemma RemWrap(x: nat, a: nat)
    requires IsAlign(a)
    ensures Rem(WrapU32(x), a) == Rem(x, a)
  {
    var q := x / TWO_32;
    assert x == 8 * (q * 0x2000_0000) + WrapU32(x);
    RemCoarse(8 * (q * 0x2000_0000), a, 8);
    RemAdd(8 * (q * 0x2000_0000), WrapU32(x), a);
  }

  lemma WrapAdd(x: nat, y: nat)
    ensures WrapU32(WrapU32(x) + y) == WrapU32(x + y)
  {
  }

  lemma WrapSub(y: nat, r: nat)
    requires r <= WrapU32(y)
    ensures WrapU32(y) - r == WrapU32(y - r)
  {
  }

  lemma RemAtMost(x: nat, a: nat)
    requires IsAlign(a)
    ensures Rem(x, a) <= x
  {
  }

  /** Aligning modulo 2^32 is aligning, modulo 2^32. */
  lemma AlignUpWraps(x: nat, a: nat)
    requires IsAlign(a)
    ensures AlignUp32(WrapU32(x), a) == WrapU32(AlignUp(x, a))
  {
    hide Rem;
    var y := x + a - 1;
    WrapAdd(x, a - 1);
    RemWrap(y, a);
    RemAtMost(WrapU32(y), a);
    WrapSub(y, Rem(y, a));
  }

  /** Aligning an absolute offset is aligning the relative one when the base is aligned. */
  lemma AlignUpShift(base: nat, x: nat, a: nat, b: nat)
    requires IsAlign(a) && IsAlign(b) && a <= b && Rem(base, b) == 0
    ensures Rem(base, a) == 0 && AlignUp(base + x, a) == base + AlignUp(x, a)
  {
    hide Rem;
    RemCoarse(base, a, b);
    RemAdd(base, x + a - 1, a);
  }

  function PrimSize(opcode: byte): nat {
    match opcode
    case 0x7f => 1
    case 0x7e => 1
    case 0x7d => 1
    case 0x7c => 2
    case 0x7b => 2
    case 0x78 => 8
    case 0x77 => 8
    case 0x75 => 8
    case 0x73 => 8
    case _ => 4
  }

  function PrimAlign(opcode: byte): nat {
    match opcode
    case 0x7f => 1
    case 0x7e => 1
    case 0x7d => 1
    case 0x7c => 2
    case 0x7b => 2
    case 0x78 => 8
    case 0x77 => 8
    case 0x75 => 8
    case _ => 4
  }

  // ----- specification: unbounded sizes -----

  function AlignOfRef(scopes: Scopes, ghost rank: Rank, local: Option<nat>, ref: ValTypeRef): (a: nat)
    requires Ranked(scopes, rank)
    ensures IsAlign(a)
    decreases RefRank(scopes, rank, local, ref), 0
  {
    if ref.isPrimitive then PrimAlign(ref.primitive)
    else
      var td := ResolveInner(scopes, local, ref);
      if td.Some? then
        (ghost var n := rank(local.value, ref.typeIdx);
         assert RefsBelow(scopes, rank, Effective(td.value, local), td.value, n);
         AlignOfDef(scopes, rank, td.value, n))
      else 4
  }

  /** All of a definition's index references rank at most n in the scope it carries. */
  ghost predicate SourceBelow(scopes: Scopes, rank: Rank, td: TypeDef, n: nat) {
    td.source.Some? ==> RefsBelow(scopes, rank, td.source, td, n)
  }

  function AlignOfDef(scopes: Scopes, ghost rank: Rank, td: TypeDef, ghost n: nat): (a: nat)
    requires Ranked(scopes, rank) && SourceBelow(scopes, rank, td, n)
    ensures IsAlign(a)
    decreases n, 2
  {
    match td.shape
    case EnumDef(_) => 1
    case RecordDef(fields) =>
      RecordRefsBelow(scopes, rank, td, n);
      FieldsAlign(scopes, rank, td.source, fields, n)
    case OptionDef(inner) => AlignOfRef(scopes, rank, td.source, inner)
    case _ => 4
  }

  ghost predicate FieldsBelow(scopes: Scopes, rank: Rank, local: Option<nat>, fields: seq<FieldDef>, n: nat) {
    forall i :: 0 <= i < |fields| ==> RefRank(scopes, rank, local, fields[i].ref) <= n
  }

  lemma RecordRefsBelow(scopes: Scopes, rank: Rank, td: TypeDef, n: nat)
    requires td.shape.RecordDef? && SourceBelow(scopes, rank, td, n)
    ensures FieldsBelow(scopes, rank, td.source, td.shape.fields, n)
  {
    forall i | 0 <= i < |td.shape.fields| ensures RefRank(scopes, rank, td.source, td.shape.fields[i].ref) <= n {
      FieldRefIn(td, i);
    }
  }

  function FieldsAlign(scopes: Scopes, ghost rank: Rank, local: Option<nat>, fields: seq<FieldDef>, ghost n: nat): (a: nat)
    requires Ranked(scopes, rank) && FieldsBelow(scopes, rank, local, fields, n)
    ensures IsAlign(a)
    decreases n, 1, |fields|
  {
    if fields == [] then 1
    else
      var k := |fields| - 1;
      assert RefRank(scopes, rank, local, fields[k].ref) <= n;
      Max(FieldsAlign(scopes, rank, local, fields[..k], n), AlignOfRef(scopes, rank, local, fields[k].ref))
  }

  function SizeOfRef(scopes: Scopes, ghost rank: Rank, local: Option<nat>, ref: ValTypeRef): nat
    requires Ranked(scopes, rank)
    decreases RefRank(scopes, rank, local, ref), 0
  {
    if ref.isPrimitive then PrimSize(ref.primitive)
    else
      var td := ResolveInner(scopes, local, ref);
      if td.Some? then
        (ghost var n := rank(local.value, ref.typeIdx);
         assert RefsBelow(scopes, rank, Effective(td.value, local), td.value, n);
         SizeOfDef(scopes, rank, td.value, n))
      else 4
  }

  function SizeOfDef(scopes: Scopes, ghost rank: Rank, td: TypeDef, ghost n: nat): nat
    requires Ranked(scopes, rank) && SourceBelow(scopes, rank, td, n)
    decreases n, 2
  {
    match td.shape
    case EnumDef(names) => if |names| <= 256 then 1 else 4
    case RecordDef(fields) =>
      RecordRefsBelow(scopes, rank, td, n);
      AlignUp(FieldsEnd(scopes, rank, td.source, fields, n), FieldsAlign(scopes, rank, td.source, fields, n))
    case OptionDef(inner) =>
      var a := AlignOfRef(scopes, rank, td.source, inner);
      AlignUp(AlignUp(1, a) + SizeOfRef(scopes, rank, td.source, inner), a)
    case ListDef(_) => 8
    case FlagsDef(names) => FlagWords(|names|) * 4
    case _ => 4
  }

  /** Offset just past the last field, each field placed at its own alignment. */
  function FieldsEnd(scopes: Scopes, ghost rank: Rank, local: Option<nat>, fields: seq<FieldDef>, ghost n: nat): nat
    requires Ranked(scopes, rank) && FieldsBelow(scopes, rank, local, fields, n)
    decreases n, 1, |fields|
  {
    if fields == [] then 0
    else
      var k := |fields| - 1;
      assert RefRank(scopes, rank, local, fields[k].ref) <= n;
      AlignUp(FieldsEnd(scopes, rank, local, fields[..k], n), AlignOfRef(scopes, rank, local, fields[k].ref))
      + SizeOfRef(scopes, rank, local, fields[k].ref)
  }

  // ----- layout facts -----

  lemma RemOfMultiples(k: nat)
    ensures Rem(k * 4, 4) == 0 && Rem(8, 4) == 0 && Rem(4, 4) == 0 && Rem(4, 1) == 0 && Rem(1, 1) == 0
  {
  }

  /** Every size is a multiple of its alignment. */
  lemma SizeOfDefAligned(scopes: Scopes, rank: Rank, td: TypeDef, n: nat)
    requires Ranked(scopes, rank) && SourceBelow(scopes, rank, td, n)
    ensures Rem(SizeOfDef(scopes, rank, td, n), AlignOfDef(scopes, rank, td, n)) == 0
  {
    hide Rem, AlignUp;
    RemOfMultiples(if td.shape.FlagsDef? then FlagWords(|td.shape.names|) else 0);
    match td.shape
    case RecordDef(fields) =>
      RecordRefsBelow(scopes, rank, td, n);
      AlignUpFacts(FieldsEnd(scopes, rank, td.source, fields, n), FieldsAlign(scopes, rank, td.source, fields, n));
    case OptionDef(inner) =>
      var a := AlignOfRef(scopes, rank, td.source, inner);
      AlignUpFacts(AlignUp(1, a) + SizeOfRef(scopes, rank, td.source, inner), a);
    case _ =>
  }

  /** Where field k is placed. */
  function FieldAt(scopes: Scopes, ghost rank: Rank, local: Option<nat>, fields: seq<FieldDef>, k: nat, ghost n: nat): nat
    requires Ranked(scopes, rank) && FieldsBelow(scopes, rank, local, fields, n) && k < |fields|
  {
    AlignUp(FieldsEnd(scopes, rank, local, fields[..k], n), AlignOfRef(scopes, rank, local, fields[k].ref))
  }

  /** One more field: it is placed at its alignment and widens the record's. */
  lemma FieldsNext(scopes: Scopes, rank: Rank, local: Option<nat>, fields: seq<FieldDef>, k: nat, n: nat)
    requires Ranked(scopes, rank) && FieldsBelow(scopes, rank, local, fields, n) && k < |fields|
    ensures FieldsEnd(scopes, rank, local, fields[..k + 1], n)
            == FieldAt(scopes, rank, local, fields, k, n) + SizeOfRef(scopes, rank, local, fields[k].ref)
    ensures FieldsAlign(scopes, rank, local, fields[..k + 1], n)
            == Max(FieldsAlign(scopes, rank, local, fields[..k], n), AlignOfRef(scopes, rank, local, fields[k].ref))
    ensures FieldsEnd(scopes, rank, local, fields[..k], n) <= FieldAt(scopes, rank, local, fields, k, n)
  {
    hide Rem, AlignUp;
    assert fields[..k + 1][..k] == fields[..k];
    AlignUpFacts(FieldsEnd(scopes, rank, local, fields[..k], n), AlignOfRef(scopes, rank, local, fields[k].ref));
  }

  lemma {:induction false} FieldsMono(scopes: Scopes, rank: Rank, local: Option<nat>, fields: seq<FieldDef>, k: nat, n: nat)
    requires Ranked(scopes, rank) && FieldsBelow(scopes, rank, local, fields, n) && k <= |fields|
    ensures FieldsEnd(scopes, rank, local, fields[..k], n) <= FieldsEnd(scopes, rank, local, fields, n)
    ensures FieldsAlign(scopes, rank, local, fields[..k], n) <= FieldsAlign(scopes, rank, local, fields, n)
    decreases |fields| - k
  {
    hide FieldsEnd, FieldsAlign, FieldAt;
    if k == |fields| {
      assert fields[..k] == fields;
    } else {
      FieldsNext(scopes, rank, local, fields, k, n);
      FieldsMono(scopes, rank, local, fields, k + 1, n);
    }
  }

  /** Field k lies after the fields before it, at its own alignment, inside the record. */
  lemma FieldPlaced(scopes: Scopes, rank: Rank, local: Option<nat>, fields: seq<FieldDef>, k: nat, n: nat)
    requires Ranked(scopes, rank) && FieldsBelow(scopes, rank, local, fields, n) && k < |fields|
    ensures var at, ref := FieldAt(scopes, rank, local, fields, k, n), fields[k].ref;
      && FieldsEnd(scopes, rank, local, fields[..k], n) <= at
      && Rem(at, AlignOfRef(scopes, rank, local, ref)) == 0
      && at + SizeOfRef(scopes, rank, local, ref) == FieldsEnd(scopes, rank, local, fields[..k + 1], n)
      && FieldsEnd(scopes, rank, local, fields[..k + 1], n) <= FieldsEnd(scopes, rank, local, fields, n)
      && FieldsAlign(scopes, rank, local, fields[..k + 1], n) ==
           Max(FieldsAlign(scopes, rank, local, fields[..k], n), AlignOfRef(scopes, rank, local, ref))
      && AlignOfRef(scopes, rank, local, ref) <= FieldsAlign(scopes, rank, local, fields, n)
  {
    hide Rem, AlignUp, FieldsEnd, FieldsAlign;
    FieldsNext(scopes, rank, local, fields, k, n);
    FieldsMono(scopes, rank, local, fields, k + 1, n);
    AlignUpFacts(FieldsEnd(scopes, rank, local, fields[..k], n), AlignOfRef(scopes, rank, local, fields[k].ref));
  }

  // ----- the uint32 computations -----

  lemma WrapSum(x: nat, y: nat)
    ensures WrapU32(WrapU32(x) + WrapU32(y)) == WrapU32(x + y)
  {
  }

  method ElemAlignFromTypeRef(scopes: Scopes, ghost rank: Rank, ghost local: Option<nat>, ref: ValTypeRef, resolved: Option<TypeDef>)
    returns (a: nat)
    requires Ranked(scopes, rank) && resolved == ResolveInner(scopes, local, ref)
    ensures a == AlignOfRef(scopes, rank, local, ref)
    decreases RefRank(scopes, rank, local, ref), 0
  {
    if ref.isPrimitive {
      return PrimAlign(ref.primitive);
    }
    if resolved.Some? {
      ghost var n := rank(local.value, ref.typeIdx);
      assert RefsBelow(scopes, rank, Effective(resolved.value, local), resolved.value, n);
      a := ElemAlignFromTypeDef(scopes, rank, resolved.value, n);
    } else {
      a := 4;
    }
  }

  method ElemAlignFromTypeDef(scopes: Scopes, ghost rank: Rank, td: TypeDef, ghost n: nat) returns (a: nat)
    requires Ranked(scopes, rank) && SourceBelow(scopes, rank, td, n)
    ensures a == AlignOfDef(scopes, rank, td, n)
    decreases n, 2
  {
    match td.shape
    case EnumDef(_) => a := 1;
    case RecordDef(fields) =>
      RecordRefsBelow(scopes, rank, td, n);
      a := RecordAlign(scopes, rank, td.source, fields, n);
    case OptionDef(inner) =>
      var resolved := ResolveInner(scopes, td.source, inner);
      a := ElemAlignFromTypeRef(scopes, rank, td.source, inner, resolved);
    case _ => a := 4;
  }

  method RecordAlign(scopes: Scopes, ghost rank: Rank, source: Option<nat>, fields: seq<FieldDef>, ghost n: nat) returns (maxAlign: nat)
    requires Ranked(scopes, rank) && FieldsBelow(scopes, rank, source, fields, n)
    ensures maxAlign == FieldsAlign(scopes, rank, source, fields, n)
    decreases n, 1
  {
    maxAlign := 1;
    for k := 0 to |fields|
      invariant maxAlign == FieldsAlign(scopes, rank, source, fields[..k], n)
    {
      FieldPlaced(scopes, rank, source, fields, k, n);
      var a := ElemAlignFromTypeRef(scopes, rank, source, fields[k].ref, ResolveInner(scopes, source, fields[k].ref));
      if a > maxAlign {
        maxAlign := a;
      }
    }
    assert fields[..|fields|] == fields;
  }

  method ElemSizeFromTypeRef(scopes: Scopes, ghost rank: Rank, ghost local: Option<nat>, ref: ValTypeRef, resolved: Option<TypeDef>)
    returns (r: uint32)
    requires Ranked(scopes, rank) && resolved == ResolveInner(scopes, local, ref)
    ensures r == WrapU32(SizeOfRef(scopes, rank, local, ref))
    decreases RefRank(scopes, rank, local, ref), 0
  {
    if ref.isPrimitive {
      return PrimSize(ref.primitive);
    }
    if resolved.Some? {
      ghost var n := rank(local.value, ref.typeIdx);
      assert RefsBelow(scopes, rank, Effective(resolved.value, local), resolved.value, n);
      r := ElemSizeFromTypeDef(scopes, rank, resolved.value, n);
    } else {
      r := 4;
    }
  }

  /** The byte size of a definition, computed in uint32: the exact size modulo 2^32. */
  method ElemSizeFromTypeDef(scopes: Scopes, ghost rank: Rank, td: TypeDef, ghost n: nat) returns (r: uint32)
    requires Ranked(scopes, rank) && SourceBelow(scopes, rank, td, n)
    ensures r == WrapU32(SizeOfDef(scopes, rank, td, n))
    decreases n, 2
  {
    hide Rem, AlignUp;
    match td.shape
    case EnumDef(names) => r := if |names| <= 256 then 1 else 4;
    case RecordDef(fields) =>
      RecordRefsBelow(scopes, rank, td, n);
      r := RecordSize(scopes, rank, td.source, fields, n);
    case OptionDef(inner) => r := OptionSize(scopes, rank, td.source, inner, n);
    case ListDef(_) => r := 8;
    case FlagsDef(names) => r := WrapU32((|names| + 31) / 32 * 4);
    case _ => r := 4;
  }

  method RecordSize(scopes: Scopes, ghost rank: Rank, source: Option<nat>, fields: seq<FieldDef>, ghost n: nat) returns (r: uint32)
    requires Ranked(scopes, rank) && FieldsBelow(scopes, rank, source, fields, n)
    ensures r == WrapU32(AlignUp(FieldsEnd(scopes, rank, source, fields, n), FieldsAlign(scopes, rank, source, fields, n)))
    decreases n, 1
  {
    hide SizedTo;
    var offset: uint32, maxAlign: nat := 0, 1;
    SizedStart(scopes, rank, source, fields, n);
    for k := 0 to |fields|
      invariant IsAlign(maxAlign) && SizedTo(scopes, rank, source, fields, n, k, offset, maxAlign)
    {
      hide Rem, AlignUp, AlignUp32, WrapU32, SizeOfRef, AlignOfRef, RefsBelow;
      var resolved := ResolveInner(scopes, source, fields[k].ref);
      var fieldSize := ElemSizeFromTypeRef(scopes, rank, source, fields[k].ref, resolved);
      var fieldAlign := ElemAlignFromTypeRef(scopes, rank, source, fields[k].ref, resolved);
      SizedNext(scopes, rank, source, fields, k, n, offset, maxAlign, fieldAlign, fieldSize);
      if fieldAlign > maxAlign {
        maxAlign := fieldAlign;
      }
      offset := WrapU32(AlignUp32(offset, fieldAlign) + fieldSize);
    }
    SizedEnd(scopes, rank, source, fields, n, offset, maxAlign);
    r := AlignUp32(offset, maxAlign);
  }

  /** The offset and alignment after k fields. */
  ghost predicate SizedTo(scopes: Scopes, rank: Rank, source: Option<nat>, fields: seq<FieldDef>, n: nat, k: nat, offset: uint32, maxAlign: nat)
    requires Ranked(scopes, rank) && FieldsBelow(scopes, rank, source, fields, n) && k <= |fields|
  {
    && maxAlign == FieldsAlign(scopes, rank, source, fields[..k], n)
    && offset == WrapU32(FieldsEnd(scopes, rank, source, fields[..k], n))
  }

  lemma SizedStart(scopes: Scopes, rank: Rank, source: Option<nat>, fields: seq<FieldDef>, n: nat)
    requires Ranked(scopes, rank) && FieldsBelow(scopes, rank, source, fields, n)
    ensures SizedTo(scopes, rank, source, fields, n, 0, 0, 1)
  {
  }

  lemma SizedNext(scopes: Scopes, rank: Rank, source: Option<nat>, fields: seq<FieldDef>, k: nat, n: nat,
                  offset: uint32, maxAlign: nat, fieldAlign: nat, fieldSize: uint32)
    requires Ranked(scopes, rank) && FieldsBelow(scopes, rank, source, fields, n) && k < |fields|
    requires SizedTo(scopes, rank, source, fields, n, k, offset, maxAlign)
    requires fieldAlign == AlignOfRef(scopes, rank, source, fields[k].ref)
    requires fieldSize == WrapU32(SizeOfRef(scopes, rank, source, fields[k].ref))
    ensures SizedTo(scopes, rank, source, fields, n, k + 1, WrapU32(AlignUp32(offset, fieldAlign) + fieldSize), Max(maxAlign, fieldAlign))
  {
    hide Rem, AlignUp, AlignUp32, WrapU32, FieldsEnd, FieldsAlign, FieldAt, SizeOfRef, AlignOfRef;
    FieldsNext(scopes, rank, source, fields, k, n);
    EndStep(scopes, rank, source, fields, k, n, offset, fieldAlign, fieldSize);
  }

  lemma SizedEnd(scopes: Scopes, rank: Rank, source: Option<nat>, fields: seq<FieldDef>, n: nat, offset: uint32, maxAlign: nat)
    requires Ranked(scopes, rank) && FieldsBelow(scopes, rank, source, fields, n)
    requires IsAlign(maxAlign) && SizedTo(scopes, rank, source, fields, n, |fields|, offset, maxAlign)
    ensures maxAlign == FieldsAlign(scopes, rank, source, fields, n)
    ensures AlignUp32(offset, maxAlign) == WrapU32(AlignUp(FieldsEnd(scopes, rank, source, fields, n), maxAlign))
  {
    hide Rem, AlignUp, AlignUp32, WrapU32, FieldsEnd, FieldsAlign;
    assert fields[..|fields|] == fields;
    AlignUpWraps(FieldsEnd(scopes, rank, source, fields, n), maxAlign);
  }

  lemma EndStep(scopes: Scopes, rank: Rank, source: Option<nat>, fields: seq<FieldDef>, k: nat, n: nat,
                offset: uint32, fieldAlign: nat, fieldSize: uint32)
    requires Ranked(scopes, rank) && FieldsBelow(scopes, rank, source, fields, n) && k < |fields|
    requires offset == WrapU32(FieldsEnd(scopes, rank, source, fields[..k], n))
    requires fieldAlign == AlignOfRef(scopes, rank, source, fields[k].ref)
    requires fieldSize == WrapU32(SizeOfRef(scopes, rank, source, fields[k].ref))
    ensures WrapU32(AlignUp32(offset, fieldAlign) + fieldSize) == WrapU32(FieldsEnd(scopes, rank, source, fields[..k + 1], n))
  {
    hide Rem, AlignUp, AlignUp32, WrapU32, FieldsEnd, SizeOfRef, AlignOfRef, FieldsAlign;
    FieldsNext(scopes, rank, source, fields, k, n);
    AlignUpWraps(FieldsEnd(scopes, rank, source, fields[..k], n), fieldAlign);
    WrapSum(FieldAt(scopes, rank, source, fields, k, n), SizeOfRef(scopes, rank, source, fields[k].ref));
  }

  lemma WrapSmall(x: nat)
    requires x < TWO_32
    ensures WrapU32(x) == x
  {
  }

  method OptionSize(scopes: Scopes, ghost rank: Rank, source: Option<nat>, inner: ValTypeRef, ghost n: nat) returns (r: uint32)
    requires Ranked(scopes, rank) && RefRank(scopes, rank, source, inner) <= n
    ensures var a := AlignOfRef(scopes, rank, source, inner);
      r == WrapU32(AlignUp(AlignUp(1, a) + SizeOfRef(scopes, rank, source, inner), a))
    decreases n, 1
  {
    hide Rem, AlignUp, AlignUp32, WrapU32;
    var resolved := ResolveInner(scopes, source, inner);
    var innerSize := ElemSizeFromTypeRef(scopes, rank, source, inner, resolved);
    var innerAlign := ElemAlignFromTypeRef(scopes, rank, source, inner, resolved);
    WrapSmall(1);
    AlignUpWraps(1, innerAlign);
    WrapSum(AlignUp(1, innerAlign), SizeOfRef(scopes, rank, source, inner));
    AlignUpWraps(AlignUp(1, innerAlign) + SizeOfRef(scopes, rank, source, inner), innerAlign);
    var total := WrapU32(AlignUp32(1, innerAlign) + innerSize);
    r := AlignUp32(total, innerAlign);
  }

  // ----- lifting elements from memory -----

  /** A composite and all composites below it carry the scope their indices refer to. */
  ghost predicate CarriesRef(scopes: Scopes, rank: Rank, local: Option<nat>, ref: ValTypeRef)
    requires Ranked(scopes, rank)
    decreases RefRank(scopes, rank, local, ref), 0
  {
    ResolveInner(scopes, local, ref).Some? ==>
      var td := ResolveInner(scopes, local, ref).value;
      var n := rank(local.value, ref.typeIdx);
      assert RefsBelow(scopes, rank, Effective(td, local), td, n);
      CarriesDef(scopes, rank, td, n)
  }

  ghost predicate CarriesDef(scopes: Scopes, rank: Rank, td: TypeDef, n: nat)
    requires Ranked(scopes, rank) && SourceBelow(scopes, rank, td, n)
    decreases n, 2
  {
    match td.shape
    case RecordDef(fields) =>
      td.source.Some? && (RecordRefsBelow(scopes, rank, td, n);
      forall i :: 0 <= i < |fields| ==> CarriesRef(scopes, rank, td.source, fields[i].ref))
    case OptionDef(inner) => td.source.Some? && CarriesRef(scopes, rank, td.source, inner)
    case _ => true
  }

  /** A little-endian read; out of bounds it yields zero. */
  function ReadOr0(mem: seq<byte>, offset: nat, n: nat): (v: nat)
    ensures v < Pow256(n)
  {
    if offset + n <= |mem| then GetLe(mem, offset, n) else 0
  }

  /** A primitive element: only the integer kinds up to 32 bits and bool are read; the others lift to zero. */
  function LiftPrimFromMemory(mem: seq<byte>, offset: nat, ref: ValTypeRef): Val {
    Pow256Values();
    if !ref.isPrimitive then Val.U32(0)
    else
      match ref.primitive
      case 0x7f => Val.Bool(ReadOr0(mem, offset, 1) != 0)
      case 0x7e => Val.S8(ToInt8(ReadOr0(mem, offset, 1)))
      case 0x7d => Val.U8(ReadOr0(mem, offset, 1))
      case 0x7c => Val.S16(ToInt16(ReadOr0(mem, offset, 2)))
      case 0x7b => Val.U16(ReadOr0(mem, offset, 2))
      case 0x7a => Val.S32(ToInt32(ReadOr0(mem, offset, 4)))
      case 0x79 => Val.U32(ReadOr0(mem, offset, 4))
      case _ => Val.U32(0)
  }

  function Bytes8(mem: seq<byte>, ptr: nat, len: nat): seq<Val>
    requires ptr + len <= |mem|
  {
    seq(len, i requires 0 <= i < len => Val.U8(mem[ptr + i]))
  }

  /** What the placement of a value of the given size and alignment must satisfy to stay clear of its neighbours. */
  ghost predicate PlacedAt(offset: nat, size: nat, align: nat)
    requires IsAlign(align)
  {
    Rem(offset, align) == 0 && offset + size <= TWO_32
  }

  /** The elements of a nested list: bytes if they are readable, otherwise none. */
  function NestedList(mem: seq<byte>, elem: ValTypeRef, ptr: nat, len: nat): seq<Val> {
    if elem.isPrimitive && elem.primitive == 0x7d && ptr + len <= |mem| then Bytes8(mem, ptr, len) else []
  }

  // ----- the value at an address, by exact offsets -----

  /** The elements of the nested lists, by element type, pointer and length. */
  type Lists = (ValTypeRef, nat, nat) -> seq<Val>

  function ListsOf(mem: seq<byte>): Lists {
    (elem: ValTypeRef, ptr: nat, len: nat) => NestedList(mem, elem, ptr, len)
  }

  ghost function RefAt(scopes: Scopes, rank: Rank, lists: Lists, mem: seq<byte>, at: nat, local: Option<nat>, ref: ValTypeRef): Val
    requires Ranked(scopes, rank)
    decreases RefRank(scopes, rank, local, ref), 0
  {
    var td := ResolveInner(scopes, local, ref);
    if td.None? then LiftPrimFromMemory(mem, at, ref)
    else
      var n := rank(local.value, ref.typeIdx);
      assert RefsBelow(scopes, rank, Effective(td.value, local), td.value, n);
      DefAt(scopes, rank, lists, mem, at, td.value, n)
  }

  /** Every field of a record lies at its offset, and the payload of an option behind the padded discriminant. */
  ghost function DefAt(scopes: Scopes, rank: Rank, lists: Lists, mem: seq<byte>, at: nat, td: TypeDef, n: nat): Val
    requires Ranked(scopes, rank) && SourceBelow(scopes, rank, td, n)
    decreases n, 2
  {
    match td.shape
    case EnumDef(names) =>
      var disc := ReadOr0(mem, at, 1);
      Val.Enum(if disc < |names| then names[disc] else [])
    case RecordDef(fields) =>
      RecordRefsBelow(scopes, rank, td, n);
      Val.Record(FieldVals(scopes, rank, lists, mem, at, td.source, fields, |fields|, n))
    case OptionDef(inner) =>
      if ReadOr0(mem, at, 1) == 0 then Val.Optional(None)
      else
        var payload := at + AlignUp(1, AlignOfRef(scopes, rank, td.source, inner));
        Val.Optional(Some(RefAt(scopes, rank, lists, mem, payload, td.source, inner)))
    case ListDef(elem) => Val.List(lists(elem, ReadOr0(mem, at, 4), ReadOr0(mem, at + 4, 4)))
    case _ => Val.U32(0)
  }

  ghost function FieldVals(scopes: Scopes, rank: Rank, lists: Lists, mem: seq<byte>, at: nat, local: Option<nat>,
                           fields: seq<FieldDef>, k: nat, n: nat): map<Bytes, Val>
    requires Ranked(scopes, rank) && FieldsBelow(scopes, rank, local, fields, n) && k <= |fields|
    decreases n, 1, k
  {
    if k == 0 then map[]
    else
      assert RefRank(scopes, rank, local, fields[k - 1].ref) <= n;
      var v := RefAt(scopes, rank, lists, mem, at + FieldAt(scopes, rank, local, fields, k - 1, n), local, fields[k - 1].ref);
      FieldVals(scopes, rank, lists, mem, at, local, fields, k - 1, n)[fields[k - 1].name := v]
  }

  // ----- the value depends on its own block only -----

  function ByteAt(mem: seq<byte>, i: nat): Option<byte> {
    if i < |mem| then Some(mem[i]) else None
  }

  /** The bytes of a block; None past the end of the memory. */
  function Block(mem: seq<byte>, at: nat, size: nat): seq<Option<byte>> {
    seq(size, i requires 0 <= i < size => ByteAt(mem, at + i))
  }

  lemma SubBlock(mem: seq<byte>, at: nat, mem': seq<byte>, at': nat, size: nat, o: nat, n: nat)
    requires Block(mem, at, size) == Block(mem', at', size) && o + n <= size
    ensures Block(mem, at + o, n) == Block(mem', at' + o, n)
  {
    var b, b' := Block(mem, at + o, n), Block(mem', at' + o, n);
    forall i | 0 <= i < n ensures b[i] == b'[i] {
      assert Block(mem, at, size)[o + i] == Block(mem', at', size)[o + i];
    }
  }

  lemma SameByte(mem: seq<byte>, at: nat, mem': seq<byte>, at': nat, n: nat, i: nat)
    requires Block(mem, at, n) == Block(mem', at', n) && i < n
    ensures ByteAt(mem, at + i) == ByteAt(mem', at' + i)
  {
    assert Block(mem, at, n)[i] == ByteAt(mem, at + i) && Block(mem', at', n)[i] == ByteAt(mem', at' + i);
  }

  lemma ReadLocal(mem: seq<byte>, at: nat, mem': seq<byte>, at': nat, n: nat)
    requires Block(mem, at, n) == Block(mem', at', n) && n > 0
    ensures ReadOr0(mem, at, n) == ReadOr0(mem', at', n)
  {
    hide Block;
    SameByte(mem, at, mem', at', n, n - 1);
    if at + n <= |mem| {
      var b, b' := mem[at..at + n], mem'[at'..at' + n];
      forall i | 0 <= i < n ensures b[i] == b'[i] {
        SameByte(mem, at, mem', at', n, i);
      }
      assert b == b';
    }
  }

  lemma PrimLocal(mem: seq<byte>, at: nat, mem': seq<byte>, at': nat, ref: ValTypeRef)
    requires Block(mem, at, PrimSize(ref.primitive)) == Block(mem', at', PrimSize(ref.primitive))
    ensures LiftPrimFromMemory(mem, at, ref) == LiftPrimFromMemory(mem', at', ref)
  {
    hide ReadOr0, Block;
    ReadLocal(mem, at, mem', at', PrimSize(ref.primitive));
  }

  lemma {:induction false} RefLocal(scopes: Scopes, rank: Rank, lists: Lists, mem: seq<byte>, at: nat, mem': seq<byte>, at': nat,
                                    local: Option<nat>, ref: ValTypeRef)
    requires Ranked(scopes, rank)
    requires Block(mem, at, SizeOfRef(scopes, rank, local, ref)) == Block(mem', at', SizeOfRef(scopes, rank, local, ref))
    ensures RefAt(scopes, rank, lists, mem, at, local, ref) == RefAt(scopes, rank, lists, mem', at', local, ref)
    decreases RefRank(scopes, rank, local, ref), 0
  {
    hide Block, DefAt, SizeOfDef, LiftPrimFromMemory;
    var td := ResolveInner(scopes, local, ref);
    if td.Some? {
      var n := rank(local.value, ref.typeIdx);
      assert RefsBelow(scopes, rank, Effective(td.value, local), td.value, n);
      DefLocal(scopes, rank, lists, mem, at, mem', at', td.value, n);
    } else if ref.isPrimitive {
      PrimLocal(mem, at, mem', at', ref);
    } else {
      NotRead(mem, at, mem', at', ref);
    }
  }

  lemma NotRead(mem: seq<byte>, at: nat, mem': seq<byte>, at': nat, ref: ValTypeRef)
    requires !ref.isPrimitive
    ensures LiftPrimFromMemory(mem, at, ref) == LiftPrimFromMemory(mem', at', ref)
  {
  }

  /** A value is the same in two memories, at two places, whose blocks of its size agree; nested lists aside. */
  lemma {:induction false} DefLocal(scopes: Scopes, rank: Rank, lists: Lists, mem: seq<byte>, at: nat, mem': seq<byte>, at': nat,
                                    td: TypeDef, n: nat)
    requires Ranked(scopes, rank) && SourceBelow(scopes, rank, td, n)
    requires Block(mem, at, SizeOfDef(scopes, rank, td, n)) == Block(mem', at', SizeOfDef(scopes, rank, td, n))
    ensures DefAt(scopes, rank, lists, mem, at, td, n) == DefAt(scopes, rank, lists, mem', at', td, n)
    decreases n, 2
  {
    hide Block, ReadOr0, AlignUp, Rem, RefAt, FieldVals, SizeOfRef, AlignOfRef, FieldsEnd, FieldsAlign;
    var size := SizeOfDef(scopes, rank, td, n);
    match td.shape
    case EnumDef(_) => WordLocal(mem, at, mem', at', size, 0, 1);
    case RecordDef(fields) =>
      RecordRefsBelow(scopes, rank, td, n);
      FieldsLocal(scopes, rank, lists, mem, at, mem', at', td, |fields|, n);
    case OptionDef(inner) =>
      OptionLands(scopes, rank, td, n, 0);
      var o := AlignUp(1, AlignOfRef(scopes, rank, td.source, inner));
      WordLocal(mem, at, mem', at', size, 0, 1);
      SubBlock(mem, at, mem', at', size, o, SizeOfRef(scopes, rank, td.source, inner));
      assert inner in Refs(td.shape);
      RefLocal(scopes, rank, lists, mem, at + o, mem', at' + o, td.source, inner);
    case ListDef(_) =>
      WordLocal(mem, at, mem', at', size, 0, 4);
      WordLocal(mem, at, mem', at', size, 4, 4);
    case _ =>
  }

  lemma WordLocal(mem: seq<byte>, at: nat, mem': seq<byte>, at': nat, size: nat, o: nat, n: nat)
    requires Block(mem, at, size) == Block(mem', at', size) && o + n <= size && n > 0
    ensures ReadOr0(mem, at + o, n) == ReadOr0(mem', at' + o, n)
  {
    SubBlock(mem, at, mem', at', size, o, n);
    ReadLocal(mem, at + o, mem', at' + o, n);
  }

  lemma {:induction false} FieldsLocal(scopes: Scopes, rank: Rank, lists: Lists, mem: seq<byte>, at: nat, mem': seq<byte>, at': nat,
                                       td: TypeDef, k: nat, n: nat)
    requires Ranked(scopes, rank) && SourceBelow(scopes, rank, td, n) && td.shape.RecordDef? && k <= |td.shape.fields|
    requires FieldsBelow(scopes, rank, td.source, td.shape.fields, n)
    requires Block(mem, at, SizeOfDef(scopes, rank, td, n)) == Block(mem', at', SizeOfDef(scopes, rank, td, n))
    ensures FieldVals(scopes, rank, lists, mem, at, td.source, td.shape.fields, k, n)
         == FieldVals(scopes, rank, lists, mem', at', td.source, td.shape.fields, k, n)
    decreases n, 1, k
  {
    hide Block, AlignUp, Rem, RefAt, SizeOfDef, SizeOfRef, AlignOfRef, FieldAt, FieldsEnd;
    if k > 0 {
      var fields := td.shape.fields;
      FieldsLocal(scopes, rank, lists, mem, at, mem', at', td, k - 1, n);
      RemZero(AlignOfDef(scopes, rank, td, n));
      FieldLands(scopes, rank, td, k - 1, n, 0);
      var o, ref := FieldAt(scopes, rank, td.source, fields, k - 1, n), fields[k - 1].ref;
      SubBlock(mem, at, mem', at', SizeOfDef(scopes, rank, td, n), o, SizeOfRef(scopes, rank, td.source, ref));
      assert RefRank(scopes, rank, td.source, ref) <= n;
      RefLocal(scopes, rank, lists, mem, at + o, mem', at' + o, td.source, ref);
    }
  }

  lemma RemZero(a: nat)
    requires IsAlign(a)
    ensures Rem(0, a) == 0
  {
  }

  // ----- the lift -----

  /** Wherever the type fits, the value is the one at the exact offsets. */
  method LiftValFromMemory(scopes: Scopes, ghost rank: Rank, mem: seq<byte>, offset: uint32, ref: ValTypeRef,
                           resolved: Option<TypeDef>, local: Option<nat>, ghost n: nat)
    returns (v: Val)
    requires Ranked(scopes, rank)
    requires resolved.Some? ==> RefsBelow(scopes, rank, Effective(resolved.value, local), resolved.value, n)
    ensures resolved.None? ==> v == LiftPrimFromMemory(mem, offset, ref)
    ensures resolved.Some? && CarriesDef(scopes, rank, resolved.value, n) ==>
      (PlacedAt(offset, SizeOfDef(scopes, rank, resolved.value, n), AlignOfDef(scopes, rank, resolved.value, n)) ==>
         v == DefAt(scopes, rank, ListsOf(mem), mem, offset, resolved.value, n))
    decreases if resolved.Some? then n + 1 else 0, 0
  {
    hide Rem, AlignUp, AlignUp32, WrapU32, LiftPrimFromMemory, ReadOr0;
    if resolved.None? {
      return LiftPrimFromMemory(mem, offset, ref);
    }
    var td := resolved.value;
    match td.shape
    case EnumDef(names) =>
      var disc := ReadOr0(mem, offset, 1);
      v := Val.Enum(if disc < |names| then names[disc] else []);
    case RecordDef(fields) =>
      v := LiftRecordFromMemory(scopes, rank, mem, offset, td, Effective(td, local), n);
    case OptionDef(inner) =>
      v := LiftOptionFromMemory(scopes, rank, mem, offset, td, Effective(td, local), n);
    case ListDef(elem) =>
      if offset + 8 <= TWO_32 {
        WrapSmall(offset + 4);
      }
      var ptr, len := ReadOr0(mem, offset, 4), ReadOr0(mem, WrapU32(offset + 4), 4);
      v := Val.List(NestedList(mem, elem, ptr, len));
    case _ => v := Val.U32(0);
  }

  /** Field k of an aligned record: the absolute walk reaches it at base + FieldAt, aligned and inside the record. */
  lemma FieldLands(scopes: Scopes, rank: Rank, td: TypeDef, k: nat, n: nat, base: nat)
    requires Ranked(scopes, rank) && SourceBelow(scopes, rank, td, n) && td.shape.RecordDef? && k < |td.shape.fields|
    requires Rem(base, AlignOfDef(scopes, rank, td, n)) == 0
    ensures FieldsBelow(scopes, rank, td.source, td.shape.fields, n)
    ensures var fields, ref := td.shape.fields, td.shape.fields[k].ref;
      var at, a := FieldAt(scopes, rank, td.source, fields, k, n), AlignOfRef(scopes, rank, td.source, ref);
      && AlignUp(base + FieldsEnd(scopes, rank, td.source, fields[..k], n), a) == base + at
      && Rem(base + at, a) == 0
      && at + SizeOfRef(scopes, rank, td.source, ref) == FieldsEnd(scopes, rank, td.source, fields[..k + 1], n)
      && at + SizeOfRef(scopes, rank, td.source, ref) <= SizeOfDef(scopes, rank, td, n)
  {
    hide Rem, AlignUp;
    var fields, ref := td.shape.fields, td.shape.fields[k].ref;
    RecordRefsBelow(scopes, rank, td, n);
    FieldPlaced(scopes, rank, td.source, fields, k, n);
    var a, b := AlignOfRef(scopes, rank, td.source, ref), FieldsAlign(scopes, rank, td.source, fields, n);
    AlignUpShift(base, FieldsEnd(scopes, rank, td.source, fields[..k], n), a, b);
    RemAdd(base, FieldAt(scopes, rank, td.source, fields, k, n), a);
    AlignUpFacts(FieldsEnd(scopes, rank, td.source, fields, n), b);
  }

  /** v is the value at the offset, if the type fits there. */
  ghost predicate ReadRight(scopes: Scopes, rank: Rank, mem: seq<byte>, local: Option<nat>, ref: ValTypeRef, offset: nat, v: Val)
    requires Ranked(scopes, rank)
  {
    PlacedAt(offset, SizeOfRef(scopes, rank, local, ref), AlignOfRef(scopes, rank, local, ref)) ==>
      v == RefAt(scopes, rank, ListsOf(mem), mem, offset, local, ref)
  }

  /** A field read at the wrapped offset is the field at the exact one; of size zero, it may lie just past the address space. */
  lemma FieldRead(scopes: Scopes, rank: Rank, mem: seq<byte>, td: TypeDef, k: nat, n: nat, base: nat, fieldOffset: uint32, v: Val)
    requires Ranked(scopes, rank) && SourceBelow(scopes, rank, td, n) && td.shape.RecordDef? && k < |td.shape.fields|
    requires PlacedAt(base, SizeOfDef(scopes, rank, td, n), AlignOfDef(scopes, rank, td, n))
    requires FieldsBelow(scopes, rank, td.source, td.shape.fields, n)
    requires fieldOffset == WrapU32(base + FieldAt(scopes, rank, td.source, td.shape.fields, k, n))
    requires ReadRight(scopes, rank, mem, td.source, td.shape.fields[k].ref, fieldOffset, v)
    ensures v == RefAt(scopes, rank, ListsOf(mem), mem, base + FieldAt(scopes, rank, td.source, td.shape.fields, k, n),
                       td.source, td.shape.fields[k].ref)
  {
    hide Rem, AlignUp, RefAt, FieldAt, SizeOfDef, SizeOfRef, AlignOfDef, AlignOfRef, FieldsEnd;
    FieldLands(scopes, rank, td, k, n, base);
    var at, ref := base + FieldAt(scopes, rank, td.source, td.shape.fields, k, n), td.shape.fields[k].ref;
    if at == TWO_32 {
      RemZero(AlignOfRef(scopes, rank, td.source, ref));
      assert Block(mem, 0, 0) == Block(mem, at, 0);
      RefLocal(scopes, rank, ListsOf(mem), mem, 0, mem, at, td.source, ref);
    } else {
      WrapSmall(at);
    }
  }

  /** Resolves a reference in its scope and lifts it. */
  method LiftRefFromMemory(scopes: Scopes, ghost rank: Rank, mem: seq<byte>, offset: uint32, ref: ValTypeRef, local: Option<nat>)
    returns (v: Val)
    requires Ranked(scopes, rank)
    ensures CarriesRef(scopes, rank, local, ref) ==> ReadRight(scopes, rank, mem, local, ref, offset, v)
    decreases RefRank(scopes, rank, local, ref), 1
  {
    hide Rem, AlignUp, AlignUp32, WrapU32, SizeOfDef, AlignOfDef, CarriesDef, PlacedAt, DefAt;
    var resolved := ResolveInner(scopes, local, ref);
    ghost var m := if resolved.Some? then rank(local.value, ref.typeIdx) else 0;
    assert resolved.Some? ==> RefsBelow(scopes, rank, Effective(resolved.value, local), resolved.value, m);
    v := LiftValFromMemory(scopes, rank, mem, offset, ref, resolved, local, m);
  }

  /** State of the field walk after k fields: where it stands and what it has read. */
  ghost predicate WalkOk(scopes: Scopes, rank: Rank, mem: seq<byte>, td: TypeDef, n: nat, base: nat, k: nat, fieldOffset: uint32,
                         lifted: map<Bytes, Val>)
    requires Ranked(scopes, rank) && SourceBelow(scopes, rank, td, n) && td.shape.RecordDef? && k <= |td.shape.fields|
    requires FieldsBelow(scopes, rank, td.source, td.shape.fields, n)
  {
    && fieldOffset == WrapU32(base + FieldsEnd(scopes, rank, td.source, td.shape.fields[..k], n))
    && lifted == FieldVals(scopes, rank, ListsOf(mem), mem, base, td.source, td.shape.fields, k, n)
  }

  lemma WalkStep(scopes: Scopes, rank: Rank, mem: seq<byte>, td: TypeDef, n: nat, base: nat, k: nat, fieldOffset: uint32,
                 lifted: map<Bytes, Val>, fieldAlign: nat, fieldSize: uint32, v: Val)
    requires Ranked(scopes, rank) && SourceBelow(scopes, rank, td, n) && td.shape.RecordDef? && k < |td.shape.fields|
    requires FieldsBelow(scopes, rank, td.source, td.shape.fields, n)
    requires PlacedAt(base, SizeOfDef(scopes, rank, td, n), AlignOfDef(scopes, rank, td, n))
    requires WalkOk(scopes, rank, mem, td, n, base, k, fieldOffset, lifted)
    requires fieldAlign == AlignOfRef(scopes, rank, td.source, td.shape.fields[k].ref)
    requires fieldSize == WrapU32(SizeOfRef(scopes, rank, td.source, td.shape.fields[k].ref))
    requires ReadRight(scopes, rank, mem, td.source, td.shape.fields[k].ref, AlignUp32(fieldOffset, fieldAlign), v)
    ensures WalkOk(scopes, rank, mem, td, n, base, k + 1, WrapU32(AlignUp32(fieldOffset, fieldAlign) + fieldSize),
                   lifted[td.shape.fields[k].name := v])
  {
    hide Rem, AlignUp, AlignUp32, WrapU32, SizeOfDef, AlignOfDef, FieldsEnd, FieldAt, SizeOfRef, AlignOfRef, RefAt, ReadRight;
    FieldStep(scopes, rank, td, k, n, base, fieldOffset, fieldAlign, fieldSize);
    FieldRead(scopes, rank, mem, td, k, n, base, AlignUp32(fieldOffset, fieldAlign), v);
  }

  method LiftRecordFromMemory(scopes: Scopes, ghost rank: Rank, mem: seq<byte>, offset: uint32, td: TypeDef,
                              local: Option<nat>, ghost n: nat)
    returns (v: Val)
    requires Ranked(scopes, rank) && td.shape.RecordDef? && local == Effective(td, local)
    requires RefsBelow(scopes, rank, local, td, n)
    ensures CarriesDef(scopes, rank, td, n) && PlacedAt(offset, SizeOfDef(scopes, rank, td, n), AlignOfDef(scopes, rank, td, n)) ==>
      v == DefAt(scopes, rank, ListsOf(mem), mem, offset, td, n)
    decreases n, 3
  {
    hide Rem, AlignUp, AlignUp32, WrapU32, SizeOfDef, AlignOfDef, FieldsEnd, ReadRight, PlacedAt;
    var fields := td.shape.fields;
    ghost var good := CarriesDef(scopes, rank, td, n) && PlacedAt(offset, SizeOfDef(scopes, rank, td, n), AlignOfDef(scopes, rank, td, n));
    var lifted: map<Bytes, Val> := map[];
    var fieldOffset: uint32 := offset;
    RecordRefsBelow(scopes, rank, td, n);
    WalkStart(scopes, rank, mem, td, n, offset);
    for k := 0 to |fields|
      invariant good ==> WalkOk(scopes, rank, mem, td, n, offset, k, fieldOffset, lifted)
    {
      hide WalkOk;
      var ref := fields[k].ref;
      FieldRefIn(td, k);
      var resolved := ResolveInner(scopes, local, ref);
      var fieldSize := ElemSizeFromTypeRef(scopes, rank, local, ref, resolved);
      var fieldAlign := ElemAlignFromTypeRef(scopes, rank, local, ref, resolved);
      var fv := LiftRefFromMemory(scopes, rank, mem, AlignUp32(fieldOffset, fieldAlign), ref, local);
      if good {
        WalkStep(scopes, rank, mem, td, n, offset, k, fieldOffset, lifted, fieldAlign, fieldSize, fv);
      }
      lifted := lifted[fields[k].name := fv];
      fieldOffset := WrapU32(AlignUp32(fieldOffset, fieldAlign) + fieldSize);
    }
    v := Val.Record(lifted);
  }

  lemma WalkStart(scopes: Scopes, rank: Rank, mem: seq<byte>, td: TypeDef, n: nat, base: uint32)
    requires Ranked(scopes, rank) && SourceBelow(scopes, rank, td, n) && td.shape.RecordDef?
    requires FieldsBelow(scopes, rank, td.source, td.shape.fields, n)
    ensures WalkOk(scopes, rank, mem, td, n, base, 0, base, map[])
  {
  }

  /** The uint32 walk over one field follows the exact walk modulo 2^32. */
  lemma FieldStep(scopes: Scopes, rank: Rank, td: TypeDef, k: nat, n: nat, base: nat, fieldOffset: uint32, fieldAlign: nat, fieldSize: uint32)
    requires Ranked(scopes, rank) && SourceBelow(scopes, rank, td, n) && td.shape.RecordDef? && k < |td.shape.fields|
    requires Rem(base, AlignOfDef(scopes, rank, td, n)) == 0
    requires FieldsBelow(scopes, rank, td.source, td.shape.fields, n)
    requires var fields, ref := td.shape.fields, td.shape.fields[k].ref;
      && fieldOffset == WrapU32(base + FieldsEnd(scopes, rank, td.source, fields[..k], n))
      && fieldAlign == AlignOfRef(scopes, rank, td.source, ref)
      && fieldSize == WrapU32(SizeOfRef(scopes, rank, td.source, ref))
    ensures AlignUp32(fieldOffset, fieldAlign) == WrapU32(base + FieldAt(scopes, rank, td.source, td.shape.fields, k, n))
    ensures WrapU32(AlignUp32(fieldOffset, fieldAlign) + fieldSize)
            == WrapU32(base + FieldsEnd(scopes, rank, td.source, td.shape.fields[..k + 1], n))
  {
    hide Rem, AlignUp, AlignUp32, WrapU32;
    FieldLands(scopes, rank, td, k, n, base);
    AlignUpWraps(base + FieldsEnd(scopes, rank, td.source, td.shape.fields[..k], n), fieldAlign);
    WrapSum(base + FieldAt(scopes, rank, td.source, td.shape.fields, k, n), SizeOfRef(scopes, rank, td.source, td.shape.fields[k].ref));
  }

  method LiftOptionFromMemory(scopes: Scopes, ghost rank: Rank, mem: seq<byte>, offset: uint32, td: TypeDef,
                              local: Option<nat>, ghost n: nat)
    returns (v: Val)
    requires Ranked(scopes, rank) && td.shape.OptionDef? && local == Effective(td, local)
    requires RefsBelow(scopes, rank, local, td, n)
    ensures CarriesDef(scopes, rank, td, n) && PlacedAt(offset, SizeOfDef(scopes, rank, td, n), AlignOfDef(scopes, rank, td, n)) ==>
      v == DefAt(scopes, rank, ListsOf(mem), mem, offset, td, n)
    decreases n, 3
  {
    hide Rem, AlignUp, AlignUp32, WrapU32, ReadOr0, RefAt, SizeOfRef, AlignOfRef, ReadRight;
    if ReadOr0(mem, offset, 1) == 0 {
      return Val.Optional(None);
    }
    var inner := td.shape.inner;
    assert inner in Refs(td.shape);
    var innerAlign := ElemAlignFromTypeRef(scopes, rank, local, inner, ResolveInner(scopes, local, inner));
    var payloadOffset := AlignUp32(WrapU32(offset + 1), innerAlign);
    var iv := LiftRefFromMemory(scopes, rank, mem, payloadOffset, inner, local);
    if CarriesDef(scopes, rank, td, n) && PlacedAt(offset, SizeOfDef(scopes, rank, td, n), AlignOfDef(scopes, rank, td, n)) {
      PayloadRead(scopes, rank, mem, td, n, offset, iv);
    }
    v := Val.Optional(Some(iv));
  }

  /** A payload read at the wrapped offset is the payload at the exact one. */
  lemma PayloadRead(scopes: Scopes, rank: Rank, mem: seq<byte>, td: TypeDef, n: nat, base: uint32, v: Val)
    requires Ranked(scopes, rank) && SourceBelow(scopes, rank, td, n) && td.shape.OptionDef?
    requires PlacedAt(base, SizeOfDef(scopes, rank, td, n), AlignOfDef(scopes, rank, td, n))
    requires ReadRight(scopes, rank, mem, td.source, td.shape.inner,
                       AlignUp32(WrapU32(base + 1), AlignOfRef(scopes, rank, td.source, td.shape.inner)), v)
    ensures v == RefAt(scopes, rank, ListsOf(mem), mem, base + AlignUp(1, AlignOfRef(scopes, rank, td.source, td.shape.inner)),
                       td.source, td.shape.inner)
  {
    hide Rem, AlignUp, AlignUp32, RefAt, SizeOfRef, AlignOfRef;
    OptionLands(scopes, rank, td, n, base);
    var a := AlignOfRef(scopes, rank, td.source, td.shape.inner);
    AlignUpWraps(base + 1, a);
    var at := base + AlignUp(1, a);
    if at == TWO_32 {
      RemZero(a);
      assert Block(mem, 0, 0) == Block(mem, at, 0);
      RefLocal(scopes, rank, ListsOf(mem), mem, 0, mem, at, td.source, td.shape.inner);
    } else {
      WrapSmall(at);
    }
  }

  /** The payload of an aligned option lies aligned behind the discriminant and inside the option. */
  lemma OptionLands(scopes: Scopes, rank: Rank, td: TypeDef, n: nat, base: nat)
    requires Ranked(scopes, rank) && SourceBelow(scopes, rank, td, n) && td.shape.OptionDef?
    ensures var inner := td.shape.inner;
      var a, size := AlignOfRef(scopes, rank, td.source, inner), SizeOfRef(scopes, rank, td.source, inner);
      && 1 <= AlignUp(1, a) && AlignUp(1, a) + size <= SizeOfDef(scopes, rank, td, n)
      && (Rem(base, a) == 0 ==> AlignUp(base + 1, a) == base + AlignUp(1, a) && Rem(base + AlignUp(1, a), a) == 0)
  {
    hide Rem, AlignUp;
    var inner := td.shape.inner;
    var a, size := AlignOfRef(scopes, rank, td.source, inner), SizeOfRef(scopes, rank, td.source, inner);
    AlignUpFacts(1, a);
    AlignUpFacts(AlignUp(1, a) + size, a);
    if Rem(base, a) == 0 {
      AlignUpShift(base, 1, a, a);
      RemAdd(base, AlignUp(1, a), a);
    }
  }

  lemma {:induction false} RemMul(i: nat, size: nat, a: nat)
    requires IsAlign(a) && Rem(size, a) == 0
    ensures Rem(i * size, a) == 0
  {
    if i == 0 {
      assert i * size == 0;
    } else {
      RemMul(i - 1, size, a);
      assert i * size == (i - 1) * size + size;
      RemAdd((i - 1) * size, size, a);
    }
  }

  /** The address of element i. */
  function ElementAt(ptr: nat, i: nat, size: nat): nat {
    ptr + i * size
  }

  /** The list is aligned and ends inside the 32-bit address space. */
  ghost predicate ListPlaced(ptr: nat, length: nat, size: nat, a: nat)
    requires IsAlign(a)
  {
    Rem(ptr, a) == 0 && ElementAt(ptr, length, size) <= TWO_32
  }

  /** Element i of an aligned, in-range list is itself aligned and in range. */
  lemma ElementPlaced(ptr: nat, i: nat, length: nat, size: nat, a: nat)
    requires IsAlign(a) && ListPlaced(ptr, length, size, a) && Rem(size, a) == 0 && i < length
    ensures ElementAt(ptr, i, size) + size <= TWO_32 && PlacedAt(ElementAt(ptr, i, size), size, a)
  {
    hide Rem;
    assert (i + 1) * size <= length * size by { MulMono(i + 1, length, size); }
    assert (i + 1) * size == i * size + size;
    RemMul(i, size, a);
    RemAdd(ptr, i * size, a);
  }

  lemma MulMono(x: nat, y: nat, k: nat)
    requires x <= y
    ensures x * k <= y * k
  {
  }

  function ElementOffset(ptr: uint32, i: nat, elemSize: uint32): uint32 {
    WrapU32(ptr + WrapU32(i * elemSize))
  }

  /** In range, the wrapped address is the exact one. */
  lemma ElementOffsetExact(ptr: uint32, i: nat, size: nat, elemSize: uint32)
    requires elemSize == WrapU32(size) && elemSize > 0 && ElementAt(ptr, i, size) + size <= TWO_32
    ensures ElementOffset(ptr, i, elemSize) == ElementAt(ptr, i, size)
  {
    assert 0 <= i * size;
    assert elemSize == size;
  }

  /** A list of composites: element i is the value at its place in the block. */
  method LiftListFromMemory(scopes: Scopes, ghost rank: Rank, mem: seq<byte>, ptr: uint32, length: uint32, elemType: ValTypeRef,
                            elemResolved: Option<TypeDef>, local: Option<nat>, ghost n: nat)
    returns (vals: seq<Val>)
    requires Ranked(scopes, rank)
    requires elemResolved.Some? ==> RefsBelow(scopes, rank, Effective(elemResolved.value, local), elemResolved.value, n)
    ensures vals == [] || |vals| == length
    ensures elemResolved.None? ==> vals == []
    ensures elemResolved.Some? && CarriesDef(scopes, rank, elemResolved.value, n) ==>
      var td, size := elemResolved.value, SizeOfDef(scopes, rank, elemResolved.value, n);
      ListPlaced(ptr, length, size, AlignOfDef(scopes, rank, td, n)) ==>
        && (length > 0 && 0 < size < TWO_32 ==> |vals| == length)
        && ElementsRead(scopes, rank, mem, td, n, ptr, size, vals)
  {
    hide Rem, AlignUp, WrapU32, SizeOfDef, AlignOfDef, ElementAt, ElementOffset, ListPlaced, PlacedAt, DefAt;
    if length == 0 || elemResolved.None? {
      return [];
    }
    var td := elemResolved.value;
    var elemSize := ElemSizeFromTypeDef(scopes, rank, td, n);
    ghost var size, a := SizeOfDef(scopes, rank, td, n), AlignOfDef(scopes, rank, td, n);
    SizeOfDefAligned(scopes, rank, td, n);
    if size < TWO_32 {
      WrapSmall(size);
    }
    if elemSize == 0 {
      return [];
    }
    ghost var good := CarriesDef(scopes, rank, td, n) && ListPlaced(ptr, length, size, a);
    vals := [];
    for i := 0 to length
      invariant |vals| == i
      invariant good ==> ElementsRead(scopes, rank, mem, td, n, ptr, size, vals)
    {
      if good {
        ElementPlaced(ptr, i, length, size, a);
        ElementOffsetExact(ptr, i, size, elemSize);
      }
      var v := LiftValFromMemory(scopes, rank, mem, ElementOffset(ptr, i, elemSize), elemType, elemResolved, local, n);
      vals := vals + [v];
    }
  }

  ghost predicate ElementsRead(scopes: Scopes, rank: Rank, mem: seq<byte>, td: TypeDef, n: nat, ptr: nat, size: nat, vals: seq<Val>)
    requires Ranked(scopes, rank) && SourceBelow(scopes, rank, td, n)
  {
    forall i :: 0 <= i < |vals| ==> vals[i] == DefAt(scopes, rank, ListsOf(mem), mem, ElementAt(ptr, i, size), td, n)
  }
}
