// Values of scalar, string and nested list types in guest memory: the writer, the reader, and the round trip.

module GuestMemory {
  import opened Words
  import opened Wrappers
  import opened Values
  import opened Types
  import opened LittleEndian

  /** The types whose memory form the writer and the reader agree on. */
  predicate InMemory(t: ValType) {
    match t
    case Prim(_) => true
    case ListType(elem) => InMemory(elem)
    case _ => false
  }

  type MemType = t: ValType | InMemory(t) witness Prim(PBool)

  /** Bytes of a scalar. */
  function ScalarSize(k: PrimKind): (n: nat)
    requires k != PString
    ensures n == 1 || n == 2 || n == 4 || n == 8
  {
    if k == PBool || k == PS8 || k == PU8 then 1
    else if k == PS16 || k == PU16 then 2
    else if k == PS64 || k == PU64 || k == PF64 then 8
    else 4
  }

  /** A string or list is a pointer word and a length word. */
  function MemSize(t: MemType): (n: nat)
    ensures n == 1 || n == 2 || n == 4 || n == 8
  {
    if t.Prim? && t.kind != PString then ScalarSize(t.kind) else 8
  }

  /** The word a scalar is stored as; None when the value is of another kind, where the accessor panics. */
  function ScalarBits(k: PrimKind, v: Val): (bits: Option<nat>)
    requires k != PString
    ensures bits.Some? ==> bits.value < Pow256(ScalarSize(k))
  {
    Pow256Values();
    match k
    case PBool => if v.Bool? then Some(if v.b then 1 else 0) else None
    case PS8 => if v.S8? then Some(FromInt8(v.s8)) else None
    case PU8 => if v.U8? then Some(v.u8) else None
    case PS16 => if v.S16? then Some(FromInt16(v.s16)) else None
    case PU16 => if v.U16? then Some(v.u16) else None
    case PS32 => if v.S32? then Some(FromInt32(v.s32)) else None
    case PU32 => if v.U32? then Some(v.u32) else None
    case PS64 => if v.S64? then Some(FromInt64(v.s64)) else None
    case PU64 => if v.U64? then Some(v.u64) else None
    case PF32 => if v.F32? then Some(v.f32) else None
    case PF64 => if v.F64? then Some(v.f64) else None
    case PChar => if v.Char? then Some(FromInt32(v.rune)) else None
  }

  function ScalarVal(k: PrimKind, bits: nat): Val
    requires k != PString && bits < Pow256(ScalarSize(k))
  {
    Pow256Values();
    match k
    case PBool => Val.Bool(bits != 0)
    case PS8 => Val.S8(ToInt8(bits))
    case PU8 => Val.U8(bits)
    case PS16 => Val.S16(ToInt16(bits))
    case PU16 => Val.U16(bits)
    case PS32 => Val.S32(ToInt32(bits))
    case PU32 => Val.U32(bits)
    case PS64 => Val.S64(ToInt64(bits))
    case PU64 => Val.U64(bits)
    case PF32 => Val.F32(bits)
    case PF64 => Val.F64(bits)
    case PChar => Val.Char(ToInt32(bits))
  }

  lemma ScalarRoundTrip(k: PrimKind, v: Val)
    requires k != PString && ScalarBits(k, v).Some?
    ensures ScalarVal(k, ScalarBits(k, v).value) == v
  {
  }

  /** The 32-bit word at offset, if it is in bounds. */
  function Word(mem: Bytes, offset: nat): Option<uint32> {
    Pow256Values();
    if offset + 4 <= |mem| then Some(GetLe(mem, offset, 4)) else None
  }

  // ----- what the bytes say -----

  /** The kind a scalar value is of. */
  function KindOf(v: Val): Option<PrimKind> {
    match v
    case Bool(_) => Some(PBool)
    case S8(_) => Some(PS8)
    case U8(_) => Some(PU8)
    case S16(_) => Some(PS16)
    case U16(_) => Some(PU16)
    case S32(_) => Some(PS32)
    case U32(_) => Some(PU32)
    case S64(_) => Some(PS64)
    case U64(_) => Some(PU64)
    case F32(_) => Some(PF32)
    case F64(_) => Some(PF64)
    case Char(_) => Some(PChar)
    case String(_) => Some(PString)
    case _ => None
  }

  /** The number a scalar stands for; a float stands for its bits. */
  function NumberOf(v: Val): int {
    match v
    case Bool(b) => if b then 1 else 0
    case S8(n) => n
    case U8(n) => n
    case S16(n) => n
    case U16(n) => n
    case S32(n) => n
    case U32(n) => n
    case S64(n) => n
    case U64(n) => n
    case F32(bits) => bits
    case F64(bits) => bits
    case Char(rune) => rune
    case _ => 0
  }

  lemma BitsOfNumber(k: PrimKind, v: Val)
    requires k != PString && KindOf(v) == Some(k)
    ensures ScalarBits(k, v).Some?
    ensures var bits, n := ScalarBits(k, v).value, NumberOf(v);
      match ScalarSize(k)
      case 1 => bits == n % TWO_8
      case 2 => bits == n % TWO_16
      case 4 => bits == n % TWO_32
      case _ => bits == n % TWO_64
  {
    hide FromInt8, FromInt16, FromInt32, FromInt64, Pow256;
    match v
    case S8(n) => UnsignedIs(n, 0, 0, 0);
    case S16(n) => UnsignedIs(0, n, 0, 0);
    case S32(n) => UnsignedIs(0, 0, n, 0);
    case S64(n) => UnsignedIs(0, 0, 0, n);
    case Char(n) => UnsignedIs(0, 0, n, 0);
    case _ =>
  }

  /** A scalar is stored as its number in two's complement, in as many bytes as its kind has. */
  lemma ScalarBitsAre(k: PrimKind, v: Val)
    requires k != PString
    ensures ScalarBits(k, v).Some? <==> KindOf(v) == Some(k)
    ensures ScalarBits(k, v).Some? ==>
      ScalarBits(k, v).value == NumberOf(v) % Pow256(ScalarSize(k))
    ensures ScalarSize(k) == match k
      case PBool => 1 case PS8 => 1 case PU8 => 1 case PS16 => 2 case PU16 => 2 case PS32 => 4 case PU32 => 4
      case PS64 => 8 case PU64 => 8 case PF32 => 4 case PF64 => 8 case PChar => 4
  {
    hide NumberOf, Pow256;
    assert ScalarBits(k, v).Some? <==> KindOf(v) == Some(k);
    if KindOf(v) == Some(k) {
      hide ScalarBits, KindOf;
      Pow256Values();
      BitsOfNumber(k, v);
    }
  }

  /** The four bytes at a place are the word n, least significant first. */
  predicate WordAt(mem: Bytes, at: nat, n: nat) {
    && at + 4 <= |mem| && n < TWO_32
    && mem[at] == n % 0x100 && mem[at + 1] == n / 0x100 % 0x100
    && mem[at + 2] == n / 0x1_0000 % 0x100 && mem[at + 3] == n / 0x100_0000
  }

  lemma WordAtIs(mem: Bytes, at: nat)
    requires at + 4 <= |mem|
    ensures WordAt(mem, at, GetLe(mem, at, 4))
  {
    Pow256Values();
    assert Pow256(3) == 0x100_0000;
    GetLeAt(mem, at, 4, 0);
    GetLeAt(mem, at, 4, 1);
    GetLeAt(mem, at, 4, 2);
    GetLeAt(mem, at, 4, 3);
  }

  /**
    Byte by byte, v of type t lies at a place: a scalar in two's complement, least significant byte first;
    a string or list as the words of its pointer and its length, with its bytes or elements side by side there.
   */
  ghost predicate Bytewise(mem: Bytes, at: nat, t: MemType, v: Val)
    decreases t
  {
    match t
    case Prim(k) =>
      if k == PString then
        && v.String?
        && exists ptr: nat :: WordAt(mem, at, ptr) && WordAt(mem, at + 4, |v.text|)
             && (v.text != [] ==> ptr + |v.text| <= |mem| && mem[ptr..ptr + |v.text|] == v.text)
      else
        && KindOf(v) == Some(k) && at + ScalarSize(k) <= |mem|
        && forall i :: 0 <= i < ScalarSize(k) ==> mem[at + i] == ByteOf(NumberOf(v), ScalarSize(k), i)
    case ListType(elem) =>
      && v.List?
      && exists ptr: nat :: WordAt(mem, at, ptr) && WordAt(mem, at + 4, |v.elems|)
           && forall i :: 0 <= i < |v.elems| ==> Bytewise(mem, ElementAt(ptr, i, elem), elem, v.elems[i])
  }

  /** Byte i of a number in two's complement of n bytes. */
  function ByteOf(x: int, n: nat, i: nat): int {
    x % Pow256(n) / Pow256(i) % 0x100
  }

  /** Where a value lies, its bytes are those. */
  lemma {:induction false} StoredIsBytewise(mem: Bytes, region: set<nat>, at: nat, t: MemType, v: Val)
    requires Stored(mem, region, at, t, v)
    ensures Bytewise(mem, at, t, v)
    decreases t
  {
    hide Held, GetLe, ScalarBits, ScalarSize, ElementAt, WordAt;
    assert at + MemSize(t) <= |mem| by { HeldFits(mem, region, at, MemSize(t)); }
    match t
    case Prim(k) =>
      if k == PString {
        WordAtIs(mem, at);
        WordAtIs(mem, at + 4);
        if v.text != [] {
          HeldFits(mem, region, GetLe(mem, at, 4), |v.text|);
        }
      } else {
        ScalarBitsAre(k, v);
        forall i | 0 <= i < ScalarSize(k) ensures mem[at + i] == ByteOf(NumberOf(v), ScalarSize(k), i) {
          GetLeAt(mem, at, ScalarSize(k), i);
        }
      }
    case ListType(elem) =>
      WordAtIs(mem, at);
      WordAtIs(mem, at + 4);
      var ptr := GetLe(mem, at, 4);
      forall i | 0 <= i < |v.elems| ensures Bytewise(mem, ElementAt(ptr, i, elem), elem, v.elems[i]) {
        StoredIsBytewise(mem, region, ElementAt(ptr, i, elem), elem, v.elems[i]);
      }
  }

  lemma HeldFits(mem: Bytes, region: set<nat>, at: nat, n: nat)
    requires Held(mem, region, at, n)
    ensures at + n <= |mem|
  {
  }

  /** What is out of bounds reads as zero, the empty string or the empty list. */
  lemma OutOfBoundsReads(mem: Bytes, offset: uint32, t: MemType)
    requires offset + MemSize(t) > |mem|
    ensures t.ListType? && offset + 8 <= TWO_32 ==> LiftField(mem, offset, t) == Val.List([])
    ensures t == Prim(PString) && offset + 8 <= TWO_32 ==> LiftField(mem, offset, t) == Val.String([])
    ensures t.Prim? && t.kind != PString ==> NumberOf(LiftField(mem, offset, t)) == 0 && KindOf(LiftField(mem, offset, t)) == Some(t.kind)
  {
  }

  // ----- the reader -----

  /** What is read at offset: out-of-bounds parts read as zero, the empty string or the empty list. */
  function LiftField(mem: Bytes, offset: uint32, t: MemType): Val
    decreases t
  {
    match t
    case Prim(k) =>
      if k == PString then
        var ptr, len := Word(mem, offset), Word(mem, WrapU32(offset + 4));
        if ptr.Some? && len.Some? && ptr.value + len.value <= |mem|
        then Val.String(mem[ptr.value..ptr.value + len.value]) else Val.String([])
      else if offset + ScalarSize(k) <= |mem| then ScalarVal(k, GetLe(mem, offset, ScalarSize(k)))
      else Pow256Values(); ScalarVal(k, 0)
    case ListType(elem) =>
      var ptr, len := Word(mem, offset), Word(mem, WrapU32(offset + 4));
      if ptr.Some? && len.Some?
      then Val.List(seq(len.value, i requires 0 <= i < len.value => LiftField(mem, ElementOffset(ptr.value, i, elem), elem)))
      else Val.List([])
  }

  /** Where element i of a block of elements is written and read. */
  function ElementOffset(ptr: uint32, i: nat, elem: MemType): uint32 {
    WrapU32(ptr + WrapU32(BlockSize(i, elem)))
  }

  method LiftFieldFromMemory(mem: Bytes, offset: uint32, t: MemType) returns (v: Val, consumed: uint32)
    ensures v == LiftField(mem, offset, t) && consumed == MemSize(t)
    decreases t
  {
    hide ScalarVal, ScalarSize, GetLe, Word, WrapU32, ElementOffset;
    consumed := MemSize(t);
    match t
    case Prim(k) =>
      if k == PString {
        var ptr := Word(mem, offset);
        if ptr.None? {
          return Val.String([]), consumed;
        }
        var len := Word(mem, WrapU32(offset + 4));
        if len.None? {
          return Val.String([]), consumed;
        }
        if len.value == 0 {
          return Val.String([]), consumed;
        }
        if ptr.value + len.value > |mem| {
          return Val.String([]), consumed;
        }
        return Val.String(mem[ptr.value..ptr.value + len.value]), consumed;
      }
      Pow256Values();
      if offset + ScalarSize(k) <= |mem| {
        return ScalarVal(k, GetLe(mem, offset, ScalarSize(k))), consumed;
      }
      return ScalarVal(k, 0), consumed;
    case ListType(elem) =>
      var ptr := Word(mem, offset);
      if ptr.None? {
        return Val.List([]), consumed;
      }
      var len := Word(mem, WrapU32(offset + 4));
      if len.None? {
        return Val.List([]), consumed;
      }
      if len.value == 0 {
        return Val.List([]), consumed;
      }
      var vals: seq<Val> := [];
      for i := 0 to len.value
        invariant |vals| == i
        invariant forall j :: 0 <= j < i ==> vals[j] == LiftField(mem, ElementOffset(ptr.value, j, elem), elem)
      {
        var val, _ := LiftFieldFromMemory(mem, ElementOffset(ptr.value, i, elem), elem);
        vals := vals + [val];
      }
      v := Val.List(vals);
  }

  // ----- how a value lies in memory -----

  /** The addresses lo, ..., hi - 1. */
  function Span(lo: nat, hi: nat): (s: set<nat>)
    ensures forall a :: a in s <==> lo <= a < hi
    decreases hi - lo
  {
    if lo < hi then {lo} + Span(lo + 1, hi) else {}
  }

  /** The n bytes at offset are in bounds and belong to region. */
  ghost predicate Held(mem: Bytes, region: set<nat>, offset: nat, n: nat) {
    offset + n <= |mem| && Span(offset, offset + n) <= region
  }

  /** v, of type t, lies at offset, and every byte that makes it up belongs to region. */
  ghost predicate Stored(mem: Bytes, region: set<nat>, offset: nat, t: MemType, v: Val)
    decreases t, 0
  {
    && Held(mem, region, offset, MemSize(t))
    && match t
       case Prim(k) =>
         if k == PString then
           && v.String?
           && GetLe(mem, offset + 4, 4) == |v.text|
           && (v.text != [] ==>
                 var ptr := GetLe(mem, offset, 4);
                 Held(mem, region, ptr, |v.text|) && mem[ptr..ptr + |v.text|] == v.text)
         else
           ScalarBits(k, v) == Some(GetLe(mem, offset, ScalarSize(k)))
       case ListType(elem) =>
         && v.List?
         && GetLe(mem, offset + 4, 4) == |v.elems|
         && StoredElements(mem, region, GetLe(mem, offset, 4), elem, v.elems)
  }

  ghost predicate StoredElements(mem: Bytes, region: set<nat>, ptr: nat, elem: MemType, vs: seq<Val>)
    decreases elem, 1
  {
    forall i :: 0 <= i < |vs| ==> Stored(mem, region, ElementAt(ptr, i, elem), elem, vs[i])
  }

  /** Bytes of n elements side by side. */
  function BlockSize(n: nat, elem: MemType): nat {
    n * MemSize(elem)
  }

  function ElementAt(ptr: nat, i: nat, elem: MemType): nat {
    ptr + BlockSize(i, elem)
  }

  /** The bytes in keep are the same in both memories. */
  ghost predicate Same(mem: Bytes, mem': Bytes, keep: set<nat>) {
    |mem| <= |mem'| && forall a :: a in keep && a < |mem| ==> mem'[a] == mem[a]
  }

  lemma HeldSame(mem: Bytes, mem': Bytes, region: set<nat>, offset: nat, n: nat)
    requires Held(mem, region, offset, n) && Same(mem, mem', region)
    ensures Held(mem', region, offset, n) && mem'[offset..offset + n] == mem[offset..offset + n]
  {
    forall i | offset <= i < offset + n ensures mem'[i] == mem[i] {
      assert i in Span(offset, offset + n);
    }
  }

  lemma WordsSame(mem: Bytes, mem': Bytes, region: set<nat>, offset: nat)
    requires Held(mem, region, offset, 8) && Same(mem, mem', region)
    ensures offset + 8 <= |mem'|
    ensures GetLe(mem', offset, 4) == GetLe(mem, offset, 4) && GetLe(mem', offset + 4, 4) == GetLe(mem, offset + 4, 4)
  {
    HeldSame(mem, mem', region, offset, 8);
    assert mem[offset..offset + 8][..4] == mem[offset..offset + 4] && mem'[offset..offset + 8][..4] == mem'[offset..offset + 4];
    assert mem[offset..offset + 8][4..] == mem[offset + 4..offset + 8] && mem'[offset..offset + 8][4..] == mem'[offset + 4..offset + 8];
  }

  /** A stored value depends only on the bytes of its region. */
  lemma {:induction false} StoredSame(mem: Bytes, mem': Bytes, region: set<nat>, offset: nat, t: MemType, v: Val)
    requires Stored(mem, region, offset, t, v) && Same(mem, mem', region)
    ensures Stored(mem', region, offset, t, v)
    decreases t
  {
    HeldSame(mem, mem', region, offset, MemSize(t));
    match t
    case Prim(k) =>
      if k == PString {
        WordsSame(mem, mem', region, offset);
        if v.text != [] {
          HeldSame(mem, mem', region, GetLe(mem, offset, 4), |v.text|);
        }
      }
    case ListType(elem) =>
      WordsSame(mem, mem', region, offset);
      var ptr := GetLe(mem, offset, 4);
      forall i | 0 <= i < |v.elems| ensures Stored(mem', region, ElementAt(ptr, i, elem), elem, v.elems[i]) {
        StoredSame(mem, mem', region, ElementAt(ptr, i, elem), elem, v.elems[i]);
      }
  }

  lemma {:induction false} StoredWider(mem: Bytes, region: set<nat>, region': set<nat>, offset: nat, t: MemType, v: Val)
    requires Stored(mem, region, offset, t, v) && region <= region'
    ensures Stored(mem, region', offset, t, v)
    decreases t
  {
    if t.ListType? {
      var ptr := GetLe(mem, offset, 4);
      forall i | 0 <= i < |v.elems| ensures Stored(mem, region', ElementAt(ptr, i, t.elem), t.elem, v.elems[i]) {
        StoredWider(mem, region, region', ElementAt(ptr, i, t.elem), t.elem, v.elems[i]);
      }
    }
  }

  /** Whatever lies at an offset is what the reader returns there. */
  lemma {:induction false} StoredIsLifted(mem: Bytes, region: set<nat>, offset: uint32, t: MemType, v: Val)
    requires Stored(mem, region, offset, t, v) && |mem| <= TWO_32
    ensures LiftField(mem, offset, t) == v
    decreases t
  {
    hide ScalarBits, ScalarVal, ScalarSize, GetLe, WrapU32, ElementOffset, ElementAt, Span;
    match t
    case Prim(k) =>
      if k != PString {
        ScalarRoundTrip(k, v);
      } else {
        Pow256Values();
        WrapSmall(offset + 4);
      }
    case ListType(elem) =>
      Pow256Values();
      WrapSmall(offset + 4);
      var ptr: uint32 := GetLe(mem, offset, 4);
      forall i | 0 <= i < |v.elems| ensures LiftField(mem, ElementOffset(ptr, i, elem), elem) == v.elems[i] {
        assert Stored(mem, region, ElementAt(ptr, i, elem), elem, v.elems[i]);
        ElementOffsetExact(ptr, i, elem);
        StoredIsLifted(mem, region, ElementAt(ptr, i, elem), elem, v.elems[i]);
      }
      assert LiftField(mem, offset, t).elems == v.elems;
  }

  lemma WrapSmall(n: nat)
    requires n < TWO_32
    ensures WrapU32(n) == n
  {
  }

  lemma ElementOffsetExact(ptr: uint32, i: nat, elem: MemType)
    requires ElementAt(ptr, i, elem) < TWO_32
    ensures ElementOffset(ptr, i, elem) == ElementAt(ptr, i, elem)
  {
  }
}
