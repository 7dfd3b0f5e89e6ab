// Lowering values into guest memory through the guest's allocator.

module Lowering {
  import opened Words
  import opened Wrappers
  import opened Values
  import opened Types
  import opened LittleEndian
  import opened GuestMemory

  /** What one call of the guest's realloc does: the pointer it returns and the memory it leaves. */
  datatype Answer = Answer(ptr: uint32, memory: Bytes)

  /** No byte count in v overflows 32 bits. */
  predicate Fits(v: Val, t: MemType)
    decreases t
  {
    match t
    case Prim(_) => v.String? ==> |v.text| < TWO_32
    case ListType(elem) =>
      v.List? ==> BlockSize(|v.elems|, elem) < TWO_32 && forall i :: 0 <= i < |v.elems| ==> Fits(v.elems[i], elem)
  }

  /** v is a value of type t. */
  predicate Conforms(v: Val, t: MemType)
    decreases t
  {
    match t
    case Prim(k) => if k == PString then v.String? else ScalarBits(k, v).Some?
    case ListType(elem) => v.List? && forall i :: 0 <= i < |v.elems| ==> Conforms(v.elems[i], elem)
  }

  /**
    Realloc returned a block that is in bounds and overlaps no block it returned before, and
    kept the bytes of those. Nothing is assumed of the rest of the memory.
   */
  predicate Honest(mem: Bytes, reserved: set<nat>, answer: Answer, size: nat) {
    && |mem| <= |answer.memory| <= TWO_32
    && answer.ptr + size <= |answer.memory|
    && Span(answer.ptr, answer.ptr + size) !! reserved
    && forall a :: a in reserved && a < |mem| ==> answer.memory[a] == mem[a]
  }

  // ----- the element loop -----

  /** After i elements: the old blocks are as they were, and the elements lie in the part filled so far and in new blocks. */
  ghost predicate Filled(mem0: Bytes, reserved0: set<nat>, mem: Bytes, reserved: set<nat>, ptr: nat, elem: MemType, vs: seq<Val>, i: nat)
    requires i <= |vs|
  {
    && reserved0 <= reserved
    && Same(mem0, mem, reserved0 - Span(ptr, ElementAt(ptr, i, elem)))
    && StoredElements(mem, Span(ptr, ElementAt(ptr, i, elem)) + (reserved - reserved0), ptr, elem, vs[..i])
  }

  /** What lowering one value at offset did: only its own bytes changed in the old blocks, and it lies there and in new blocks. */
  ghost predicate Placed(mem: Bytes, reserved: set<nat>, mem': Bytes, reserved': set<nat>, offset: nat, t: MemType, v: Val) {
    && reserved <= reserved'
    && Same(mem, mem', reserved - Span(offset, offset + MemSize(t)))
    && Stored(mem', Span(offset, offset + MemSize(t)) + (reserved' - reserved), offset, t, v)
  }

  lemma ElementNext(ptr: nat, i: nat, n: nat, elem: MemType)
    requires i < n
    ensures ptr <= ElementAt(ptr, i, elem)
    ensures ElementAt(ptr, i + 1, elem) == ElementAt(ptr, i, elem) + MemSize(elem)
    ensures ElementAt(ptr, i + 1, elem) <= ElementAt(ptr, n, elem)
  {
    assert BlockSize(i, elem) + MemSize(elem) == BlockSize(i + 1, elem);
    MulMono(i + 1, n, MemSize(elem));
  }

  lemma MulMono(x: nat, y: nat, k: nat)
    requires x <= y
    ensures x * k <= y * k
  {
  }

  lemma FilledStep(mem0: Bytes, reserved0: set<nat>, mem: Bytes, reserved: set<nat>, mem': Bytes, reserved': set<nat>,
                   ptr: nat, elem: MemType, vs: seq<Val>, i: nat)
    requires i < |vs|
    requires Held(mem0, reserved0, ptr, BlockSize(|vs|, elem))
    requires Filled(mem0, reserved0, mem, reserved, ptr, elem, vs, i)
    requires Placed(mem, reserved, mem', reserved', ElementAt(ptr, i, elem), elem, vs[i])
    ensures Filled(mem0, reserved0, mem', reserved', ptr, elem, vs, i + 1)
  {
    hide Stored, MemSize, ElementAt;
    ElementNext(ptr, i, |vs|, elem);
    var at, next := ElementAt(ptr, i, elem), ElementAt(ptr, i + 1, elem);
    var done := Span(ptr, at) + (reserved - reserved0);
    var done' := Span(ptr, next) + (reserved' - reserved0);
    assert next <= ElementAt(ptr, |vs|, elem) == ptr + BlockSize(|vs|, elem) by { AtIsMul(ptr, |vs|, elem); }
    assert done <= reserved - Span(at, next);
    assert Span(at, next) + (reserved' - reserved) <= done';
    StoredWider(mem', Span(at, next) + (reserved' - reserved), done', at, elem, vs[i]);
    forall j | 0 <= j < i + 1 ensures Stored(mem', done', ElementAt(ptr, j, elem), elem, vs[..i + 1][j]) {
      if j < i {
        assert vs[..i][j] == vs[j];
        StoredSame(mem, mem', done, ElementAt(ptr, j, elem), elem, vs[j]);
        StoredWider(mem', done, done', ElementAt(ptr, j, elem), elem, vs[j]);
      }
    }
  }

  lemma AtIsMul(ptr: nat, n: nat, elem: MemType)
    ensures ElementAt(ptr, n, elem) == ptr + BlockSize(n, elem)
  {
  }

  /** Memory after a pointer word and a length word are written at offset. */
  function PutPair(mem: Bytes, offset: nat, ptr: uint32, len: uint32): (mem': Bytes)
    requires offset + 8 <= |mem|
    ensures |mem'| == |mem|
  {
    Pow256Values();
    PutLe(PutLe(mem, offset, ptr, 4), offset + 4, len, 4)
  }

  lemma PairWritten(mem: Bytes, offset: nat, ptr: uint32, len: uint32, keep: set<nat>)
    requires offset + 8 <= |mem| && keep !! Span(offset, offset + 8)
    ensures GetLe(PutPair(mem, offset, ptr, len), offset, 4) == ptr
    ensures GetLe(PutPair(mem, offset, ptr, len), offset + 4, 4) == len
    ensures Same(mem, PutPair(mem, offset, ptr, len), keep)
  {
    Pow256Values();
    var first := PutLe(mem, offset, ptr, 4);
    PutThenGet(mem, offset, ptr, 4);
    PutThenGet(first, offset + 4, len, 4);
    GetLeSame(first, PutPair(mem, offset, ptr, len), offset, 4);
    forall a | a in keep && a < |mem| ensures PutPair(mem, offset, ptr, len)[a] == mem[a] {
      assert a !in Span(offset, offset + 8);
    }
  }

  lemma SameTrans(a: Bytes, b: Bytes, c: Bytes, keep: set<nat>, keep': set<nat>)
    requires Same(a, b, keep) && Same(b, c, keep') && keep' <= keep
    ensures Same(a, c, keep')
  {
  }

  /** A block was added to the old ones and filled, then the pair that describes it was written at offset. */
  lemma PairPlaced(mem0: Bytes, reserved0: set<nat>, mem1: Bytes, mem2: Bytes, reserved2: set<nat>, offset: nat,
                   ptr: uint32, len: uint32, block: set<nat>)
    requires Held(mem0, reserved0, offset, 8) && reserved0 !! block && reserved0 + block <= reserved2
    requires Same(mem0, mem1, reserved0) && Same(mem1, mem2, reserved0)
    ensures |mem0| <= |mem2|
    ensures Same(mem0, PutPair(mem2, offset, ptr, len), reserved0 - Span(offset, offset + 8))
    ensures Same(mem2, PutPair(mem2, offset, ptr, len), reserved2 - reserved0)
    ensures GetLe(PutPair(mem2, offset, ptr, len), offset, 4) == ptr && GetLe(PutPair(mem2, offset, ptr, len), offset + 4, 4) == len
  {
    hide PutPair;
    SameTrans(mem0, mem1, mem2, reserved0, reserved0);
    PairWritten(mem2, offset, ptr, len, reserved0 - Span(offset, offset + 8));
    SameTrans(mem0, mem2, PutPair(mem2, offset, ptr, len), reserved0, reserved0 - Span(offset, offset + 8));
    PairWritten(mem2, offset, ptr, len, reserved2 - reserved0);
  }

  lemma StringPlaced(mem0: Bytes, reserved0: set<nat>, mem1: Bytes, mem2: Bytes, offset: nat, ptr: uint32, text: Bytes)
    requires 0 < |text| < TWO_32
    requires Held(mem0, reserved0, offset, 8) && reserved0 !! Span(ptr, ptr + |text|)
    requires Same(mem0, mem1, reserved0) && Same(mem1, mem2, reserved0)
    requires ptr + |text| <= |mem2| && mem2[ptr..ptr + |text|] == text
    ensures |mem0| <= |mem2|
    ensures Placed(mem0, reserved0, PutPair(mem2, offset, ptr, |text|), reserved0 + Span(ptr, ptr + |text|), offset, Prim(PString), Val.String(text))
  {
    hide PutPair, GetLe;
    var block := Span(ptr, ptr + |text|);
    var reserved2 := reserved0 + block;
    PairPlaced(mem0, reserved0, mem1, mem2, reserved2, offset, ptr, |text|, block);
    var region := Span(offset, offset + 8) + (reserved2 - reserved0);
    assert reserved2 - reserved0 == block;
    HeldSame(mem2, PutPair(mem2, offset, ptr, |text|), block, ptr, |text|);
    assert block <= region;
  }

  lemma ListPlaced(mem0: Bytes, reserved0: set<nat>, mem1: Bytes, mem2: Bytes, reserved2: set<nat>, offset: nat,
                   ptr: uint32, elem: MemType, vs: seq<Val>)
    requires vs != [] && |vs| < TWO_32
    requires Held(mem0, reserved0, offset, 8) && reserved0 !! Span(ptr, ElementAt(ptr, |vs|, elem))
    requires Same(mem0, mem1, reserved0)
    requires Filled(mem1, reserved0 + Span(ptr, ElementAt(ptr, |vs|, elem)), mem2, reserved2, ptr, elem, vs, |vs|)
    ensures |mem0| <= |mem2|
    ensures Placed(mem0, reserved0, PutPair(mem2, offset, ptr, |vs|), reserved2, offset, ListType(elem), Val.List(vs))
  {
    hide PutPair, GetLe, ElementAt;
    var block := Span(ptr, ElementAt(ptr, |vs|, elem));
    assert reserved0 + block - block == reserved0;
    PairPlaced(mem0, reserved0, mem1, mem2, reserved2, offset, ptr, |vs|, block);
    var mem3 := PutPair(mem2, offset, ptr, |vs|);
    var filled := block + (reserved2 - (reserved0 + block));
    assert filled == reserved2 - reserved0;
    assert vs[..|vs|] == vs;
    ElementsMoved(mem2, mem3, filled, Span(offset, offset + 8) + filled, ptr, elem, vs);
  }

  /** Elements survive a change outside their region, and lie in any wider one. */
  lemma ElementsMoved(mem: Bytes, mem': Bytes, region: set<nat>, region': set<nat>, ptr: nat, elem: MemType, vs: seq<Val>)
    requires StoredElements(mem, region, ptr, elem, vs) && Same(mem, mem', region) && region <= region'
    ensures StoredElements(mem', region', ptr, elem, vs)
  {
    hide Stored, ElementAt;
    forall i | 0 <= i < |vs| ensures Stored(mem', region', ElementAt(ptr, i, elem), elem, vs[i]) {
      StoredSame(mem, mem', region, ElementAt(ptr, i, elem), elem, vs[i]);
      StoredWider(mem', region, region', ElementAt(ptr, i, elem), elem, vs[i]);
    }
  }

  lemma EmptyPlaced(mem0: Bytes, reserved0: set<nat>, offset: nat, t: MemType, v: Val)
    requires (t == Prim(PString) && v == Val.String([])) || (t.ListType? && v == Val.List([]))
    requires Held(mem0, reserved0, offset, 8)
    ensures Placed(mem0, reserved0, PutPair(mem0, offset, 0, 0), reserved0, offset, t, v)
  {
    hide PutPair, GetLe;
    PairWritten(mem0, offset, 0, 0, reserved0 - Span(offset, offset + 8));
    var region := Span(offset, offset + 8) + (reserved0 - reserved0);
    assert Held(PutPair(mem0, offset, 0, 0), region, offset, 8);
    assert Stored(PutPair(mem0, offset, 0, 0), region, offset, t, v);
  }

  lemma ScalarPlaced(mem0: Bytes, reserved0: set<nat>, mem: Bytes, offset: nat, k: PrimKind, v: Val)
    requires k != PString && ScalarBits(k, v).Some? && Held(mem0, reserved0, offset, ScalarSize(k))
    requires mem == PutLe(mem0, offset, ScalarBits(k, v).value, ScalarSize(k))
    ensures Placed(mem0, reserved0, mem, reserved0, offset, Prim(k), v)
  {
    hide ScalarBits, ScalarSize, PutLe, GetLe, Pow256, LeBytes, LeValue, Span, Stored, Held;
    WordPlaced(mem0, reserved0, offset, ScalarBits(k, v).value, ScalarSize(k));
    ScalarStored(mem, Span(offset, offset + ScalarSize(k)) + (reserved0 - reserved0), offset, k, v);
  }

  lemma ScalarStored(mem: Bytes, region: set<nat>, offset: nat, k: PrimKind, v: Val)
    requires k != PString && Held(mem, region, offset, ScalarSize(k))
    requires ScalarBits(k, v) == Some(GetLe(mem, offset, ScalarSize(k)))
    ensures Stored(mem, region, offset, Prim(k), v)
  {
  }

  lemma WordPlaced(mem0: Bytes, reserved0: set<nat>, offset: nat, bits: nat, n: nat)
    requires bits < Pow256(n) && Held(mem0, reserved0, offset, n)
    ensures GetLe(PutLe(mem0, offset, bits, n), offset, n) == bits
    ensures Same(mem0, PutLe(mem0, offset, bits, n), reserved0 - Span(offset, offset + n))
    ensures Held(PutLe(mem0, offset, bits, n), Span(offset, offset + n) + (reserved0 - reserved0), offset, n)
  {
    hide PutLe, GetLe, Pow256, LeBytes, LeValue;
    PutThenGet(mem0, offset, bits, n);
    PutSame(mem0, offset, bits, n, reserved0 - Span(offset, offset + n));
  }

  lemma PutSame(mem: Bytes, offset: nat, v: nat, n: nat, keep: set<nat>)
    requires v < Pow256(n) && offset + n <= |mem| && keep !! Span(offset, offset + n)
    ensures Same(mem, PutLe(mem, offset, v, n), keep)
  {
    hide PutLe, Pow256, LeBytes;
    forall a | a in keep && a < |mem| ensures PutLe(mem, offset, v, n)[a] == mem[a] {
      assert a !in Span(offset, offset + n);
    }
  }

  /**
    The outcome of lowering v at offset, a place inside the old blocks: apart from that place the old
    blocks are as they were; on success v lies there; and only a missing memory, a value of another
    type or a refused allocation makes it fail.
   */
  ghost predicate Outcome(mem: Bytes, reserved: set<nat>, mem': Bytes, reserved': set<nat>, offset: nat, t: MemType, v: Val,
                          ok: bool, excused: bool) {
    Fits(v, t) && Held(mem, reserved, offset, MemSize(t)) ==>
      && Same(mem, mem', reserved - Span(offset, offset + MemSize(t)))
      && (ok ==> Placed(mem, reserved, mem', reserved', offset, t, v))
      && (!ok ==> excused || !Conforms(v, t))
  }

  /** The same for the elements of a block at ptr. */
  ghost predicate ElementsOutcome(mem: Bytes, reserved: set<nat>, mem': Bytes, reserved': set<nat>, ptr: nat, elem: MemType,
                                  vs: seq<Val>, ok: bool, excused: bool) {
    (forall i :: 0 <= i < |vs| ==> Fits(vs[i], elem)) && Held(mem, reserved, ptr, BlockSize(|vs|, elem)) ==>
      && Same(mem, mem', reserved - Span(ptr, ElementAt(ptr, |vs|, elem)))
      && (ok ==> Filled(mem, reserved, mem', reserved', ptr, elem, vs, |vs|))
      && (!ok ==> excused || exists i :: 0 <= i < |vs| && !Conforms(vs[i], elem))
  }

  lemma PlacedSame(mem: Bytes, reserved: set<nat>, mem': Bytes, reserved': set<nat>, offset: nat, t: MemType, v: Val)
    requires Placed(mem, reserved, mem', reserved', offset, t, v)
    ensures Same(mem, mem', reserved - Span(offset, offset + MemSize(t)))
  {
  }

  lemma SameRefl(mem: Bytes, keep: set<nat>)
    ensures Same(mem, mem, keep)
  {
  }

  lemma LengthFits(n: nat, elem: MemType)
    requires BlockSize(n, elem) < TWO_32
    ensures n < TWO_32
  {
    MulMono(1, MemSize(elem), n);
  }

  lemma FilledStart(mem: Bytes, reserved: set<nat>, ptr: nat, elem: MemType, vs: seq<Val>)
    ensures Filled(mem, reserved, mem, reserved, ptr, elem, vs, 0)
  {
  }

  /** Element i has its place inside the block, and the block is still an old one. */
  lemma ElementTarget(mem0: Bytes, reserved0: set<nat>, mem: Bytes, reserved: set<nat>, ptr: uint32, elem: MemType, vs: seq<Val>, i: nat)
    requires i < |vs| && |mem| <= TWO_32
    requires Held(mem0, reserved0, ptr, BlockSize(|vs|, elem))
    requires Filled(mem0, reserved0, mem, reserved, ptr, elem, vs, i)
    ensures ElementOffset(ptr, i, elem) == ElementAt(ptr, i, elem)
    ensures Held(mem, reserved, ElementAt(ptr, i, elem), MemSize(elem))
  {
    hide Stored, ElementAt;
    ElementNext(ptr, i, |vs|, elem);
    AtIsMul(ptr, |vs|, elem);
    ElementOffsetExact(ptr, i, elem);
  }

  /** When element i fails, no old block outside the elements' own has changed. */
  lemma FilledBroken(mem0: Bytes, reserved0: set<nat>, mem: Bytes, reserved: set<nat>, mem': Bytes, ptr: nat, elem: MemType, vs: seq<Val>, i: nat)
    requires i < |vs|
    requires Filled(mem0, reserved0, mem, reserved, ptr, elem, vs, i)
    requires Same(mem, mem', reserved - Span(ElementAt(ptr, i, elem), ElementAt(ptr, i, elem) + MemSize(elem)))
    ensures Same(mem0, mem', reserved0 - Span(ptr, ElementAt(ptr, |vs|, elem)))
  {
    hide Stored, ElementAt;
    ElementNext(ptr, i, |vs|, elem);
  }

  lemma BlockOnly(mem0: Bytes, reserved0: set<nat>, mem1: Bytes, mem2: Bytes, block: set<nat>, target: set<nat>)
    requires reserved0 !! block && Same(mem0, mem1, reserved0) && Same(mem1, mem2, reserved0 + block - block)
    ensures Same(mem0, mem2, reserved0 - target)
  {
  }

  /** An exported function: the memory and realloc of the instance it belongs to. */
  class ExportedFunc {
    const hasMemory: bool
    const hasRealloc: bool
    var memory: Bytes
    /** The bytes of every block realloc has returned. */
    var reserved: set<nat>
    /** What the coming calls of realloc do; a call that finds none fails. */
    var answers: seq<Answer>
    /** Whether an allocation has failed. */
    ghost var refused: bool

    ghost predicate Valid()
      reads this
    {
      |memory| <= TWO_32 && forall a :: a in reserved ==> a < |memory|
    }

    constructor (hasMemory: bool, hasRealloc: bool, memory: Bytes, reserved: set<nat>, answers: seq<Answer>)
      requires |memory| <= TWO_32 && forall a :: a in reserved ==> a < |memory|
      ensures Valid() && !refused
      ensures this.memory == memory && this.reserved == reserved && this.answers == answers
      ensures this.hasMemory == hasMemory && this.hasRealloc == hasRealloc
    {
      this.hasMemory, this.hasRealloc := hasMemory, hasRealloc;
      this.memory, this.reserved, this.answers := memory, reserved, answers;
      refused := false;
    }

    /** A block of size bytes from the guest; None when there is no realloc or it fails. */
    method Allocate(size: uint32) returns (r: Option<uint32>)
      requires Valid()
      modifies this
      ensures Valid() && (old(refused) ==> refused)
      ensures r.None? ==> memory == old(memory) && reserved == old(reserved) && refused
      ensures r.Some? ==>
        && refused == old(refused)
        && r.value + size <= |memory|
        && Span(r.value, r.value + size) !! old(reserved)
        && reserved == old(reserved) + Span(r.value, r.value + size)
        && Same(old(memory), memory, old(reserved))
    {
      if !hasRealloc || answers == [] {
        refused := true;
        return None;
      }
      var answer := answers[0];
      answers := answers[1..];
      if !Honest(memory, reserved, answer, size) {
        refused := true;
        return None;
      }
      memory := answer.memory;
      reserved := reserved + Span(answer.ptr, answer.ptr + size);
      return Some(answer.ptr);
    }

    method WriteLe(offset: uint32, v: nat, n: nat) returns (ok: bool)
      requires v < Pow256(n)
      modifies this`memory
      ensures ok == (offset + n <= old(|memory|))
      ensures memory == if ok then PutLe(old(memory), offset, v, n) else old(memory)
    {
      ok := offset + n <= |memory|;
      if ok {
        memory := PutLe(memory, offset, v, n);
      }
    }

    /** Pointer at offset, length four bytes further on. */
    method WritePair(offset: uint32, ptr: uint32, len: uint32) returns (ok: bool)
      modifies this`memory
      ensures |memory| == |old(memory)|
      ensures offset + 8 <= |old(memory)| <= TWO_32 ==> ok && memory == PutPair(old(memory), offset, ptr, len)
    {
      hide PutLe, Pow256, WrapU32;
      Pow256Values();
      if offset + 8 <= |memory| <= TWO_32 {
        WrapSmall(offset + 4);
      }
      ok := WriteLe(offset, ptr, 4);
      if ok {
        ok := WriteLe(WrapU32(offset + 4), len, 4);
      }
    }

    /** The bytes of text in a block of their own; the empty string needs none. */
    method LowerString(text: Bytes) returns (r: Option<(uint32, uint32)>)
      requires Valid()
      modifies this
      ensures Valid() && (old(refused) ==> refused)
      ensures old(reserved) <= reserved
      ensures r.None? ==> (refused || !hasMemory || |text| >= TWO_32) && Same(old(memory), memory, old(reserved))
      ensures r.Some? ==> refused == old(refused) && r.value.1 == WrapU32(|text|)
      ensures r.Some? && r.value.1 == 0 ==> r.value.0 == 0 && memory == old(memory) && reserved == old(reserved)
      ensures r.Some? && 0 < |text| < TWO_32 ==>
        && r.value.0 + |text| <= |memory|
        && memory[r.value.0..r.value.0 + |text|] == text
        && Span(r.value.0, r.value.0 + |text|) !! old(reserved)
        && reserved == old(reserved) + Span(r.value.0, r.value.0 + |text|)
        && Same(old(memory), memory, old(reserved))
    {
      var length := WrapU32(|text|);
      if length == 0 {
        return Some((0, 0));
      }
      if !hasMemory {
        return None;
      }
      var block := Allocate(length);
      if block.None? {
        return None;
      }
      var ptr := block.value;
      if ptr + |text| > |memory| {
        return None;
      }
      memory := memory[..ptr] + text + memory[ptr + |text|..];
      r := Some((ptr, length));
    }

    method LowerStringToMemory(text: Bytes, offset: uint32) returns (ok: bool)
      requires Valid()
      modifies this
      ensures Valid() && (old(refused) ==> refused) && old(reserved) <= reserved
      ensures Outcome(old(memory), old(reserved), memory, reserved, offset, Prim(PString), Val.String(text), ok, !hasMemory || refused)
    {
      hide PutPair, GetLe, Stored, Placed, WrapU32;
      ghost var mem0, reserved0 := memory, reserved;
      var flat := LowerString(text);
      if flat.None? {
        return false;
      }
      ghost var mem1 := memory;
      ok := WritePair(offset, flat.value.0, flat.value.1);
      if |text| < TWO_32 && Held(mem0, reserved0, offset, 8) {
        WrapSmall(|text|);
        if text == [] {
          EmptyPlaced(mem0, reserved0, offset, Prim(PString), Val.String(text));
        } else {
          StringPlaced(mem0, reserved0, mem1, mem1, offset, flat.value.0, text);
        }
        PlacedSame(mem0, reserved0, memory, reserved, offset, Prim(PString), Val.String(text));
      }
    }

    /** Every element in turn, side by side from ptr. */
    method LowerElements(vs: seq<Val>, elem: MemType, ptr: uint32) returns (ok: bool)
      requires Valid()
      modifies this
      ensures Valid() && (old(refused) ==> refused) && old(reserved) <= reserved
      ensures ElementsOutcome(old(memory), old(reserved), memory, reserved, ptr, elem, vs, ok, !hasMemory || refused)
      decreases elem, 2
    {
      hide Stored, Placed, WrapU32, ElementAt, BlockSize, Fits, Conforms, MemSize;
      ghost var mem0, reserved0 := memory, reserved;
      ghost var sound := (forall i :: 0 <= i < |vs| ==> Fits(vs[i], elem)) && Held(mem0, reserved0, ptr, BlockSize(|vs|, elem));
      FilledStart(mem0, reserved0, ptr, elem, vs);
      for i := 0 to |vs|
        invariant Valid() && (old(refused) ==> refused) && old(reserved) <= reserved
        invariant sound ==> Filled(mem0, reserved0, memory, reserved, ptr, elem, vs, i)
      {
        ghost var mem1, reserved1 := memory, reserved;
        ok := LowerToMemory(vs[i], elem, ElementOffset(ptr, i, elem));
        if sound {
          ElementTarget(mem0, reserved0, mem1, reserved1, ptr, elem, vs, i);
          if ok {
            FilledStep(mem0, reserved0, mem1, reserved1, memory, reserved, ptr, elem, vs, i);
          } else {
            FilledBroken(mem0, reserved0, mem1, reserved1, memory, ptr, elem, vs, i);
          }
        }
        if !ok {
          return false;
        }
      }
      ok := true;
      if sound {
        assert Filled(mem0, reserved0, memory, reserved, ptr, elem, vs, |vs|);
      }
    }

    method LowerListToMemory(vs: seq<Val>, elem: MemType, offset: uint32) returns (ok: bool)
      requires Valid()
      modifies this
      ensures Valid() && (old(refused) ==> refused) && old(reserved) <= reserved
      ensures Outcome(old(memory), old(reserved), memory, reserved, offset, ListType(elem), Val.List(vs), ok, !hasMemory || refused)
      decreases elem, 3
    {
      hide PutPair, GetLe, Stored, Placed, Filled, WrapU32, ElementAt, BlockSize, Span, Same, Honest;
      ghost var mem0, reserved0 := memory, reserved;
      SameRefl(mem0, reserved0 - Span(offset, offset + 8));
      ghost var sound := Fits(Val.List(vs), ListType(elem)) && Held(mem0, reserved0, offset, 8);
      if vs == [] {
        ok := WritePair(offset, 0, 0);
        if sound {
          EmptyPlaced(mem0, reserved0, offset, ListType(elem), Val.List(vs));
          PlacedSame(mem0, reserved0, memory, reserved, offset, ListType(elem), Val.List(vs));
        }
        return;
      }
      var totalSize := WrapU32(BlockSize(|vs|, elem));
      var block := Allocate(totalSize);
      if block.None? {
        return false;
      }
      var ptr := block.value;
      ghost var mem1, reserved1 := memory, reserved;
      if sound {
        WrapSmall(BlockSize(|vs|, elem));
        AtIsMul(ptr, |vs|, elem);
      }
      ok := LowerElements(vs, elem, ptr);
      if !ok {
        if sound {
          BlockOnly(mem0, reserved0, mem1, memory, Span(ptr, ElementAt(ptr, |vs|, elem)), Span(offset, offset + 8));
        }
        return false;
      }
      ghost var mem2 := memory;
      ok := WritePair(offset, ptr, WrapU32(|vs|));
      if sound {
        LengthFits(|vs|, elem);
        WrapSmall(|vs|);
        ListPlaced(mem0, reserved0, mem1, mem2, reserved, offset, ptr, elem, vs);
        PlacedSame(mem0, reserved0, memory, reserved, offset, ListType(elem), Val.List(vs));
      }
    }

    /** Writes v at offset in the memory form of its type. */
    method LowerToMemory(v: Val, t: MemType, offset: uint32) returns (ok: bool)
      requires Valid()
      modifies this
      ensures Valid() && (old(refused) ==> refused) && old(reserved) <= reserved
      ensures Outcome(old(memory), old(reserved), memory, reserved, offset, t, v, ok, !hasMemory || refused)
      ensures ok && Fits(v, t) && Held(old(memory), old(reserved), offset, MemSize(t)) ==> Bytewise(memory, offset, t, v)
      decreases t, 1
    {
      hide PutPair, PutLe, GetLe, ScalarBits, ScalarSize, Stored, WrapU32, Honest, Bytewise, Span;
      if !hasMemory {
        return false;
      }
      match t {
        case Prim(k) =>
          if k == PString {
            if !v.String? {
              return false;
            }
            ok := LowerStringToMemory(v.text, offset);
          } else {
            var bits := ScalarBits(k, v);
            if bits.None? {
              return false;
            }
            ok := WriteLe(offset, bits.value, ScalarSize(k));
            if Held(old(memory), old(reserved), offset, MemSize(t)) {
              ScalarPlaced(old(memory), reserved, memory, offset, k, v);
            }
          }
        case ListType(elem) =>
          if !v.List? {
            return false;
          }
          ok := LowerListToMemory(v.elems, elem, offset);
      }
      if ok && Fits(v, t) && Held(old(memory), old(reserved), offset, MemSize(t)) {
        StoredIsBytewise(memory, Span(offset, offset + MemSize(t)) + (reserved - old(reserved)), offset, t, v);
      }
    }

    /** What is lowered at a place of the old blocks is what is read back there. */
    method WriteThenRead(v: Val, t: MemType, offset: uint32) returns (ok: bool, back: Val)
      requires Valid() && Fits(v, t) && Held(memory, reserved, offset, MemSize(t))
      modifies this
      ensures Valid() && Same(old(memory), memory, old(reserved) - Span(offset, offset + MemSize(t)))
      ensures ok ==> back == v && Bytewise(memory, offset, t, v)
      ensures !ok ==> !hasMemory || refused || !Conforms(v, t)
    {
      hide Stored, Span, Fits, Conforms, MemSize, Held, LiftField, Same, Honest, Bytewise;
      ok := LowerToMemory(v, t, offset);
      var consumed: uint32;
      back, consumed := LiftFieldFromMemory(memory, offset, t);
      if ok {
        StoredIsLifted(memory, Span(offset, offset + MemSize(t)) + (reserved - old(reserved)), offset, t, v);
      }
    }
  }
}
