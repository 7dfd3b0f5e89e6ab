// Writing into the guest's linear memory.

module Buffers {
  import opened Words
  import opened Values
  import opened LittleEndian

  /** mem with bs at position at. */
  function Splice(mem: Bytes, at: nat, bs: Bytes): (mem': Bytes)
    requires at + |bs| <= |mem|
    ensures |mem'| == |mem|
    ensures mem'[at..at + |bs|] == bs
    ensures forall i :: 0 <= i < |mem| && !(at <= i < at + |bs|) ==> mem'[i] == mem[i]
  {
    mem[..at] + bs + mem[at + |bs|..]
  }

  lemma SpliceTwice(mem: Bytes, at: nat, a: Bytes, b: Bytes)
    requires at + |a| + |b| <= |mem|
    ensures Splice(Splice(mem, at, a), at + |a|, b) == Splice(mem, at, a + b)
  {
  }

  method CopyTo(mem: array<byte>, at: nat, bs: Bytes)
    requires at + |bs| <= mem.Length
    modifies mem
    ensures mem[..] == Splice(old(mem[..]), at, bs)
  {
    forall i | 0 <= i < |bs| {
      mem[at + i] := bs[i];
    }
  }

  method WriteWord(mem: array<byte>, at: nat, v: uint32)
    requires at + 4 <= mem.Length
    modifies mem
    ensures v < Pow256(4) && mem[..] == PutLe(old(mem[..]), at, v, 4)
  {
    Pow256Values();
    CopyTo(mem, at, LeBytes(v, 4));
  }
}
