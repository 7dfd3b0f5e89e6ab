// Little-endian integers in byte sequences.

module LittleEndian {
  import opened Words

  function Pow256(n: nat): (p: nat)
    ensures p > 0
  {
    if n == 0 then 1 else 0x100 * Pow256(n - 1)
  }

  lemma Pow256Values()
    ensures Pow256(1) == TWO_8 && Pow256(2) == TWO_16 && Pow256(4) == TWO_32 && Pow256(8) == TWO_64
  {
    assert Pow256(3) == 0x100_0000;
    assert Pow256(4) == TWO_32;
    assert Pow256(5) == 0x100_0000_0000;
    assert Pow256(6) == 0x1_0000_0000_0000;
    assert Pow256(7) == 0x100_0000_0000_0000;
  }

  function LeValue(bs: seq<byte>): (v: nat)
    ensures v < Pow256(|bs|)
  {
    if bs == [] then 0 else
      var b: nat := bs[0];
      b + 0x100 * LeValue(bs[1..])
  }

  function LeBytes(v: nat, n: nat): (bs: seq<byte>)
    requires v < Pow256(n)
    ensures |bs| == n && LeValue(bs) == v
  {
    if n == 0 then [] else
      var rest := LeBytes(v / 0x100, n - 1);
      assert ([v % 0x100] + rest)[1..] == rest;
      [v % 0x100] + rest
  }

  /** The least significant byte comes first: byte i is digit i of the value in base 256. */
  lemma {:induction false} LeBytesAt(v: nat, n: nat, i: nat)
    requires v < Pow256(n) && i < n
    ensures LeBytes(v, n)[i] == v / Pow256(i) % 0x100
    decreases i
  {
    if i > 0 {
      LeBytesAt(v / 0x100, n - 1, i - 1);
      DivDiv(v, Pow256(i - 1));
    }
  }

  lemma DivDiv(v: nat, m: nat)
    requires m > 0
    ensures v / 0x100 / m == v / (0x100 * m)
  {
    var w := v / 0x100;
    var q, r := w / m, w % m;
    assert w == m * q + r;
    assert v == 0x100 * m * q + (0x100 * r + v % 0x100) by {
      assert v == 0x100 * w + v % 0x100;
      assert 0x100 * (m * q) == 0x100 * m * q;
    }
    DivUnique(v, 0x100 * m, q, 0x100 * r + v % 0x100);
  }

  /** Byte i of a word in memory. */
  lemma GetLeAt(mem: seq<byte>, offset: nat, n: nat, i: nat)
    requires offset + n <= |mem| && i < n
    ensures mem[offset + i] == GetLe(mem, offset, n) / Pow256(i) % 0x100
  {
    var bs := mem[offset..offset + n];
    LeBytesOfValue(bs);
    LeBytesAt(LeValue(bs), n, i);
    assert bs[i] == mem[offset + i];
  }

  lemma {:induction false} LeBytesOfValue(bs: seq<byte>)
    ensures LeBytes(LeValue(bs), |bs|) == bs
  {
    if bs != [] {
      LeBytesOfValue(bs[1..]);
      var b: nat := bs[0];
      assert LeValue(bs) / 0x100 == LeValue(bs[1..]) && LeValue(bs) % 0x100 == b;
    }
  }

  /** `binary.LittleEndian.PutUintN` at offset. */
  function PutLe(mem: seq<byte>, offset: nat, v: nat, n: nat): (m: seq<byte>)
    requires v < Pow256(n) && offset + n <= |mem|
    ensures |m| == |mem|
    ensures m[offset..offset + n] == LeBytes(v, n)
    ensures forall i :: 0 <= i < |mem| && !(offset <= i < offset + n) ==> m[i] == mem[i]
  {
    mem[..offset] + LeBytes(v, n) + mem[offset + n..]
  }

  /** The value of the n bytes at offset. */
  function GetLe(mem: seq<byte>, offset: nat, n: nat): (v: nat)
    requires offset + n <= |mem|
    ensures v < Pow256(n)
  {
    LeValue(mem[offset..offset + n])
  }

  lemma PutThenGet(mem: seq<byte>, offset: nat, v: nat, n: nat)
    requires v < Pow256(n) && offset + n <= |mem|
    ensures GetLe(PutLe(mem, offset, v, n), offset, n) == v
  {
  }

  /** A read sees only its own bytes. */
  lemma GetLeSame(mem: seq<byte>, mem': seq<byte>, offset: nat, n: nat)
    requires offset + n <= |mem| && offset + n <= |mem'|
    requires forall i :: offset <= i < offset + n ==> mem[i] == mem'[i]
    ensures GetLe(mem, offset, n) == GetLe(mem', offset, n)
  {
    assert mem[offset..offset + n] == mem'[offset..offset + n];
  }
}
