/** Byte-addressed memory: the flat reads and writes that AXI transfers are to refine. */
module AxiMemory {
  import opened Bits
  import opened Modular

  /** data written byte by byte from addr on; addresses are taken modulo the memory size. */
  function FlatWrite(mem: seq<Byte>, addr: nat, data: seq<Byte>): (m: seq<Byte>)
    requires |mem| > 0
    ensures |m| == |mem|
    decreases |data|
  {
    if data == [] then mem
    else FlatWrite(mem[addr % |mem| := data[0]], addr + 1, data[1..])
  }

  /** length bytes read from addr on. */
  function FlatRead(mem: seq<Byte>, addr: nat, length: nat): (data: seq<Byte>)
    requires |mem| > 0
    ensures |data| == length
    ensures forall j :: 0 <= j < length ==> data[j] == mem[(addr + j) % |mem|]
  {
    seq(length, j requires 0 <= j < length => mem[(addr + j) % |mem|])
  }

  lemma {:induction false} FlatWriteAppend(mem: seq<Byte>, addr: nat, a: seq<Byte>, b: seq<Byte>)
    requires |mem| > 0
    ensures FlatWrite(mem, addr, a + b) == FlatWrite(FlatWrite(mem, addr, a), addr + |a|, b)
    decreases |a|
  {
    if a == [] {
      assert a + b == b;
    } else {
      FlatWriteAppend(mem[addr % |mem| := a[0]], addr + 1, a[1..], b);
      assert (a + b)[1..] == a[1..] + b;
    }
  }

  /** A write that does not run over the end of the memory changes exactly its range. */
  lemma {:induction false} FlatWriteWithin(mem: seq<Byte>, addr: nat, data: seq<Byte>, p: nat)
    requires |mem| > 0 && addr % |mem| + |data| <= |mem| && p < |mem|
    ensures FlatWrite(mem, addr, data)[p] ==
      if addr % |mem| <= p < addr % |mem| + |data| then data[p - addr % |mem|] else mem[p]
    decreases |data|
  {
    if |data| > 1 {
      NextOffset(addr, |mem|);
      FlatWriteWithin(mem[addr % |mem| := data[0]], addr + 1, data[1..], p);
    } else if |data| == 1 {
      assert FlatWrite(mem, addr, data) == mem[addr % |mem| := data[0]];
    }
  }

  lemma NextOffset(addr: nat, n: nat)
    requires n > 0 && addr % n + 1 < n
    ensures (addr + 1) % n == addr % n + 1
  {
    QuotientUnique(addr + 1, n, addr / n, addr % n + 1);
  }

  /** What was written is read back, when it fits in the memory at all. */
  lemma {:induction false} ReadAfterWrite(mem: seq<Byte>, addr: nat, data: seq<Byte>)
    requires 0 < |mem| && |data| <= |mem|
    ensures FlatRead(FlatWrite(mem, addr, data), addr, |data|) == data
  {
    forall j | 0 <= j < |data|
      ensures FlatWrite(mem, addr, data)[(addr + j) % |mem|] == data[j]
    {
      WrittenByte(mem, addr, data, j);
    }
  }

  lemma {:induction false} WrittenByte(mem: seq<Byte>, addr: nat, data: seq<Byte>, j: nat)
    requires j < |data| <= |mem|
    ensures FlatWrite(mem, addr, data)[(addr + j) % |mem|] == data[j]
    decreases |data|
  {
    var m := mem[addr % |mem| := data[0]];
    if j > 0 {
      WrittenByte(m, addr + 1, data[1..], j - 1);
    } else {
      Untouched(m, addr + 1, data[1..], addr % |mem|);
    }
  }

  /** A byte that no address of the range maps to keeps its value. */
  lemma {:induction false} Untouched(mem: seq<Byte>, addr: nat, data: seq<Byte>, p: nat)
    requires p < |mem| && addr > 0 && (addr - 1) % |mem| == p && |data| < |mem|
    ensures FlatWrite(mem, addr, data)[p] == mem[p]
  {
    Missed(mem, addr, data, addr - 1);
  }

  lemma {:induction false} Missed(mem: seq<Byte>, addr: nat, data: seq<Byte>, q: nat)
    requires |mem| > 0 && q < addr && addr + |data| <= q + |mem|
    ensures FlatWrite(mem, addr, data)[q % |mem|] == mem[q % |mem|]
    decreases |data|
  {
    if data != [] {
      if addr % |mem| == q % |mem| {
        SlotsDistinct(addr, q, |mem|);
      }
      Missed(mem[addr % |mem| := data[0]], addr + 1, data[1..], q);
    }
  }
}
