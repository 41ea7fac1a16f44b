/**
 * Where the beats of a burst go, for all three kinds of burst, and what the memory of the
 * test bench makes of them (section A3.4.1 of ARM IHI 0022E).
 */
module AxiBeats {
  import opened Bits
  import opened Modular
  import opened Wrappers
  import opened AxiTransfer
  import opened AxiRam

  /**
   * The address of beat n: fixed bursts stay at the first aligned one, increasing ones go on,
   * and wrapping ones go around the block that is as long as the burst and holds its address.
   */
  function BeatAddress(b: Burst, n: nat): nat {
    match b.kind
    case Fixed => RoundDown(b.addr, PowerOfTwo(b.size))
    case Incr => Cell(RoundDown(b.addr, PowerOfTwo(b.size)), PowerOfTwo(b.size), n)
    case Wrap =>
      BlockExists(PowerOfTwo(b.size), b.len + 1);
      Around(b.addr, Cell(RoundDown(b.addr, PowerOfTwo(b.size)), PowerOfTwo(b.size), n),
             PowerOfTwo(b.size) * (b.len + 1))
  }

  function Cell(first: nat, size: nat, n: nat): nat {
    first + n * size
  }

  /** The place of an address in the block that holds another. */
  function Around(addr: nat, x: nat, block: nat): nat
    requires block > 0
  {
    RoundDown(addr, block) + x % block
  }

  lemma BlockExists(size: nat, beats: nat)
    requires size > 0 && beats > 0
    ensures size * beats > 0
  {
  }

  lemma FirstBeat(b: Burst)
    ensures BeatAddress(b, 0) == AlignedAddr(b)
  {
    if b.kind.Wrap? {
      var size := PowerOfTwo(b.size);
      BlockExists(size, b.len + 1);
      CellFrom(b.addr, size, b.len + 1);
    }
  }

  /** The aligned address is in the same block as the address. */
  lemma CellFrom(addr: nat, size: nat, parts: nat)
    requires size > 0 && parts > 0 && size * parts > 0
    ensures var first, block := RoundDown(addr, size), size * parts;
      first == addr - addr % block + first % block
  {
    RoundDownMultiple(addr, size);
    CellInBlock(RoundDown(addr, size), size, parts, size * parts, addr);
  }

  /** The RAM steps from each of them to the next. */
  lemma NextBeat(b: Burst, n: nat)
    ensures NextAddr(b, BeatAddress(b, n)) == BeatAddress(b, n + 1)
  {
    var size, first := PowerOfTwo(b.size), AlignedAddr(b);
    assert (n + 1) * size == n * size + size;
    assert Cell(first, size, n + 1) == Cell(first, size, n) + size;
    if b.kind.Wrap? {
      BlockExists(size, b.len + 1);
      RoundDownMultiple(b.addr, size);
      CellAfter(first, size, n);
      WrapsAround(first + n * size, size, b.len + 1, size * (b.len + 1));
    }
  }

  lemma CellAfter(first: nat, size: nat, n: nat)
    requires size > 0 && first % size == 0
    ensures (first + n * size) % size == 0
  {
    AddMultiple(first, size, n);
  }

  lemma WrapsAround(c: nat, size: nat, parts: nat, block: nat)
    requires size > 0 && parts > 0 && block == size * parts > 0 && c % size == 0
    ensures (c + size) % block == if c % block + size == block then 0 else c % block + size
  {
    CellInBlock(c, size, parts, block, c);
    var q := c / block;
    if c % block + size == block {
      assert c + size == (q + 1) * block;
      QuotientUnique(c + size, block, q + 1, 0);
    } else {
      QuotientUnique(c + size, block, q, c % block + size);
    }
  }

  // Bursts written

  /** The memory after the first n beats. */
  ghost function WrittenBy(b: Burst, beats: seq<Beat>, n: nat, mem: seq<Byte>, busBytes: nat): (m: seq<Byte>)
    requires n <= |beats| && |mem| > 0 && busBytes > 0
    ensures |m| == |mem|
  {
    if n == 0 then mem
    else Strobed(WrittenBy(b, beats, n - 1, mem, busBytes), busBytes, BeatAddress(b, n - 1), beats[n - 1])
  }

  /** There are beats enough, and the last one of the burst is marked and no other. */
  ghost predicate WellMarked(b: Burst, beats: seq<Beat>)
  {
    b.len < |beats| && forall j | 0 <= j <= b.len :: beats[j].last <==> j == b.len
  }

  /** A burst is carried out exactly if its beats are there and well marked, each at its address. */
  lemma BurstWrites(b: Burst, beats: seq<Beat>, mem: seq<Byte>, busBytes: nat)
    requires |mem| > 0 && busBytes > 0
    ensures BurstRun(b, 0, AlignedAddr(b), beats, mem, busBytes)
         == if WellMarked(b, beats)
            then Some((beats[b.len + 1..], WrittenBy(b, beats, b.len + 1, mem, busBytes))) else None
  {
    FirstBeat(b);
    BeatsWrite(b, 0, beats, mem, busBytes);
    hide BurstRun, WrittenBy, AlignedAddr, BeatAddress;
    assert beats[0..] == beats;
    NoneWritten(b, beats, mem, busBytes);
  }

  lemma NoneWritten(b: Burst, beats: seq<Beat>, mem: seq<Byte>, busBytes: nat)
    requires |mem| > 0 && busBytes > 0
    ensures WrittenBy(b, beats, 0, mem, busBytes) == mem
  {
  }

  lemma {:induction false} BeatsWrite(b: Burst, n: nat, beats: seq<Beat>, mem: seq<Byte>, busBytes: nat)
    requires |mem| > 0 && busBytes > 0 && n <= b.len + 1 && n <= |beats|
    requires forall j | 0 <= j < n :: beats[j].last <==> j == b.len
    ensures BurstRun(b, n, BeatAddress(b, n), beats[n..], WrittenBy(b, beats, n, mem, busBytes), busBytes)
         == if WellMarked(b, beats)
            then Some((beats[b.len + 1..], WrittenBy(b, beats, b.len + 1, mem, busBytes))) else None
    decreases b.len + 1 - n
  {
    hide BeatAddress, NextAddr, Strobed;
    if n <= b.len && n < |beats| && (beats[n].last <==> n == b.len) {
      NextBeat(b, n);
      assert beats[n..][1..] == beats[n + 1..];
      BeatsWrite(b, n + 1, beats, mem, busBytes);
    }
  }

  // Bursts read

  /** A burst is answered with the words at the addresses of its beats. */
  lemma BurstAnswers(b: Burst, mem: seq<Byte>, busBytes: nat, j: nat)
    requires WholeWords(mem, busBytes) && j <= b.len
    ensures |BurstReads(b, 0, AlignedAddr(b), mem, busBytes)| == b.len + 1
    ensures BurstReads(b, 0, AlignedAddr(b), mem, busBytes)[j]
         == ReadBeat(b.id, WordAt(mem, busBytes, BeatAddress(b, j)), 0, j == b.len)
  {
    FirstBeat(b);
    BeatsAnswer(b, 0, mem, busBytes, j);
  }

  lemma {:induction false} BeatsAnswer(b: Burst, n: nat, mem: seq<Byte>, busBytes: nat, j: nat)
    requires WholeWords(mem, busBytes) && n <= j <= b.len
    ensures var answers := BurstReads(b, n, BeatAddress(b, n), mem, busBytes);
      && |answers| == b.len + 1 - n
      && answers[j - n] == ReadBeat(b.id, WordAt(mem, busBytes, BeatAddress(b, j)), 0, j == b.len)
    decreases b.len + 1 - n
  {
    hide BeatAddress, NextAddr, WordAt, WholeWords;
    NextBeat(b, n);
    if n < b.len {
      BeatsAnswer(b, n + 1, mem, busBytes, if n == j then n + 1 else j);
    }
  }

  // What is refused

  predicate InOnePage(first: nat, n: nat) {
    forall a | first <= a < first + n :: Page(a) == Page(first)
  }

  function Page(addr: nat): nat {
    addr / 4096
  }

  /** The RAM accepts a burst exactly if its beats are no wider than the bus and, if increasing, lie in one page. */
  lemma AcceptedMeans(b: Burst, busBytes: nat)
    ensures Accepted(b, busBytes)
      <==> && PowerOfTwo(b.size) <= busBytes
           && (b.kind.Incr? ==>
                 InOnePage(RoundDown(b.addr, PowerOfTwo(b.size)), PowerOfTwo(b.size) * (b.len + 1)))
  {
    hide *;
    AcceptedIs(b, busBytes);
    BlockExists(PowerOfTwo(b.size), b.len + 1);
    PageHolds(RoundDown(b.addr, PowerOfTwo(b.size)), PowerOfTwo(b.size) * (b.len + 1));
  }

  lemma AcceptedIs(b: Burst, busBytes: nat)
    ensures Accepted(b, busBytes)
      <==> && PowerOfTwo(b.size) <= busBytes
           && (b.kind.Incr? ==>
                 RoundDown(b.addr, PowerOfTwo(b.size)) % 4096 + PowerOfTwo(b.size) * (b.len + 1) <= 4096)
  {
    hide RoundDown, PowerOfTwo;
  }

  lemma PageHolds(first: nat, n: nat)
    requires n > 0
    ensures first % 4096 + n <= 4096 <==> InOnePage(first, n)
  {
    if first % 4096 + n > 4096 {
      var other := first + (n - 1);
      assert Page(other) != Page(first);
    }
  }
}
