/** The AXI memory of the test bench: it executes bursts of strobed beats on a byte array. */
module AxiRam {
  import opened Bits
  import opened Modular
  import opened Wrappers
  import opened AxiTransfer

  datatype Kind = Fixed | Incr | Wrap

  datatype Burst = Burst(addr: nat, id: nat, len: nat, size: nat, kind: Kind)

  datatype Beat = Beat(data: nat, strb: nat, last: bool)

  /** One beat: the strobed lanes of the addressed word are overwritten. */
  function Strobed(mem: seq<Byte>, busBytes: nat, addr: nat, beat: Beat): (m: seq<Byte>)
    requires |mem| > 0 && busBytes > 0
    ensures |m| == |mem|
  {
    var base := RoundDown(addr, busBytes) % |mem|;
    seq(|mem|, p requires 0 <= p < |mem| => StrobedByte(mem[p], p - base, busBytes, beat))
  }

  /** A byte of memory at an offset from the addressed word, after a beat. */
  function StrobedByte(was: Byte, lane: int, busBytes: nat, beat: Beat): Byte {
    if 0 <= lane < busBytes && Bit(beat.strb, lane) then Lane(beat.data, lane) else was
  }

  function AlignedAddr(b: Burst): nat {
    RoundDown(b.addr, PowerOfTwo(b.size))
  }

  function TransferSize(b: Burst): nat {
    PowerOfTwo(b.size) * (b.len + 1)
  }

  /** The assertions with which the RAM meets a burst. */
  predicate Accepted(b: Burst, busBytes: nat) {
    && PowerOfTwo(b.size) <= busBytes
    && (b.kind.Incr? ==> PageBytes - AlignedAddr(b) % PageBytes >= TransferSize(b))
  }

  function NextAddr(b: Burst, cur: nat): nat {
    var next := cur + PowerOfTwo(b.size);
    match b.kind
    case Fixed => cur
    case Incr => next
    case Wrap =>
      var n := TransferSize(b);
      var lower := if n > 0 then RoundDown(b.addr, n) else 0;
      if next == lower + n then lower else next
  }

  /** Beats n and on of a burst; None when a beat is missing or `last` is wrong. */
  function BurstRun(b: Burst, n: nat, cur: nat, beats: seq<Beat>, mem: seq<Byte>, busBytes: nat)
    : (r: Option<(seq<Beat>, seq<Byte>)>)
    requires |mem| > 0 && busBytes > 0 && n <= b.len + 1
    ensures r.Some? ==> |r.value.1| == |mem|
    decreases b.len + 1 - n
  {
    if n == b.len + 1 then Some((beats, mem))
    else if beats == [] || beats[0].last != (n == b.len) then None
    else BurstRun(b, n + 1, NextAddr(b, cur), beats[1..], Strobed(mem, busBytes, cur, beats[0]), busBytes)
  }

  /** All bursts in order, with the beats left over and the memory; None when an assertion fails. */
  function RamRun(bursts: seq<Burst>, beats: seq<Beat>, mem: seq<Byte>, busBytes: nat)
    : (r: Option<(seq<Beat>, seq<Byte>)>)
    requires |mem| > 0 && busBytes > 0
    ensures r.Some? ==> |r.value.1| == |mem|
  {
    if bursts == [] then Some((beats, mem))
    else if !Accepted(bursts[0], busBytes) then None
    else
      match BurstRun(bursts[0], 0, AlignedAddr(bursts[0]), beats, mem, busBytes)
      case None => None
      case Some(p) => RamRun(bursts[1..], p.0, p.1, busBytes)
  }

  lemma RunFirst(bursts: seq<Burst>, beats: seq<Beat>, mem: seq<Byte>, busBytes: nat)
    requires bursts != [] && |mem| > 0 && busBytes > 0
    ensures !Accepted(bursts[0], busBytes) ==> RamRun(bursts, beats, mem, busBytes) == None
    ensures Accepted(bursts[0], busBytes) ==>
      var r := BurstRun(bursts[0], 0, AlignedAddr(bursts[0]), beats, mem, busBytes);
      && (r.Some? ==> |r.value.1| == |mem|)
      && RamRun(bursts, beats, mem, busBytes)
         == if r.None? then None else RamRun(bursts[1..], r.value.0, r.value.1, busBytes)
  {
    hide BurstRun, Accepted, AlignedAddr;
  }

  lemma RunNone(beats: seq<Beat>, mem: seq<Byte>, busBytes: nat)
    requires |mem| > 0 && busBytes > 0
    ensures RamRun([], beats, mem, busBytes) == Some((beats, mem)) && Ids([]) == []
  {
  }

  lemma IdsFirst(bursts: seq<Burst>)
    requires bursts != []
    ensures Ids(bursts) == [bursts[0].id] + Ids(bursts[1..])
  {
  }

  /** A first burst that is accepted and finds its beats is executed before the others. */
  lemma RamCons(b: Burst, others: seq<Burst>, beats: seq<Beat>, rest: seq<Beat>, mem: seq<Byte>, next: seq<Byte>,
      busBytes: nat)
    requires |mem| == |next| > 0 && busBytes > 0 && Accepted(b, busBytes)
    requires BurstRun(b, 0, AlignedAddr(b), beats, mem, busBytes) == Some((rest, next))
    ensures RamRun([b] + others, beats, mem, busBytes) == RamRun(others, rest, next, busBytes)
  {
    hide BurstRun, Accepted, AlignedAddr;
    assert ([b] + others)[1..] == others;
  }

  lemma {:induction false} BurstRunAppend(b: Burst, n: nat, cur: nat, beats: seq<Beat>, more: seq<Beat>, mem: seq<Byte>,
                                          busBytes: nat)
    requires |mem| > 0 && busBytes > 0 && n <= b.len + 1
    requires BurstRun(b, n, cur, beats, mem, busBytes).Some?
    ensures var r := BurstRun(b, n, cur, beats, mem, busBytes).value;
      BurstRun(b, n, cur, beats + more, mem, busBytes) == Some((r.0 + more, r.1))
    decreases b.len + 1 - n
  {
    hide Strobed, NextAddr;
    if n <= b.len {
      assert (beats + more)[1..] == beats[1..] + more;
      BurstRunAppend(b, n + 1, NextAddr(b, cur), beats[1..], more, Strobed(mem, busBytes, cur, beats[0]), busBytes);
    }
  }

  /** What is queued can be executed as it comes: later bursts and beats do not change the outcome. */
  lemma {:induction false} RamRunAppend(bursts: seq<Burst>, moreBursts: seq<Burst>,
                                        beats: seq<Beat>, moreBeats: seq<Beat>,
                                        mem: seq<Byte>, busBytes: nat)
    requires |mem| > 0 && busBytes > 0 && RamRun(bursts, beats, mem, busBytes).Some?
    ensures var r := RamRun(bursts, beats, mem, busBytes).value;
      RamRun(bursts + moreBursts, beats + moreBeats, mem, busBytes)
      == RamRun(moreBursts, r.0 + moreBeats, r.1, busBytes)
    decreases |bursts|
  {
    hide BurstRun, Accepted, AlignedAddr;
    if bursts == [] {
      assert bursts + moreBursts == moreBursts;
    } else {
      var b := bursts[0];
      var p := BurstRun(b, 0, AlignedAddr(b), beats, mem, busBytes).value;
      BurstRunAppend(b, 0, AlignedAddr(b), beats, moreBeats, mem, busBytes);
      RamRunAppend(bursts[1..], moreBursts, p.0, moreBeats, p.1, busBytes);
      assert bursts + moreBursts == [b] + (bursts[1..] + moreBursts);
      RamCons(b, bursts[1..] + moreBursts, beats + moreBeats, p.0 + moreBeats, mem, p.1, busBytes);
    }
  }

  // The bursts a master makes of a transfer

  /** The bursts from beat k on, with identifiers counting up modulo ids. */
  ghost function BurstsFrom(t: Transfer, size: nat, kind: Kind, maxBurst: int, ids: nat, k: nat, id: nat): seq<Burst>
    requires t.Legal() && ids > 0 && k <= t.Cycles()
    decreases t.Cycles() - k
  {
    if k == t.Cycles() then []
    else
      BurstFits(t, maxBurst, k);
      var n := BurstLength(t, maxBurst, k);
      [Burst(t.Cell(k), id, n - 1, size, kind)] + BurstsFrom(t, size, kind, maxBurst, ids, k + n, (id + 1) % ids)
  }

  /** The RAM accepts every burst a master makes: it does not cross a page. */
  lemma BurstAccepted(t: Transfer, size: nat, kind: Kind, maxBurst: int, k: nat, id: nat)
    requires t.Legal() && t.beatBytes == PowerOfTwo(size) && k < t.Cycles()
    ensures 1 <= BurstLength(t, maxBurst, k) <= MaxBurst
    ensures var b := Burst(t.Cell(k), id, BurstLength(t, maxBurst, k) - 1, size, kind);
      AlignedAddr(b) == t.Cell(k) && Accepted(b, t.busBytes)
  {
    BurstFits(t, maxBurst, k);
    CellsAligned(t, k);
    var n := BurstLength(t, maxBurst, k);
    assert n * t.beatBytes == t.beatBytes * (n - 1 + 1);
  }

  function Beats(bursts: seq<Burst>): nat {
    if bursts == [] then 0 else bursts[0].len + 1 + Beats(bursts[1..])
  }

  /**
   * The bursts partition the beats, each has 1 to 256 of them and stays in one page, and
   * identifiers are in range.
   */
  lemma {:induction false} BurstsPartition(t: Transfer, size: nat, kind: Kind, maxBurst: int, ids: nat, k: nat, id: nat)
    requires t.Legal() && t.beatBytes == PowerOfTwo(size) && ids > 0 && k <= t.Cycles() && id < ids
    ensures Beats(BurstsFrom(t, size, kind, maxBurst, ids, k, id)) == t.Cycles() - k
    ensures forall b <- BurstsFrom(t, size, kind, maxBurst, ids, k, id) ::
      Accepted(b, t.busBytes) && b.len < MaxBurst && b.id < ids && AlignedAddr(b) == b.addr
    decreases t.Cycles() - k
  {
    hide Transfer.Cycles, Transfer.Cell, Accepted, AlignedAddr, BurstLength;
    if k < t.Cycles() {
      BurstFits(t, maxBurst, k);
      BurstAccepted(t, size, kind, maxBurst, k, id);
      var n := BurstLength(t, maxBurst, k);
      assert (id + 1) % ids < ids;
      BurstsPartition(t, size, kind, maxBurst, ids, k + n, (id + 1) % ids);
      var later := BurstsFrom(t, size, kind, maxBurst, ids, k + n, (id + 1) % ids);
      assert BurstsFrom(t, size, kind, maxBurst, ids, k, id)[1..] == later;
    }
  }

  // Reads

  /** A memory of whole words. */
  predicate WholeWords(mem: seq<Byte>, busBytes: nat) {
    busBytes > 0 && |mem| > 0 && |mem| % busBytes == 0
  }

  datatype ReadBeat = ReadBeat(id: nat, data: nat, resp: nat, last: bool)

  /** The word that holds an address. */
  function WordAt(mem: seq<Byte>, busBytes: nat, addr: nat): nat
    requires WholeWords(mem, busBytes)
  {
    WordInside(addr, |mem|, busBytes);
    var base := RoundDown(addr, busBytes) % |mem|;
    Pack(mem[base..base + busBytes])
  }

  /** The byte at an address is in its lane of the word there. */
  lemma LaneOfWord(mem: seq<Byte>, busBytes: nat, addr: nat)
    requires WholeWords(mem, busBytes)
    ensures Lane(WordAt(mem, busBytes, addr), addr % busBytes) == mem[addr % |mem|]
  {
    hide Lane, Pack;
    WordInside(addr, |mem|, busBytes);
    var base := RoundDown(addr, busBytes) % |mem|;
    LanePack(mem[base..base + busBytes], addr % busBytes);
  }

  /** The answers to a burst from beat n on. */
  function BurstReads(b: Burst, n: nat, cur: nat, mem: seq<Byte>, busBytes: nat): (beats: seq<ReadBeat>)
    requires WholeWords(mem, busBytes) && n <= b.len + 1
    decreases b.len + 1 - n
  {
    if n == b.len + 1 then []
    else
      [ReadBeat(b.id, WordAt(mem, busBytes, cur), 0, n == b.len)]
      + BurstReads(b, n + 1, NextAddr(b, cur), mem, busBytes)
  }

  /** The answers to all bursts, in the order in which they were issued. */
  function Reads(bursts: seq<Burst>, mem: seq<Byte>, busBytes: nat): seq<ReadBeat>
    requires WholeWords(mem, busBytes)
  {
    if bursts == [] then []
    else BurstReads(bursts[0], 0, AlignedAddr(bursts[0]), mem, busBytes) + Reads(bursts[1..], mem, busBytes)
  }

  lemma {:induction false} ReadsAppend(a: seq<Burst>, b: seq<Burst>, mem: seq<Byte>, busBytes: nat)
    requires WholeWords(mem, busBytes)
    ensures Reads(a + b, mem, busBytes) == Reads(a, mem, busBytes) + Reads(b, mem, busBytes)
  {
    hide BurstReads, AlignedAddr;
    if a == [] {
      assert a + b == b;
    } else {
      ReadsAppend(a[1..], b, mem, busBytes);
      assert (a + b)[1..] == a[1..] + b;
    }
  }

  class Ram {
    const mem: array<Byte>
    var addrQueue: seq<Burst>
    var dataQueue: seq<Beat>
    var respQueue: seq<nat>
    var readAddrQueue: seq<Burst>
    var readRespQueue: seq<ReadBeat>

    constructor (contents: array<Byte>)
      ensures mem == contents && addrQueue == [] && dataQueue == [] && respQueue == []
      ensures readAddrQueue == [] && readRespQueue == []
    {
      mem := contents;
      addrQueue, dataQueue, respQueue := [], [], [];
      readAddrQueue, readRespQueue := [], [];
    }

    /** The strobe loop for one word. */
    method WriteWord(addr: nat, beat: Beat, busBytes: nat)
      requires busBytes > 0 && mem.Length > 0 && mem.Length % busBytes == 0
      modifies mem
      ensures mem[..] == Strobed(old(mem[..]), busBytes, addr, beat)
    {
      var pos := RoundDown(addr, busBytes) % mem.Length;
      ghost var base := pos;
      WordInside(addr, mem.Length, busBytes);
      hide RoundDown, Bit, Lane;
      var wdata := beat.data;
      var i := 0;
      while i < busBytes
        invariant 0 <= i <= busBytes && pos == base + i <= mem.Length
        invariant wdata == DropLanes(beat.data, i)
        invariant forall p :: 0 <= p < mem.Length ==>
          mem[p] == if p < base + i then StrobedByte(old(mem[p]), p - base, busBytes, beat) else old(mem[p])
      {
        LowLane(beat.data, i);
        if Bit(beat.strb, i) {
          mem[pos] := wdata % 256;
        }
        pos := pos + 1;
        wdata := wdata / 256;
        i := i + 1;
      }
    }

    /**
     * The bursts queued are executed in order; ok is false when an assertion of the RAM
     * fails or a beat is missing. Each burst executed is answered once.
     */
    method WriteLogic(busBytes: nat) returns (ok: bool)
      requires busBytes > 0 && mem.Length > 0 && mem.Length % busBytes == 0
      modifies this, mem
      ensures var r := RamRun(old(addrQueue), old(dataQueue), old(mem[..]), busBytes);
        && ok == r.Some?
        && (ok ==> dataQueue == r.value.0 && mem[..] == r.value.1 && addrQueue == []
                   && respQueue == old(respQueue) + Ids(old(addrQueue)))
    {
      hide *;
      ok := true;
      while addrQueue != []
        invariant RamRun(addrQueue, dataQueue, mem[..], busBytes)
               == RamRun(old(addrQueue), old(dataQueue), old(mem[..]), busBytes)
        invariant respQueue + Ids(addrQueue) == old(respQueue) + Ids(old(addrQueue))
        decreases |addrQueue|
      {
        var b := addrQueue[0];
        RunFirst(addrQueue, dataQueue, mem[..], busBytes);
        IdsFirst(addrQueue);
        addrQueue := addrQueue[1..];
        if !Accepted(b, busBytes) {
          return false;
        }
        ok := ExecuteBurst(b, busBytes);
        if !ok {
          return;
        }
        respQueue := respQueue + [b.id];
      }
      RunNone(dataQueue, mem[..], busBytes);
    }

    /** The byte loop that reads one word, last byte first. */
    method ReadWord(addr: nat, busBytes: nat) returns (val: nat)
      requires busBytes > 0 && mem.Length > 0 && mem.Length % busBytes == 0
      ensures val == WordAt(mem[..], busBytes, addr)
    {
      WordInside(addr, mem.Length, busBytes);
      var pos := RoundDown(addr, busBytes) % mem.Length;
      var data := mem[pos..pos + busBytes];
      assert data == mem[..][pos..pos + busBytes];
      hide RoundDown;
      val := 0;
      var i := busBytes;
      while i > 0
        invariant 0 <= i <= busBytes && val == Pack(data[i..])
      {
        i := i - 1;
        assert data[i..][1..] == data[i + 1..];
        val := Shl(val, 8);
        ShlByte(Pack(data[i + 1..]), 0);
        val := val + data[i];
      }
      assert data[0..] == data;
    }

    /** The bursts queued for reading are answered in order, unless one is not acceptable. */
    method ReadLogic(busBytes: nat) returns (ok: bool)
      requires busBytes > 0 && mem.Length > 0 && mem.Length % busBytes == 0
      modifies this`readAddrQueue, this`readRespQueue
      ensures ok == forall b <- old(readAddrQueue) :: Accepted(b, busBytes)
      ensures ok ==> readAddrQueue == []
      ensures ok ==> readRespQueue == old(readRespQueue) + Reads(old(readAddrQueue), mem[..], busBytes)
    {
      hide Accepted, BurstReads, AlignedAddr;
      ghost var all := readAddrQueue;
      while readAddrQueue != []
        invariant forall b <- all :: b in readAddrQueue || Accepted(b, busBytes)
        invariant forall b <- readAddrQueue :: b in all
        invariant readRespQueue + Reads(readAddrQueue, mem[..], busBytes)
               == old(readRespQueue) + Reads(all, mem[..], busBytes)
        decreases |readAddrQueue|
      {
        var b := readAddrQueue[0];
        readAddrQueue := readAddrQueue[1..];
        if !Accepted(b, busBytes) {
          return false;
        }
        ReadBurst(b, busBytes);
      }
      ok := true;
    }

    method ReadBurst(b: Burst, busBytes: nat)
      requires busBytes > 0 && mem.Length > 0 && mem.Length % busBytes == 0
      modifies this`readRespQueue
      ensures readRespQueue == old(readRespQueue) + BurstReads(b, 0, AlignedAddr(b), mem[..], busBytes)
    {
      hide AlignedAddr, NextAddr, WordAt;
      var cur := AlignedAddr(b);
      var n := 0;
      while n < b.len + 1
        invariant 0 <= n <= b.len + 1
        invariant readRespQueue + BurstReads(b, n, cur, mem[..], busBytes)
               == old(readRespQueue) + BurstReads(b, 0, AlignedAddr(b), mem[..], busBytes)
      {
        var val := ReadWord(cur, busBytes);
        readRespQueue := readRespQueue + [ReadBeat(b.id, val, 0, n == b.len)];
        cur := NextAddr(b, cur);
        n := n + 1;
      }
    }

    /** The beat loop of one burst. */
    method ExecuteBurst(b: Burst, busBytes: nat) returns (ok: bool)
      requires busBytes > 0 && mem.Length > 0 && mem.Length % busBytes == 0
      modifies this`dataQueue, mem
      ensures var r := BurstRun(b, 0, AlignedAddr(b), old(dataQueue), old(mem[..]), busBytes);
        ok == r.Some? && (ok ==> dataQueue == r.value.0 && mem[..] == r.value.1)
    {
      var cur := AlignedAddr(b);
      var n := 0;
      while n < b.len + 1
        invariant 0 <= n <= b.len + 1
        invariant BurstRun(b, n, cur, dataQueue, mem[..], busBytes)
               == BurstRun(b, 0, AlignedAddr(b), old(dataQueue), old(mem[..]), busBytes)
      {
        if dataQueue == [] {
          return false;
        }
        var beat := dataQueue[0];
        dataQueue := dataQueue[1..];
        if beat.last != (n == b.len) {
          return false;
        }
        WriteWord(cur, beat, busBytes);
        cur := NextAddr(b, cur);
        n := n + 1;
      }
      ok := true;
    }
  }

  function Ids(bursts: seq<Burst>): seq<nat> {
    if bursts == [] then [] else [bursts[0].id] + Ids(bursts[1..])
  }

  /** A memory of whole words has room for the word at any address, and the byte lies in it at its lane. */
  lemma WordInside(addr: nat, size: nat, busBytes: nat)
    requires busBytes > 0 && size > 0 && size % busBytes == 0
    ensures RoundDown(addr, busBytes) % size + busBytes <= size
    ensures addr % size == RoundDown(addr, busBytes) % size + addr % busBytes
  {
    RoundDownMultiple(addr, busBytes);
    CellInBlock(RoundDown(addr, busBytes), busBytes, size / busBytes, size, addr);
  }
}
