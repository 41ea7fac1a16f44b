/**
 * AXI writes: the master cuts a byte range into strobed beats and bursts, and the RAM
 * executes them. Together they are a flat write of the bytes.
 */
module AxiWrite {
  import opened Numbers
  import opened Bits
  import opened Modular
  import opened Wrappers
  import opened AxiTransfer
  import opened AxiMemory
  import opened AxiRam
  import opened AxiIssue

  // What the master queues for one write command

  datatype Write = Write(t: Transfer, size: nat, data: seq<Byte>, kind: Kind) {
    ghost predicate Legal()
    {
      t.Legal() && t.beatBytes == PowerOfTwo(size) && t.length == |data|
    }

    /** The bytes of an address range within the transfer. */
    function Bytes(a: nat, b: nat): seq<Byte>
      requires t.addr <= a <= b <= t.addr + |data|
    {
      data[a - t.addr..b - t.addr]
    }
  }

  function EndOffset(addr: nat, length: nat, busBytes: nat): nat
    requires busBytes > 0
  {
    (addr + length - 1) % busBytes + 1
  }

  /** The lane at which beat k stops, as the master computes it. */
  function StopLane(t: Transfer, k: nat): int
    requires t.Legal()
  {
    if k + 1 == t.Cycles() then EndOffset(t.addr, t.length, t.busBytes)
    else CellLane(t, k) + t.beatBytes
  }

  /** The lane at which the bytes of beat k start. */
  function StartLane(t: Transfer, k: nat): nat
    requires t.Legal()
  {
    t.From(k) % t.busBytes
  }

  function Strobe(busBytes: nat, start: nat, stop: nat): nat
    requires stop <= busBytes
  {
    And(And(Shl(Ones(busBytes), start), Ones(busBytes)), Shr(Ones(busBytes), busBytes - stop))
  }

  /** The strobe has exactly the bits from start to stop. */
  lemma StrobeBits(busBytes: nat, start: nat, stop: nat, i: nat)
    requires start <= stop <= busBytes
    ensures Bit(Strobe(busBytes, start, stop), i) <==> start <= i < stop
  {
    var full := Ones(busBytes);
    BitAnd(And(Shl(full, start), full), Shr(full, busBytes - stop), i);
    BitAnd(Shl(full, start), full, i);
    BitShl(full, start, i);
    BitOnes(busBytes, i);
    if i >= start {
      BitOnes(busBytes, i - start);
    }
    BitShr(full, busBytes - stop, i);
    BitOnes(busBytes, i + (busBytes - stop));
  }

  /** The beat that carries bytes in the lanes from start on. */
  function Packed(busBytes: nat, start: nat, bytes: seq<Byte>, last: bool): Beat
    requires start + |bytes| <= busBytes
  {
    Beat(Shl(Pack(bytes), 8 * start), Strobe(busBytes, start, start + |bytes|), last)
  }

  /** Beat k: its bytes in their lanes, and a strobe for exactly those lanes. */
  ghost function BeatAt(w: Write, k: nat, last: bool): (beat: Beat)
    requires w.Legal() && k < w.t.Cycles()
    ensures beat.last == last
  {
    BeatRange(w.t, k);
    BeatLanes(w.t, k);
    Packed(w.t.busBytes, w.t.From(k) % w.t.busBytes, w.Bytes(w.t.From(k), w.t.To(k)), last)
  }

  /** The r beats from k on that finish a burst. */
  ghost function BurstTail(w: Write, k: nat, r: nat): seq<Beat>
    requires w.Legal() && k + r <= w.t.Cycles()
    decreases r
  {
    if r == 0 then [] else [BeatAt(w, k, r == 1)] + BurstTail(w, k + 1, r - 1)
  }

  ghost function WriteBursts(w: Write, maxBurst: int, ids: nat, k: nat, id: nat): seq<Burst>
    requires w.Legal() && ids > 0 && k <= w.t.Cycles()
  {
    BurstsFrom(w.t, w.size, w.kind, maxBurst, ids, k, id)
  }

  /** The beats from beat k on, burst by burst. */
  ghost function BeatsFrom(w: Write, maxBurst: int, k: nat): seq<Beat>
    requires w.Legal() && k <= w.t.Cycles()
    decreases w.t.Cycles() - k
  {
    if k == w.t.Cycles() then []
    else
      BurstFits(w.t, maxBurst, k);
      var n := BurstLength(w.t, maxBurst, k);
      BurstTail(w, k, n) + BeatsFrom(w, maxBurst, k + n)
  }

  // The bursts and beats, executed, are the flat write

  /** The address up to which the beats before k have written. */
  ghost function Reached(t: Transfer, k: nat): nat
    requires t.Legal() && k <= t.Cycles()
  {
    if k < t.Cycles() then t.From(k) else t.addr + t.length
  }

  lemma ReachedRange(t: Transfer, k: nat)
    requires t.Legal() && k <= t.Cycles()
    ensures t.addr <= Reached(t, k) <= t.addr + t.length
    ensures k < t.Cycles() ==> Reached(t, k) == t.From(k) && Reached(t, k + 1) == t.To(k) >= t.From(k)
  {
    if k < t.Cycles() {
      BeatRange(t, k);
    }
  }

  lemma {:induction false} ReachedMonotone(t: Transfer, j: nat, k: nat)
    requires t.Legal() && j <= k <= t.Cycles()
    ensures Reached(t, j) <= Reached(t, k)
    decreases k - j
  {
    if j < k {
      ReachedRange(t, j);
      ReachedMonotone(t, j + 1, k);
    }
  }

  /** It overwrites those lanes with the bytes and leaves the others. */
  lemma PackedLane(busBytes: nat, start: nat, bytes: seq<Byte>, last: bool, lane: int, was: Byte)
    requires start + |bytes| <= busBytes
    ensures StrobedByte(was, lane, busBytes, Packed(busBytes, start, bytes, last))
         == if start <= lane < start + |bytes| then bytes[lane - start] else was
  {
    if 0 <= lane < busBytes {
      StrobeBits(busBytes, start, start + |bytes|, lane);
      LaneShifted(bytes, start, lane);
    }
  }

  /** The lane of a byte, when the first byte of the run lies at `first`, in lane `start` of the word at `base`. */
  lemma LaneOfByte(busBytes: nat, base: nat, start: nat, first: nat, bytes: seq<Byte>, last: bool,
                   p: nat, was: Byte, after: Byte)
    requires start + |bytes| <= busBytes && first == base + start
    requires after == if first <= p < first + |bytes| then bytes[p - first] else was
    ensures StrobedByte(was, p - base, busBytes, Packed(busBytes, start, bytes, last)) == after
  {
    hide *;
    PackedLane(busBytes, start, bytes, last, p - base, was);
  }

  /** One byte of memory after packed bytes were strobed into the word they belong to. */
  lemma PackedByte(mem: seq<Byte>, busBytes: nat, cell: nat, a: nat, bytes: seq<Byte>, last: bool, p: nat)
    requires busBytes > 0 && |mem| > 0 && |mem| % busBytes == 0 && p < |mem|
    requires RoundDown(cell, busBytes) == RoundDown(a, busBytes) && a % busBytes + |bytes| <= busBytes
    ensures Strobed(mem, busBytes, cell, Packed(busBytes, a % busBytes, bytes, last))[p] == FlatWrite(mem, a, bytes)[p]
  {
    hide *;
    WordInside(a, |mem|, busBytes);
    FlatWriteWithin(mem, a, bytes, p);
    LaneOfByte(busBytes, RoundDown(cell, busBytes) % |mem|, a % busBytes, a % |mem|, bytes, last,
               p, mem[p], FlatWrite(mem, a, bytes)[p]);
    StrobedAt(mem, busBytes, cell, Packed(busBytes, a % busBytes, bytes, last), p);
  }

  lemma StrobedAt(mem: seq<Byte>, busBytes: nat, addr: nat, beat: Beat, p: nat)
    requires busBytes > 0 && p < |mem|
    ensures Strobed(mem, busBytes, addr, beat)[p]
         == StrobedByte(mem[p], p - RoundDown(addr, busBytes) % |mem|, busBytes, beat)
  {
  }

  /** Packed bytes, strobed into the word they belong to, are written at their address. */
  lemma PackedWrites(mem: seq<Byte>, busBytes: nat, cell: nat, a: nat, bytes: seq<Byte>, last: bool)
    requires busBytes > 0 && |mem| > 0 && |mem| % busBytes == 0
    requires RoundDown(cell, busBytes) == RoundDown(a, busBytes) && a % busBytes + |bytes| <= busBytes
    ensures Strobed(mem, busBytes, cell, Packed(busBytes, a % busBytes, bytes, last)) == FlatWrite(mem, a, bytes)
  {
    hide *;
    var written := Strobed(mem, busBytes, cell, Packed(busBytes, a % busBytes, bytes, last));
    forall p | 0 <= p < |mem|
      ensures written[p] == FlatWrite(mem, a, bytes)[p]
    {
      PackedByte(mem, busBytes, cell, a, bytes, last, p);
    }
  }

  /** One beat writes its bytes and nothing else. */
  lemma BeatWrites(w: Write, k: nat, last: bool, mem: seq<Byte>)
    requires w.Legal() && k < w.t.Cycles() && |mem| > 0 && |mem| % w.t.busBytes == 0
    ensures w.t.addr <= w.t.From(k) <= w.t.To(k) <= w.t.addr + |w.data|
    ensures Strobed(mem, w.t.busBytes, w.t.Cell(k), BeatAt(w, k, last))
         == FlatWrite(mem, w.t.From(k), w.Bytes(w.t.From(k), w.t.To(k)))
  {
    BeatRange(w.t, k);
    BeatLanes(w.t, k);
    PackedWrites(mem, w.t.busBytes, w.t.Cell(k), w.t.From(k), w.Bytes(w.t.From(k), w.t.To(k)), last);
  }

  /** Writing one range of the bytes and then the next writes both. */
  lemma NextRange(w: Write, mem: seq<Byte>, a: nat, b: nat, c: nat)
    requires |mem| > 0 && w.t.addr <= a <= b <= c <= w.t.addr + |w.data|
    ensures FlatWrite(FlatWrite(mem, a, w.Bytes(a, b)), b, w.Bytes(b, c)) == FlatWrite(mem, a, w.Bytes(a, c))
  {
    hide FlatWrite, Write.Bytes;
    BytesJoin(w, a, b, c);
    FlatWriteAppend(mem, a, w.Bytes(a, b), w.Bytes(b, c));
  }

  lemma BytesJoin(w: Write, a: nat, b: nat, c: nat)
    requires w.t.addr <= a <= b <= c <= w.t.addr + |w.data|
    ensures w.Bytes(a, b) + w.Bytes(b, c) == w.Bytes(a, c)
    ensures |w.Bytes(a, b)| == b - a
  {
  }

  lemma NothingWritten(w: Write, k: nat, mem: seq<Byte>)
    requires w.Legal() && k <= w.t.Cycles() && |mem| > 0
    ensures w.t.addr <= Reached(w.t, k) <= w.t.addr + |w.data|
    ensures FlatWrite(mem, Reached(w.t, k), w.Bytes(Reached(w.t, k), Reached(w.t, k))) == mem
  {
    hide Reached;
    ReachedRange(w.t, k);
  }

  lemma LegalParts(w: Write)
    requires w.Legal()
    ensures w.t.Legal() && w.t.length == |w.data| && w.t.busBytes > 0
  {
  }

  lemma BurstDone(w: Write, id: nat, k: nat, len: nat, rest: seq<Beat>, mem: seq<Byte>)
    requires w.Legal() && len > 0 && k + len <= w.t.Cycles() && |mem| > 0
    ensures w.t.busBytes > 0
    ensures BurstRun(Burst(w.t.Cell(k), id, len - 1, w.size, w.kind), len, w.t.Cell(k + len),
                     BurstTail(w, k + len, 0) + rest, mem, w.t.busBytes) == Some((rest, mem))
  {
    LegalParts(w);
    hide Transfer.Cycles, Transfer.Cell, Write.Legal;
    assert BurstTail(w, k + len, 0) + rest == rest;
  }

  /** Beats n and on of a burst that starts with beat k write the bytes they carry. */
  lemma {:induction false} BurstRunRefines(w: Write, id: nat, k: nat, len: nat, n: nat, rest: seq<Beat>, mem: seq<Byte>)
    requires w.Legal() && w.kind.Incr? && n <= len && len > 0 && k + len <= w.t.Cycles()
    requires |mem| > 0 && |mem| % w.t.busBytes == 0
    ensures w.t.addr <= Reached(w.t, k + n) <= Reached(w.t, k + len) <= w.t.addr + |w.data|
    ensures BurstRun(Burst(w.t.Cell(k), id, len - 1, w.size, w.kind), n, w.t.Cell(k + n),
                     BurstTail(w, k + n, len - n) + rest, mem, w.t.busBytes)
         == Some((rest, FlatWrite(mem, Reached(w.t, k + n), w.Bytes(Reached(w.t, k + n), Reached(w.t, k + len)))))
    decreases len - n
  {
    hide *;
    LegalParts(w);
    ReachedRange(w.t, k + n);
    ReachedRange(w.t, k + len);
    ReachedMonotone(w.t, k + n, k + len);
    if n == len {
      NothingWritten(w, k + n, mem);
      BurstDone(w, id, k, len, rest, mem);
    } else {
      BurstStep(w, id, k, len, n, rest, mem);
      var a, b, c := Reached(w.t, k + n), Reached(w.t, k + n + 1), Reached(w.t, k + len);
      BurstRunRefines(w, id, k, len, n + 1, rest, FlatWrite(mem, a, w.Bytes(a, b)));
      NextRange(w, mem, a, b, c);
    }
  }

  lemma BurstStep(w: Write, id: nat, k: nat, len: nat, n: nat, rest: seq<Beat>, mem: seq<Byte>)
    requires w.Legal() && w.kind.Incr? && n < len && k + len <= w.t.Cycles()
    requires |mem| > 0 && |mem| % w.t.busBytes == 0
    ensures w.t.addr <= Reached(w.t, k + n) <= Reached(w.t, k + n + 1) <= w.t.addr + |w.data|
    ensures var b := Burst(w.t.Cell(k), id, len - 1, w.size, w.kind);
      BurstRun(b, n, w.t.Cell(k + n), BurstTail(w, k + n, len - n) + rest, mem, w.t.busBytes)
      == BurstRun(b, n + 1, w.t.Cell(k + n + 1), BurstTail(w, k + n + 1, len - n - 1) + rest,
                  FlatWrite(mem, Reached(w.t, k + n), w.Bytes(Reached(w.t, k + n), Reached(w.t, k + n + 1))),
                  w.t.busBytes)
  {
    hide Transfer.Cycles, Transfer.Cell, Transfer.From, Transfer.To, Reached, Strobed, FlatWrite, Write.Bytes, BeatAt;
    ReachedRange(w.t, k + n);
    ReachedRange(w.t, k + n + 1);
    BeatWrites(w, k + n, len - n == 1, mem);
    CellStep(w.t, k + n);
    var beats := BurstTail(w, k + n, len - n) + rest;
    assert beats[0] == BeatAt(w, k + n, len - n == 1);
    assert beats[1..] == BurstTail(w, k + n + 1, len - n - 1) + rest;
  }

  lemma NothingQueued(w: Write, maxBurst: int, ids: nat, id: nat)
    requires w.Legal() && ids > 0
    ensures WriteBursts(w, maxBurst, ids, w.t.Cycles(), id) == [] && BeatsFrom(w, maxBurst, w.t.Cycles()) == []
    ensures Reached(w.t, w.t.Cycles()) == w.t.addr + |w.data|
  {
  }

  /** The bursts from beat k on, executed before any others, write the bytes from there on. */
  lemma {:induction false} BurstsRefine(w: Write, maxBurst: int, ids: nat, k: nat, id: nat,
                                        bursts: seq<Burst>, beats: seq<Beat>, mem: seq<Byte>)
    requires w.Legal() && w.kind.Incr? && ids > 0 && k <= w.t.Cycles()
    requires |mem| > 0 && |mem| % w.t.busBytes == 0
    ensures w.t.addr <= Reached(w.t, k) <= w.t.addr + |w.data|
    ensures RamRun(WriteBursts(w, maxBurst, ids, k, id) + bursts, BeatsFrom(w, maxBurst, k) + beats, mem, w.t.busBytes)
         == RamRun(bursts, beats, FlatWrite(mem, Reached(w.t, k), w.Bytes(Reached(w.t, k), w.t.addr + |w.data|)),
                   w.t.busBytes)
    decreases w.t.Cycles() - k
  {
    hide Transfer.Cycles, Transfer.Cell, Transfer.From, Transfer.To, Reached;
    hide FlatWrite, Write.Bytes, RamRun, BurstsFrom, WriteBursts, BeatsFrom, BurstLength;
    ReachedRange(w.t, k);
    if k == w.t.Cycles() {
      NothingWritten(w, k, mem);
      NothingQueued(w, maxBurst, ids, id);
      assert [] + bursts == bursts && [] + beats == beats;
    } else {
      BurstFits(w.t, maxBurst, k);
      var n := BurstLength(w.t, maxBurst, k);
      var next := BurstsCons(w, maxBurst, ids, k, id, bursts, beats, mem);
      BurstsRefine(w, maxBurst, ids, k + n, (id + 1) % ids, bursts, beats, next);
      NextRange(w, mem, Reached(w.t, k), Reached(w.t, k + n), w.t.addr + |w.data|);
    }
  }

  lemma BurstsCons(w: Write, maxBurst: int, ids: nat, k: nat, id: nat, bursts: seq<Burst>, beats: seq<Beat>,
      mem: seq<Byte>)
    returns (next: seq<Byte>)
    requires w.Legal() && w.kind.Incr? && ids > 0 && k < w.t.Cycles()
    requires |mem| > 0 && |mem| % w.t.busBytes == 0
    ensures 0 < BurstLength(w.t, maxBurst, k) <= w.t.Cycles() - k
    ensures var n := BurstLength(w.t, maxBurst, k);
      && w.t.addr <= Reached(w.t, k) <= Reached(w.t, k + n) <= w.t.addr + |w.data|
      && next == FlatWrite(mem, Reached(w.t, k), w.Bytes(Reached(w.t, k), Reached(w.t, k + n)))
      && RamRun(WriteBursts(w, maxBurst, ids, k, id) + bursts, BeatsFrom(w, maxBurst, k) + beats, mem, w.t.busBytes)
      == RamRun(WriteBursts(w, maxBurst, ids, k + n, (id + 1) % ids) + bursts, BeatsFrom(w, maxBurst, k + n) + beats,
                next, w.t.busBytes)
  {
    hide Transfer.Cycles, Transfer.Cell, Transfer.From, Transfer.To, Reached, BurstLength, BurstRun, RamRun,
        FlatWrite, BurstTail;
    BurstFits(w.t, maxBurst, k);
    BurstAccepted(w.t, w.size, w.kind, maxBurst, k, id);
    var n := BurstLength(w.t, maxBurst, k);
    var others := WriteBursts(w, maxBurst, ids, k + n, (id + 1) % ids) + bursts;
    var rest := BeatsFrom(w, maxBurst, k + n) + beats;
    var b := Burst(w.t.Cell(k), id, n - 1, w.size, w.kind);
    BurstRunRefines(w, id, k, n, 0, rest, mem);
    next := FlatWrite(mem, Reached(w.t, k), w.Bytes(Reached(w.t, k), Reached(w.t, k + n)));
    RamCons(b, others, BurstTail(w, k, n) + rest, rest, mem, next, w.t.busBytes);
    assert WriteBursts(w, maxBurst, ids, k, id) + bursts == [b] + others;
    assert BeatsFrom(w, maxBurst, k) + beats == BurstTail(w, k, n) + rest;
  }

  lemma FirstReached(t: Transfer)
    requires t.Legal()
    ensures Reached(t, 0) == t.addr
  {
    Covered(t);
    CellsAligned(t, 0);
    CellMonotone(t, 0, 0);
  }

  /** What the master queues for a write, executed, is the write of the bytes at the address. */
  lemma WriteRefines(w: Write, maxBurst: int, ids: nat, id: nat, bursts: seq<Burst>, beats: seq<Beat>, mem: seq<Byte>)
    requires w.Legal() && w.kind.Incr? && ids > 0 && |mem| > 0 && |mem| % w.t.busBytes == 0
    ensures RamRun(WriteBursts(w, maxBurst, ids, 0, id) + bursts, BeatsFrom(w, maxBurst, 0) + beats, mem, w.t.busBytes)
         == RamRun(bursts, beats, FlatWrite(mem, w.t.addr, w.data), w.t.busBytes)
  {
    hide RamRun, FlatWrite, WriteBursts, BeatsFrom, Reached, Transfer.Cycles, BusWidth;
    BurstsRefine(w, maxBurst, ids, 0, id, bursts, beats, mem);
    FirstReached(w.t);
    assert w.Bytes(w.t.addr, w.t.addr + |w.data|) == w.data;
  }

  // The master

  datatype Command = Command(addr: nat, data: seq<Byte>, kind: Kind, size: Option<nat>)

  /** The write that a command asks for on a bus of so many bytes. */
  function Asked(c: Command, busBytes: nat): Write {
    var size := SizeOf(c.size, busBytes);
    Write(Transfer(c.addr, |c.data|, PowerOfTwo(size), busBytes), size, c.data, c.kind)
  }

  lemma AskedLegal(c: Command, busBytes: nat)
    requires BusWidth(busBytes) && SizeAllowed(c.size, busBytes)
    ensures Asked(c, busBytes).Legal()
  {
    SizeLegal(c.size, busBytes);
  }

  /** The lanes at which the master starts and stops beat k are those of the bytes it carries. */
  lemma LanesOfBeat(t: Transfer, k: nat)
    requires t.Legal() && k < t.Cycles()
    ensures t.addr <= t.From(k) <= t.To(k) <= t.addr + t.length
    ensures t.From(k) % t.busBytes + (t.To(k) - t.From(k)) <= t.busBytes
    ensures StopLane(t, k) == t.From(k) % t.busBytes + (t.To(k) - t.From(k))
  {
    BeatRange(t, k);
    BeatLanes(t, k);
    CellStep(t, k);
  }

  lemma StartStop(t: Transfer, k: nat)
    requires t.Legal() && k < t.Cycles()
    ensures StartLane(t, k) == if k == 0 then StartOffset(t.addr, t.busBytes) else CellLane(t, k)
    ensures StopLane(t, k) == if k + 1 == t.Cycles() then EndOffset(t.addr, t.length, t.busBytes)
      else CellLane(t, k) + t.beatBytes
    ensures 0 <= StartLane(t, k) <= StopLane(t, k)
  {
    LanesOfBeat(t, k);
  }

  /** With r beats of a burst to come before beat k + r, these are the bursts and beats of the whole. */
  ghost predicate Pending(w: Write, maxBurst: int, ids: nat, k: nat, r: nat, id: nat,
                          bursts: seq<Burst>, beats: seq<Beat>, allBursts: seq<Burst>, allBeats: seq<Beat>)
    requires w.Legal() && ids > 0 && k + r <= w.t.Cycles()
  {
    && bursts + WriteBursts(w, maxBurst, ids, k + r, id) == allBursts
    && beats + (BurstTail(w, k, r) + BeatsFrom(w, maxBurst, k + r)) == allBeats
  }

  lemma BurstsStart(w: Write, maxBurst: int, ids: nat, k: nat, id: nat, bursts: seq<Burst>)
    requires w.Legal() && ids > 0 && k < w.t.Cycles()
    ensures 0 < BurstLength(w.t, maxBurst, k) <= w.t.Cycles() - k
    ensures var n := BurstLength(w.t, maxBurst, k);
      bursts + WriteBursts(w, maxBurst, ids, k, id)
      == (bursts + [Burst(w.t.Cell(k), id, n - 1, w.size, w.kind)])
         + WriteBursts(w, maxBurst, ids, k + n, (id + 1) % ids)
  {
    hide Transfer.Cycles, Transfer.Cell, BurstLength;
    BurstFits(w.t, maxBurst, k);
  }

  lemma BeatsStart(w: Write, maxBurst: int, k: nat, beats: seq<Beat>)
    requires w.Legal() && k < w.t.Cycles()
    ensures 0 < BurstLength(w.t, maxBurst, k) <= w.t.Cycles() - k
    ensures var n := BurstLength(w.t, maxBurst, k);
      beats + (BurstTail(w, k, 0) + BeatsFrom(w, maxBurst, k))
      == beats + (BurstTail(w, k, n) + BeatsFrom(w, maxBurst, k + n))
  {
    hide Transfer.Cycles, Transfer.Cell, BurstLength, BeatAt;
    BurstFits(w.t, maxBurst, k);
    assert [] + BeatsFrom(w, maxBurst, k) == BeatsFrom(w, maxBurst, k);
  }

  lemma PendingNext(w: Write, maxBurst: int, ids: nat, k: nat, id: nat,
                    bursts: seq<Burst>, beats: seq<Beat>, allBursts: seq<Burst>, allBeats: seq<Beat>)
    requires w.Legal() && ids > 0 && k < w.t.Cycles() && 0 < BurstLength(w.t, maxBurst, k) <= w.t.Cycles() - k
    requires Pending(w, maxBurst, ids, k, 0, id, bursts, beats, allBursts, allBeats)
    requires var n := BurstLength(w.t, maxBurst, k);
      && bursts + WriteBursts(w, maxBurst, ids, k, id)
         == (bursts + [Burst(w.t.Cell(k), id, n - 1, w.size, w.kind)])
            + WriteBursts(w, maxBurst, ids, k + n, (id + 1) % ids)
      && beats + (BurstTail(w, k, 0) + BeatsFrom(w, maxBurst, k))
         == beats + (BurstTail(w, k, n) + BeatsFrom(w, maxBurst, k + n))
    ensures var n := BurstLength(w.t, maxBurst, k);
      Pending(w, maxBurst, ids, k, n, (id + 1) % ids, bursts + [Burst(w.t.Cell(k), id, n - 1, w.size, w.kind)], beats,
              allBursts, allBeats)
  {
    hide Transfer.Cycles, Transfer.Cell, BurstLength, WriteBursts, BeatsFrom, BurstTail, Write.Legal, Transfer.Legal;
  }

  lemma BurstStarted(w: Write, maxBurst: int, ids: nat, k: nat, id: nat,
                     bursts: seq<Burst>, beats: seq<Beat>, allBursts: seq<Burst>, allBeats: seq<Beat>)
    requires w.Legal() && ids > 0 && k < w.t.Cycles()
    requires Pending(w, maxBurst, ids, k, 0, id, bursts, beats, allBursts, allBeats)
    ensures 0 < BurstLength(w.t, maxBurst, k) <= w.t.Cycles() - k
    ensures var n := BurstLength(w.t, maxBurst, k);
      Pending(w, maxBurst, ids, k, n, (id + 1) % ids, bursts + [Burst(w.t.Cell(k), id, n - 1, w.size, w.kind)], beats,
              allBursts, allBeats)
  {
    hide *;
    LegalParts(w);
    BurstFits(w.t, maxBurst, k);
    BurstsStart(w, maxBurst, ids, k, id, bursts);
    BeatsStart(w, maxBurst, k, beats);
    PendingNext(w, maxBurst, ids, k, id, bursts, beats, allBursts, allBeats);
  }

  lemma BeatQueued(w: Write, maxBurst: int, ids: nat, k: nat, r: nat, id: nat,
                   bursts: seq<Burst>, beats: seq<Beat>, allBursts: seq<Burst>, allBeats: seq<Beat>)
    requires w.Legal() && ids > 0 && r > 0 && k + r <= w.t.Cycles()
    requires Pending(w, maxBurst, ids, k, r, id, bursts, beats, allBursts, allBeats)
    ensures Pending(w, maxBurst, ids, k + 1, r - 1, id, bursts, beats + [BeatAt(w, k, r == 1)], allBursts, allBeats)
  {
    hide Transfer.Cycles, Transfer.Cell, BurstLength, BeatAt, BeatsFrom, BurstsFrom, WriteBursts;
    var beat, tail, later := BeatAt(w, k, r == 1), BurstTail(w, k + 1, r - 1), BeatsFrom(w, maxBurst, k + r);
    assert BurstTail(w, k, r) == [beat] + tail;
    assert beats + (([beat] + tail) + later) == (beats + [beat]) + (tail + later);
  }

  lemma NothingPending(w: Write, maxBurst: int, ids: nat, id: nat, bursts: seq<Burst>, beats: seq<Beat>)
    requires w.Legal() && ids > 0
    ensures Pending(w, maxBurst, ids, 0, 0, id, bursts, beats,
                    bursts + WriteBursts(w, maxBurst, ids, 0, id), beats + BeatsFrom(w, maxBurst, 0))
  {
    assert [] + BeatsFrom(w, maxBurst, 0) == BeatsFrom(w, maxBurst, 0);
  }

  lemma AllQueued(w: Write, maxBurst: int, ids: nat, id: nat,
                  bursts: seq<Burst>, beats: seq<Beat>, allBursts: seq<Burst>, allBeats: seq<Beat>)
    requires w.Legal() && ids > 0
    requires Pending(w, maxBurst, ids, w.t.Cycles(), 0, id, bursts, beats, allBursts, allBeats)
    ensures bursts == allBursts && beats == allBeats
  {
    NothingQueued(w, maxBurst, ids, id);
  }

  lemma BeatMade(w: Write, k: nat, last: bool, from: nat, next: nat)
    requires w.Legal() && k < w.t.Cycles() && from <= next <= |w.data|
    requires w.t.From(k) == w.t.addr + from && w.t.To(k) == w.t.addr + next
    ensures w.t.From(k) % w.t.busBytes + (next - from) <= w.t.busBytes
    ensures var start := w.t.From(k) % w.t.busBytes;
      BeatAt(w, k, last)
      == Beat(Shl(Pack(w.data[from..next]), 8 * start), Strobe(w.t.busBytes, start, start + (next - from)), last)
  {
    hide Transfer.Cycles, Transfer.Cell, Transfer.From, Transfer.To, Strobe, Shl, Pack;
    BeatLanes(w.t, k);
    assert w.Bytes(w.t.From(k), w.t.To(k)) == w.data[from..next];
  }

  lemma AskedReached(c: Command, busBytes: nat)
    requires Asked(c, busBytes).Legal()
    ensures Reached(Asked(c, busBytes).t, 0) == c.addr
    ensures var t := Asked(c, busBytes).t; t.busBytes == busBytes && t.addr == c.addr && t.length == |c.data|
  {
    FirstReached(Asked(c, busBytes).t);
  }

  class Master {
    const busBytes: nat
    const ids: nat
    var maxBurst: int
    var curWriteId: nat
    var commands: seq<Command>
    var addrQueue: seq<Burst>
    var dataQueue: seq<Beat>
    var awaited: seq<nat>

    ghost predicate Valid() {
      BusWidth(busBytes) && ids > 0
    }

    /** idBits is the width of the identifier signal, 0 when there is none. */
    constructor (busBytes: nat, idBits: nat)
      requires BusWidth(busBytes)
      ensures Valid() && this.busBytes == busBytes && ids == PowerOfTwo(idBits)
      ensures maxBurst == MaxBurst && curWriteId == 0
      ensures commands == [] && addrQueue == [] && dataQueue == [] && awaited == []
    {
      this.busBytes, ids := busBytes, PowerOfTwo(idBits);
      maxBurst, curWriteId := MaxBurst, 0;
      commands, addrQueue, dataQueue, awaited := [], [], [], [];
    }

    /** The bytes of one beat, or-ed into their lanes. */
    method PackLanes(data: seq<Byte>, offset: nat, start: nat, stop: nat) returns (val: nat, next: nat)
      requires start <= stop && offset + (stop - start) <= |data|
      ensures next == offset + (stop - start)
      ensures val == Shl(Pack(data[offset..next]), 8 * start)
    {
      val, next := 0, offset;
      var j := start;
      ShlZero(8 * start);
      while j < stop
        invariant start <= j <= stop && next == offset + (j - start)
        invariant val == Shl(Pack(data[offset..next]), 8 * start)
      {
        PackAppend(data[offset..next], data[next], start);
        assert data[offset..next] + [data[next]] == data[offset..next + 1];
        val := Or(val, Shl(data[next], 8 * j));
        next := next + 1;
        j := j + 1;
      }
    }

    /** The burst of which beat k is the first is announced. */
    method StartBurst(c: Command, k: nat, cycles: nat, cur: nat, size: nat, beatBytes: nat,
                      ghost allBursts: seq<Burst>, ghost allBeats: seq<Beat>)
      returns (burstLength: nat)
      requires Valid() && Asked(c, busBytes).Legal() && k < cycles == Asked(c, busBytes).t.Cycles()
      requires cur == Asked(c, busBytes).t.Cell(k)
      requires size == Asked(c, busBytes).size && beatBytes == Asked(c, busBytes).t.beatBytes
      requires Pending(Asked(c, busBytes), maxBurst, ids, k, 0, curWriteId, addrQueue, dataQueue, allBursts, allBeats)
      modifies this`addrQueue, this`curWriteId
      ensures 0 < burstLength <= cycles - k && |addrQueue| == |old(addrQueue)| + 1
      ensures curWriteId == (old(curWriteId) + 1) % ids
      ensures Pending(Asked(c, busBytes), maxBurst, ids, k, burstLength, curWriteId, addrQueue, dataQueue, allBursts,
          allBeats)
    {
      hide Transfer.Cycles, Transfer.Cell, Pending, BurstTail, BurstsFrom, WriteBursts, BeatsFrom, BurstBeats, Min, Max;
      BurstStarted(Asked(c, busBytes), maxBurst, ids, k, curWriteId, addrQueue, dataQueue, allBursts, allBeats);
      burstLength := BurstBeats(cycles - k, maxBurst, beatBytes, cur);
      addrQueue := addrQueue + [Burst(cur, curWriteId, burstLength - 1, size, c.kind)];
      curWriteId := (curWriteId + 1) % ids;
    }

    /** Beat k of the transfer, r - 1 beats before the last of its burst, is queued. */
    method QueueBeat(c: Command, k: nat, r: nat, val: nat, strb: nat, ghost allBursts: seq<Burst>,
        ghost allBeats: seq<Beat>)
      requires Valid() && Asked(c, busBytes).Legal() && 0 < r <= Asked(c, busBytes).t.Cycles() - k
      requires Beat(val, strb, r == 1) == BeatAt(Asked(c, busBytes), k, r == 1)
      requires Pending(Asked(c, busBytes), maxBurst, ids, k, r, curWriteId, addrQueue, dataQueue, allBursts, allBeats)
      modifies this`dataQueue
      ensures Pending(Asked(c, busBytes), maxBurst, ids, k + 1, r - 1, curWriteId, addrQueue, dataQueue, allBursts,
          allBeats)
    {
      hide Transfer.Cycles, Transfer.Cell, Pending, BurstTail, BurstsFrom, WriteBursts, BeatsFrom, BeatAt;
      BeatQueued(Asked(c, busBytes), maxBurst, ids, k, r, curWriteId, addrQueue, dataQueue, allBursts, allBeats);
      dataQueue := dataQueue + [Beat(val, strb, r == 1)];
    }

    /** The strobe and the data of beat k, whose bytes start at the offset. */
    method MakeBeat(c: Command, k: nat, offset: nat, start: nat, stop: nat) returns (val: nat, strb: nat, next: nat)
      requires Valid() && Asked(c, busBytes).Legal() && k < Asked(c, busBytes).t.Cycles()
      requires offset + c.addr == Reached(Asked(c, busBytes).t, k)
      requires start == StartLane(Asked(c, busBytes).t, k) && stop == StopLane(Asked(c, busBytes).t, k)
      ensures next + c.addr == Reached(Asked(c, busBytes).t, k + 1)
      ensures forall last: bool :: BeatAt(Asked(c, busBytes), k, last) == Beat(val, strb, last)
    {
      hide Transfer.Cycles, Transfer.Cell, Transfer.From, Transfer.To, Strobe, Shl, Pack, Reached, BeatAt, StopLane;
      ghost var w := Asked(c, busBytes);
      LanesOfBeat(w.t, k);
      ReachedRange(w.t, k);
      strb := Strobe(busBytes, start, stop);
      val, next := PackLanes(c.data, offset, start, stop);
      BeatMade(w, k, true, offset, next);
      BeatMade(w, k, false, offset, next);
    }

    /** Beat k is queued, after the announcement of a new burst when the last one is complete. */
    method QueueNext(c: Command, k: nat, cycles: nat, cur: nat, size: nat, beatBytes: nat,
                     startOffset: nat, endOffset: nat, cycleOffset: nat, offset: nat, n: nat, burstLength: nat,
                     ghost allBursts: seq<Burst>, ghost allBeats: seq<Beat>)
      returns (newOffset: nat, next: nat, newLength: nat, started: nat)
      requires Valid() && Asked(c, busBytes).Legal() && k < cycles == Asked(c, busBytes).t.Cycles()
      requires cur == Asked(c, busBytes).t.Cell(k)
      requires size == Asked(c, busBytes).size && beatBytes == Asked(c, busBytes).t.beatBytes
      requires n <= burstLength && k + (burstLength - n) <= cycles
      requires offset + c.addr == Reached(Asked(c, busBytes).t, k)
      requires cycleOffset == CellLane(Asked(c, busBytes).t, k)
      requires startOffset == StartOffset(c.addr, busBytes) && endOffset == EndOffset(c.addr, |c.data|, busBytes)
      requires Pending(Asked(c, busBytes), maxBurst, ids, k, burstLength - n, curWriteId, addrQueue, dataQueue,
          allBursts, allBeats)
      modifies this`addrQueue, this`dataQueue, this`curWriteId
      ensures newOffset + c.addr == Reached(Asked(c, busBytes).t, k + 1)
      ensures next <= newLength && k + 1 + (newLength - next) <= cycles
      ensures |addrQueue| == |old(addrQueue)| + started && started <= 1
      ensures curWriteId == if started == 1 then (old(curWriteId) + 1) % ids else old(curWriteId)
      ensures Pending(Asked(c, busBytes), maxBurst, ids, k + 1, newLength - next, curWriteId, addrQueue, dataQueue,
          allBursts, allBeats)
    {
      hide Transfer.Cycles, Transfer.Cell, Pending, BeatAt, Reached, StartLane, StopLane, CellLane, StartOffset,
          EndOffset;
      var start := if k == 0 then startOffset else cycleOffset;
      var stop := if k == cycles - 1 then endOffset else cycleOffset + beatBytes;
      StartStop(Asked(c, busBytes).t, k);
      var val, strb;
      val, strb, newOffset := MakeBeat(c, k, offset, start, stop);
      next, newLength, started := n, burstLength, 0;
      if n >= burstLength {
        started := 1;
        next := 0;
        newLength := StartBurst(c, k, cycles, cur, size, beatBytes, allBursts, allBeats);
      }
      QueueBeat(c, k, newLength - next, val, strb, allBursts, allBeats);
      next := next + 1;
    }

    /** The bursts and beats of one command. */
    method QueueTransfer(c: Command, size: nat, beatBytes: nat)
      requires Valid() && Asked(c, busBytes).Legal()
      requires size == Asked(c, busBytes).size && beatBytes == Asked(c, busBytes).t.beatBytes
      modifies this`addrQueue, this`dataQueue, this`curWriteId, this`awaited
      ensures var w := Asked(c, busBytes);
        && var bursts := WriteBursts(w, maxBurst, ids, 0, old(curWriteId));
        && addrQueue == old(addrQueue) + bursts
        && dataQueue == old(dataQueue) + BeatsFrom(w, maxBurst, 0)
        && awaited == old(awaited) + [|bursts|]
        && curWriteId == IdAfter(old(curWriteId), |bursts|, ids)
    {
      ghost var t := Asked(c, busBytes).t;
      var alignedAddr := RoundDown(c.addr, beatBytes);
      var wordAddr := RoundDown(c.addr, busBytes);
      var startOffset := StartOffset(c.addr, busBytes);
      var endOffset := EndOffset(c.addr, |c.data|, busBytes);
      var cycles := CyclesOf(c.addr, |c.data|, beatBytes);
      assert t == Transfer(c.addr, |c.data|, beatBytes, busBytes) && t.Legal();
      assert cycles == t.Cycles() && alignedAddr == t.Aligned();
      hide *;
      FirstLane(t);
      var transfers := QueueBeats(c, size, beatBytes, cycles, alignedAddr, alignedAddr - wordAddr, startOffset,
          endOffset);
      awaited := awaited + [transfers];
    }

    lemma IdsExist()
      requires Valid()
      ensures ids > 0 && busBytes > 0 && BusWidth(busBytes)
    {
    }

    /** The loop over the beats. */
    method QueueBeats(c: Command, size: nat, beatBytes: nat, cycles: nat, alignedAddr: nat, firstLane: nat,
                      startOffset: nat, endOffset: nat)
      returns (transfers: nat)
      requires Valid() && Asked(c, busBytes).Legal()
      requires size == Asked(c, busBytes).size && beatBytes == Asked(c, busBytes).t.beatBytes
      requires var t := Asked(c, busBytes).t;
        && cycles == t.Cycles() && alignedAddr == t.Cell(0) && firstLane == CellLane(t, 0)
        && startOffset == StartOffset(t.addr, busBytes) && endOffset == EndOffset(t.addr, t.length, busBytes)
      modifies this`addrQueue, this`dataQueue, this`curWriteId
      ensures var w := Asked(c, busBytes);
        && var bursts := WriteBursts(w, maxBurst, ids, 0, old(curWriteId));
        && addrQueue == old(addrQueue) + bursts && transfers == |bursts|
        && dataQueue == old(dataQueue) + BeatsFrom(w, maxBurst, 0)
        && curWriteId == IdAfter(old(curWriteId), |bursts|, ids)
    {
      hide *;
      IdsExist();
      ghost var w := Asked(c, busBytes);
      ghost var t := w.t;
      LegalParts(w);
      var cur, offset, cycleOffset := alignedAddr, 0, firstLane;
      var n, burstLength := 0, 0;
      transfers := 0;
      NoneAfter(curWriteId, ids);
      ghost var allBursts := addrQueue + WriteBursts(w, maxBurst, ids, 0, curWriteId);
      ghost var allBeats := dataQueue + BeatsFrom(w, maxBurst, 0);
      AskedReached(c, busBytes);
      NothingPending(w, maxBurst, ids, curWriteId, addrQueue, dataQueue);
      var k := 0;
      while k < cycles
        invariant k <= cycles && cur == t.Cell(k) && cycleOffset == CellLane(t, k)
        invariant offset >= 0 && offset + c.addr == Reached(t, k)
        invariant 0 <= n <= burstLength && k + (burstLength - n) <= cycles
        invariant Pending(w, maxBurst, ids, k, burstLength - n, curWriteId, addrQueue, dataQueue, allBursts, allBeats)
        invariant |addrQueue| == |old(addrQueue)| + transfers
        invariant curWriteId == IdAfter(old(curWriteId), transfers, ids)
      {
        var started;
        offset, n, burstLength, started :=
          QueueNext(c, k, cycles, cur, size, beatBytes, startOffset, endOffset, cycleOffset, offset, n, burstLength,
                    allBursts, allBeats);
        IdAfterNext(old(curWriteId), transfers, ids);
        transfers := transfers + started;
        NextLane(t, k);
        cur := cur + beatBytes;
        cycleOffset := Onward(cycleOffset, beatBytes, busBytes);
        k := k + 1;
      }
      AllQueued(w, maxBurst, ids, curWriteId, addrQueue, dataQueue, allBursts, allBeats);
    }

    /** One command: ok is false when its beats are wider than the bus, which stops the bench. */
    method WriteLogic() returns (ok: bool)
      requires Valid() && commands != []
      modifies this
      ensures Valid() && commands == old(commands)[1..] && maxBurst == old(maxBurst)
      ensures var c := old(commands)[0];
        && ok == SizeAllowed(c.size, busBytes)
        && (ok ==>
          var w := Asked(c, busBytes);
          && w.Legal()
          && var bursts := WriteBursts(w, maxBurst, ids, 0, old(curWriteId));
          && addrQueue == old(addrQueue) + bursts
          && dataQueue == old(dataQueue) + BeatsFrom(w, maxBurst, 0)
          && awaited == old(awaited) + [|bursts|]
          && curWriteId == IdAfter(old(curWriteId), |bursts|, ids))
      ensures var c := old(commands)[0];
        && ok == (c.size.Some? ==> PowerOfTwo(c.size.value) <= busBytes)
        && (ok ==>
          && old(addrQueue) <= addrQueue && old(dataQueue) <= dataQueue
          && var bursts, beats := addrQueue[|old(addrQueue)|..], dataQueue[|old(dataQueue)|..];
          && Issued(bursts, c.addr, |c.data|, c.size, c.kind, busBytes, maxBurst, ids, old(curWriteId))
          && (c.size.None? ==> WholeWordBeats(beats, c.addr, |c.data|, busBytes)))
    {
      var c := commands[0];
      commands := commands[1..];
      if !SizeAllowed(c.size, busBytes) {
        return false;
      }
      ok := true;
      AskedLegal(c, busBytes);
      var size := SizeOf(c.size, busBytes);
      QueueTransfer(c, size, PowerOfTwo(size));
      DefaultSize(c.size, busBytes);
      ghost var w := Asked(c, busBytes);
      CommandIssued(w.t, size, c.size, c.kind, maxBurst, ids, old(curWriteId));
      assert addrQueue[|old(addrQueue)|..] == WriteBursts(w, maxBurst, ids, 0, old(curWriteId));
      assert dataQueue[|old(dataQueue)|..] == BeatsFrom(w, maxBurst, 0);
      if c.size.None? {
        DefaultBeats(w, maxBurst);
      }
    }
  }

  // A whole run: the commands queued at the master, in the memory

  /** The flat writes of a list of commands, in order. */
  function FlatWrites(mem: seq<Byte>, commands: seq<Command>): (m: seq<Byte>)
    requires |mem| > 0
    ensures |m| == |mem|
  {
    if commands == [] then mem
    else
      var c := commands[|commands| - 1];
      FlatWrite(FlatWrites(mem, commands[..|commands| - 1]), c.addr, c.data)
  }

  lemma {:induction false} IdsLength(bursts: seq<Burst>)
    ensures |Ids(bursts)| == |bursts|
  {
    if bursts != [] {
      IdsLength(bursts[1..]);
    }
  }

  lemma CommandRefines(c: Command, busBytes: nat, maxBurst: int, ids: nat, id: nat,
                       bursts: seq<Burst>, beats: seq<Beat>, mem: seq<Byte>, done: seq<Byte>)
    requires BusWidth(busBytes) && SizeAllowed(c.size, busBytes) && c.kind.Incr? && ids > 0
    requires |done| == |mem| > 0 && |mem| % busBytes == 0
    requires RamRun(bursts, beats, mem, busBytes) == Some(([], done))
    ensures Asked(c, busBytes).Legal()
    ensures var w := Asked(c, busBytes);
      RamRun(bursts + WriteBursts(w, maxBurst, ids, 0, id), beats + BeatsFrom(w, maxBurst, 0), mem, busBytes)
      == Some(([], FlatWrite(done, c.addr, c.data)))
  {
    AskedLegal(c, busBytes);
    var w := Asked(c, busBytes);
    assert w.kind.Incr? && w.t.busBytes == busBytes && w.t.addr == c.addr && w.data == c.data;
    hide *;
    var newBursts, newBeats := WriteBursts(w, maxBurst, ids, 0, id), BeatsFrom(w, maxBurst, 0);
    RamRunAppend(bursts, newBursts, beats, newBeats, mem, busBytes);
    WriteRefines(w, maxBurst, ids, id, [], [], done);
    assert newBursts + [] == newBursts && newBeats + [] == newBeats && [] + newBeats == newBeats;
    NothingToRun(FlatWrite(done, c.addr, c.data), busBytes);
  }

  lemma NothingToRun(mem: seq<Byte>, busBytes: nat)
    requires |mem| > 0 && busBytes > 0
    ensures RamRun([], [], mem, busBytes) == Some(([], mem))
  {
  }

  lemma FlatWritesNext(mem: seq<Byte>, done: seq<Command>, c: Command)
    requires |mem| > 0
    ensures FlatWrites(mem, done + [c]) == FlatWrite(FlatWrites(mem, done), c.addr, c.data)
  {
    assert (done + [c])[..|done|] == done;
  }

  lemma NothingSummed(mem: seq<Byte>)
    requires |mem| > 0
    ensures FlatWrites(mem, []) == mem && Sum([]) == 0
  {
  }

  /**
   * Every increasing write queued at the master is carried out: no assertion of the RAM
   * fails, the memory ends as by flat writes in order, and each burst is answered.
   */
  method WriteThrough(master: Master, ram: Ram) returns (ok: bool)
    requires master.Valid() && master.addrQueue == [] && master.dataQueue == [] && master.awaited == []
    requires forall c <- master.commands :: SizeAllowed(c.size, master.busBytes) && c.kind.Incr?
    requires ram.addrQueue == [] && ram.dataQueue == [] && ram.respQueue == []
    requires ram.mem.Length > 0 && ram.mem.Length % master.busBytes == 0
    modifies master, ram, ram.mem
    ensures ok && ram.mem[..] == FlatWrites(old(ram.mem[..]), old(master.commands))
    ensures ram.addrQueue == [] && ram.dataQueue == [] && |ram.respQueue| == Sum(master.awaited)
  {
    hide *;
    master.IdsExist();
    ghost var before, all, done := ram.mem[..], master.commands, [];
    NothingToRun(before, master.busBytes);
    NothingSummed(before);
    while master.commands != []
      invariant all == done + master.commands
      invariant forall c <- master.commands :: SizeAllowed(c.size, master.busBytes) && c.kind.Incr?
      invariant ram.mem[..] == before && ram.addrQueue == [] && ram.dataQueue == [] && ram.respQueue == []
      invariant RamRun(master.addrQueue, master.dataQueue, before, master.busBytes)
             == Some(([], FlatWrites(before, done)))
      invariant Sum(master.awaited) == |master.addrQueue|
      decreases |master.commands|
    {
      var c := master.commands[0];
      CommandRefines(c, master.busBytes, master.maxBurst, master.ids, master.curWriteId,
                     master.addrQueue, master.dataQueue, before, FlatWrites(before, done));
      FlatWritesNext(before, done, c);
      ghost var awaited := master.awaited;
      var _ := master.WriteLogic();
      SumNext(awaited, master.awaited[|awaited|]);
      done := done + [c];
    }
    assert done == all;
    ram.addrQueue, ram.dataQueue := master.addrQueue, master.dataQueue;
    IdsLength(ram.addrQueue);
    ok := ram.WriteLogic(master.busBytes);
  }

  // What every burst announced keeps to

  /** As many beats as there are bus words touched, and all but the first and last with every lane. */
  ghost predicate WholeWordBeats(beats: seq<Beat>, addr: nat, length: nat, busBytes: nat)
    requires busBytes > 0
  {
    && CoverWords(|beats|, addr, length, busBytes)
    && forall k | 0 < k < |beats| - 1 :: AllLanes(beats[k], busBytes)
  }

  /** So many bus words cover a range, and one less would not. */
  ghost predicate CoverWords(n: nat, addr: nat, length: nat, busBytes: nat)
    requires busBytes > 0
  {
    addr % busBytes + length <= n * busBytes < addr % busBytes + length + busBytes
  }

  ghost predicate AllLanes(beat: Beat, busBytes: nat)
  {
    forall i | 0 <= i < busBytes :: Bit(beat.strb, i)
  }

  /** A transfer in whole bus words. */
  lemma DefaultBeats(w: Write, maxBurst: int)
    requires w.Legal() && w.t.beatBytes == w.t.busBytes
    ensures WholeWordBeats(BeatsFrom(w, maxBurst, 0), w.t.addr, w.t.length, w.t.busBytes)
  {
    hide *;
    LegalParts(w);
    WordCount(w.t);
    BeatCount(w, maxBurst, 0);
    var beats := BeatsFrom(w, maxBurst, 0);
    forall k | 0 < k < |beats| - 1
      ensures AllLanes(beats[k], w.t.busBytes)
    {
      BeatsFromAt(w, maxBurst, 0, k);
      InnerBeat(w, k, beats[k].last);
    }
    InWholeWords(beats, w.t.addr, w.t.length, w.t.busBytes);
  }

  lemma InWholeWords(beats: seq<Beat>, addr: nat, length: nat, busBytes: nat)
    requires busBytes > 0 && CoverWords(|beats|, addr, length, busBytes)
    requires forall k | 0 < k < |beats| - 1 :: AllLanes(beats[k], busBytes)
    ensures WholeWordBeats(beats, addr, length, busBytes)
  {
    hide AllLanes, CoverWords;
  }

  lemma WordCount(t: Transfer)
    requires t.Legal() && t.beatBytes == t.busBytes
    ensures t.busBytes > 0 && CoverWords(t.Cycles(), t.addr, t.length, t.busBytes)
  {
    Covered(t);
    CellsAligned(t, 0);
    hide Transfer.Cycles;
  }

  lemma {:induction false} BeatsFromAt(w: Write, maxBurst: int, k: nat, j: nat)
    requires w.Legal() && k + j < w.t.Cycles()
    ensures j < |BeatsFrom(w, maxBurst, k)|
    ensures BeatsFrom(w, maxBurst, k)[j] == BeatAt(w, k + j, BeatsFrom(w, maxBurst, k)[j].last)
    decreases w.t.Cycles() - k
  {
    hide Transfer.Cycles, Transfer.Cell, BurstLength, BurstTail, BeatAt;
    BurstFits(w.t, maxBurst, k);
    var n := BurstLength(w.t, maxBurst, k);
    BeatCount(w, maxBurst, k);
    TailLength(w, k, n);
    if j < n {
      TailAt(w, k, n, j);
    } else {
      BeatsFromAt(w, maxBurst, k + n, j - n);
    }
  }

  lemma {:induction false} TailAt(w: Write, k: nat, r: nat, j: nat)
    requires w.Legal() && k + r <= w.t.Cycles() && j < r
    ensures |BurstTail(w, k, r)| == r
    ensures BurstTail(w, k, r)[j] == BeatAt(w, k + j, BurstTail(w, k, r)[j].last)
    decreases r
  {
    hide Transfer.Cycles, Transfer.Cell, BeatAt;
    TailLength(w, k, r);
    if j > 0 {
      TailAt(w, k + 1, r - 1, j - 1);
    }
  }

  /** A beat of a whole bus word has every lane. */
  lemma InnerBeat(w: Write, k: nat, last: bool)
    requires w.Legal() && w.t.beatBytes == w.t.busBytes && 0 < k < w.t.Cycles() - 1
    ensures AllLanes(BeatAt(w, k, last), w.t.busBytes)
  {
    CellsAligned(w.t, k);
    CellStep(w.t, k);
    BeatRange(w.t, k);
    hide Transfer.Cycles, Transfer.Cell, Strobe, Pack, Shl;
    forall i | 0 <= i < w.t.busBytes
      ensures Bit(BeatAt(w, k, last).strb, i)
    {
      StrobeBits(w.t.busBytes, 0, w.t.busBytes, i);
    }
  }

  /** The beats queued are as many as the bursts announce. */
  lemma BeatsMatchBursts(w: Write, maxBurst: int, ids: nat, k: nat, id: nat)
    requires w.Legal() && ids > 0 && k <= w.t.Cycles() && id < ids
    ensures Beats(WriteBursts(w, maxBurst, ids, k, id)) == |BeatsFrom(w, maxBurst, k)|
  {
    hide Transfer.Cycles, Transfer.Cell, Beats, BeatsFrom, BurstsFrom;
    BurstsPartition(w.t, w.size, w.kind, maxBurst, ids, k, id);
    BeatCount(w, maxBurst, k);
  }

  lemma {:induction false} BeatCount(w: Write, maxBurst: int, k: nat)
    requires w.Legal() && k <= w.t.Cycles()
    ensures |BeatsFrom(w, maxBurst, k)| == w.t.Cycles() - k
    decreases w.t.Cycles() - k
  {
    hide Transfer.Cycles, Transfer.Cell, BurstLength, BurstTail;
    if k < w.t.Cycles() {
      BurstFits(w.t, maxBurst, k);
      var n := BurstLength(w.t, maxBurst, k);
      TailLength(w, k, n);
      BeatCount(w, maxBurst, k + n);
    }
  }

  /** The beats of a burst are as many as announced, and exactly the last is marked. */
  lemma {:induction false} TailLength(w: Write, k: nat, r: nat)
    requires w.Legal() && k + r <= w.t.Cycles()
    ensures |BurstTail(w, k, r)| == r
    ensures forall j :: 0 <= j < r ==> (BurstTail(w, k, r)[j].last <==> j == r - 1)
    decreases r
  {
    hide Transfer.Cycles, Transfer.Cell, BeatAt;
    if r > 0 {
      TailLength(w, k + 1, r - 1);
    }
  }
}
