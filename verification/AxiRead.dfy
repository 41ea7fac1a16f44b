/**
 * AXI reads: the master cuts a byte range into bursts, and puts the beats that come back
 * together again. Beats of different identifiers may come back in any order.
 */
module AxiRead {
  import opened Bits
  import opened Modular
  import opened Wrappers
  import opened AxiTransfer
  import opened AxiMemory
  import opened AxiRam
  import opened AxiIssue

  // The order in which beats arrive

  /** The beats with one identifier, in order. */
  function Project(beats: seq<ReadBeat>, id: nat): seq<ReadBeat> {
    if beats == [] then []
    else (if beats[0].id == id then [beats[0]] else []) + Project(beats[1..], id)
  }

  /** Beats of one identifier keep their order (section A5.3 of ARM IHI 0022E); others may pass each other. */
  ghost predicate SameOrder(issued: seq<ReadBeat>, arriving: seq<ReadBeat>) {
    forall id: nat :: Project(arriving, id) == Project(issued, id)
  }

  lemma {:induction false} ProjectAppend(a: seq<ReadBeat>, b: seq<ReadBeat>, id: nat)
    ensures Project(a + b, id) == Project(a, id) + Project(b, id)
  {
    if a == [] {
      assert a + b == b;
    } else {
      var head := if a[0].id == id then [a[0]] else [];
      ProjectAppend(a[1..], b, id);
      assert (a + b)[1..] == a[1..] + b;
      assert head + (Project(a[1..], id) + Project(b, id)) == (head + Project(a[1..], id)) + Project(b, id);
    }
  }

  /** An interconnect: neighbouring beats of different identifiers change places any number of times. */
  method Interleave(beats: seq<ReadBeat>) returns (arriving: seq<ReadBeat>)
    ensures SameOrder(beats, arriving)
  {
    arriving := beats;
    var swaps: int := *;
    while swaps > 0
      invariant SameOrder(beats, arriving)
    {
      var i: int := *;
      if 0 <= i && i + 1 < |arriving| && arriving[i].id != arriving[i + 1].id {
        SwapKeepsOrder(arriving[..i], arriving[i], arriving[i + 1], arriving[i + 2..]);
        assert arriving == arriving[..i] + [arriving[i], arriving[i + 1]] + arriving[i + 2..];
        arriving := arriving[..i] + [arriving[i + 1], arriving[i]] + arriving[i + 2..];
      }
      swaps := swaps - 1;
    }
  }

  lemma SwapKeepsOrder(a: seq<ReadBeat>, x: ReadBeat, y: ReadBeat, b: seq<ReadBeat>)
    requires x.id != y.id
    ensures SameOrder(a + [x, y] + b, a + [y, x] + b)
  {
    forall id: nat
      ensures Project(a + [x, y] + b, id) == Project(a + [y, x] + b, id)
    {
      ProjectAppend(a + [x, y], b, id);
      ProjectAppend(a + [y, x], b, id);
      ProjectAppend(a, [x, y], id);
      ProjectAppend(a, [y, x], id);
      assert [x, y][1..] == [y] && [y, x][1..] == [x];
      assert [x][1..] == [] && [y][1..] == [];
    }
  }

  // What the master announces

  datatype Command = Command(addr: nat, length: nat, kind: Kind, size: Option<nat>)

  /** A burst as the reassembly knows it. */
  datatype Part = Part(id: nat, beats: nat)

  /** A read whose data is to be put together; the end of its parts marks its end. */
  datatype Awaited = Awaited(addr: nat, length: nat, size: nat, parts: seq<Part>)

  datatype Result = Result(addr: nat, data: seq<Byte>, resp: nat)

  /** The transfer that a command asks for on a bus of so many bytes. */
  function Asked(c: Command, busBytes: nat): Transfer {
    Transfer(c.addr, c.length, PowerOfTwo(SizeOf(c.size, busBytes)), busBytes)
  }

  predicate Allowed(c: Command, busBytes: nat) {
    BusWidth(busBytes) && SizeAllowed(c.size, busBytes)
  }

  lemma AskedLegal(c: Command, busBytes: nat)
    requires Allowed(c, busBytes)
    ensures Asked(c, busBytes).Legal()
  {
    SizeLegal(c.size, busBytes);
  }

  /** The bursts of a command from beat k on. */
  ghost function ReadBursts(c: Command, busBytes: nat, maxBurst: int, ids: nat, k: nat, id: nat): seq<Burst>
    requires Asked(c, busBytes).Legal() && ids > 0 && k <= Asked(c, busBytes).Cycles()
  {
    BurstsFrom(Asked(c, busBytes), SizeOf(c.size, busBytes), c.kind, maxBurst, ids, k, id)
  }

  function Parts(bursts: seq<Burst>): seq<Part> {
    seq(|bursts|, i requires 0 <= i < |bursts| => Part(bursts[i].id, bursts[i].len + 1))
  }

  /** With the next burst to start at beat k, these are the bursts of the whole and their parts. */
  ghost predicate Announced(c: Command, busBytes: nat, maxBurst: int, ids: nat, k: nat, id: nat,
                            bursts: seq<Burst>, parts: seq<Part>, first: nat, all: seq<Burst>)
    requires Asked(c, busBytes).Legal() && ids > 0 && k <= Asked(c, busBytes).Cycles()
  {
    && bursts + ReadBursts(c, busBytes, maxBurst, ids, k, id) == all
    && parts == Parts(bursts)
    && IdAfter(first, |bursts|, ids) == id
  }

  lemma BurstAnnounced(c: Command, busBytes: nat, maxBurst: int, ids: nat, k: nat, id: nat,
                       bursts: seq<Burst>, parts: seq<Part>, first: nat, all: seq<Burst>)
    requires Asked(c, busBytes).Legal() && ids > 0 && k < Asked(c, busBytes).Cycles()
    requires Announced(c, busBytes, maxBurst, ids, k, id, bursts, parts, first, all)
    ensures 0 < BurstLength(Asked(c, busBytes), maxBurst, k) <= Asked(c, busBytes).Cycles() - k
    ensures var n := BurstLength(Asked(c, busBytes), maxBurst, k);
      var b := Burst(Asked(c, busBytes).Cell(k), id, n - 1, SizeOf(c.size, busBytes), c.kind);
      Announced(c, busBytes, maxBurst, ids, k + n, NextId(id, ids), bursts + [b], parts + [Part(id, n)], first, all)
  {
    hide Transfer.Cycles, Transfer.Cell, BurstLength, BusWidth, SizeOf, PowerOfTwo;
    BurstFits(Asked(c, busBytes), maxBurst, k);
    IdAfterNext(first, |bursts|, ids);
    var n := BurstLength(Asked(c, busBytes), maxBurst, k);
    var b := Burst(Asked(c, busBytes).Cell(k), id, n - 1, SizeOf(c.size, busBytes), c.kind);
    assert bursts + ReadBursts(c, busBytes, maxBurst, ids, k, id)
        == (bursts + [b]) + ReadBursts(c, busBytes, maxBurst, ids, k + n, NextId(id, ids));
  }

  lemma NothingAnnounced(c: Command, busBytes: nat, maxBurst: int, ids: nat, id: nat)
    requires Asked(c, busBytes).Legal() && ids > 0
    ensures Announced(c, busBytes, maxBurst, ids, 0, id, [], [], id, ReadBursts(c, busBytes, maxBurst, ids, 0, id))
  {
    assert [] + ReadBursts(c, busBytes, maxBurst, ids, 0, id) == ReadBursts(c, busBytes, maxBurst, ids, 0, id);
  }

  lemma AllAnnounced(c: Command, busBytes: nat, maxBurst: int, ids: nat, id: nat,
                     bursts: seq<Burst>, parts: seq<Part>, first: nat, all: seq<Burst>)
    requires Asked(c, busBytes).Legal() && ids > 0
    requires Announced(c, busBytes, maxBurst, ids, Asked(c, busBytes).Cycles(), id, bursts, parts, first, all)
    ensures bursts == all && parts == Parts(all) && IdAfter(first, |all|, ids) == id
  {
  }

  // What comes back

  /** The answers to the r beats from k on that finish a burst. */
  ghost function TailReads(t: Transfer, k: nat, r: nat, id: nat, mem: seq<Byte>): seq<ReadBeat>
    requires t.Legal() && WholeWords(mem, t.busBytes)
    decreases r
  {
    if r == 0 then []
    else [ReadBeat(id, WordAt(mem, t.busBytes, t.Cell(k)), 0, r == 1)] + TailReads(t, k + 1, r - 1, id, mem)
  }

  lemma {:induction false} BurstReadsTail(t: Transfer, b: Burst, k: nat, n: nat, mem: seq<Byte>)
    requires t.Legal() && WholeWords(mem, t.busBytes)
    requires b.kind.Incr? && PowerOfTwo(b.size) == t.beatBytes && n <= b.len + 1
    ensures BurstReads(b, n, t.Cell(k + n), mem, t.busBytes) == TailReads(t, k + n, b.len + 1 - n, b.id, mem)
    decreases b.len + 1 - n
  {
    hide Transfer.Cell, WordAt, BusWidth;
    if n <= b.len {
      CellStep(t, k + n);
      BurstReadsTail(t, b, k, n + 1, mem);
    }
  }

  /** The beats still to come from beat k on. */
  ghost function Expected(c: Command, busBytes: nat, maxBurst: int, ids: nat, k: nat, id: nat, mem: seq<Byte>)
    : seq<ReadBeat>
    requires Asked(c, busBytes).Legal() && ids > 0 && k <= Asked(c, busBytes).Cycles()
    requires WholeWords(mem, busBytes)
  {
    Reads(ReadBursts(c, busBytes, maxBurst, ids, k, id), mem, busBytes)
  }

  lemma PartsCons(b: Burst, later: seq<Burst>)
    ensures Parts([b] + later) == [Part(b.id, b.len + 1)] + Parts(later)
  {
  }

  lemma ReadsCons(b: Burst, later: seq<Burst>, mem: seq<Byte>, busBytes: nat)
    requires WholeWords(mem, busBytes)
    ensures Reads([b] + later, mem, busBytes)
         == BurstReads(b, 0, AlignedAddr(b), mem, busBytes) + Reads(later, mem, busBytes)
  {
    hide BurstReads, AlignedAddr, BusWidth;
    assert ([b] + later)[1..] == later;
  }

  lemma FirstBurst(c: Command, busBytes: nat, maxBurst: int, ids: nat, k: nat, id: nat) returns (b: Burst)
    requires Asked(c, busBytes).Legal() && ids > 0 && k < Asked(c, busBytes).Cycles()
    ensures b.len + 1 == BurstLength(Asked(c, busBytes), maxBurst, k) <= Asked(c, busBytes).Cycles() - k
    ensures b.addr == AlignedAddr(b) == Asked(c, busBytes).Cell(k) && b.id == id && b.kind == c.kind
    ensures PowerOfTwo(b.size) == Asked(c, busBytes).beatBytes && Asked(c, busBytes).busBytes == busBytes
    ensures ReadBursts(c, busBytes, maxBurst, ids, k, id)
         == [b] + ReadBursts(c, busBytes, maxBurst, ids, k + b.len + 1, NextId(id, ids))
  {
    var t := Asked(c, busBytes);
    var size := SizeOf(c.size, busBytes);
    assert t.busBytes == busBytes && t.beatBytes == PowerOfTwo(size);
    hide Transfer.Cycles, Transfer.Cell, BurstLength, BusWidth, SizeOf, PowerOfTwo, AlignedAddr, Transfer.Legal;
    BurstFits(t, maxBurst, k);
    BurstAccepted(t, size, c.kind, maxBurst, k, id);
    b := Burst(t.Cell(k), id, BurstLength(t, maxBurst, k) - 1, size, c.kind);
  }

  lemma ExpectedIs(c: Command, busBytes: nat, maxBurst: int, ids: nat, k: nat, id: nat, mem: seq<Byte>)
    requires Asked(c, busBytes).Legal() && ids > 0 && k <= Asked(c, busBytes).Cycles() && WholeWords(mem, busBytes)
    ensures Expected(c, busBytes, maxBurst, ids, k, id, mem)
         == Reads(ReadBursts(c, busBytes, maxBurst, ids, k, id), mem, busBytes)
  {
    hide Reads, ReadBursts, Transfer.Legal, Transfer.Cycles;
  }

  /** The next part of a read and the beats that belong to it. */
  lemma ExpectedCons(c: Command, busBytes: nat, maxBurst: int, ids: nat, k: nat, id: nat, mem: seq<Byte>)
    requires Asked(c, busBytes).Legal() && c.kind.Incr? && ids > 0 && k < Asked(c, busBytes).Cycles()
    requires WholeWords(mem, busBytes)
    ensures var n := BurstLength(Asked(c, busBytes), maxBurst, k);
      && 0 < n <= Asked(c, busBytes).Cycles() - k
      && Parts(ReadBursts(c, busBytes, maxBurst, ids, k, id))
         == [Part(id, n)] + Parts(ReadBursts(c, busBytes, maxBurst, ids, k + n, NextId(id, ids)))
      && Expected(c, busBytes, maxBurst, ids, k, id, mem)
         == TailReads(Asked(c, busBytes), k, n, id, mem)
            + Expected(c, busBytes, maxBurst, ids, k + n, NextId(id, ids), mem)
  {
    hide *;
    var b := FirstBurst(c, busBytes, maxBurst, ids, k, id);
    var t, n := Asked(c, busBytes), b.len + 1;
    var later := ReadBursts(c, busBytes, maxBurst, ids, k + n, NextId(id, ids));
    PartsCons(b, later);
    ReadsCons(b, later, mem, busBytes);
    BurstReadsTail(t, b, k, 0, mem);
    ExpectedIs(c, busBytes, maxBurst, ids, k, id, mem);
    ExpectedIs(c, busBytes, maxBurst, ids, k + n, NextId(id, ids), mem);
  }

  /** The end of the bytes gathered before beat k. */
  function GatheredEnd(t: Transfer, k: nat): nat
    requires t.Legal()
  {
    if k == 0 then t.addr else t.Cell(k)
  }

  /** The lanes taken of a cell are those of the bytes gathered from it, which lie in one word. */
  lemma TakenPlace(t: Transfer, k: nat)
    requires t.Legal()
    ensures t.Cell(k) <= GatheredEnd(t, k) <= GatheredEnd(t, k + 1) == t.Cell(k) + t.beatBytes
    ensures FirstTaken(t, k) == GatheredEnd(t, k) % t.busBytes
    ensures CellLane(t, k) + t.beatBytes - FirstTaken(t, k) == GatheredEnd(t, k + 1) - GatheredEnd(t, k)
  {
    hide Transfer.Cell, BusWidth;
    var lanes, cells := Divisors(t);
    CellsAligned(t, k);
    CellsAligned(t, 0);
    CellMonotone(t, 0, k);
    CellStep(t, k);
    CellInBlock(t.Cell(k), t.beatBytes, lanes, t.busBytes, GatheredEnd(t, k));
  }

  lemma TakenByte(t: Transfer, k: nat, i: nat, mem: seq<Byte>)
    requires t.Legal() && WholeWords(mem, t.busBytes) && i < GatheredEnd(t, k + 1) - GatheredEnd(t, k)
    ensures Lane(WordAt(mem, t.busBytes, t.Cell(k)), FirstTaken(t, k) + i) == mem[(GatheredEnd(t, k) + i) % |mem|]
  {
    hide *;
    TakenPlace(t, k);
    CellsAligned(t, k);
    var lanes, cells := Divisors(t);
    var c, a := t.Cell(k), GatheredEnd(t, k);
    BeatBytesExist(t);
    PlaceInCell(c, t.beatBytes, lanes, t.busBytes, a, i);
    SameWord(mem, t.busBytes, c, a + i);
    LaneOfWord(mem, t.busBytes, a + i);
  }

  lemma BeatBytesExist(t: Transfer)
    requires t.Legal()
    ensures t.beatBytes > 0 && t.busBytes > 0
  {
  }

  /** Byte i behind an address of a cell, still of that cell, is in the cell's word, i lanes on. */
  lemma PlaceInCell(c: nat, cell: nat, parts: nat, block: nat, a: nat, i: nat)
    requires cell > 0 && parts > 0 && block == cell * parts > 0 && c % cell == 0 && c <= a && a + i < c + cell
    ensures RoundDown(c, block) == RoundDown(a + i, block)
    ensures a % block + i == (a + i) % block
  {
    CellInBlock(c, cell, parts, block, a);
    CellInBlock(c, cell, parts, block, a + i);
    hide RoundDown;
    PlaceInWord(c, block, a, i);
  }

  lemma PlaceInWord(c: nat, block: nat, a: nat, i: nat)
    requires block > 0 && c <= a && a % block == c % block + (a - c) && (a + i) % block == c % block + (a + i - c)
    ensures RoundDown(c, block) == RoundDown(a + i, block)
    ensures a % block + i == (a + i) % block
  {
  }

  /** Beat k carries, in the lanes that are taken from it, the bytes up to the end of its cell. */
  lemma CellBytes(t: Transfer, k: nat, mem: seq<Byte>)
    requires t.Legal() && WholeWords(mem, t.busBytes)
    ensures t.Cell(k) <= GatheredEnd(t, k) <= GatheredEnd(t, k + 1)
    ensures FirstTaken(t, k) <= CellLane(t, k) + t.beatBytes
    ensures Lanes(WordAt(mem, t.busBytes, t.Cell(k)), FirstTaken(t, k), CellLane(t, k) + t.beatBytes)
         == FlatRead(mem, GatheredEnd(t, k), GatheredEnd(t, k + 1) - GatheredEnd(t, k))
  {
    hide *;
    TakenPlace(t, k);
    MemoryExists(mem, t.busBytes);
    var word, a := WordAt(mem, t.busBytes, t.Cell(k)), GatheredEnd(t, k);
    var start, n := FirstTaken(t, k), GatheredEnd(t, k + 1) - GatheredEnd(t, k);
    var taken, read := Lanes(word, start, start + n), FlatRead(mem, a, n);
    forall i | 0 <= i < n
      ensures taken[i] == read[i]
    {
      TakenByte(t, k, i, mem);
      LaneTaken(word, start, start + n, i);
    }
    assert taken == read;
  }

  lemma WholeMemory(mem: seq<Byte>, busBytes: nat)
    requires busBytes > 0 && |mem| > 0 && |mem| % busBytes == 0
    ensures WholeWords(mem, busBytes)
  {
  }

  lemma MemoryExists(mem: seq<Byte>, busBytes: nat)
    requires WholeWords(mem, busBytes)
    ensures |mem| > 0
  {
  }

  lemma LaneTaken(word: nat, start: nat, stop: nat, i: nat)
    requires start + i < stop
    ensures Lanes(word, start, stop)[i] == Lane(word, start + i)
  {
    hide Lane;
  }

  lemma SameWord(mem: seq<Byte>, busBytes: nat, c: nat, x: nat)
    requires WholeWords(mem, busBytes)
    requires RoundDown(c, busBytes) == RoundDown(x, busBytes)
    ensures WordAt(mem, busBytes, c) == WordAt(mem, busBytes, x)
  {
  }

  /** The first lane taken from beat k. */
  function FirstTaken(t: Transfer, k: nat): nat
    requires t.Legal()
  {
    if k == 0 then StartOffset(t.addr, t.busBytes) else CellLane(t, k)
  }

  /** The bytes in lanes start to stop of a word. */
  function Lanes(word: nat, start: nat, stop: nat): (bytes: seq<Byte>)
    requires start <= stop
    ensures |bytes| == stop - start
  {
    seq<Byte>(stop - start, i requires 0 <= i < stop - start => Lane(word, start + i))
  }

  lemma FlatReadAppend(mem: seq<Byte>, a: nat, b: nat, c: nat)
    requires |mem| > 0 && a <= b <= c
    ensures FlatRead(mem, a, b - a) + FlatRead(mem, b, c - b) == FlatRead(mem, a, c - a)
  {
    var p, q := FlatRead(mem, a, b - a), FlatRead(mem, b, c - b);
    forall i | 0 <= i < c - a
      ensures (p + q)[i] == FlatRead(mem, a, c - a)[i]
    {
      if i >= b - a {
        assert b + (i - (b - a)) == a + i;
      }
    }
  }

  class Reader {
    const busBytes: nat
    const ids: nat
    var maxBurst: int
    var curReadId: nat
    var commands: seq<Command>
    var addrQueue: seq<Burst>
    var respCommands: seq<Awaited>
    var arriving: seq<ReadBeat>
    var queues: map<nat, seq<ReadBeat>>
    var results: seq<Result>

    ghost predicate Valid() {
      BusWidth(busBytes) && ids > 0
    }

    lemma IdsExist()
      requires Valid()
      ensures ids > 0 && busBytes > 0
    {
    }

    /** idBits is the width of the identifier signal, 0 when there is none. */
    constructor (busBytes: nat, idBits: nat)
      requires BusWidth(busBytes)
      ensures Valid() && this.busBytes == busBytes && ids == PowerOfTwo(idBits)
      ensures maxBurst == MaxBurst && curReadId == 0
      ensures commands == [] && addrQueue == [] && respCommands == [] && arriving == []
      ensures queues == map[] && results == []
    {
      this.busBytes, ids := busBytes, PowerOfTwo(idBits);
      maxBurst, curReadId := MaxBurst, 0;
      commands, addrQueue, respCommands, arriving, queues, results := [], [], [], [], map[], [];
    }

    /** One command: ok is false when its beats are wider than the bus, which stops the bench. */
    method ReadLogic() returns (ok: bool)
      requires Valid() && commands != []
      modifies this`commands, this`addrQueue, this`respCommands, this`curReadId
      ensures commands == old(commands)[1..]
      ensures ok == Allowed(old(commands)[0], busBytes)
      ensures ok ==> Asked(old(commands)[0], busBytes).Legal()
      ensures ok ==>
        var c := old(commands)[0];
        var bursts := ReadBursts(c, busBytes, maxBurst, ids, 0, old(curReadId));
        && addrQueue == old(addrQueue) + bursts
        && respCommands == old(respCommands) + [Awaited(c.addr, c.length, SizeOf(c.size, busBytes), Parts(bursts))]
        && curReadId == IdAfter(old(curReadId), |bursts|, ids)
      ensures var c := old(commands)[0];
        && ok == (BusWidth(busBytes) && (c.size.Some? ==> PowerOfTwo(c.size.value) <= busBytes))
        && (ok ==>
          && old(addrQueue) <= addrQueue
          && var bursts := addrQueue[|old(addrQueue)|..];
          Issued(bursts, c.addr, c.length, c.size, c.kind, busBytes, maxBurst, ids, old(curReadId)))
    {
      var c := commands[0];
      commands := commands[1..];
      if !SizeAllowed(c.size, busBytes) {
        return false;
      }
      ok := true;
      AskedLegal(c, busBytes);
      var size := SizeOf(c.size, busBytes);
      var beatBytes := PowerOfTwo(size);
      var cycles := CyclesOf(c.addr, c.length, beatBytes);
      CellMonotone(Asked(c, busBytes), 0, 0);
      var parts := QueueBursts(c, size, beatBytes, cycles, RoundDown(c.addr, beatBytes));
      respCommands := respCommands + [Awaited(c.addr, c.length, size, parts)];
      DefaultSize(c.size, busBytes);
      CommandIssued(Asked(c, busBytes), size, c.size, c.kind, maxBurst, ids, old(curReadId));
      assert addrQueue[|old(addrQueue)|..] == ReadBursts(c, busBytes, maxBurst, ids, 0, old(curReadId));
    }

    /** The loop over the beats, which announces a burst at the first of each. */
    method QueueBursts(c: Command, size: nat, beatBytes: nat, cycles: nat, alignedAddr: nat) returns (parts: seq<Part>)
      requires Valid() && Asked(c, busBytes).Legal()
      requires size == SizeOf(c.size, busBytes) && beatBytes == Asked(c, busBytes).beatBytes
      requires cycles == Asked(c, busBytes).Cycles() && alignedAddr == Asked(c, busBytes).Cell(0)
      modifies this`addrQueue, this`curReadId
      ensures var bursts := ReadBursts(c, busBytes, maxBurst, ids, 0, old(curReadId));
        && addrQueue == old(addrQueue) + bursts && parts == Parts(bursts)
        && curReadId == IdAfter(old(curReadId), |bursts|, ids)
    {
      ghost var t := Asked(c, busBytes);
      assert ids > 0 && busBytes > 0 && beatBytes > 0;
      hide *;
      ghost var first := curReadId;
      ghost var all := ReadBursts(c, busBytes, maxBurst, ids, 0, first);
      ghost var bursts: seq<Burst> := [];
      ghost var r: nat := 0;
      NothingAnnounced(c, busBytes, maxBurst, ids, first);
      parts := [];
      var cur, n, burstLength: int := alignedAddr, 0, 0;
      var k := 0;
      while k < cycles
        invariant k + r <= cycles && cur == t.Cell(k) && cur >= 0
        invariant if k == 0 then n == burstLength == r == 0 else 0 <= n && n + 1 + r == burstLength
        invariant addrQueue == old(addrQueue) + bursts
        invariant Announced(c, busBytes, maxBurst, ids, k + r, curReadId, bursts, parts, first, all)
      {
        n := n + 1;
        if n >= burstLength {
          BurstAnnounced(c, busBytes, maxBurst, ids, k, curReadId, bursts, parts, first, all);
          n := 0;
          burstLength := BurstBeats(cycles - k, maxBurst, beatBytes, cur);
          LengthIs(t, maxBurst, k, cycles, cur);
          parts := parts + [Part(curReadId, burstLength)];
          bursts := bursts + [Burst(cur, curReadId, burstLength - 1, size, c.kind)];
          addrQueue := addrQueue + [Burst(cur, curReadId, burstLength - 1, size, c.kind)];
          curReadId := NextId(curReadId, ids);
          r := burstLength;
        }
        r := r - 1;
        CellStep(t, k);
        cur := cur + beatBytes;
        k := k + 1;
      }
      AllAnnounced(c, busBytes, maxBurst, ids, curReadId, bursts, parts, first, all);
    }

    // Arrival

    function Queue(id: nat): seq<ReadBeat>
      reads this`queues
    {
      if id in queues then queues[id] else []
    }

    /** The beats here and to come are, identifier by identifier, those expected. */
    ghost predicate Holds(expected: seq<ReadBeat>)
      reads this`queues, this`arriving
    {
      forall id: nat :: Queue(id) + Project(arriving, id) == Project(expected, id)
    }

    /** The next beat arrives, and is queued by its identifier. */
    method Deliver(ghost expected: seq<ReadBeat>)
      requires arriving != [] && Holds(expected)
      modifies this`arriving, this`queues
      ensures arriving == old(arriving)[1..] && Holds(expected)
      ensures forall id <- old(queues) :: id in queues
    {
      hide Project;
      var beat := arriving[0];
      ghost var before := arriving;
      arriving := arriving[1..];
      queues := queues[beat.id := Queue(beat.id) + [beat]];
      forall id: nat
        ensures Queue(id) + Project(arriving, id) == Project(expected, id)
      {
        Delivered(old(Queue(id)), before, expected, id);
      }
    }

    /** The next beat of an identifier, after waiting for it; any other beats may arrive meanwhile. */
    method Pop(rid: nat, ghost expected: seq<ReadBeat>) returns (beat: ReadBeat)
      requires Holds(expected) && expected != [] && expected[0].id == rid
      modifies this`arriving, this`queues
      ensures beat == expected[0] && Holds(expected[1..])
    {
      queues := queues[rid := Queue(rid)];
      var more: bool := *;
      while arriving != [] && (queues[rid] == [] || more)
        invariant rid in queues && Holds(expected)
        decreases |arriving|
      {
        Deliver(expected);
        more := *;
      }
      Popped(queues[rid], arriving, expected, rid);
      ghost var before := queues;
      beat := queues[rid][0];
      queues := queues[rid := queues[rid][1..]];
      forall id: nat
        ensures Queue(id) + Project(arriving, id) == Project(expected[1..], id)
      {
        if id != rid {
          assert Queue(id) + Project(arriving, id) == Project(expected, id);
          assert Project(expected, id) == [] + Project(expected[1..], id);
        }
      }
    }

    // Reassembly

    /** The lanes start to stop of a word, appended to the data. */
    method TakeLanes(data: seq<Byte>, word: nat, start: nat, stop: nat) returns (newData: seq<Byte>)
      requires start <= stop
      ensures newData == data + Lanes(word, start, stop)
    {
      newData := data;
      var j := start;
      while j < stop
        invariant start <= j <= stop && newData == data + Lanes(word, start, j)
      {
        ShrLane(word, j);
        assert Lanes(word, start, j) + [Lane(word, j)] == Lanes(word, start, j + 1);
        newData := newData + [Shr(word, 8 * j) % 256];
        j := j + 1;
      }
    }

    /** One beat of the part: ok is false when its last flag is not where it should be. */
    method TakeBeat(c: Command, rid: nat, last: bool, startOffset: nat, cycleOffset: nat, beatBytes: nat, first: bool,
                    data: seq<Byte>, resp: nat, ghost k: nat, ghost r: nat, ghost later: seq<ReadBeat>,
                    ghost mem: seq<Byte>)
      returns (ok: bool, newData: seq<Byte>, newResp: nat)
      requires Valid() && Gathering(c, busBytes, k, startOffset, cycleOffset, beatBytes, first, data, resp, mem)
      requires r > 0 && last == (r == 1) && Holds(TailReads(Asked(c, busBytes), k, r, rid, mem) + later)
      modifies this`arriving, this`queues
      ensures ok && Holds(TailReads(Asked(c, busBytes), k + 1, r - 1, rid, mem) + later)
      ensures Gathering(c, busBytes, k + 1, startOffset, Onward(cycleOffset, beatBytes, busBytes), beatBytes, false,
                        newData, newResp, mem)
    {
      ghost var t := Asked(c, busBytes);
      GatheringMeans(c, busBytes, k, startOffset, cycleOffset, beatBytes, first, data, resp, mem);
      hide *;
      GatherStep(c, busBytes, k, startOffset, cycleOffset, beatBytes, first, data, resp, mem);
      TailReadsCons(t, k, r, rid, mem, later);
      newData, newResp := data, resp;
      var beat := Pop(rid, TailReads(t, k, r, rid, mem) + later);
      if beat.resp != 0 {
        newResp := beat.resp;
      }
      var start, stop := cycleOffset, cycleOffset + beatBytes;
      if first {
        start := startOffset;
      }
      if beat.last != last {
        return false, newData, newResp;
      }
      newData := TakeLanes(newData, beat.data, start, stop);
      ok := true;
    }

    /** All beats of a part. */
    method TakePart(c: Command, part: Part, startOffset: nat, cycleOffset: nat, beatBytes: nat, first: bool,
                    data: seq<Byte>, resp: nat, ghost k: nat, ghost later: seq<ReadBeat>, ghost mem: seq<Byte>)
      returns (ok: bool, newOffset: nat, newData: seq<Byte>, newResp: nat)
      requires Valid() && Gathering(c, busBytes, k, startOffset, cycleOffset, beatBytes, first, data, resp, mem)
      requires part.beats > 0 && Holds(TailReads(Asked(c, busBytes), k, part.beats, part.id, mem) + later)
      modifies this`arriving, this`queues
      ensures ok && Holds(later)
      ensures Gathering(c, busBytes, k + part.beats, startOffset, newOffset, beatBytes, false, newData, newResp, mem)
    {
      hide *;
      GatheringMeans(c, busBytes, k, startOffset, cycleOffset, beatBytes, first, data, resp, mem);
      ghost var t := Asked(c, busBytes);
      NoTail(t, k + part.beats, part.id, mem, later);
      newOffset, newData, newResp := cycleOffset, data, resp;
      var start := first;
      ghost var at, r: nat := k, part.beats;
      var n := 0;
      while n < part.beats
        invariant n + r == part.beats && at == k + n && (n > 0 ==> !start)
        invariant Gathering(c, busBytes, at, startOffset, newOffset, beatBytes, start, newData, newResp, mem)
        invariant Holds(TailReads(t, at, r, part.id, mem) + later)
      {
        var last := n == part.beats - 1;
        ok, newData, newResp := TakeBeat(c, part.id, last, startOffset, newOffset, beatBytes, start,
                                         newData, newResp, at, r, later, mem);
        at, r := at + 1, r - 1;
        if !ok {
          return;
        }
        newOffset := Onward(newOffset, beatBytes, busBytes);
        start := false;
        n := n + 1;
      }
      ok := true;
    }

    /** All parts of a read. */
    method TakeParts(c: Command, parts: seq<Part>, startOffset: nat, firstLane: nat, beatBytes: nat,
                     ghost burstLimit: int, ghost id: nat, ghost rest: seq<ReadBeat>, ghost mem: seq<Byte>)
      returns (ok: bool, data: seq<Byte>, resp: nat)
      requires Valid() && Gathering(c, busBytes, 0, startOffset, firstLane, beatBytes, true, [], 0, mem)
      requires c.kind.Incr? && parts == Parts(ReadBursts(c, busBytes, burstLimit, ids, 0, id))
      requires Holds(Expected(c, busBytes, burstLimit, ids, 0, id, mem) + rest)
      modifies this`arriving, this`queues
      ensures ok && Holds(rest) && resp == 0
      ensures |data| >= c.length && data[..c.length] == FlatRead(mem, c.addr, c.length)
    {
      ghost var t := Asked(c, busBytes);
      GatheringMeans(c, busBytes, 0, startOffset, firstLane, beatBytes, true, [], 0, mem);
      assert ids > 0;
      hide *;
      ghost var k: nat, at := 0, id;
      var cycleOffset, left, first := firstLane, parts, true;
      data, resp := [], 0;
      while left != []
        invariant k <= t.Cycles() && Left(c, burstLimit, k, at, left, rest, mem)
        invariant Gathering(c, busBytes, k, startOffset, cycleOffset, beatBytes, first, data, resp, mem)
        decreases |left|
      {
        var part := left[0];
        left := left[1..];
        ok, cycleOffset, data, resp := TakeNext(c, part, left, startOffset, cycleOffset, beatBytes, first, data, resp,
                                                burstLimit, k, at, rest, mem);
        if !ok {
          return;
        }
        first := false;
        k, at := k + part.beats, NextId(at, ids);
      }
      ok := true;
      LeftMeans(c, burstLimit, k, at, left, rest, mem);
      AllTaken(c, busBytes, burstLimit, ids, k, at, mem, rest);
      GatheredAll(c, busBytes, startOffset, cycleOffset, beatBytes, first, data, resp, mem);
    }

    /** The parts and beats from beat k on, in the burst with identifier at, are left. */
    ghost predicate Left(c: Command, burstLimit: int, k: nat, at: nat, left: seq<Part>, rest: seq<ReadBeat>,
                         mem: seq<Byte>)
      requires WholeWords(mem, busBytes) && Asked(c, busBytes).Legal() && ids > 0 && k <= Asked(c, busBytes).Cycles()
      reads this`queues, this`arriving
    {
      && left == Parts(ReadBursts(c, busBytes, burstLimit, ids, k, at))
      && Holds(Expected(c, busBytes, burstLimit, ids, k, at, mem) + rest)
    }

    lemma LeftMeans(c: Command, burstLimit: int, k: nat, at: nat, left: seq<Part>, rest: seq<ReadBeat>, mem: seq<Byte>)
      requires WholeWords(mem, busBytes) && Asked(c, busBytes).Legal() && ids > 0 && k <= Asked(c, busBytes).Cycles()
      requires Left(c, burstLimit, k, at, left, rest, mem)
      ensures left == Parts(ReadBursts(c, busBytes, burstLimit, ids, k, at))
      ensures Holds(Expected(c, busBytes, burstLimit, ids, k, at, mem) + rest)
    {
    }

    /** The next of them is taken. */
    method TakeNext(c: Command, part: Part, others: seq<Part>, startOffset: nat, cycleOffset: nat, beatBytes: nat,
                    first: bool, data: seq<Byte>, resp: nat, ghost burstLimit: int, ghost k: nat, ghost at: nat,
                    ghost rest: seq<ReadBeat>, ghost mem: seq<Byte>)
      returns (ok: bool, newOffset: nat, newData: seq<Byte>, newResp: nat)
      requires Valid() && Gathering(c, busBytes, k, startOffset, cycleOffset, beatBytes, first, data, resp, mem)
      requires WholeWords(mem, busBytes) && Asked(c, busBytes).Legal() && ids > 0 && k <= Asked(c, busBytes).Cycles()
      requires c.kind.Incr? && Left(c, burstLimit, k, at, [part] + others, rest, mem)
      modifies this`arriving, this`queues
      ensures ok && k + part.beats <= Asked(c, busBytes).Cycles()
      ensures Left(c, burstLimit, k + part.beats, NextId(at, ids), others, rest, mem)
      ensures Gathering(c, busBytes, k + part.beats, startOffset, newOffset, beatBytes, false, newData, newResp, mem)
    {
      hide *;
      LeftMeans(c, burstLimit, k, at, [part] + others, rest, mem);
      assert ([part] + others)[1..] == others;
      ghost var later := NextPart(c, busBytes, burstLimit, ids, k, at, mem, rest);
      ok, newOffset, newData, newResp :=
        TakePart(c, part, startOffset, cycleOffset, beatBytes, first, data, resp, k, later, mem);
      LeftNow(c, burstLimit, k + part.beats, NextId(at, ids), others, rest, mem);
    }

    lemma LeftNow(c: Command, burstLimit: int, k: nat, at: nat, left: seq<Part>, rest: seq<ReadBeat>, mem: seq<Byte>)
      requires WholeWords(mem, busBytes) && Asked(c, busBytes).Legal() && ids > 0 && k <= Asked(c, busBytes).Cycles()
      requires left == Parts(ReadBursts(c, busBytes, burstLimit, ids, k, at))
      requires Holds(Expected(c, busBytes, burstLimit, ids, k, at, mem) + rest)
      ensures Left(c, burstLimit, k, at, left, rest, mem)
    {
    }

    /**
     * The data of the read at the head of the queue is put together: whatever the order
     * in which beats of different identifiers arrive, it is the bytes of the range.
     */
    method ReadRespLogic(ghost c: Command, ghost burstLimit: int, ghost id: nat, ghost rest: seq<ReadBeat>,
        ghost mem: seq<Byte>)
      returns (ok: bool)
      requires Valid() && Asked(c, busBytes).Legal() && c.kind.Incr? && WholeWords(mem, busBytes)
      requires respCommands != []
      requires respCommands[0] == Awaited(c.addr, c.length, SizeOf(c.size, busBytes),
                                          Parts(ReadBursts(c, busBytes, burstLimit, ids, 0, id)))
      requires Holds(Expected(c, busBytes, burstLimit, ids, 0, id, mem) + rest)
      modifies this`respCommands, this`arriving, this`queues, this`results
      ensures ok && respCommands == old(respCommands)[1..] && Holds(rest)
      ensures results == old(results) + [Result(c.addr, FlatRead(mem, c.addr, c.length), 0)]
    {
      var a := respCommands[0];
      respCommands := respCommands[1..];
      var beatBytes := PowerOfTwo(a.size);
      if beatBytes > busBytes {
        return false;
      }
      FirstLane(Asked(c, busBytes));
      var firstLane := RoundDown(a.addr, beatBytes) - RoundDown(a.addr, busBytes);
      var data, resp;
      ok, data, resp := TakeParts(Command(a.addr, a.length, Incr, Some(a.size)), a.parts, StartOffset(a.addr, busBytes),
                                  firstLane, beatBytes, burstLimit, id, rest, mem);
      if ok {
        results := results + [Result(a.addr, data[..a.length], resp)];
      }
    }
  }

  /** The reassembly has gathered the bytes before beat k. */
  ghost predicate Gathering(c: Command, busBytes: nat, k: nat, startOffset: nat, cycleOffset: nat, beatBytes: nat,
                            first: bool, data: seq<Byte>, resp: nat, mem: seq<Byte>)
  {
    && WholeWords(mem, busBytes) && Asked(c, busBytes).Legal()
    && var t := Asked(c, busBytes);
    && startOffset == StartOffset(c.addr, busBytes) && cycleOffset == CellLane(t, k) && beatBytes == t.beatBytes
    && first == (k == 0) && resp == 0
    && c.addr <= GatheredEnd(t, k) && data == FlatRead(mem, c.addr, GatheredEnd(t, k) - c.addr)
  }

  lemma GatheringMeans(c: Command, busBytes: nat, k: nat, startOffset: nat, cycleOffset: nat, beatBytes: nat,
                       first: bool, data: seq<Byte>, resp: nat, mem: seq<Byte>)
    requires Gathering(c, busBytes, k, startOffset, cycleOffset, beatBytes, first, data, resp, mem)
    ensures WholeWords(mem, busBytes) && Asked(c, busBytes).Legal() && resp == 0
    ensures busBytes > 0 && Asked(c, busBytes).busBytes == busBytes
  {
  }

  /** The lanes taken from beat k extend the bytes gathered to the end of its cell. */
  lemma GatherStep(c: Command, busBytes: nat, k: nat, startOffset: nat, cycleOffset: nat, beatBytes: nat,
                   first: bool, data: seq<Byte>, resp: nat, mem: seq<Byte>)
    requires Gathering(c, busBytes, k, startOffset, cycleOffset, beatBytes, first, data, resp, mem)
    ensures WholeWords(mem, busBytes) && Asked(c, busBytes).Legal()
    ensures (if first then startOffset else cycleOffset) <= cycleOffset + beatBytes
    ensures var word := WordAt(mem, busBytes, Asked(c, busBytes).Cell(k));
      var taken := Lanes(word, if first then startOffset else cycleOffset, cycleOffset + beatBytes);
      Gathering(c, busBytes, k + 1, startOffset, Onward(cycleOffset, beatBytes, busBytes), beatBytes, false,
                data + taken, resp, mem)
  {
    var t := Asked(c, busBytes);
    assert t.busBytes == busBytes && t.addr == c.addr;
    hide Asked, Transfer.Cell, CellLane, Onward, StartOffset, FlatRead, WordAt, Lanes, Transfer.Legal, GatheredEnd;
    CellBytes(t, k, mem);
    FlatReadAppend(mem, c.addr, GatheredEnd(t, k), GatheredEnd(t, k + 1));
    NextLane(t, k);
  }

  /** The cells reach beyond the bytes of the read. */
  lemma GatheredAll(c: Command, busBytes: nat, startOffset: nat, cycleOffset: nat, beatBytes: nat,
                    first: bool, data: seq<Byte>, resp: nat, mem: seq<Byte>)
    requires Asked(c, busBytes).Legal()
    requires Gathering(c, busBytes, Asked(c, busBytes).Cycles(), startOffset, cycleOffset, beatBytes, first, data,
        resp, mem)
    ensures resp == 0 && |data| >= c.length && data[..c.length] == FlatRead(mem, c.addr, c.length)
  {
    hide Transfer.Cycles, Transfer.Cell, BusWidth, SizeOf, PowerOfTwo, StartOffset, CellLane;
    Covered(Asked(c, busBytes));
    CellsAligned(Asked(c, busBytes), 0);
    CellMonotone(Asked(c, busBytes), 0, 0);
  }

  lemma NextPart(c: Command, busBytes: nat, maxBurst: int, ids: nat, k: nat, id: nat, mem: seq<Byte>,
      rest: seq<ReadBeat>)
    returns (later: seq<ReadBeat>)
    requires Asked(c, busBytes).Legal() && c.kind.Incr? && ids > 0 && k <= Asked(c, busBytes).Cycles()
    requires WholeWords(mem, busBytes)
    requires Parts(ReadBursts(c, busBytes, maxBurst, ids, k, id)) != []
    ensures var parts := Parts(ReadBursts(c, busBytes, maxBurst, ids, k, id));
      var n := parts[0].beats;
      && 0 < n <= Asked(c, busBytes).Cycles() - k && parts[0].id == id
      && parts[1..] == Parts(ReadBursts(c, busBytes, maxBurst, ids, k + n, NextId(id, ids)))
      && later == Expected(c, busBytes, maxBurst, ids, k + n, NextId(id, ids), mem) + rest
      && Expected(c, busBytes, maxBurst, ids, k, id, mem) + rest == TailReads(Asked(c, busBytes), k, n, id, mem) + later
  {
    hide Transfer.Cycles, Transfer.Cell, BusWidth, SizeOf, PowerOfTwo, Expected, TailReads, Parts, BurstLength, NextId;
    if k == Asked(c, busBytes).Cycles() {
      AllTaken(c, busBytes, maxBurst, ids, k, id, mem, rest);
    }
    ExpectedCons(c, busBytes, maxBurst, ids, k, id, mem);
    var n := BurstLength(Asked(c, busBytes), maxBurst, k);
    var first := TailReads(Asked(c, busBytes), k, n, id, mem);
    var second := Expected(c, busBytes, maxBurst, ids, k + n, NextId(id, ids), mem);
    later := second + rest;
    assert (first + second) + rest == first + later;
  }

  lemma AllTaken(c: Command, busBytes: nat, maxBurst: int, ids: nat, k: nat, id: nat, mem: seq<Byte>,
      rest: seq<ReadBeat>)
    requires Asked(c, busBytes).Legal() && c.kind.Incr? && ids > 0 && k <= Asked(c, busBytes).Cycles()
    requires WholeWords(mem, busBytes)
    ensures Parts(ReadBursts(c, busBytes, maxBurst, ids, k, id)) == [] <==> k == Asked(c, busBytes).Cycles()
    ensures k == Asked(c, busBytes).Cycles() ==> Expected(c, busBytes, maxBurst, ids, k, id, mem) + rest == rest
  {
    hide Transfer.Cycles, Transfer.Cell, BusWidth, SizeOf, PowerOfTwo, BurstLength;
  }

  lemma TailReadsCons(t: Transfer, k: nat, r: nat, id: nat, mem: seq<Byte>, later: seq<ReadBeat>)
    requires t.Legal() && WholeWords(mem, t.busBytes) && r > 0
    ensures var tail := TailReads(t, k, r, id, mem) + later;
      && tail != [] && tail[0] == ReadBeat(id, WordAt(mem, t.busBytes, t.Cell(k)), 0, r == 1)
      && tail[1..] == TailReads(t, k + 1, r - 1, id, mem) + later
  {
    hide WordAt, Transfer.Cell, BusWidth;
  }

  lemma NoTail(t: Transfer, k: nat, id: nat, mem: seq<Byte>, later: seq<ReadBeat>)
    requires t.Legal() && WholeWords(mem, t.busBytes)
    ensures TailReads(t, k, 0, id, mem) + later == later
  {
  }

  lemma Delivered(queue: seq<ReadBeat>, arriving: seq<ReadBeat>, expected: seq<ReadBeat>, id: nat)
    requires arriving != [] && queue + Project(arriving, id) == Project(expected, id)
    ensures (if arriving[0].id == id then queue + [arriving[0]] else queue) + Project(arriving[1..], id)
         == Project(expected, id)
  {
    var rest := Project(arriving[1..], id);
    if arriving[0].id == id {
      assert Project(arriving, id) == [arriving[0]] + rest;
      assert queue + ([arriving[0]] + rest) == (queue + [arriving[0]]) + rest;
    } else {
      assert Project(arriving, id) == [] + rest == rest;
    }
  }

  lemma Popped(queue: seq<ReadBeat>, arriving: seq<ReadBeat>, expected: seq<ReadBeat>, rid: nat)
    requires queue + Project(arriving, rid) == Project(expected, rid)
    requires expected != [] && expected[0].id == rid && (arriving != [] ==> queue != [])
    ensures queue != [] && queue[0] == expected[0]
    ensures queue[1..] + Project(arriving, rid) == Project(expected[1..], rid)
  {
    var p, rest := Project(arriving, rid), Project(expected[1..], rid);
    assert Project(expected, rid) == [expected[0]] + rest;
    assert arriving == [] ==> p == [];
    hide Project;
    assert |queue + p| == 1 + |rest|;
    SameHead(queue, p, expected[0], rest);
  }

  lemma SameHead<T>(queue: seq<T>, p: seq<T>, x: T, rest: seq<T>)
    requires queue != [] && queue + p == [x] + rest
    ensures queue[0] == x && queue[1..] + p == rest
  {
    assert (queue + p)[0] == queue[0];
    assert (queue + p)[1..] == queue[1..] + p;
    assert ([x] + rest)[1..] == rest;
  }

  function NextId(id: nat, ids: nat): nat
    requires ids > 0
  {
    (id + 1) % ids
  }

  lemma LengthIs(t: Transfer, maxBurst: int, k: nat, cycles: nat, cur: nat)
    requires t.Legal() && k < cycles == t.Cycles() && cur == t.Cell(k) && t.beatBytes > 0
    ensures BurstLength(t, maxBurst, k) == BurstBeats(cycles - k, maxBurst, t.beatBytes, cur)
  {
  }

  // A whole run: the reads queued at the master, answered by the memory in any order

  ghost predicate Ready(commands: seq<Command>, busBytes: nat) {
    forall c <- commands :: Allowed(c, busBytes) && c.kind.Incr?
  }

  /** The bursts of a list of commands, the first with identifier id. */
  ghost function AllBursts(commands: seq<Command>, busBytes: nat, maxBurst: int, ids: nat, id: nat): seq<Burst>
    requires Ready(commands, busBytes) && ids > 0
  {
    if commands == [] then []
    else
      AskedLegal(commands[0], busBytes);
      var first := ReadBursts(commands[0], busBytes, maxBurst, ids, 0, id);
      first + AllBursts(commands[1..], busBytes, maxBurst, ids, IdAfter(id, |first|, ids))
  }

  ghost function AllAwaited(commands: seq<Command>, busBytes: nat, maxBurst: int, ids: nat, id: nat): seq<Awaited>
    requires Ready(commands, busBytes) && ids > 0
  {
    if commands == [] then []
    else
      AskedLegal(commands[0], busBytes);
      var c, first := commands[0], ReadBursts(commands[0], busBytes, maxBurst, ids, 0, id);
      [Awaited(c.addr, c.length, SizeOf(c.size, busBytes), Parts(first))]
      + AllAwaited(commands[1..], busBytes, maxBurst, ids, IdAfter(id, |first|, ids))
  }

  lemma {:induction false} AllAccepted(commands: seq<Command>, busBytes: nat, maxBurst: int, ids: nat, id: nat)
    requires Ready(commands, busBytes) && ids > 0 && id < ids
    ensures forall b <- AllBursts(commands, busBytes, maxBurst, ids, id) :: Accepted(b, busBytes)
  {
    hide Transfer.Cycles, Accepted, BusWidth, PowerOfTwo, BurstsFrom, SizeOf, IdAfter;
    if commands != [] {
      var c := commands[0];
      AskedLegal(c, busBytes);
      BurstsPartition(Asked(c, busBytes), SizeOf(c.size, busBytes), c.kind, maxBurst, ids, 0, id);
      var first := ReadBursts(c, busBytes, maxBurst, ids, 0, id);
      IdInRange(id, |first|, ids);
      AllAccepted(commands[1..], busBytes, maxBurst, ids, IdAfter(id, |first|, ids));
    }
  }

  lemma {:induction false} IdInRange(id: nat, bursts: nat, ids: nat)
    requires ids > 0 && id < ids
    ensures IdAfter(id, bursts, ids) < ids
    decreases bursts
  {
    if bursts > 0 {
      IdInRange((id + 1) % ids, bursts - 1, ids);
    }
  }

  /** What a list of reads returns from a memory. */
  function FlatReads(commands: seq<Command>, mem: seq<Byte>): seq<Result>
    requires |mem| > 0
  {
    if commands == [] then []
    else
      var c := commands[0];
      [Result(c.addr, FlatRead(mem, c.addr, c.length), 0)] + FlatReads(commands[1..], mem)
  }

  /** The bursts and the expected results of the first command, and those of the others. */
  lemma AllCons(commands: seq<Command>, busBytes: nat, maxBurst: int, ids: nat, id: nat)
    requires Ready(commands, busBytes) && commands != [] && ids > 0
    ensures var c := commands[0];
      && Allowed(c, busBytes) && Asked(c, busBytes).Legal() && c.kind.Incr? && Ready(commands[1..], busBytes)
      && var first := ReadBursts(c, busBytes, maxBurst, ids, 0, id);
      var next := IdAfter(id, |first|, ids);
      && AllBursts(commands, busBytes, maxBurst, ids, id)
         == first + AllBursts(commands[1..], busBytes, maxBurst, ids, next)
      && AllAwaited(commands, busBytes, maxBurst, ids, id)
         == [Awaited(c.addr, c.length, SizeOf(c.size, busBytes), Parts(first))]
            + AllAwaited(commands[1..], busBytes, maxBurst, ids, next)
  {
    AskedLegal(commands[0], busBytes);
    hide Allowed, ReadBursts, IdAfter, SizeOf, Parts, Asked, Transfer.Legal, Transfer.Cycles;
  }

  lemma NoneLeft(busBytes: nat, maxBurst: int, ids: nat, id: nat)
    requires ids > 0
    ensures AllBursts([], busBytes, maxBurst, ids, id) == [] && AllAwaited([], busBytes, maxBurst, ids, id) == []
  {
  }

  /** All commands queued are announced. */
  method IssueAll(reader: Reader)
    requires reader.Valid() && Ready(reader.commands, reader.busBytes)
    requires reader.addrQueue == [] && reader.respCommands == []
    modifies reader`commands, reader`addrQueue, reader`respCommands, reader`curReadId
    ensures reader.commands == []
    ensures reader.addrQueue
         == AllBursts(old(reader.commands), reader.busBytes, reader.maxBurst, reader.ids, old(reader.curReadId))
    ensures reader.respCommands
         == AllAwaited(old(reader.commands), reader.busBytes, reader.maxBurst, reader.ids, old(reader.curReadId))
  {
    hide *;
    reader.IdsExist();
    ghost var all, id := reader.commands, reader.curReadId;
    while reader.commands != []
      invariant Ready(reader.commands, reader.busBytes)
      invariant reader.addrQueue
              + AllBursts(reader.commands, reader.busBytes, reader.maxBurst, reader.ids, reader.curReadId)
             == AllBursts(all, reader.busBytes, reader.maxBurst, reader.ids, id)
      invariant reader.respCommands
              + AllAwaited(reader.commands, reader.busBytes, reader.maxBurst, reader.ids, reader.curReadId)
             == AllAwaited(all, reader.busBytes, reader.maxBurst, reader.ids, id)
      decreases |reader.commands|
    {
      AllCons(reader.commands, reader.busBytes, reader.maxBurst, reader.ids, reader.curReadId);
      var _ := reader.ReadLogic();
    }
    NoneLeft(reader.busBytes, reader.maxBurst, reader.ids, reader.curReadId);
  }

  /** The first of the reads announced is put together. */
  method CollectNext(reader: Reader, ghost commands: seq<Command>, ghost id: nat, ghost mem: seq<Byte>)
    returns (ok: bool, ghost left: seq<Command>, ghost next: nat)
    requires reader.Valid() && Ready(commands, reader.busBytes) && |mem| > 0 && |mem| % reader.busBytes == 0
    requires reader.respCommands == AllAwaited(commands, reader.busBytes, reader.maxBurst, reader.ids, id) != []
    requires reader.Holds(Reads(AllBursts(commands, reader.busBytes, reader.maxBurst, reader.ids, id), mem,
        reader.busBytes))
    modifies reader`respCommands, reader`arriving, reader`queues, reader`results
    ensures ok && Ready(left, reader.busBytes) && |reader.respCommands| == |old(reader.respCommands)| - 1
    ensures reader.respCommands == AllAwaited(left, reader.busBytes, reader.maxBurst, reader.ids, next)
    ensures reader.Holds(Reads(AllBursts(left, reader.busBytes, reader.maxBurst, reader.ids, next), mem,
        reader.busBytes))
    ensures reader.results + FlatReads(left, mem) == old(reader.results) + FlatReads(commands, mem)
  {
    assert reader.ids > 0 && reader.busBytes > 0;
    hide *;
    NoAwaited(commands, reader.busBytes, reader.maxBurst, reader.ids, id, mem);
    ghost var rest := FirstAwaited(commands, reader.busBytes, reader.maxBurst, reader.ids, id, mem);
    left := commands[1..];
    next := IdAfter(id, |ReadBursts(commands[0], reader.busBytes, reader.maxBurst, reader.ids, 0, id)|, reader.ids);
    ok := reader.ReadRespLogic(commands[0], reader.maxBurst, id, rest, mem);
  }

  /** The beats of all the reads announced arrive, in an order that keeps to their identifiers. */
  method CollectAll(reader: Reader, ghost commands: seq<Command>, ghost id: nat, ghost mem: seq<Byte>)
    returns (ok: bool)
    requires reader.Valid() && Ready(commands, reader.busBytes) && |mem| > 0 && |mem| % reader.busBytes == 0
    requires reader.respCommands == AllAwaited(commands, reader.busBytes, reader.maxBurst, reader.ids, id)
    requires reader.queues == map[]
    requires SameOrder(Reads(AllBursts(commands, reader.busBytes, reader.maxBurst, reader.ids, id), mem,
                             reader.busBytes),
                       reader.arriving)
    modifies reader`respCommands, reader`arriving, reader`queues, reader`results
    ensures ok && reader.respCommands == [] && reader.results == old(reader.results) + FlatReads(commands, mem)
  {
    ok := true;
    assert reader.ids > 0 && reader.busBytes > 0;
    ghost var left, at := commands, id;
    assert reader.Holds(Reads(AllBursts(commands, reader.busBytes, reader.maxBurst, reader.ids, id), mem,
        reader.busBytes));
    hide *;
    NoAwaited(left, reader.busBytes, reader.maxBurst, reader.ids, at, mem);
    while reader.respCommands != []
      invariant Ready(left, reader.busBytes) && ok
      invariant reader.respCommands == AllAwaited(left, reader.busBytes, reader.maxBurst, reader.ids, at)
      invariant reader.Holds(Reads(AllBursts(left, reader.busBytes, reader.maxBurst, reader.ids, at), mem,
          reader.busBytes))
      invariant reader.results + FlatReads(left, mem) == old(reader.results) + FlatReads(commands, mem)
      decreases |reader.respCommands|
    {
      ok, left, at := CollectNext(reader, left, at, mem);
    }
    NoAwaited(left, reader.busBytes, reader.maxBurst, reader.ids, at, mem);
  }

  lemma NoAwaited(commands: seq<Command>, busBytes: nat, maxBurst: int, ids: nat, id: nat, mem: seq<Byte>)
    requires Ready(commands, busBytes) && ids > 0 && |mem| > 0
    ensures AllAwaited(commands, busBytes, maxBurst, ids, id) == [] <==> commands == []
    ensures commands == [] ==> FlatReads(commands, mem) == []
  {
  }

  lemma FirstRead(commands: seq<Command>, busBytes: nat, maxBurst: int, ids: nat, id: nat, mem: seq<Byte>)
    requires commands != [] && Asked(commands[0], busBytes).Legal() && ids > 0 && WholeWords(mem, busBytes)
    ensures Expected(commands[0], busBytes, maxBurst, ids, 0, id, mem)
         == Reads(ReadBursts(commands[0], busBytes, maxBurst, ids, 0, id), mem, busBytes)
    ensures FlatReads(commands, mem)
         == [Result(commands[0].addr, FlatRead(mem, commands[0].addr, commands[0].length), 0)]
            + FlatReads(commands[1..], mem)
  {
    hide Reads, ReadBursts, FlatRead, Transfer.Legal;
  }

  lemma FirstAwaited(commands: seq<Command>, busBytes: nat, maxBurst: int, ids: nat, id: nat, mem: seq<Byte>)
    returns (rest: seq<ReadBeat>)
    requires Ready(commands, busBytes) && commands != [] && ids > 0
    requires WholeWords(mem, busBytes)
    ensures var c := commands[0];
      && Asked(c, busBytes).Legal() && c.kind.Incr? && Ready(commands[1..], busBytes)
      && var first := ReadBursts(c, busBytes, maxBurst, ids, 0, id);
      var next := IdAfter(id, |first|, ids);
      && rest == Reads(AllBursts(commands[1..], busBytes, maxBurst, ids, next), mem, busBytes)
      && Reads(AllBursts(commands, busBytes, maxBurst, ids, id), mem, busBytes)
         == Expected(c, busBytes, maxBurst, ids, 0, id, mem) + rest
      && AllAwaited(commands, busBytes, maxBurst, ids, id)
         == [Awaited(c.addr, c.length, SizeOf(c.size, busBytes), Parts(first))]
            + AllAwaited(commands[1..], busBytes, maxBurst, ids, next)
    ensures FlatReads(commands, mem)
         == [Result(commands[0].addr, FlatRead(mem, commands[0].addr, commands[0].length), 0)]
            + FlatReads(commands[1..], mem)
  {
    hide *;
    AllCons(commands, busBytes, maxBurst, ids, id);
    var c := commands[0];
    var first := ReadBursts(c, busBytes, maxBurst, ids, 0, id);
    var others := AllBursts(commands[1..], busBytes, maxBurst, ids, IdAfter(id, |first|, ids));
    rest := Reads(others, mem, busBytes);
    ReadsAppend(first, others, mem, busBytes);
    FirstRead(commands, busBytes, maxBurst, ids, id, mem);
  }

  /**
   * Every increasing read queued at the master returns the bytes of its range, in order
   * of the commands, however beats of different identifiers are interleaved: no assertion
   * of the RAM or of the master fails.
   */
  method ReadThrough(reader: Reader, ram: Ram) returns (ok: bool)
    requires reader.Valid() && Ready(reader.commands, reader.busBytes) && reader.curReadId < reader.ids
    requires reader.addrQueue == [] && reader.respCommands == [] && reader.queues == map[]
    requires ram.readAddrQueue == [] && ram.readRespQueue == []
    requires ram.mem.Length > 0 && ram.mem.Length % reader.busBytes == 0
    modifies reader, ram`readAddrQueue, ram`readRespQueue
    ensures ok && reader.results == old(reader.results) + FlatReads(old(reader.commands), ram.mem[..])
  {
    hide *;
    ghost var all, id := reader.commands, reader.curReadId;
    reader.IdsExist();
    IssueAll(reader);
    ram.readAddrQueue := reader.addrQueue;
    AllAccepted(all, reader.busBytes, reader.maxBurst, reader.ids, id);
    ok := ram.ReadLogic(reader.busBytes);
    WholeMemory(ram.mem[..], reader.busBytes);
    ghost var answers := Reads(reader.addrQueue, ram.mem[..], reader.busBytes);
    assert [] + answers == answers;
    var arriving := Interleave(ram.readRespQueue);
    reader.arriving := arriving;
    ok := CollectAll(reader, all, id, ram.mem[..]);
  }
}
