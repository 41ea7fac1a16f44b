/**
 * The geometry of one AXI transfer: how a range of bytes falls into aligned beats, and
 * how the beats fall into bursts (sections A3.4.1 and A3.4.3 of ARM IHI 0022E).
 */
module AxiTransfer {
  import opened Numbers
  import opened Modular
  import opened Wrappers

  const PageBytes := 0x1000
  const MaxBurst := 256

  predicate BusWidth(n: nat) {
    n in {1, 2, 4, 8, 16, 32, 64, 128}
  }

  /** The beats that a range of bytes touches. */
  function CyclesOf(addr: nat, length: nat, beatBytes: nat): nat
    requires beatBytes > 0
  {
    (length + beatBytes - 1 + addr % beatBytes) / beatBytes
  }

  datatype Transfer = Transfer(addr: nat, length: nat, beatBytes: nat, busBytes: nat) {

    /** The bus widths the bench accepts, and a beat no wider than the bus. */
    predicate Legal() {
      BusWidth(busBytes) && BusWidth(beatBytes) && beatBytes <= busBytes
    }

    function Aligned(): nat
      requires Legal()
    {
      RoundDown(addr, beatBytes)
    }

    function Cycles(): nat
      requires Legal()
    {
      CyclesOf(addr, length, beatBytes)
    }

    /** The first address of the cell that beat k occupies. */
    function Cell(k: nat): nat
      requires Legal()
    {
      Aligned() + k * beatBytes
    }

    /** The first address of the range that beat k carries. */
    function From(k: nat): nat
      requires Legal()
    {
      if k == 0 then addr else Cell(k)
    }

    /** The address after the last one of the range that beat k carries. */
    function To(k: nat): nat
      requires Legal()
    {
      if k + 1 >= Cycles() then addr + length else Cell(k + 1)
    }
  }

  /** Beat sizes divide bus widths, and both divide a page. */
  lemma Divisors(t: Transfer) returns (lanes: nat, cells: nat)
    requires t.Legal()
    ensures t.busBytes == t.beatBytes * lanes && lanes > 0
    ensures PageBytes == t.beatBytes * cells && cells > 0
  {
    lanes := t.busBytes / t.beatBytes;
    cells := PageBytes / t.beatBytes;
  }

  /** An aligned cell lies within one larger aligned block, and its bytes at consecutive offsets there. */
  lemma CellInBlock(c: nat, cell: nat, parts: nat, block: nat, x: nat)
    requires cell > 0 && parts > 0 && block == cell * parts > 0 && c % cell == 0 && c <= x < c + cell
    ensures c % block + cell <= block
    ensures x % block == c % block + (x - c)
    ensures exists r: nat :: c % block == r * cell
  {
    var q, r := CellNumber(c, cell, parts);
    CellPlaced(c, cell, parts, block, q, r, x);
  }

  /** Counted in cells, an aligned address is so many blocks and so many cells of the next. */
  lemma CellNumber(c: nat, cell: nat, parts: nat) returns (q: nat, r: nat)
    requires cell > 0 && parts > 0 && c % cell == 0
    ensures r < parts && c == cell * (q * parts + r)
  {
    var m := c / cell;
    q, r := m / parts, m % parts;
    assert m == q * parts + r;
  }

  lemma CellPlaced(c: nat, cell: nat, parts: nat, block: nat, q: nat, r: nat, x: nat)
    requires cell > 0 && r < parts && block == cell * parts > 0
    requires c == cell * (q * parts + r) && c <= x < c + cell
    ensures c % block == r * cell && r * cell + cell <= block
    ensures x % block == r * cell + (x - c)
  {
    Regroup(cell, q, parts, r);
    var offset := r * cell;
    Scaled(r + 1, parts, cell);
    assert (r + 1) * cell == offset + cell;
    InBlock(c, block, q, offset);
    InBlock(x, block, q, offset + (x - c));
  }

  lemma InBlock(x: nat, block: nat, q: nat, offset: nat)
    requires block > 0 && offset < block && x == q * block + offset
    ensures x / block == q && x % block == offset
  {
    QuotientUnique(x, block, q, offset);
  }

  lemma Regroup(cell: nat, q: nat, parts: nat, r: nat)
    ensures cell * (q * parts + r) == q * (cell * parts) + cell * r
  {
    assert cell * (q * parts + r) == cell * (q * parts) + cell * r;
    assert cell * (q * parts) == q * (cell * parts);
  }

  lemma Scaled(x: int, y: int, b: nat)
    requires x <= y
    ensures x * b <= y * b
    ensures (y - x) * b == y * b - x * b
  {
    assert (y - x) * b >= 0;
  }

  lemma CellsAligned(t: Transfer, k: nat)
    requires t.Legal()
    ensures t.Cell(k) % t.beatBytes == 0
    ensures t.Aligned() <= t.addr < t.Aligned() + t.beatBytes
    ensures t.addr % t.beatBytes == t.addr - t.Aligned()
  {
    RoundDownMultiple(t.addr, t.beatBytes);
    AddMultiple(t.Aligned(), t.beatBytes, k);
  }

  /** The cells of the beats just cover the bytes of the transfer. */
  lemma Covered(t: Transfer)
    requires t.Legal()
    ensures t.addr + t.length <= t.Cell(t.Cycles()) < t.addr + t.length + t.beatBytes
    ensures t.length == 0 ==> t.Cycles() <= 1
  {
    CellsAligned(t, 0);
    var n, b := t.length + t.beatBytes - 1 + t.addr % t.beatBytes, t.beatBytes;
    CeilingBounds(n, b);
    assert t.length == 0 ==> n < 2 * b;
  }

  lemma CeilingBounds(n: nat, b: nat)
    requires b > 0
    ensures n - b < n / b * b <= n
    ensures n < 2 * b ==> n / b <= 1
  {
    var q := n / b;
    assert n == q * b + n % b;
    if q >= 2 {
      Scaled(2, q, b);
    }
  }

  /** Beat k carries a range inside its cell, and the ranges follow one another. */
  lemma BeatRange(t: Transfer, k: nat)
    requires t.Legal() && k < t.Cycles()
    ensures t.addr <= t.From(k) <= t.To(k) <= t.addr + t.length
    ensures t.Cell(k) <= t.From(k) && t.To(k) <= t.Cell(k) + t.beatBytes
    ensures k + 1 < t.Cycles() ==> t.To(k) == t.From(k + 1)
    ensures t.length > 0 ==> t.From(k) < t.To(k)
  {
    CellsAligned(t, 0);
    Covered(t);
    var last := t.Cycles() - 1;
    CellStep(t, 0);
    CellStep(t, k);
    CellStep(t, last);
    CellMonotone(t, 1, k);
    CellMonotone(t, k, last);
    CellMonotone(t, k + 1, last);
  }

  lemma CellStep(t: Transfer, k: nat)
    requires t.Legal()
    ensures t.Cell(k + 1) == t.Cell(k) + t.beatBytes
  {
    var b := t.beatBytes;
    assert (k + 1) * b == k * b + b;
  }

  lemma CellMonotone(t: Transfer, j: nat, k: nat)
    requires t.Legal()
    ensures j <= k ==> t.Cell(j) <= t.Cell(k)
    ensures t.Cell(0) == t.Aligned()
  {
    if j <= k {
      Scaled(j, k, t.beatBytes);
    }
  }

  /** The bus lanes of beat k: its range starts and stops in them without a seam. */
  lemma BeatLanes(t: Transfer, k: nat)
    requires t.Legal() && k < t.Cycles()
    ensures t.Cell(k) <= t.From(k) <= t.To(k) <= t.Cell(k) + t.beatBytes
    ensures t.From(k) % t.busBytes + (t.To(k) - t.From(k)) <= t.busBytes
    ensures t.Cell(k) % t.busBytes + t.beatBytes <= t.busBytes
    ensures t.Cell(k) % t.busBytes + (t.From(k) - t.Cell(k)) == t.From(k) % t.busBytes
    ensures (t.To(k) - 1) % t.busBytes + 1 == t.From(k) % t.busBytes + (t.To(k) - t.From(k))
    ensures RoundDown(t.From(k), t.busBytes) == RoundDown(t.Cell(k), t.busBytes)
  {
    hide Transfer.Cycles, Transfer.Cell, Transfer.From, Transfer.To, BusWidth;
    var lanes, cells := Divisors(t);
    BeatRange(t, k);
    CellsAligned(t, k);
    var c := t.Cell(k);
    FromInCell(t, k);
    CellInBlock(c, t.beatBytes, lanes, t.busBytes, t.From(k));
    if t.From(k) < t.To(k) {
      CellInBlock(c, t.beatBytes, lanes, t.busBytes, t.To(k) - 1);
    } else {
      EmptyBeat(t, k);
      CellInBlock(c, t.beatBytes, lanes, t.busBytes, t.addr - 1);
    }
  }

  lemma FromInCell(t: Transfer, k: nat)
    requires t.Legal() && k < t.Cycles()
    ensures t.Cell(k) <= t.From(k) < t.Cell(k) + t.beatBytes
  {
    CellsAligned(t, k);
    CellMonotone(t, 0, k);
  }

  /** Only an unaligned transfer of no bytes at all has an empty beat, its single one. */
  lemma EmptyBeat(t: Transfer, k: nat)
    requires t.Legal() && k < t.Cycles() && t.From(k) == t.To(k)
    ensures t.length == 0 && k == 0 && t.addr > t.Cell(0)
  {
    BeatRange(t, k);
    Covered(t);
    CellMonotone(t, 0, 0);
    CellsAligned(t, 0);
    InBlock(t.beatBytes - 1, t.beatBytes, 0, t.beatBytes - 1);
  }

  // Bus lanes, as a master tracks them from beat to beat

  /** The lane at which the cell of beat k starts. */
  function CellLane(t: Transfer, k: nat): nat
    requires t.Legal()
  {
    t.Cell(k) % t.busBytes
  }

  function StartOffset(addr: nat, busBytes: nat): nat
    requires busBytes > 0
  {
    addr % busBytes
  }

  function Onward(lane: nat, beatBytes: nat, busBytes: nat): nat
    requires busBytes > 0
  {
    (lane + beatBytes) % busBytes
  }

  /** The first cell starts as far into its word as the aligned address lies beyond the word's. */
  lemma FirstLane(t: Transfer)
    requires t.Legal()
    ensures t.Aligned() == t.Cell(0)
    ensures t.Aligned() - RoundDown(t.addr, t.busBytes) == CellLane(t, 0)
  {
    var lanes, cells := Divisors(t);
    CellsAligned(t, 0);
    CellMonotone(t, 0, 0);
    CellInBlock(t.Cell(0), t.beatBytes, lanes, t.busBytes, t.addr);
  }

  lemma NextLane(t: Transfer, k: nat)
    requires t.Legal()
    ensures t.Cell(k + 1) == t.Cell(k) + t.beatBytes
    ensures CellLane(t, k + 1) == Onward(CellLane(t, k), t.beatBytes, t.busBytes)
  {
    CellStep(t, k);
    var c, b := t.Cell(k), t.busBytes;
    AddMultiple(c % b + t.beatBytes, b, c / b);
  }

  // Bursts

  /** The beats of the next burst, when so many remain and the next cell is at cur. */
  function BurstBeats(remaining: nat, maxBurst: int, beatBytes: nat, cur: nat): int
    requires beatBytes > 0
  {
    var n := Min(remaining, Min(Max(maxBurst, 1), MaxBurst));
    (Min(n * beatBytes, PageBytes - cur % PageBytes) + beatBytes - 1) / beatBytes
  }

  /** The length of the burst that starts with beat k. */
  function BurstLength(t: Transfer, maxBurst: int, k: nat): int
    requires t.Legal() && k < t.Cycles()
  {
    BurstBeats(t.Cycles() - k, maxBurst, t.beatBytes, t.Cell(k))
  }

  /** A burst has 1 to 256 beats, no more than remain, and does not leave its page. */
  lemma BurstFits(t: Transfer, maxBurst: int, k: nat)
    requires t.Legal() && k < t.Cycles()
    ensures 1 <= BurstLength(t, maxBurst, k) <= Min(t.Cycles() - k, MaxBurst)
    ensures BurstLength(t, maxBurst, k) <= Max(maxBurst, 1)
    ensures t.Cell(k) % PageBytes + BurstLength(t, maxBurst, k) * t.beatBytes <= PageBytes
  {
    hide Transfer.Cycles, Transfer.Cell;
    var lanes, cells := Divisors(t);
    CellsAligned(t, k);
    CellInBlock(t.Cell(k), t.beatBytes, cells, PageBytes, t.Cell(k));
    var offset := t.Cell(k) % PageBytes;
    var r: nat :| offset == r * t.beatBytes;
    BeatsInPage(t.Cycles() - k, maxBurst, t.beatBytes, t.Cell(k), r, cells);
  }

  lemma BeatsInPage(remaining: nat, maxBurst: int, b: nat, cur: nat, r: nat, cells: nat)
    requires remaining > 0 && b > 0 && PageBytes == b * cells && cur % PageBytes == r * b
    ensures 1 <= BurstBeats(remaining, maxBurst, b, cur) <= Min(remaining, Min(Max(maxBurst, 1), MaxBurst))
    ensures cur % PageBytes + BurstBeats(remaining, maxBurst, b, cur) * b <= PageBytes
  {
    var room := RoomInPage(cur % PageBytes, r, cells, b);
    WholeBeats(Min(remaining, Min(Max(maxBurst, 1), MaxBurst)), room, b);
  }

  lemma RoomInPage(offset: nat, r: nat, cells: nat, b: nat) returns (room: nat)
    requires b > 0 && PageBytes == b * cells && offset == r * b < PageBytes
    ensures room > 0 && room * b == PageBytes - offset
  {
    var d: int := cells - r;
    assert d * b == b * cells - r * b;
    MultipleOutside(d, b);
    room := d;
  }

  lemma WholeBeats(n: nat, room: nat, b: nat)
    requires b > 0
    ensures (Min(n * b, room * b) + b - 1) / b == Min(n, room)
    ensures Min(n, room) * b <= room * b
  {
    var l := Min(n, room);
    if n <= room {
      Scaled(n, room, b);
    } else {
      Scaled(room, n, b);
    }
    InBlock(l * b + (b - 1), b, l, b - 1);
  }

  // Beat sizes

  /** The size a command asks for, the bus width when it asks for none. */
  function SizeOf(size: Option<nat>, busBytes: nat): nat {
    if size.Some? then size.value else Log2(busBytes)
  }

  /** The master's check of the beat size. */
  predicate SizeAllowed(size: Option<nat>, busBytes: nat) {
    size.Some? ==> PowerOfTwo(size.value) <= busBytes
  }

  function Log2(n: nat): nat {
    if n < 2 then 0 else 1 + Log2(n / 2)
  }

  /** What passes the check is a beat no wider than the bus. */
  lemma SizeLegal(size: Option<nat>, busBytes: nat)
    requires BusWidth(busBytes) && SizeAllowed(size, busBytes)
    ensures BusWidth(PowerOfTwo(SizeOf(size, busBytes))) && PowerOfTwo(SizeOf(size, busBytes)) <= busBytes
  {
    var n := SizeOf(size, busBytes);
    assert PowerOfTwo(4) == 16 && PowerOfTwo(7) == 128 && PowerOfTwo(8) == 256;
    if n > 8 {
      PowersGrow(8, n);
    }
  }

  lemma {:induction false} PowersGrow(d: nat, e: nat)
    requires d <= e
    ensures PowerOfTwo(d) <= PowerOfTwo(e)
    decreases e - d
  {
    if d < e {
      PowersGrow(d, e - 1);
    }
  }
}
