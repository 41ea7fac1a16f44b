/** The driver of parallel (BPI) flash, whose blocks come in one or two regions. */
module FlashBpi {
  import opened FlashMemory
  import opened Masks
  import opened Modular

  datatype Region = Region(start: nat, end: nat, blockSize: nat) {
    predicate Valid() {
      && blockSize >= 2 && blockSize % 2 == 0 && Power(blockSize)
      && start < end && start % blockSize == 0 && end % blockSize == 0
    }
  }

  /**
   * One or two regions that follow one another from address 0, each of whole blocks on their
   * boundaries. Block sizes are powers of two: with no other does the driver's mask test
   * alignment (Masks.MaskIsRemainderWhen).
   */
  predicate Geometry(regions: seq<Region>, size: nat) {
    && 1 <= |regions| <= 2
    && (forall r <- regions :: r.Valid())
    && regions[0].start == 0
    && (|regions| == 2 ==> regions[1].start == regions[0].end)
    && regions[|regions| - 1].end == size
  }

  /** The block size at an address, 0 outside all regions. */
  function BlockSizeAt(regions: seq<Region>, addr: nat): nat {
    if regions == [] then 0
    else if regions[0].start <= addr < regions[0].end then regions[0].blockSize
    else BlockSizeAt(regions[1..], addr)
  }

  /** The start of the block that holds an address. */
  function BlockBase(regions: seq<Region>, addr: nat): nat
    requires BlockSizeAt(regions, addr) > 0
  {
    RoundDown(addr, BlockSizeAt(regions, addr))
  }

  /** A block may start here, or the device ends. */
  predicate Boundary(regions: seq<Region>, size: nat, addr: nat) {
    addr == size || (BlockSizeAt(regions, addr) > 0 && BlockBase(regions, addr) == addr)
  }

  class BpiDevice {
    const mem: array<Cell>
    const regions: seq<Region>
    const bufferSize: nat
    const reliable: bool   // no operation fails
    const faithful: bool   // an operation that reports success has done what it was asked

    predicate Valid() {
      && Geometry(regions, mem.Length) && mem.Length % 2 == 0
      && bufferSize >= 2 && bufferSize % 2 == 0 && Power(bufferSize) && mem.Length % bufferSize == 0
      && (reliable ==> faithful)
    }

    /** Erases the block that holds a word; a failure, reported or not, leaves the block in an unknown state. */
    method SectorErase(word: nat) returns (failed: bool)
      requires Valid() && 2 * word < mem.Length
      modifies mem
      ensures BlockSizeAt(regions, 2 * word) > 0
      ensures var size, base := BlockSizeAt(regions, 2 * word), BlockBase(regions, 2 * word);
        && base + size <= mem.Length
        && SameOutside(old(mem[..]), mem[..], base, size)
        && (!failed && faithful ==> mem[..] == Erased(old(mem[..]), base, size))
      ensures reliable ==> !failed
    {
      BlockInside(regions, mem.Length, 2 * word);
      var size, base := BlockSizeAt(regions, 2 * word), BlockBase(regions, 2 * word);
      assert reliable ==> faithful;
      var left := Left(base, size);
      hide *;
      var worn, silent: bool := *, *;
      failed := !reliable && worn;
      EraseSteps(mem[..], base, size);
      var good := faithful || !silent;
      forall p | base <= p < base + size {
        mem[p] := if !failed && good then Blank else left[p - base];
      }
      assert mem[..base] == old(mem[..base]) && mem[base + size..] == old(mem[base + size..]);
      SameParts(old(mem[..]), mem[..], base, size);
    }

    /** Whatever a failed operation may leave in a range. */
    method Left(addr: nat, len: nat) returns (left: seq<Cell>)
      ensures |left| == len
    {
      left := [];
      while |left| < len
        invariant |left| <= len
      {
        var x: Cell := *;
        left := left + [x];
      }
    }

    /** Programs words within one write buffer. */
    method BufferedProgram(word: nat, words: nat, data: seq<Cell>) returns (failed: bool)
      requires Valid() && 0 < words && 2 * words <= |data| && 2 * word + 2 * words <= mem.Length
      requires 2 * word % bufferSize + 2 * words <= bufferSize
      modifies mem
      ensures SameOutside(old(mem[..]), mem[..], 2 * word, 2 * words)
      ensures !failed && faithful ==> mem[..] == Programmed(old(mem[..]), 2 * word, data[..2 * words])
      ensures reliable ==> !failed
    {
      var worn, silent: bool := *, *;
      failed := !reliable && worn;
      assert reliable ==> faithful;
      var addr, len := 2 * word, 2 * words;
      var next := Programmed(mem[..], addr, data[..len]);
      ProgrammedOutside(mem[..], addr, data[..len]);
      if failed || (silent && !faithful) {
        var left := Left(addr, len);
        next := next[..addr] + left + next[addr + len..];
      }
      assert SameOutside(mem[..], next, addr, len);
      hide Programmed, SameOutside;
      forall p | 0 <= p < mem.Length {
        mem[p] := next[p];
      }
      assert mem[..] == next;
    }
  }

  lemma SameParts(m: seq<Cell>, n: seq<Cell>, addr: nat, len: nat)
    requires addr + len <= |m| == |n| && n[..addr] == m[..addr] && n[addr + len..] == m[addr + len..]
    ensures SameOutside(m, n, addr, len)
  {
  }

  lemma EraseSteps(mem: seq<Cell>, base: nat, size: nat)
    requires base + size <= |mem|
    ensures forall p | 0 <= p < |mem| :: Erased(mem, base, size)[p] == if base <= p < base + size then Blank else mem[p]
  {
  }

  lemma RegionAt(regions: seq<Region>, size: nat, addr: nat) returns (r: Region)
    requires Geometry(regions, size) && addr < size
    ensures r.Valid() && r.start <= addr < r.end <= size
    ensures forall x | r.start <= x < r.end :: BlockSizeAt(regions, x) == r.blockSize
    ensures Boundary(regions, size, r.end)
  {
    r := if addr < regions[0].end then regions[0] else regions[1];
    assert r in regions;
    if |regions| == 2 {
      SecondRegion(regions, size);
    }
  }

  function SizeInTwo(first: Region, second: Region, addr: nat): nat {
    if addr < first.end then first.blockSize else if addr < second.end then second.blockSize else 0
  }

  lemma SecondRegion(regions: seq<Region>, size: nat)
    requires Geometry(regions, size) && |regions| == 2
    ensures forall x: nat :: BlockSizeAt(regions, x) == SizeInTwo(regions[0], regions[1], x)
    ensures regions[1].Valid() && Boundary(regions, size, regions[0].end)
  {
    assert regions[1] in regions && regions[1..] == [regions[1]];
    forall x: nat
      ensures BlockSizeAt(regions, x) == SizeInTwo(regions[0], regions[1], x)
    {
      assert BlockSizeAt([regions[1]], x) == if regions[1].start <= x < regions[1].end then regions[1].blockSize else 0;
    }
  }

  /** The block at an address lies in its region. */
  lemma BlockInside(regions: seq<Region>, size: nat, addr: nat)
    requires Geometry(regions, size) && addr < size
    ensures BlockSizeAt(regions, addr) >= 2 && BlockSizeAt(regions, addr) % 2 == 0
    ensures var b, base := BlockSizeAt(regions, addr), BlockBase(regions, addr);
      && base <= addr < base + b <= size && Boundary(regions, size, base + b)
      && forall x | base <= x < base + b :: BlockSizeAt(regions, x) == b && BlockBase(regions, x) == base
  {
    var r := RegionAt(regions, size, addr);
    var b := r.blockSize;
    assert b >= 2 && b % 2 == 0 && r.start % b == 0 && r.end % b == 0;
    assert BlockSizeAt(regions, addr) == b;
    hide Geometry, BlockSizeAt, Region.Valid, RoundDown;
    WholeBlock(addr, r.start, r.end, b);
    var base := RoundDown(addr, b);
    forall x | base <= x < base + b
      ensures BlockSizeAt(regions, x) == b && BlockBase(regions, x) == base
    {
      SameBlock(addr, x, b);
    }
    NextBoundary(regions, size, r, base + b);
  }

  lemma NextBoundary(regions: seq<Region>, size: nat, r: Region, next: nat)
    requires Boundary(regions, size, r.end) && r.blockSize > 0 && r.start <= next <= r.end && next % r.blockSize == 0
    requires forall x | r.start <= x < r.end :: BlockSizeAt(regions, x) == r.blockSize
    ensures Boundary(regions, size, next)
  {
    hide BlockSizeAt;
    if next < r.end {
      assert BlockSizeAt(regions, next) == r.blockSize;
      RoundDownMultiple(next, r.blockSize);
    }
  }

  lemma SameBlock(addr: nat, x: nat, b: nat)
    requires b > 0 && RoundDown(addr, b) <= x < RoundDown(addr, b) + b
    ensures RoundDown(x, b) == RoundDown(addr, b)
  {
    RoundDownMultiple(addr, b);
    QuotientUnique(x, b, addr / b, x - RoundDown(addr, b));
  }

  lemma Multiples(s: int, q: int, e: int, b: nat, x: int)
    requires b > 0 && s * b <= x < e * b && q * b <= x < q * b + b
    ensures s * b <= q * b && q * b + b <= e * b
  {
    var down, up := s - q, e - q;
    assert down * b == s * b - q * b && up * b == e * b - q * b;
    MultipleOutside(down, b);
    MultipleOutside(up, b);
    if up > 0 {
      assert up * b >= b;
    }
  }

  /** A block that starts at a multiple of its size within a range of whole blocks ends within it. */
  lemma WholeBlock(addr: nat, start: nat, end: nat, b: nat)
    requires b > 0 && start % b == 0 && end % b == 0 && start <= addr < end
    ensures start <= RoundDown(addr, b) <= addr < RoundDown(addr, b) + b <= end
    ensures (RoundDown(addr, b) + b) % b == 0
  {
    RoundDownMultiple(addr, b);
    hide RoundDown;
    Multiples(start / b, addr / b, end / b, b, addr);
    AddOne(RoundDown(addr, b), b);
  }

  /** Strictly inside a block there is no boundary. */
  lemma NoBoundary(regions: seq<Region>, size: nat, addr: nat, left: nat)
    requires Geometry(regions, size) && Boundary(regions, size, addr) && addr < size
    requires 0 < left < BlockSizeAt(regions, addr) && addr + left <= size
    ensures !Boundary(regions, size, addr + left)
  {
    BlockInside(regions, size, addr);
    hide Geometry, BlockSizeAt, RoundDown;
    assert BlockBase(regions, addr + left) == addr;
  }

  /** A 16-bit word of the device, as its bytes in memory order. */
  datatype Word = Word(low: Cell, high: Cell)

  class BpiFlash {
    const dev: BpiDevice

    predicate Valid() {
      dev.Valid()
    }

    predicate AtBoundary(addr: nat) {
      Boundary(dev.regions, dev.mem.Length, addr)
    }

    constructor (dev: BpiDevice)
      requires dev.Valid()
      ensures Valid() && this.dev == dev
    {
      this.dev := dev;
    }

    /** The search for the region of an address. */
    method FindBlockSize(addr: nat) returns (size: nat)
      ensures size == BlockSizeAt(dev.regions, addr)
    {
      var k := 0;
      while k < |dev.regions|
        invariant 0 <= k <= |dev.regions|
        invariant BlockSizeAt(dev.regions[k..], addr) == BlockSizeAt(dev.regions, addr)
      {
        assert dev.regions[k..][1..] == dev.regions[k + 1..];
        if dev.regions[k].start <= addr < dev.regions[k].end {
          return dev.regions[k].blockSize;
        }
        k := k + 1;
      }
      size := 0;
    }

    /**
     * bpi_flash_erase: nothing outside the range is touched, and on a faithful device success
     * means that all of it was erased. A reliable device erases it exactly when the range
     * starts and ends on block boundaries; otherwise only the whole blocks before the refusal
     * are erased.
     */
    method Erase(addr: nat, len: nat) returns (ok: bool, ghost done: nat)
      requires Valid() && addr + len <= dev.mem.Length
      modifies dev.mem
      ensures SameOutside(old(dev.mem[..]), dev.mem[..], addr, len)
      ensures ok && dev.faithful ==> dev.mem[..] == Erased(old(dev.mem[..]), addr, len)
      ensures ok ==> len == 0 || (AtBoundary(addr) && AtBoundary(addr + len))
      ensures dev.reliable ==> (ok <==> len == 0 || (AtBoundary(addr) && AtBoundary(addr + len)))
      ensures dev.reliable ==> done <= len && dev.mem[..] == Erased(old(dev.mem[..]), addr, done)
      ensures dev.reliable && !ok ==> done < len && (done > 0 ==> AtBoundary(addr) && AtBoundary(addr + done))
    {
      hide *;
      DeviceSound();
      ghost var before := dev.mem[..];
      NothingErased(before, addr, len, dev.faithful);
      var a, left := addr, len;
      while left > 0
        invariant a + left == addr + len && addr <= a && left >= 0
        invariant a == addr || (AtBoundary(addr) && AtBoundary(a))
        invariant ErasedTo(before, dev.mem[..], addr, len, a, dev.faithful)
        decreases left
      {
        done := a - addr;
        var size := FindBlockSize(a);
        InRegion(a);
        if size == 0 {
          return false, done;
        }
        if Masked(a, size) != 0 || left < size {
          Refused(a, left, size);
          ErasedSoFar(before, dev.mem[..], addr, len, a, dev.faithful);
          return false, done;
        }
        ghost var m := dev.mem[..];
        var failed := EraseAt(a, size);
        ErasedOn(before, m, dev.mem[..], addr, len, a, size, dev.faithful, !failed);
        if failed {
          return false, done;
        }
        if left <= size {
          a, left := a + size, left - size;
          break;
        }
        a := a + size;
        left := left - size;
      }
      ErasedSoFar(before, dev.mem[..], addr, len, a, dev.faithful);
      ok, done := true, len;
    }

    lemma InRegion(addr: nat)
      requires Valid() && addr < dev.mem.Length
      ensures BlockSizeAt(dev.regions, addr) >= 2
    {
      BlockInside(dev.regions, dev.mem.Length, addr);
    }

    lemma Refused(addr: nat, left: nat, size: nat)
      requires Valid() && left > 0 && addr + left <= dev.mem.Length && size == BlockSizeAt(dev.regions, addr) > 0
      requires Masked(addr, size) != 0 || left < size
      ensures !(AtBoundary(addr) && AtBoundary(addr + left))
    {
      BlockMask(dev.regions, dev.mem.Length, addr);
      hide Geometry, BlockSizeAt;
      if AtBoundary(addr) {
        NoBoundary(dev.regions, dev.mem.Length, addr, left);
      }
    }

    /** bpi_flash_write: one buffered program for each write buffer that the range touches. */
    method Write(addr: nat, src: seq<Cell>) returns (ok: bool)
      requires Valid() && addr + |src| <= dev.mem.Length && Even(addr) && Even(|src|)
      modifies dev.mem
      ensures SameOutside(old(dev.mem[..]), dev.mem[..], addr, |src|)
      ensures ok && dev.faithful ==> dev.mem[..] == Programmed(old(dev.mem[..]), addr, src)
      ensures dev.reliable ==> ok
    {
      hide *;
      DeviceSound();
      ghost var before := dev.mem[..];
      NothingProgrammed(before, addr, src, dev.faithful);
      ok := true;
      var s := 0;
      while s < |src|
        invariant 0 <= s <= |src| && Even(addr + s) && Even(|src| - s) && ok
        invariant ProgrammedTo(before, dev.mem[..], addr, src, s, dev.faithful)
      {
        var seg := SegmentLength(addr + s, |src| - s, dev.bufferSize);
        SegmentFits(addr + s, |src| - s, dev.bufferSize);
        ok := WriteSegment(addr, src, s, seg, before);
        if !ok {
          return;
        }
        s := s + seg;
      }
      ProgrammedSoFar(before, dev.mem[..], addr, src, s, dev.faithful);
      assert src[..s] == src;
    }

    /** One buffered program. */
    method WriteSegment(addr: nat, src: seq<Cell>, s: nat, seg: nat, ghost before: seq<Cell>) returns (ok: bool)
      requires Valid() && s + seg <= |src| && addr + |src| <= dev.mem.Length
      requires 0 < seg == 2 * (seg / 2) && addr + s == 2 * ((addr + s) / 2)
      requires (addr + s) % dev.bufferSize + seg <= dev.bufferSize
      requires ProgrammedTo(before, dev.mem[..], addr, src, s, dev.faithful)
      modifies dev.mem
      ensures SameOutside(before, dev.mem[..], addr, |src|)
      ensures ok ==> ProgrammedTo(before, dev.mem[..], addr, src, s + seg, dev.faithful)
      ensures dev.reliable ==> ok
    {
      hide *;
      DeviceSound();
      ghost var m := dev.mem[..];
      var data := src[s..];
      assert data[..seg] == src[s..s + seg];
      var word, words := (addr + s) / 2, seg / 2;
      assert 2 * word == addr + s && 2 * words == seg;
      var failed := dev.BufferedProgram(word, words, data);
      ok := !failed;
      ProgrammedOn(before, m, dev.mem[..], addr, src, s, seg, dev.faithful, ok);
    }

    lemma DeviceSound()
      requires Valid()
      ensures dev.Valid() && dev.bufferSize > 0 && Even(dev.bufferSize) && Power(dev.bufferSize)
      ensures dev.reliable ==> dev.faithful
    {
    }

    /**
     * bpi_flash_read: words, of which an odd start takes the upper byte and an odd end the
     * lower. An empty read at an odd address would make the remaining length wrap; no
     * caller asks for one.
     */
    method Read(addr: nat, len: nat) returns (dest: seq<Cell>)
      requires Valid() && addr + len <= dev.mem.Length && (len > 0 || addr % 2 == 0)
      ensures dest == dev.mem[addr..addr + len]
    {
      hide *;
      dest := [];
      ghost var m := dev.mem[..];
      var a, left := addr, len;
      if a % 2 == 1 {
        var word := ReadWord(a);
        GrowOne(m, addr, a);
        dest := dest + [word.high];
        assert m[addr..addr] == [] && [] + [word.high] == dest;
        a, left := a + 1, left - 1;
      }
      while left > 1
        invariant 0 <= left && a + left == addr + len && addr <= a && a % 2 == 0
        invariant m == dev.mem[..] && dest == m[addr..a]
      {
        var word := ReadWord(a);
        GrowTwo(m, addr, a);
        dest := dest + [word.low, word.high];
        a, left := a + 2, left - 2;
      }
      if left > 0 {
        var word := ReadWord(a);
        GrowOne(m, addr, a);
        dest := dest + [word.low];
      }
    }

    /** The word that holds an address. */
    method ReadWord(addr: nat) returns (w: Word)
      requires Valid() && addr < dev.mem.Length
      ensures addr % 2 == 0 ==> addr + 1 < dev.mem.Length && w == Word(dev.mem[addr], dev.mem[addr + 1])
      ensures addr % 2 == 1 ==> w.high == dev.mem[addr]
    {
      var word := addr / 2;
      w := Word(dev.mem[2 * word], dev.mem[2 * word + 1]);
    }

    /** One block at its boundary. */
    method EraseAt(addr: nat, size: nat) returns (failed: bool)
      requires Valid() && addr < dev.mem.Length && size == BlockSizeAt(dev.regions, addr) > 0
      requires Masked(addr, size) == 0
      modifies dev.mem
      ensures addr + size <= dev.mem.Length && AtBoundary(addr) && AtBoundary(addr + size)
      ensures SameOutside(old(dev.mem[..]), dev.mem[..], addr, size)
      ensures !failed && dev.faithful ==> dev.mem[..] == Erased(old(dev.mem[..]), addr, size)
      ensures dev.reliable ==> !failed
    {
      BlockInside(dev.regions, dev.mem.Length, addr);
      BlockMask(dev.regions, dev.mem.Length, addr);
      EvenMultiple(addr, size);
      hide Geometry, BlockSizeAt, Erased, SameOutside;
      failed := dev.SectorErase(addr / 2);
    }
  }

  /** The mask tests whether an address is at the start of its block. */
  lemma BlockMask(regions: seq<Region>, size: nat, addr: nat)
    requires Geometry(regions, size) && addr < size
    ensures BlockSizeAt(regions, addr) > 0
    ensures Masked(addr, BlockSizeAt(regions, addr)) == addr % BlockSizeAt(regions, addr)
  {
    var r := RegionAt(regions, size, addr);
    MaskIsRemainder(addr, r.blockSize);
    assert BlockSizeAt(regions, addr) == r.blockSize;
  }

  lemma EvenMultiple(x: nat, b: nat)
    requires b > 0 && b % 2 == 0 && x % b == 0
    ensures 2 * (x / 2) == x && x % 2 == 0
  {
    var q, c := x / b, b / 2;
    assert x == q * b == q * (2 * c) == 2 * (q * c);
  }

  lemma GrowOne(m: seq<Cell>, from: nat, a: nat)
    requires from <= a < |m|
    ensures m[from..a] + [m[a]] == m[from..a + 1]
  {
  }

  lemma GrowTwo(m: seq<Cell>, from: nat, a: nat)
    requires from <= a && a + 1 < |m|
    ensures m[from..a] + [m[a], m[a + 1]] == m[from..a + 2]
  {
  }

  predicate Even(x: int) { x % 2 == 0 }

  /** The part of a write that stays within one write buffer. */
  function SegmentLength(addr: nat, left: nat, bufferSize: nat): (seg: int)
    requires bufferSize > 0
  {
    var room := bufferSize - Masked(addr, bufferSize);
    if left > room then room else left
  }

  lemma SegmentFits(addr: nat, left: nat, bufferSize: nat)
    requires bufferSize > 0 && Even(bufferSize) && Power(bufferSize) && Even(addr) && Even(left) && left > 0
    ensures var seg := SegmentLength(addr, left, bufferSize);
      && 0 < seg <= left && Even(seg) && seg == 2 * (seg / 2) && addr == 2 * (addr / 2)
      && addr % bufferSize + seg <= bufferSize && (seg == left || addr % bufferSize + seg == bufferSize)
      && Even(addr + seg) && Even(left - seg)
  {
    MaskIsRemainder(addr, bufferSize);
    EvenRest(addr, bufferSize);
    SegmentHalves(addr, SegmentLength(addr, left, bufferSize));
    hide Even;
    SegmentEven(addr % bufferSize, left, bufferSize);
  }

  lemma SegmentHalves(addr: nat, seg: int)
    requires Even(addr)
    ensures addr == 2 * (addr / 2) && (Even(seg) ==> seg == 2 * (seg / 2) && Even(addr + seg))
  {
  }

  lemma SegmentEven(r: nat, left: nat, b: nat)
    requires r < b && Even(r) && Even(b) && Even(left) && left > 0
    ensures var seg := if left > b - r then b - r else left;
      0 < seg && Even(seg) && r + seg <= b && Even(left - seg)
  {
  }

  lemma EvenRest(x: nat, b: nat)
    requires b > 0 && Even(b) && Even(x)
    ensures Even(x % b)
  {
    var q, c := x / b, b / 2;
    assert x == q * b + x % b;
    assert q * b == q * (2 * c) == 2 * (q * c);
  }

  // The largest block

  function LargestBlock(regions: seq<Region>): nat {
    if regions == [] then 0
    else
      var others := LargestBlock(regions[1..]);
      if regions[0].blockSize > others then regions[0].blockSize else others
  }

  lemma LargestIsPower(regions: seq<Region>, size: nat)
    requires Geometry(regions, size)
    ensures Power(LargestBlock(regions)) && LargestBlock(regions) % 2 == 0
    ensures forall r <- regions :: r.blockSize <= LargestBlock(regions)
  {
    assert regions[0] in regions;
    if |regions| == 2 {
      assert regions[1] in regions && regions[1..] == [regions[1]];
      assert LargestBlock([regions[1]]) == regions[1].blockSize;
    } else {
      assert regions[1..] == [];
    }
  }

  /** Of two powers of two the smaller divides the larger. */
  lemma PowerDivides(small: nat, large: nat)
    requires Power(small) && Power(large) && small <= large
    ensures large % small == 0
  {
    var d := Exponent(small);
    var e := Exponent(large);
    if d <= e {
      PowersMultiply(d, e - d);
      AddMultiple(0, small, PowerOfTwo(e - d));
    } else {
      PowersMultiply(e, d - e);
      MultipleOfLarge(PowerOfTwo(d - e), large, small);
    }
  }

  lemma MultipleOfLarge(f: nat, large: nat, small: nat)
    requires f > 0 && large > 0 && small == large * f && small <= large
    ensures small == large && large % small == 0
  {
    MultipleOutside(f - 1, large);
    assert large * f == large + (f - 1) * large;
  }

  /** A multiple of the largest block is a block boundary in every region. */
  lemma LargestBoundary(regions: seq<Region>, size: nat, addr: nat)
    requires Geometry(regions, size) && addr <= size
    requires LargestBlock(regions) > 0 && addr % LargestBlock(regions) == 0
    ensures Boundary(regions, size, addr)
  {
    if addr < size {
      var r := RegionAt(regions, size, addr);
      LargestIsPower(regions, size);
      SizeInRegions(regions, size, addr);
      var q :| q in regions && q.blockSize == r.blockSize;
      PowerDivides(q.blockSize, LargestBlock(regions));
      Divides(addr, LargestBlock(regions), q.blockSize);
      assert BlockSizeAt(regions, addr) == r.blockSize;
    }
  }

  lemma SizeInRegions(regions: seq<Region>, size: nat, addr: nat)
    requires Geometry(regions, size) && addr < size
    ensures exists q <- regions :: q.blockSize == BlockSizeAt(regions, addr)
  {
    assert regions[0] in regions;
    if |regions| == 2 {
      assert regions[1] in regions;
      SecondRegion(regions, size);
    }
  }

  lemma Divides(x: nat, large: nat, small: nat)
    requires large > 0 && small > 0 && x % large == 0 && large % small == 0
    ensures x % small == 0
  {
    var q, c := x / large, large / small;
    assert x == q * large && large == c * small;
    assert q * (c * small) == small * (q * c);
    AddMultiple(0, small, q * c);
  }
}
