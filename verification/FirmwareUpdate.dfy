/**
 * Programming a segment of the flash with a firmware image: erase, write and verify, in
 * chunks, through whichever driver the device has.
 */
module FirmwareUpdate {
  import opened Numbers
  import opened FlashMemory
  import opened Masks
  import opened Modular
  import S = FlashSpi
  import B = FlashBpi

  const Step := 0x10000

  lemma WholeSubsectors(addr: nat, len: nat)
    requires addr % S.SubsectorSize == 0 && (addr + len) % S.SubsectorSize == 0
    ensures len % S.SubsectorSize == 0
  {
  }

  /** A flash device with its driver, as flash_read, flash_write and flash_erase dispatch on it. */
  datatype Driver = Spi(spi: S.SpiFlash) | Bpi(bpi: B.BpiFlash) {

    function Mem(): array<Cell> {
      if Spi? then spi.dev.mem else bpi.dev.mem
    }

    predicate Valid() {
      if Spi? then spi.Valid() else bpi.Valid()
    }

    /** No operation of the device fails. */
    predicate Reliable() {
      Spi? || bpi.dev.reliable
    }

    /** Success means that what was asked was done. */
    predicate Faithful() {
      Spi? || bpi.dev.faithful
    }

    /** The largest erase block, as the drivers report it. */
    function EraseBlockSize(): nat {
      if Spi? then S.SubsectorSize else B.LargestBlock(bpi.dev.regions)
    }

    function WriteBufferSize(): nat {
      if Spi? then PageSize else bpi.dev.bufferSize
    }

    /** An address where an erase block of any size may start. */
    ghost predicate Aligned(addr: nat) {
      EraseBlockSize() > 0 && addr % EraseBlockSize() == 0
    }

    /** What a parallel flash, which has only words, can be written at. */
    predicate Writable(addr: nat, len: nat) {
      Bpi? ==> addr % 2 == 0 && len % 2 == 0
    }

    method Erase(addr: nat, len: nat) returns (ok: bool)
      requires Valid() && addr + len <= Mem().Length
      modifies Mem()
      ensures SameOutside(old(Mem()[..]), Mem()[..], addr, len)
      ensures ok && Faithful() ==> Mem()[..] == Erased(old(Mem()[..]), addr, len)
      ensures Reliable() && Aligned(addr) && Aligned(addr + len) ==> ok
    {
      ghost var good := Reliable() && Aligned(addr) && Aligned(addr + len);
      if good {
        Erasable(addr, len);
      }
      hide Erased, SameOutside, Aligned, B.BpiFlash.AtBoundary, S.Tiles;
      match this {
        case Spi(spi) =>
          ghost var blocks, m := [], Mem()[..];
          ok, blocks := spi.Erase(addr, len);
          ErasedPart(m, addr, len, if ok then len else S.WholeSubsectors(addr, len));
        case Bpi(bpi) =>
          ghost var done;
          ok, done := bpi.Erase(addr, len);
      }
    }

    /** What is aligned to the largest block satisfies the driver. */
    lemma Erasable(addr: nat, len: nat)
      requires Valid() && addr + len <= Mem().Length && Aligned(addr) && Aligned(addr + len)
      ensures Spi? ==> addr % S.SubsectorSize == 0 && len % S.SubsectorSize == 0
      ensures Bpi? ==> bpi.AtBoundary(addr) && bpi.AtBoundary(addr + len)
    {
      hide B.Geometry, B.LargestBlock, B.Boundary;
      if Bpi? {
        B.LargestBoundary(bpi.dev.regions, bpi.dev.mem.Length, addr);
        B.LargestBoundary(bpi.dev.regions, bpi.dev.mem.Length, addr + len);
      } else {
        WholeSubsectors(addr, len);
      }
    }

    method Write(addr: nat, src: seq<Cell>) returns (ok: bool)
      requires Valid() && addr + |src| <= Mem().Length && Writable(addr, |src|)
      modifies Mem()
      ensures SameOutside(old(Mem()[..]), Mem()[..], addr, |src|)
      ensures ok && Faithful() ==> Mem()[..] == Programmed(old(Mem()[..]), addr, src)
      ensures Reliable() ==> ok
    {
      match this {
        case Spi(spi) =>
          ProgrammedOutside(Mem()[..], addr, src);
          spi.Write(addr, src);
          ok := true;
        case Bpi(bpi) =>
          ok := bpi.Write(addr, src);
      }
    }

    method Read(addr: nat, len: nat) returns (dest: seq<Cell>)
      requires Valid() && addr + len <= Mem().Length && (Bpi? && len == 0 ==> addr % 2 == 0)
      ensures dest == Mem()[addr..addr + len]
    {
      match this {
        case Spi(spi) => dest := spi.Read(addr, len);
        case Bpi(bpi) => dest := bpi.Read(addr, len);
      }
    }
  }

  // Chunks

  /** The length of the next chunk: up to the next multiple of the step, or all that remains. */
  function Chunk(addr: nat, remain: nat, step: nat): int
    requires step > 0
  {
    if remain > step then
      if Masked(addr + step, step) != 0 then step - Masked(addr + step, step) else step
    else remain
  }

  lemma ChunkEnds(addr: nat, remain: nat, step: nat)
    requires Power(step) && remain > 0
    ensures 0 < Chunk(addr, remain, step) <= remain && Chunk(addr, remain, step) <= step
    ensures if remain <= step then Chunk(addr, remain, step) == remain
            else (addr + Chunk(addr, remain, step)) % step == 0
  {
    MaskIsRemainder(addr + step, step);
    NextMultiple(addr, step, Masked(addr + step, step));
    hide Power, Masked;
  }

  lemma NextMultiple(addr: nat, step: nat, past: nat)
    requires step > 0 && past == (addr + step) % step
    ensures past < step && (addr + (step - past)) % step == 0
  {
    RoundDownMultiple(addr, step);
    AddOne(addr - addr % step, step);
    AddOne(addr, step);
  }

  /** flash_erase_progress */
  method EraseProgress(f: Driver, addr: nat, len: nat) returns (ok: bool)
    requires f.Valid() && addr + len <= f.Mem().Length
    modifies f.Mem()
    ensures SameOutside(old(f.Mem()[..]), f.Mem()[..], addr, len)
    ensures ok && f.Faithful() ==> f.Mem()[..] == Erased(old(f.Mem()[..]), addr, len)
    ensures f.Reliable() && f.Aligned(addr) && f.Aligned(addr + len) ==> ok
  {
    hide *;
    StepsArePowers(f);
    var step := Max(f.EraseBlockSize(), Step);
    ghost var good := f.Reliable() && f.Aligned(addr) && f.Aligned(addr + len);
    ghost var before, sure := f.Mem()[..], f.Faithful();
    NothingErased(before, addr, len, sure);
    ok := true;
    var a, remain := addr, len;
    while remain > 0
      invariant remain >= 0 && a + remain == addr + len && addr <= a
      invariant good ==> f.Reliable() && f.Aligned(a) && f.Aligned(addr + len)
      invariant ErasedTo(before, f.Mem()[..], addr, len, a, sure)
    {
      ChunkEnds(a, remain, step);
      var seg := Chunk(a, remain, step);
      if good && seg != remain {
        StepAligned(f, a + seg, step);
      }
      ok := EraseChunk(f, a, seg, before, addr, len);
      if !ok {
        return;
      }
      a := a + seg;
      remain := remain - seg;
    }
    ErasedSoFar(before, f.Mem()[..], addr, len, a, sure);
  }

  method EraseChunk(f: Driver, a: nat, seg: nat, ghost before: seq<Cell>, ghost addr: nat, ghost len: nat)
    returns (ok: bool)
    requires f.Valid() && a + seg <= addr + len <= f.Mem().Length
    requires ErasedTo(before, f.Mem()[..], addr, len, a, f.Faithful())
    modifies f.Mem()
    ensures SameOutside(before, f.Mem()[..], addr, len)
    ensures ok ==> ErasedTo(before, f.Mem()[..], addr, len, a + seg, f.Faithful())
    ensures f.Reliable() && f.Aligned(a) && f.Aligned(a + seg) ==> ok
  {
    hide *;
    ghost var m := f.Mem()[..];
    ok := f.Erase(a, seg);
    ErasedOn(before, m, f.Mem()[..], addr, len, a, seg, f.Faithful(), ok);
  }

  /** Multiples of the step are aligned, for erase blocks of any size up to it. */
  lemma StepAligned(f: Driver, addr: nat, step: nat)
    requires f.Valid() && step == Max(f.EraseBlockSize(), Step) && addr % step == 0
    ensures f.Aligned(addr)
  {
    var size := f.EraseBlockSize();
    SizesArePowers(f);
    if size <= Step {
      B.PowerDivides(size, Step);
      B.Divides(addr, Step, size);
    }
  }

  lemma SizesArePowers(f: Driver)
    requires f.Valid()
    ensures Power(Step) && Power(f.EraseBlockSize()) && Power(f.WriteBufferSize())
    ensures f.Bpi? ==> f.EraseBlockSize() % 2 == 0 && f.WriteBufferSize() % 2 == 0
  {
    SixteenBits();
    PowerIs(16);
    PowerIs(12);
    PowerIs(8);
    assert PowerOfTwo(4) == 16 && PowerOfTwo(8) == 256;
    if f.Bpi? {
      B.LargestIsPower(f.bpi.dev.regions, f.bpi.dev.mem.Length);
    }
  }

  lemma StepsArePowers(f: Driver)
    requires f.Valid()
    ensures Power(Step) && Step > 0
    ensures Power(Max(f.EraseBlockSize(), Step)) && Max(f.EraseBlockSize(), Step) > 0
    ensures Power(Max(f.WriteBufferSize(), Step)) && Max(f.WriteBufferSize(), Step) > 0
    ensures f.Bpi? ==> Max(f.WriteBufferSize(), Step) % 2 == 0
  {
    SizesArePowers(f);
    hide Power;
  }

  lemma ErasedPart(m: seq<Cell>, addr: nat, len: nat, part: nat)
    requires addr + len <= |m| && part <= len
    ensures SameOutside(m, Erased(m, addr, part), addr, len)
  {
  }

  /** flash_write_progress */
  method WriteProgress(f: Driver, addr: nat, src: seq<Cell>) returns (ok: bool)
    requires f.Valid() && addr + |src| <= f.Mem().Length && f.Writable(addr, |src|)
    modifies f.Mem()
    ensures SameOutside(old(f.Mem()[..]), f.Mem()[..], addr, |src|)
    ensures ok && f.Faithful() ==> f.Mem()[..] == Programmed(old(f.Mem()[..]), addr, src)
    ensures f.Reliable() ==> ok
  {
    hide *;
    StepsArePowers(f);
    var step := Max(f.WriteBufferSize(), Step);
    ghost var before, sure := f.Mem()[..], f.Faithful();
    NothingProgrammed(before, addr, src, sure);
    ok := true;
    var s := 0;
    while s < |src|
      invariant 0 <= s <= |src| && ok && f.Writable(addr + s, |src| - s)
      invariant ProgrammedTo(before, f.Mem()[..], addr, src, s, sure)
    {
      var seg := Chunk(addr + s, |src| - s, step);
      ChunkWritable(f, addr + s, |src| - s, step);
      ok := WriteChunk(f, addr, src, s, seg, before);
      if !ok {
        return;
      }
      s := s + seg;
    }
    ProgrammedSoFar(before, f.Mem()[..], addr, src, s, sure);
    assert src[..s] == src;
  }

  method WriteChunk(f: Driver, addr: nat, src: seq<Cell>, s: nat, seg: nat, ghost before: seq<Cell>)
    returns (ok: bool)
    requires f.Valid() && s + seg <= |src| && addr + |src| <= f.Mem().Length && f.Writable(addr + s, seg)
    requires ProgrammedTo(before, f.Mem()[..], addr, src, s, f.Faithful())
    modifies f.Mem()
    ensures SameOutside(before, f.Mem()[..], addr, |src|)
    ensures ok ==> ProgrammedTo(before, f.Mem()[..], addr, src, s + seg, f.Faithful())
    ensures f.Reliable() ==> ok
  {
    hide *;
    ghost var m := f.Mem()[..];
    ok := f.Write(addr + s, src[s..s + seg]);
    ProgrammedOn(before, m, f.Mem()[..], addr, src, s, seg, f.Faithful(), ok);
  }

  lemma ChunkWritable(f: Driver, addr: nat, remain: nat, step: nat)
    requires f.Valid() && f.Writable(addr, remain) && step == Max(f.WriteBufferSize(), Step) && remain > 0
    ensures step > 0 && 0 < Chunk(addr, remain, step) <= remain
    ensures var seg := Chunk(addr, remain, step);
      f.Writable(addr, seg) && f.Writable(addr + seg, remain - seg)
  {
    hide Chunk, Max, Power, Driver.Valid, Driver.WriteBufferSize;
    StepsArePowers(f);
    ChunkEnds(addr, remain, step);
    var seg := Chunk(addr, remain, step);
    if f.Bpi? {
      if seg != remain {
        B.Divides(addr + seg, step, 2);
      }
      EvenParts(addr, seg, remain);
    }
  }

  lemma EvenParts(addr: nat, seg: nat, remain: nat)
    requires addr % 2 == 0 && remain % 2 == 0 && ((addr + seg) % 2 == 0 || seg == remain)
    ensures seg % 2 == 0 && (remain - seg) % 2 == 0 && (addr + seg) % 2 == 0
  {
  }

  lemma MemIs(f: Driver)
    ensures f.Mem() == if f.Spi? then f.spi.dev.mem else f.bpi.dev.mem
  {
  }

  /** flash_read_progress */
  method ReadProgress(f: Driver, addr: nat, len: nat) returns (dest: seq<Cell>)
    requires f.Valid() && addr + len <= f.Mem().Length
    ensures dest == f.Mem()[addr..addr + len]
  {
    hide *;
    MemIs(f);
    ghost var mem := if f.Spi? then f.spi.dev.mem else f.bpi.dev.mem;
    StepsArePowers(f);
    ghost var m := mem[..];
    dest := [];
    var a, remain := addr, len;
    while remain > 0
      invariant remain >= 0 && a + remain == addr + len && addr <= a
      invariant m == mem[..] && dest == m[addr..a]
    {
      ChunkEnds(a, remain, Step);
      var seg := Chunk(a, remain, Step);
      var part := f.Read(a, seg);
      assert part == m[a..a + seg] && m[addr..a] + m[a..a + seg] == m[addr..a + seg];
      dest := dest + part;
      a := a + seg;
      remain := remain - seg;
    }
  }

  // The whole sequence

  /** The length rounded up so that the range ends on an erase block. */
  function RoundedLength(offset: nat, len: nat, block: nat): nat
    requires block > 0
  {
    if Masked(offset + len, block) != 0 then len + (block - Masked(offset + len, block)) else len
  }

  lemma RoundedFits(offset: nat, len: nat, block: nat, size: nat)
    requires Power(block) && len <= size && offset % block == 0 && (offset + size) % block == 0
    ensures len <= RoundedLength(offset, len, block) <= size
    ensures (offset + RoundedLength(offset, len, block)) % block == 0
    ensures RoundedLength(offset, len, block) < len + block
  {
    var end := offset + len;
    MaskIsRemainder(end, block);
    if end % block != 0 {
      B.WholeBlock(end, offset, offset + size, block);
    }
  }

  /** The segment buffer: the image behind which all is blank. */
  function Segment(image: seq<Cell>, size: nat): (segment: seq<Cell>)
    requires |image| <= size
    ensures |segment| == size
  {
    image + seq(size - |image|, i => Blank)
  }

  /** The segment holds the image, blank up to the end of an erase block, and all else is as before. */
  predicate Holds(before: seq<Cell>, after: seq<Cell>, offset: nat, size: nat, image: seq<Cell>, block: nat) {
    && |image| <= size && block > 0
    && var len := RoundedLength(offset, |image|, block);
    && |image| <= len <= size && offset + len <= |before|
    && after == before[..offset] + Segment(image, size)[..len] + before[offset + len..]
  }

  /** Read as an address range: the image, then blank cells, then what was there before. */
  lemma HoldsAt(before: seq<Cell>, after: seq<Cell>, offset: nat, size: nat, image: seq<Cell>, block: nat, p: nat)
    requires Holds(before, after, offset, size, image, block) && p < |before|
    ensures |after| == |before|
    ensures var len := RoundedLength(offset, |image|, block);
      after[p] == if p < offset || offset + len <= p then before[p]
                  else if p < offset + |image| then image[p - offset] else Blank
  {
  }

  /**
   * What the verification is worth: whatever the device has made of the range, if nothing else
   * changed then reading back the segment's bytes is the same as the segment holding the image.
   */
  lemma ReadBack(before: seq<Cell>, after: seq<Cell>, offset: nat, size: nat, image: seq<Cell>, block: nat)
    requires Power(block) && |image| <= size && offset + size <= |before|
    requires offset % block == 0 && (offset + size) % block == 0
    requires SameOutside(before, after, offset, RoundedLength(offset, |image|, block))
    ensures |image| <= RoundedLength(offset, |image|, block) <= size
    ensures var len := RoundedLength(offset, |image|, block);
      after[offset..offset + len] == Segment(image, size)[..len]
      <==> Holds(before, after, offset, size, image, block)
  {
    RoundedFits(offset, |image|, block, size);
    hide Segment, RoundedLength, Power;
    var len := RoundedLength(offset, |image|, block);
    assert after == after[..offset] + after[offset..offset + len] + after[offset + len..];
    var holding := before[..offset] + Segment(image, size)[..len] + before[offset + len..];
    assert holding[offset..offset + len] == Segment(image, size)[..len];
  }

  lemma SegmentReady(f: Driver, offset: nat, size: nat, image: seq<Cell>)
    requires f.Valid() && offset + size <= f.Mem().Length && f.Aligned(offset) && f.Aligned(offset + size)
    requires |image| <= size
    ensures Power(f.EraseBlockSize()) && f.EraseBlockSize() > 0
    ensures offset % f.EraseBlockSize() == 0 && (offset + size) % f.EraseBlockSize() == 0
    ensures var len := RoundedLength(offset, |image|, f.EraseBlockSize());
      |image| <= len <= size && f.Aligned(offset + len) && f.Writable(offset, len)
    ensures f.Reliable() ==> f.Faithful()
  {
    SizesArePowers(f);
    RoundedFits(offset, |image|, f.EraseBlockSize(), size);
    SegmentWritable(f, offset, RoundedLength(offset, |image|, f.EraseBlockSize()));
  }

  /**
   * An image is programmed into a segment and verified. Success means that the segment
   * holds the image, blank up to the end of the last erase block, and that nothing outside
   * that range has changed, even on a device that misprograms without saying so; and once
   * erasing and writing have reported success, the verification decides: it fails exactly
   * if the segment does not hold the image. On a reliable device an image that fits is
   * programmed.
   */
  method Program(f: Driver, offset: nat, size: nat, image: seq<Cell>) returns (ok: bool, ghost verified: bool)
    requires f.Valid() && offset + size <= f.Mem().Length
    requires f.Aligned(offset) && f.Aligned(offset + size)
    modifies f.Mem()
    ensures |image| > size ==> !ok && f.Mem()[..] == old(f.Mem()[..])
    ensures ok ==> verified
    ensures verified ==>
      (ok <==> Holds(old(f.Mem()[..]), f.Mem()[..], offset, size, image, f.EraseBlockSize()))
    ensures f.Reliable() && |image| <= size ==> ok
  {
    hide *;
    verified := false;
    if |image| > size {
      return false, false;
    }
    MemIs(f);
    SegmentReady(f, offset, size, image);
    ghost var mem := if f.Spi? then f.spi.dev.mem else f.bpi.dev.mem;
    ghost var m := mem[..];
    var block := f.EraseBlockSize();
    var segment := Segment(image, size);
    var len := RoundedLength(offset, |image|, block);
    ok := EraseProgress(f, offset, len);
    if !ok {
      return;
    }
    ghost var erased := f.Mem()[..];
    ok := WriteProgress(f, offset, segment[..len]);
    if !ok {
      return;
    }
    verified := true;
    var check := ReadProgress(f, offset, len);
    ok := check == segment[..len];
    SameOutsideWider(m, erased, f.Mem()[..], offset, len, offset, len);
    ReadBack(m, f.Mem()[..], offset, size, image, block);
    if f.Reliable() {
      ProgrammedErased(m, offset, segment[..len]);
      Middle(m, offset, segment[..len]);
    }
  }

  lemma Middle(m: seq<Cell>, offset: nat, data: seq<Cell>)
    requires offset + |data| <= |m|
    ensures (m[..offset] + data + m[offset + |data|..])[offset..offset + |data|] == data
  {
  }

  lemma SegmentWritable(f: Driver, offset: nat, len: nat)
    requires f.Valid() && f.Aligned(offset) && f.Aligned(offset + len) && offset + len <= f.Mem().Length
    ensures f.Writable(offset, len)
  {
    if f.Bpi? {
      SizesArePowers(f);
      EvenRange(offset, len, f.EraseBlockSize());
    }
  }

  lemma EvenRange(offset: nat, len: nat, block: nat)
    requires block > 0 && block % 2 == 0 && offset % block == 0 && (offset + len) % block == 0
    ensures offset % 2 == 0 && len % 2 == 0
  {
    B.EvenMultiple(offset, block);
    B.EvenMultiple(offset + len, block);
  }
}
