/**
 * The driver of serial (SPI) flash: ranges of any length and address become page programs
 * and block erases.
 */
module FlashSpi {
  import opened FlashMemory

  const SectorSize := 0x10000
  const SubsectorSize := 0x1000

  /** The address that reaches the device, with a command of three or of four address bytes. */
  function Sent(addr: nat, fourBytes: bool): nat {
    if fourBytes then addr % 0x1_0000_0000 else addr % 0x100_0000
  }

  /** The driver uses four address bytes exactly where three would be cut short. */
  lemma SentWhole(addr: nat)
    requires addr < 0x1_0000_0000
    ensures Sent(addr, addr > 0xffffff) == addr
    ensures Sent(addr, false) == addr <==> addr <= 0xffffff
  {
  }

  /** A serial NOR device. */
  class SpiDevice {
    const mem: array<Cell>

    predicate Valid() {
      mem.Length % SectorSize == 0 && 0 < mem.Length <= 0x1_0000_0000
    }

    constructor (size: nat)
      requires size % SectorSize == 0 && 0 < size <= 0x1_0000_0000
      ensures Valid() && mem.Length == size && fresh(mem)
    {
      mem := new Cell[size](i => Blank);
    }

    method PageProgram(addr: nat, fourBytes: bool, data: seq<Cell>)
      modifies mem
      ensures mem[..] == PageProgrammed(old(mem[..]), Sent(addr, fourBytes), data)
    {
      var at := Sent(addr, fourBytes);
      var next := PageProgrammed(mem[..], at, data);
      forall p | 0 <= p < mem.Length {
        mem[p] := next[p];
      }
    }

    /** Erases the block, of a sector or a subsector, that holds the address. */
    method BlockErase(addr: nat, fourBytes: bool, size: nat)
      requires Valid() && size in {SectorSize, SubsectorSize} && Sent(addr, fourBytes) < mem.Length
      modifies mem
      ensures var base := Sent(addr, fourBytes) - Sent(addr, fourBytes) % size;
        base + size <= mem.Length && mem[..] == Erased(old(mem[..]), base, size)
    {
      var at := Sent(addr, fourBytes);
      var base := at - at % size;
      forall p | base <= p < base + size {
        mem[p] := Blank;
      }
    }

    /** The bytes from an address on, as long as the device is clocked. */
    method Stream(addr: nat, fourBytes: bool, len: nat) returns (data: seq<Cell>)
      requires Valid() && Sent(addr, fourBytes) + len <= mem.Length
      ensures data == mem[Sent(addr, fourBytes)..Sent(addr, fourBytes) + len]
    {
      data := mem[Sent(addr, fourBytes)..Sent(addr, fourBytes) + len];
    }
  }

  /** A block that was erased. */
  datatype Block = Block(addr: nat, size: nat)

  /** Blocks of a device, each on a multiple of its size, that follow one another from lo to hi. */
  predicate Tiles(blocks: seq<Block>, lo: nat, hi: nat) {
    if blocks == [] then lo == hi
    else
      var b := blocks[|blocks| - 1];
      && b.size in {SectorSize, SubsectorSize} && b.addr % b.size == 0
      && b.addr + b.size == hi && Tiles(blocks[..|blocks| - 1], lo, b.addr)
  }

  /** The whole subsectors of a range, none when it starts inside one. */
  function WholeSubsectors(addr: nat, len: nat): (n: nat)
    ensures n <= len
  {
    if addr % SubsectorSize == 0 then len - len % SubsectorSize else 0
  }

  /** The erase block for an address and what is left to erase; 0 when none fits. */
  function BlockFor(addr: nat, left: nat): (size: nat)
    ensures size == 0 <==> addr % SubsectorSize != 0 || left < SubsectorSize
    ensures size != 0 ==> size in {SectorSize, SubsectorSize} && size <= left && addr % size == 0
  {
    if addr % SectorSize == 0 && left >= SectorSize then SectorSize
    else if addr % SubsectorSize == 0 && left >= SubsectorSize then SubsectorSize
    else 0
  }

  /** A subsector is erased by itself only where no sector starts or none fits before the end. */
  predicate Largest(blocks: seq<Block>, end: nat) {
    forall b <- blocks :: b.size == SubsectorSize ==> b.addr % SectorSize != 0 || end - b.addr < SectorSize
  }

  lemma LargestOfNone(end: nat)
    ensures Largest([], end)
  {
  }

  lemma LargestMeans(blocks: seq<Block>, end: nat)
    requires Largest(blocks, end)
    ensures forall b <- blocks :: b.size == SubsectorSize ==> b.addr % SectorSize != 0 || end - b.addr < SectorSize
  {
  }

  lemma LargestNext(blocks: seq<Block>, a: nat, left: nat, size: nat, end: nat)
    requires Largest(blocks, end) && size == BlockFor(a, left) && a + left == end
    ensures Largest(blocks + [Block(a, size)], end)
  {
  }

  /** Nothing erased yet, or whole subsectors only. */
  predicate WholeSoFar(addr: nat, a: nat) {
    a == addr || (addr % SubsectorSize == 0 && a % SubsectorSize == 0)
  }

  lemma NextInPage(addr: nat, n: nat)
    requires addr % PageSize + n < PageSize
    ensures (addr + n + 1) % PageSize == 0 <==> addr % PageSize + n + 1 == PageSize
  {
  }

  lemma Unerased(addr: nat, len: nat)
    ensures WholeSoFar(addr, addr) && Tiles([], addr, addr)
  {
  }

  lemma WholeBlock(a: nat, size: nat)
    requires size in {SectorSize, SubsectorSize} && a % size == 0
    ensures a % SubsectorSize == 0 && (a + size) % SubsectorSize == 0
  {
    if size == SectorSize {
      SectorOfSubsectors(a / SectorSize, a);
    }
  }

  lemma SectorOfSubsectors(q: nat, a: nat)
    requires a == q * SectorSize
    ensures a % SubsectorSize == 0 && (a + SectorSize) % SubsectorSize == 0
  {
    assert a == 16 * q * SubsectorSize && a + SectorSize == (16 * q + 16) * SubsectorSize;
  }

  lemma NextTile(blocks: seq<Block>, addr: nat, a: nat, size: nat)
    requires Tiles(blocks, addr, a) && WholeSoFar(addr, a) && size in {SectorSize, SubsectorSize} && a % size == 0
    ensures Tiles(blocks + [Block(a, size)], addr, a + size) && WholeSoFar(addr, a + size)
  {
    WholeBlock(a, size);
    assert (blocks + [Block(a, size)])[..|blocks|] == blocks;
    hide Tiles;
    TileLast(blocks, addr, a, size);
  }

  lemma TileLast(blocks: seq<Block>, addr: nat, a: nat, size: nat)
    requires Tiles(blocks, addr, a) && size in {SectorSize, SubsectorSize} && a % size == 0
    ensures Tiles(blocks + [Block(a, size)], addr, a + size)
  {
    assert (blocks + [Block(a, size)])[..|blocks|] == blocks;
  }

  lemma Refused(addr: nat, len: nat, a: nat, left: nat)
    requires WholeSoFar(addr, a) && a + left == addr + len && addr <= a && left > 0 && BlockFor(a, left) == 0
    ensures WholeSubsectors(addr, len) == a - addr
    ensures !(len == 0 || (addr % SubsectorSize == 0 && len % SubsectorSize == 0))
  {
  }

  lemma Finished(addr: nat, len: nat, a: nat)
    requires WholeSoFar(addr, a) && a == addr + len
    ensures len == 0 || (addr % SubsectorSize == 0 && len % SubsectorSize == 0)
  {
  }

  class SpiFlash {
    const dev: SpiDevice

    predicate Valid() {
      dev.Valid()
    }

    constructor (dev: SpiDevice)
      requires dev.Valid()
      ensures Valid() && this.dev == dev
    {
      this.dev := dev;
    }

    /** The bytes that are sent for one page program: to the end of the page, or of the data. */
    static method FillPage(addr: nat, src: seq<Cell>, from: nat) returns (data: seq<Cell>)
      requires from < |src|
      ensures data != [] && from + |data| <= |src| && data == src[from..from + |data|]
      ensures addr % PageSize + |data| <= PageSize
      ensures from + |data| == |src| || (addr + |data|) % PageSize == 0
    {
      data := [];
      var a, s := addr, from;
      while s < |src|
        invariant from <= s <= |src| && a == addr + |data| && |data| == s - from
        invariant data == src[from..s]
        invariant addr % PageSize + |data| < PageSize
      {
        NextInPage(addr, |data|);
        data := data + [src[s]];
        a := a + 1;
        s := s + 1;
        if a % PageSize == 0 {
          break;
        }
      }
    }

    /** spi_flash_write: one page program for each page that the range touches. */
    method Write(addr: nat, src: seq<Cell>)
      requires Valid() && addr + |src| <= dev.mem.Length
      modifies dev.mem
      ensures dev.mem[..] == Programmed(old(dev.mem[..]), addr, src)
    {
      ProgrammedNothing(dev.mem[..], addr);
      hide *;
      var s := 0;
      while s < |src|
        invariant 0 <= s <= |src|
        invariant dev.mem[..] == Programmed(old(dev.mem[..]), addr, src[..s])
      {
        s := WritePage(addr, src, s, old(dev.mem[..]));
      }
      assert src[..s] == src;
    }

    /** As much as one page program takes. */
    method WritePage(addr: nat, src: seq<Cell>, s: nat, ghost before: seq<Cell>) returns (next: nat)
      requires Valid() && s < |src| && addr + |src| <= dev.mem.Length == |before|
      requires dev.mem[..] == Programmed(before, addr, src[..s])
      modifies dev.mem
      ensures s < next <= |src| && dev.mem[..] == Programmed(before, addr, src[..next])
    {
      hide *;
      var data := FillPage(addr + s, src, s);
      ProgramPage(addr + s, data);
      ProgrammedAppend(before, addr, src[..s], data);
      assert src[..s] + data == src[..s + |data|];
      next := s + |data|;
    }

    /** Data within one page, programmed with the command that the address needs. */
    method ProgramPage(addr: nat, data: seq<Cell>)
      requires Valid() && addr + |data| <= dev.mem.Length && addr % PageSize + |data| <= PageSize && data != []
      modifies dev.mem
      ensures dev.mem[..] == Programmed(old(dev.mem[..]), addr, data)
    {
      PageIsRange(dev.mem[..], addr, data);
      SentWhole(addr);
      hide PageProgrammed, Programmed, Sent;
      if addr > 0xffffff {
        dev.PageProgram(addr, true, data);
      } else {
        dev.PageProgram(addr, false, data);
      }
    }

    /**
     * spi_flash_erase: the largest block that fits, again and again. A range of whole
     * subsectors is erased exactly; of any other, only the whole subsectors before the
     * rest is refused.
     */
    method Erase(addr: nat, len: nat) returns (ok: bool, ghost blocks: seq<Block>)
      requires Valid() && addr + len <= dev.mem.Length
      modifies dev.mem
      ensures ok <==> len == 0 || (addr % SubsectorSize == 0 && len % SubsectorSize == 0)
      ensures dev.mem[..] == Erased(old(dev.mem[..]), addr, if ok then len else WholeSubsectors(addr, len))
      ensures Tiles(blocks, addr, addr + if ok then len else WholeSubsectors(addr, len))
      ensures forall b <- blocks :: b.size == SubsectorSize ==>
                                      b.addr % SectorSize != 0 || addr + len - b.addr < SectorSize
    {
      hide *;
      var a, left := addr, len;
      blocks := [];
      ghost var before := dev.mem[..];
      NoneErased(before, addr);
      LargestOfNone(addr + len);
      while left > 0
        invariant a + left == addr + len && addr <= a && left >= 0
        invariant ErasedUpTo(before, addr, a, blocks) && Largest(blocks, addr + len)
        decreases left
      {
        var size := BlockFor(a, left);
        if size == 0 {
          UpTo(before, addr, a, blocks);
          Refused(addr, len, a, left);
          LargestMeans(blocks, addr + len);
          return false, blocks;
        }
        EraseNext(before, addr, a, size, blocks);
        LargestNext(blocks, a, left, size, addr + len);
        blocks := blocks + [Block(a, size)];
        if left <= size {
          a, left := a + size, left - size;
          break;
        }
        a := a + size;
        left := left - size;
      }
      UpTo(before, addr, a, blocks);
      Finished(addr, len, a);
      LargestMeans(blocks, addr + len);
      ok := true;
    }

    /** An erasure has got from addr to a, in these blocks. */
    ghost predicate ErasedUpTo(before: seq<Cell>, addr: nat, a: nat, blocks: seq<Block>)
      reads dev.mem
    {
      && addr <= a <= |before| == dev.mem.Length
      && Tiles(blocks, addr, a) && WholeSoFar(addr, a)
      && dev.mem[..] == Erased(before, addr, a - addr)
    }

    lemma NoneErased(before: seq<Cell>, addr: nat)
      requires addr <= |before| && dev.mem[..] == before
      ensures ErasedUpTo(before, addr, addr, [])
    {
      ErasedNothing(before, addr);
      Unerased(addr, 0);
      hide Erased;
    }

    lemma UpTo(before: seq<Cell>, addr: nat, a: nat, blocks: seq<Block>)
      requires ErasedUpTo(before, addr, a, blocks)
      ensures addr <= a <= |before| && Tiles(blocks, addr, a) && WholeSoFar(addr, a)
      ensures dev.mem[..] == Erased(before, addr, a - addr)
    {
    }

    /** One more block. */
    method EraseNext(ghost before: seq<Cell>, ghost addr: nat, a: nat, size: nat, ghost blocks: seq<Block>)
      requires Valid() && ErasedUpTo(before, addr, a, blocks)
      requires size in {SectorSize, SubsectorSize} && a % size == 0 && a + size <= dev.mem.Length
      modifies dev.mem
      ensures ErasedUpTo(before, addr, a + size, blocks + [Block(a, size)])
    {
      EraseBlock(a, size);
      ErasedAppend(before, addr, a - addr, size);
      NextTile(blocks, addr, a, size);
      hide Erased, Tiles, WholeSoFar;
    }

    method EraseBlock(addr: nat, size: nat)
      requires Valid() && size in {SectorSize, SubsectorSize} && addr % size == 0 && addr + size <= dev.mem.Length
      modifies dev.mem
      ensures dev.mem[..] == Erased(old(dev.mem[..]), addr, size)
    {
      SentWhole(addr);
      hide Erased, Sent;
      if addr > 0xffffff {
        dev.BlockErase(addr, true, size);
      } else {
        dev.BlockErase(addr, false, size);
      }
    }

    /** spi_flash_read */
    method Read(addr: nat, len: nat) returns (dest: seq<Cell>)
      requires Valid() && addr + len <= dev.mem.Length
      ensures dest == dev.mem[addr..addr + len]
    {
      if len > 0 {
        SentWhole(addr);
      }
      assert Sent(addr, addr > 0xffffff) <= addr;
      hide Sent;
      var data;
      if addr > 0xffffff {
        data := dev.Stream(addr, true, len);
      } else {
        data := dev.Stream(addr, false, len);
      }
      dest := [];
      var n := 0;
      while n < len
        invariant 0 <= n <= len && dest == data[..n]
      {
        dest := dest + [data[n]];
        n := n + 1;
      }
    }
  }

  lemma ErasedNothing(mem: seq<Cell>, addr: nat)
    requires addr <= |mem|
    ensures Erased(mem, addr, 0) == mem
  {
  }
}
