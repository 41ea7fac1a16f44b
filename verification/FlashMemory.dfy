/** NOR flash: programming can only clear bits, erasing sets whole blocks to 0xff. */
module FlashMemory {

  type Cell = bv8

  const Blank: Cell := 0xff

  /** Bits that are clear stay clear. */
  function Cleared(old_: Cell, data: Cell): Cell {
    old_ & data
  }

  lemma BlankClears(x: Cell)
    ensures Cleared(Blank, x) == x && Cleared(x, Blank) == x
  {
  }

  /** The bytes from addr on cleared where the data is clear, and nothing else touched. */
  function Programmed(mem: seq<Cell>, addr: nat, data: seq<Cell>): (m: seq<Cell>)
    requires addr + |data| <= |mem|
    ensures |m| == |mem|
  {
    seq(|mem|, p requires 0 <= p < |mem| =>
      if addr <= p < addr + |data| then Cleared(mem[p], data[p - addr]) else mem[p])
  }

  function Erased(mem: seq<Cell>, addr: nat, len: nat): (m: seq<Cell>)
    requires addr + len <= |mem|
    ensures |m| == |mem|
  {
    seq(|mem|, p requires 0 <= p < |mem| => if addr <= p < addr + len then Blank else mem[p])
  }

  lemma ProgrammedAppend(mem: seq<Cell>, addr: nat, a: seq<Cell>, b: seq<Cell>)
    requires addr + |a| + |b| <= |mem|
    ensures Programmed(Programmed(mem, addr, a), addr + |a|, b) == Programmed(mem, addr, a + b)
  {
    hide Cleared;
  }

  lemma ProgrammedNothing(mem: seq<Cell>, addr: nat)
    requires addr <= |mem|
    ensures Programmed(mem, addr, []) == mem && Erased(mem, addr, 0) == mem
  {
  }

  lemma ErasedAppend(mem: seq<Cell>, addr: nat, a: nat, b: nat)
    requires addr + a + b <= |mem|
    ensures Erased(Erased(mem, addr, a), addr + a, b) == Erased(mem, addr, a + b)
  {
  }

  /** On erased cells, programming writes the data. */
  lemma ProgrammedErased(mem: seq<Cell>, addr: nat, data: seq<Cell>)
    requires addr + |data| <= |mem|
    ensures Programmed(Erased(mem, addr, |data|), addr, data) == mem[..addr] + data + mem[addr + |data|..]
  {
    hide Cleared;
    forall p | 0 <= p < |data|
      ensures Cleared(Blank, data[p]) == data[p]
    {
      BlankClears(data[p]);
    }
  }

  // The page program of a serial flash

  const PageSize := 256

  /** The page buffer after these bytes: it starts blank, and the offset wraps at its end. */
  function Buffer(offset: nat, data: seq<Cell>): (buffer: seq<Cell>)
    ensures |buffer| == PageSize
  {
    if data == [] then seq(PageSize, i => Blank)
    else
      var n := |data| - 1;
      Buffer(offset, data[..n])[(offset + n) % PageSize := data[n]]
  }

  function PageBase(addr: nat): nat {
    addr - addr % PageSize
  }

  /** The page that holds an address, with the buffer programmed into it. */
  function PageProgrammed(mem: seq<Cell>, addr: nat, data: seq<Cell>): (m: seq<Cell>)
    ensures |m| == |mem|
  {
    var buffer, base := Buffer(addr % PageSize, data), PageBase(addr);
    seq(|mem|, p requires 0 <= p < |mem| =>
      if base <= p < base + PageSize then Cleared(mem[p], buffer[p - base]) else mem[p])
  }

  lemma {:induction false} BufferStraight(offset: nat, data: seq<Cell>, j: nat)
    requires offset + |data| <= PageSize && j < PageSize
    ensures Buffer(offset, data)[j] == if offset <= j < offset + |data| then data[j - offset] else Blank
    decreases |data|
  {
    if data != [] {
      BufferStraight(offset, data[..|data| - 1], j);
    }
  }

  /** Data that ends within the page is programmed at its address. */
  lemma PageIsRange(mem: seq<Cell>, addr: nat, data: seq<Cell>)
    requires addr % PageSize + |data| <= PageSize && addr + |data| <= |mem|
    ensures PageProgrammed(mem, addr, data) == Programmed(mem, addr, data)
  {
    hide Cleared, Buffer;
    var buffer, base := Buffer(addr % PageSize, data), PageBase(addr);
    forall p | 0 <= p < |mem|
      ensures PageProgrammed(mem, addr, data)[p] == Programmed(mem, addr, data)[p]
    {
      BlankClears(mem[p]);
      if base <= p < base + PageSize {
        BufferStraight(addr % PageSize, data, p - base);
      }
    }
  }

  /** The last of the bytes that end up j places behind the first, of n bytes around a page. */
  function LastAt(n: nat, j: nat): (k: nat)
    requires j < n
    ensures k < n && k % PageSize == j % PageSize && (n <= PageSize ==> k == j)
  {
    TurnsDropped((n - 1 - j) / PageSize, j);
    j + (n - 1 - j) / PageSize * PageSize
  }

  lemma {:induction false} BufferWraps(offset: nat, data: seq<Cell>, q: nat)
    requires q < PageSize
    ensures var j := (q - offset) % PageSize;
      Buffer(offset, data)[q] == if j < |data| then data[LastAt(|data|, j)] else Blank
    decreases |data|
  {
    if data != [] {
      var n, j := |data| - 1, (q - offset) % PageSize;
      BufferWraps(offset, data[..n], q);
      SamePlace(offset, n, q);
      hide LastAt;
      assert j < n ==> data[..n][LastAt(n, j)] == data[LastAt(n, j)];
    }
  }

  /** Byte n falls on place q of the page exactly if it is j places behind the first, around the page. */
  lemma SamePlace(offset: nat, n: nat, q: nat)
    requires q < PageSize
    ensures var j := (q - offset) % PageSize;
      && ((offset + n) % PageSize == q <==> n % PageSize == j)
      && (j < n ==> LastAt(n + 1, j) == if n % PageSize == j then n else LastAt(n, j))
      && (j == n ==> LastAt(n + 1, j) == n)
  {
    var j := (q - offset) % PageSize;
    SameResidue(offset, n, q);
    if j < n {
      NextTurn(n - 1 - j, n - j, n % PageSize == j);
    }
  }

  lemma SameResidue(offset: nat, n: nat, q: nat)
    requires q < PageSize
    ensures (offset + n) % PageSize == q <==> n % PageSize == (q - offset) % PageSize
  {
    var o, m := offset % PageSize, n % PageSize;
    var u, v := offset / PageSize, n / PageSize;
    assert offset == u * PageSize + o && n == v * PageSize + m;
    TurnsDropped(u + v, o + m);
    TurnsDropped(-u, q - o);
    InOneTurn(o, m, q);
  }

  lemma TurnsDropped(turns: int, x: int)
    ensures (turns * PageSize + x) % PageSize == x % PageSize
  {
  }

  lemma InOneTurn(o: nat, m: nat, q: nat)
    requires o < PageSize && m < PageSize && q < PageSize
    ensures (o + m) % PageSize == q <==> m == (q - o) % PageSize
  {
  }

  lemma NextTurn(a: nat, b: nat, turn: bool)
    requires b == a + 1 && (turn <==> b % PageSize == 0)
    ensures b / PageSize == a / PageSize + if turn then 1 else 0
    ensures turn ==> b / PageSize * PageSize == b
  {
  }

  /**
   * Data that does not end within the page wraps to its start: each byte of the page, and
   * of no other, is programmed with the last byte sent that falls on it.
   */
  lemma PageWraps(mem: seq<Cell>, addr: nat, data: seq<Cell>, p: nat)
    requires p < |mem|
    ensures var j := (p - addr) % PageSize;
      PageProgrammed(mem, addr, data)[p]
      == if PageBase(addr) <= p < PageBase(addr) + PageSize && j < |data|
         then Cleared(mem[p], data[LastAt(|data|, j)]) else mem[p]
  {
    if PageBase(addr) <= p < PageBase(addr) + PageSize {
      BufferWraps(addr % PageSize, data, p - PageBase(addr));
      BlankClears(mem[p]);
    }
  }

  /** The same contents but for a range of addresses. */
  predicate SameOutside(before: seq<Cell>, after: seq<Cell>, addr: nat, len: nat) {
    addr + len <= |before| == |after| && after[..addr] == before[..addr] && after[addr + len..] == before[addr + len..]
  }

  lemma SameOutsideWider(m: seq<Cell>, n: seq<Cell>, o: seq<Cell>, addr: nat, len: nat, a: nat, b: nat)
    requires addr + len <= |m| && addr <= a && a + b <= addr + len
    requires SameOutside(m, n, addr, len) && SameOutside(n, o, a, b)
    ensures SameOutside(m, o, addr, len)
  {
    assert o[..addr] == o[..a][..addr] && n[..addr] == n[..a][..addr];
    var end := addr + len;
    assert o[end..] == o[a + b..][end - (a + b)..] && n[end..] == n[a + b..][end - (a + b)..];
  }

  lemma ProgrammedOutside(m: seq<Cell>, addr: nat, data: seq<Cell>)
    requires addr + |data| <= |m|
    ensures SameOutside(m, Programmed(m, addr, data), addr, |data|)
  {
  }

  /** An erasure of a range has got to a; what it has done is sure on a device that reports all failures. */
  ghost predicate ErasedTo(before: seq<Cell>, now: seq<Cell>, addr: nat, len: nat, a: nat, sure: bool)
  {
    && addr <= a <= addr + len && SameOutside(before, now, addr, len)
    && (sure ==> now == Erased(before, addr, a - addr))
  }

  lemma NothingErased(m: seq<Cell>, addr: nat, len: nat, sure: bool)
    requires addr + len <= |m|
    ensures ErasedTo(m, m, addr, len, addr, sure)
  {
    ProgrammedNothing(m, addr);
  }

  lemma ErasedOn(before: seq<Cell>, m: seq<Cell>, now: seq<Cell>, addr: nat, len: nat, a: nat, n: nat, sure: bool,
                 ok: bool)
    requires ErasedTo(before, m, addr, len, a, sure) && a + n <= addr + len
    requires SameOutside(m, now, a, n) && (ok && sure ==> now == Erased(m, a, n))
    ensures SameOutside(before, now, addr, len)
    ensures ok ==> ErasedTo(before, now, addr, len, a + n, sure)
  {
    hide SameOutside, Erased;
    assert |before| >= addr + len by {
      assert SameOutside(before, m, addr, len);
      OutsideFits(before, m, addr, len);
    }
    SameOutsideWider(before, m, now, addr, len, a, n);
    if sure {
      ErasedAppend(before, addr, a - addr, n);
    }
  }

  lemma OutsideFits(before: seq<Cell>, now: seq<Cell>, addr: nat, len: nat)
    requires SameOutside(before, now, addr, len)
    ensures addr + len <= |before| == |now|
  {
  }

  lemma ErasedSoFar(before: seq<Cell>, now: seq<Cell>, addr: nat, len: nat, a: nat, sure: bool)
    requires ErasedTo(before, now, addr, len, a, sure)
    ensures SameOutside(before, now, addr, len) && addr + len <= |before| && addr <= a <= addr + len
    ensures sure ==> now == Erased(before, addr, a - addr)
  {
  }

  ghost predicate ProgrammedTo(before: seq<Cell>, now: seq<Cell>, addr: nat, src: seq<Cell>, s: nat, sure: bool)
  {
    && s <= |src| && SameOutside(before, now, addr, |src|)
    && (sure ==> now == Programmed(before, addr, src[..s]))
  }

  lemma NothingProgrammed(m: seq<Cell>, addr: nat, src: seq<Cell>, sure: bool)
    requires addr + |src| <= |m|
    ensures ProgrammedTo(m, m, addr, src, 0, sure)
  {
    ProgrammedNothing(m, addr);
  }

  lemma ProgrammedSoFar(before: seq<Cell>, now: seq<Cell>, addr: nat, src: seq<Cell>, s: nat, sure: bool)
    requires ProgrammedTo(before, now, addr, src, s, sure)
    ensures s <= |src| && SameOutside(before, now, addr, |src|) && addr + |src| <= |before|
    ensures sure ==> now == Programmed(before, addr, src[..s])
  {
  }

  lemma ProgrammedOn(before: seq<Cell>, m: seq<Cell>, now: seq<Cell>, addr: nat, src: seq<Cell>, s: nat, n: nat,
                     sure: bool, ok: bool)
    requires ProgrammedTo(before, m, addr, src, s, sure) && s + n <= |src|
    requires SameOutside(m, now, addr + s, n) && (ok && sure ==> now == Programmed(m, addr + s, src[s..s + n]))
    ensures SameOutside(before, now, addr, |src|)
    ensures ok ==> ProgrammedTo(before, now, addr, src, s + n, sure)
  {
    hide SameOutside, Programmed;
    OutsideFits(before, m, addr, |src|);
    SameOutsideWider(before, m, now, addr, |src|, addr + s, n);
    if sure {
      ProgrammedAppend(before, addr, src[..s], src[s..s + n]);
      assert src[..s] + src[s..s + n] == src[..s + n];
    }
  }
}
