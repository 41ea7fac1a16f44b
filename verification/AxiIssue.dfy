/**
 * What the bursts of one command look like on the address channel, told from the command
 * alone: both masters issue exactly these (sections A3.4.1 and A3.4.3 of ARM IHI 0022E).
 */
module AxiIssue {
  import opened Numbers
  import opened Modular
  import opened Wrappers
  import opened AxiTransfer
  import opened AxiRam

  /** The identifier that follows so many bursts, when identifiers count up modulo ids. */
  function IdAfter(id: nat, bursts: nat, ids: nat): nat
    requires ids > 0
  {
    if bursts == 0 then id else (id + bursts) % ids
  }

  lemma IdAfterNext(id: nat, bursts: nat, ids: nat)
    requires ids > 0
    ensures IdAfter(id, bursts + 1, ids) == (IdAfter(id, bursts, ids) + 1) % ids
  {
    NextResidue(id + bursts, ids);
  }

  lemma NoneAfter(id: nat, ids: nat)
    requires ids > 0
    ensures IdAfter(id, 0, ids) == id
  {
  }

  /** Counting on from the next identifier is counting on from this one. */
  lemma IdAfterFirst(id: nat, bursts: nat, ids: nat)
    requires ids > 0
    ensures IdAfter((id + 1) % ids, bursts, ids) == IdAfter(id, bursts + 1, ids)
  {
    var r, q := (id + 1) % ids, (id + 1) / ids;
    assert id + 1 + bursts == r + bursts + ids * q;
    AddMultiple(r + bursts, ids, q);
  }

  lemma NextResidue(x: nat, m: nat)
    requires m > 0
    ensures (x % m + 1) % m == (x + 1) % m
  {
    AddMultiple(x % m + 1, m, x / m);
    assert x + 1 == x % m + 1 + m * (x / m);
  }

  /** The address behind a burst of increasing beats. */
  function EndOf(b: Burst): nat {
    b.addr + (b.len + 1) * PowerOfTwo(b.size)
  }

  /** The longest burst that the master makes. */
  function Longest(maxBurst: int): nat {
    if maxBurst < 1 then 1 else if maxBurst > 256 then 256 else maxBurst
  }

  /** A burst with the size asked for, or that of whole bus words, of the kind asked for. */
  predicate AsAsked(b: Burst, asked: Option<nat>, kind: Kind, busBytes: nat) {
    && b.kind == kind
    && (if asked.Some? then b.size == asked.value else PowerOfTwo(b.size) == busBytes)
  }

  /** From burst to burst: each goes on where the one before ends, which is as long as limit and page let it. */
  predicate Follows(b: Burst, next: Burst, maxBurst: int) {
    && next.addr == EndOf(b)
    && (b.len + 1 == Longest(maxBurst) || next.addr % 4096 == 0)
  }

  /** The bursts issued for a range of bytes. */
  ghost predicate Issued(bs: seq<Burst>, addr: nat, length: nat, asked: Option<nat>, kind: Kind, busBytes: nat,
                         maxBurst: int, ids: nat, id: nat)
    requires ids > 0
  {
    && (forall b <- bs :: AsAsked(b, asked, kind, busBytes))
    && (forall b <- bs :: b.len + 1 <= Longest(maxBurst) && b.addr % 4096 + (b.len + 1) * PowerOfTwo(b.size) <= 4096)
    && (forall j | 0 <= j < |bs| :: bs[j].id == IdAfter(id, j, ids))
    && (forall j | 0 < j < |bs| :: Follows(bs[j - 1], bs[j], maxBurst))
    && if bs == [] then length == 0
       else
         var last := bs[|bs| - 1];
         && bs[0].addr == addr - addr % PowerOfTwo(bs[0].size)
         && EndOf(last) - PowerOfTwo(last.size) < addr + length <= EndOf(last)
  }

  // The bursts of the partition are those

  /** A burst is as long as the limit, what remains and the page allow. */
  lemma BurstMaximal(t: Transfer, maxBurst: int, k: nat)
    requires t.Legal() && k < t.Cycles()
    ensures 1 <= BurstLength(t, maxBurst, k) <= Min(t.Cycles() - k, Longest(maxBurst))
    ensures var n := BurstLength(t, maxBurst, k);
      || n == t.Cycles() - k || n == Longest(maxBurst)
      || t.Cell(k + n) % 4096 == 0
  {
    BurstFits(t, maxBurst, k);
    var room := PageRoom(t, k);
    var n := Min(t.Cycles() - k, Longest(maxBurst));
    WholeBeats(n, room, t.beatBytes);
    hide Transfer.Cycles;
    if room < n {
      PageEnds(t, k, room);
    }
  }

  /** The beats from cell k to the end of its page. */
  lemma PageRoom(t: Transfer, k: nat) returns (room: nat)
    requires t.Legal()
    ensures room > 0 && room * t.beatBytes == PageBytes - t.Cell(k) % PageBytes
  {
    hide Transfer.Cycles, Transfer.Cell;
    var lanes, cells := Divisors(t);
    CellsAligned(t, k);
    CellInBlock(t.Cell(k), t.beatBytes, cells, PageBytes, t.Cell(k));
    var r: nat :| t.Cell(k) % PageBytes == r * t.beatBytes;
    room := RoomInPage(t.Cell(k) % PageBytes, r, cells, t.beatBytes);
  }

  lemma PageEnds(t: Transfer, k: nat, room: nat)
    requires t.Legal() && room * t.beatBytes == PageBytes - t.Cell(k) % PageBytes
    ensures t.Cell(k + room) % 4096 == 0
  {
    CellsOn(t, k, room);
    hide Transfer.Cell;
  }

  lemma CellsOn(t: Transfer, k: nat, n: nat)
    requires t.Legal()
    ensures t.Cell(k + n) == t.Cell(k) + n * t.beatBytes
  {
    var b := t.beatBytes;
    assert (k + n) * b == k * b + n * b;
  }

  /** The bursts from beat k on, told from the transfer. */
  ghost predicate IssuedFrom(bs: seq<Burst>, t: Transfer, size: nat, kind: Kind, maxBurst: int, ids: nat, k: nat,
                             id: nat)
    requires t.Legal() && ids > 0 && k <= t.Cycles()
  {
    && (forall b <- bs :: b.kind == kind && b.size == size)
    && (forall b <- bs :: b.len + 1 <= Longest(maxBurst) && b.addr % 4096 + (b.len + 1) * t.beatBytes <= 4096)
    && (forall j | 0 <= j < |bs| :: bs[j].id == IdAfter(id, j, ids))
    && (forall j | 0 < j < |bs| :: Follows(bs[j - 1], bs[j], maxBurst))
    && (bs == [] <==> k == t.Cycles())
    && (bs != [] ==> bs[0].addr == t.Cell(k) && EndOf(bs[|bs| - 1]) == t.Cell(t.Cycles()))
  }

  lemma {:induction false} BurstsIssued(t: Transfer, size: nat, kind: Kind, maxBurst: int, ids: nat, k: nat, id: nat)
    requires t.Legal() && t.beatBytes == PowerOfTwo(size) && ids > 0 && k <= t.Cycles()
    ensures IssuedFrom(BurstsFrom(t, size, kind, maxBurst, ids, k, id), t, size, kind, maxBurst, ids, k, id)
    decreases t.Cycles() - k
  {
    hide *;
    if k == t.Cycles() {
      NoBursts(t, size, kind, maxBurst, ids, k, id);
    } else {
      var b, n := OneBurst(t, size, kind, maxBurst, ids, k, id);
      BurstsIssued(t, size, kind, maxBurst, ids, k + n, (id + 1) % ids);
      OneMoreIssued(b, n, BurstsFrom(t, size, kind, maxBurst, ids, k + n, (id + 1) % ids), t, size, kind, maxBurst, ids,
                    k, id);
    }
  }

  lemma NoBursts(t: Transfer, size: nat, kind: Kind, maxBurst: int, ids: nat, k: nat, id: nat)
    requires t.Legal() && ids > 0 && k == t.Cycles()
    ensures IssuedFrom(BurstsFrom(t, size, kind, maxBurst, ids, k, id), t, size, kind, maxBurst, ids, k, id)
  {
    hide Transfer.Cycles, Transfer.Cell;
  }

  lemma OneBurst(t: Transfer, size: nat, kind: Kind, maxBurst: int, ids: nat, k: nat, id: nat)
    returns (b: Burst, n: nat)
    requires t.Legal() && t.beatBytes == PowerOfTwo(size) && ids > 0 && k < t.Cycles()
    ensures 0 < n <= t.Cycles() - k && n <= Longest(maxBurst)
    ensures b == Burst(t.Cell(k), id, n - 1, size, kind) && b.len == n - 1
    ensures EndOf(b) == t.Cell(k + n) && t.Cell(k) % 4096 + n * t.beatBytes <= 4096
    ensures n == t.Cycles() - k || n == Longest(maxBurst) || t.Cell(k + n) % 4096 == 0
    ensures BurstsFrom(t, size, kind, maxBurst, ids, k, id)
         == [b] + BurstsFrom(t, size, kind, maxBurst, ids, k + n, (id + 1) % ids)
  {
    hide Transfer.Cycles, Transfer.Cell, BurstLength, Longest;
    BurstFits(t, maxBurst, k);
    BurstMaximal(t, maxBurst, k);
    n := BurstLength(t, maxBurst, k);
    b := Burst(t.Cell(k), id, n - 1, size, kind);
    CellsOn(t, k, n);
  }

  lemma OneMoreIssued(b: Burst, n: nat, later: seq<Burst>, t: Transfer, size: nat, kind: Kind, maxBurst: int,
                      ids: nat, k: nat, id: nat)
    requires t.Legal() && ids > 0 && 0 < n <= t.Cycles() - k && n <= Longest(maxBurst)
    requires b == Burst(t.Cell(k), id, n - 1, size, kind) && b.len == n - 1 && EndOf(b) == t.Cell(k + n)
    requires t.Cell(k) % 4096 + n * t.beatBytes <= 4096
    requires n == t.Cycles() - k || n == Longest(maxBurst) || t.Cell(k + n) % 4096 == 0
    requires IssuedFrom(later, t, size, kind, maxBurst, ids, k + n, (id + 1) % ids)
    ensures IssuedFrom([b] + later, t, size, kind, maxBurst, ids, k, id)
  {
    hide Transfer.Cycles, Transfer.Cell, Longest, EndOf, Transfer.Legal;
    var bs := [b] + later;
    forall j | 0 <= j < |bs|
      ensures bs[j].id == IdAfter(id, j, ids)
    {
      if j > 0 {
        assert bs[j] == later[j - 1];
        IdAfterFirst(id, j - 1, ids);
      }
    }
    hide IdAfter;
    forall j | 0 < j < |bs|
      ensures Follows(bs[j - 1], bs[j], maxBurst)
    {
      if j > 1 {
        assert Follows(later[j - 2], later[j - 1], maxBurst);
      }
    }
  }

  /** What either master issues for a command: told from its address, length, size and kind. */
  lemma CommandIssued(t: Transfer, size: nat, asked: Option<nat>, kind: Kind, maxBurst: int, ids: nat, id: nat)
    requires t.Legal() && t.beatBytes == PowerOfTwo(size) && ids > 0
    requires if asked.Some? then size == asked.value else PowerOfTwo(size) == t.busBytes
    ensures Issued(BurstsFrom(t, size, kind, maxBurst, ids, 0, id), t.addr, t.length, asked, kind, t.busBytes, maxBurst,
                   ids, id)
  {
    BurstsIssued(t, size, kind, maxBurst, ids, 0, id);
    Covered(t);
    CellsAligned(t, 0);
    CellMonotone(t, 0, 0);
    hide Transfer.Cycles, Transfer.Cell, BurstsFrom, IdAfter, EndOf, Longest, Follows;
  }

  /** A command without a size is for whole bus words. */
  lemma DefaultSize(asked: Option<nat>, busBytes: nat)
    requires BusWidth(busBytes)
    ensures if asked.Some? then SizeOf(asked, busBytes) == asked.value
            else PowerOfTwo(SizeOf(asked, busBytes)) == busBytes
  {
    assert PowerOfTwo(3) == 8 && PowerOfTwo(5) == 32 && PowerOfTwo(7) == 128;
  }
}
