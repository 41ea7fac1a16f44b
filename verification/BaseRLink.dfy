/**
 * Frames over 10GBASE-R: the source lays frames out in columns with gaps between them and
 * encodes the columns; the sink decodes them and cuts the frames out again.
 */
module BaseRLink {
  import opened Numbers
  import opened Words
  import opened BlockCode

  type Frame = seq<Octet>

  const PRE: Octet := 0x55

  /** What the source asserts of a frame. */
  predicate Good(f: Frame) {
    |f| > 0 && f[0] == PRE
  }

  datatype Config = Config(ifg: nat, dic: bool)

  /** The state of the source: frames to send, blocks of the current one, and the gap counters. */
  datatype Tx = Tx(queue: seq<Frame>, ccl: seq<Block>, ifgCnt: int, deficit: int) {
    ghost predicate Valid() {
      forall f <- queue :: Good(f)
    }
  }

  // Laying out a frame

  function PadLength(n: nat): nat {
    (8 - n % 8) % 8
  }

  function Copies<T>(x: T, n: nat): (s: seq<T>)
    ensures |s| == n && forall i | 0 <= i < n :: s[i] == x
  {
    seq(n, i => x)
  }

  /** Lanes up to a multiple of eight, with idles. */
  function PadLanes(d: seq<Octet>): seq<Octet> {
    d + Copies(IDLE, PadLength(|d|))
  }

  function PadControls(c: seq<bool>): seq<bool> {
    c + Copies(true, PadLength(|c|))
  }

  /** The lanes of a frame: the first byte becomes the start, and a terminate follows the last. */
  function FrameLanes(f: Frame, offset: bool): seq<Octet>
    requires Good(f)
  {
    PadLanes((if offset then Copies(IDLE, 4) else []) + [START] + f[1..] + [TERM])
  }

  function FrameControls(f: Frame, offset: bool): seq<bool>
    requires Good(f)
  {
    PadControls((if offset then Copies(true, 4) else []) + [true] + Copies(false, |f| - 1) + [true])
  }

  /** Column by column. */
  function Blocks(d: seq<Octet>, c: seq<bool>): seq<Block>
    requires |d| == |c| && |d| % 8 == 0
  {
    if d == [] then [] else [Encode(Column(d[..8], c[..8]))] + Blocks(d[8..], c[8..])
  }

  lemma Padded(n: nat)
    ensures (n + PadLength(n)) % 8 == 0
  {
  }

  function FrameBlocks(f: Frame, offset: bool): seq<Block>
    requires Good(f)
  {
    var d, c := FrameLanes(f, offset), FrameControls(f, offset);
    Padded(|f| + 1 + if offset then 4 else 0);
    Blocks(d, c)
  }

  // The source, clock by clock

  const IdleBlock := Block(SYNC_CTRL, 0x1e)

  /** The gap still to be made after the last block of a frame. */
  function GapAfter(cfg: Config, b: Block, deficit: int): int {
    var lane := BlockTermLane(ByteAt(b.data, 0));
    if lane < 8 then cfg.ifg - (8 - lane) + deficit else cfg.ifg + deficit
  }

  function Emit(cfg: Config, t: Tx): (Tx, Block)
    requires t.ccl != []
  {
    var b, rest := t.ccl[0], t.ccl[1..];
    (t.(ccl := rest, ifgCnt := if rest == [] then GapAfter(cfg, b, t.deficit) else t.ifgCnt), b)
  }

  predicate Holding(cfg: Config, t: Tx) {
    t.ifgCnt > 7 || (!cfg.dic && t.ifgCnt > 0)
  }

  predicate Starting(cfg: Config, t: Tx) {
    !Holding(cfg, t) && t.ccl == [] && t.queue != []
  }

  predicate OffsetStart(t: Tx, force: bool) {
    t.ifgCnt >= 4 || force
  }

  function Started(t: Tx, force: bool): Tx
    requires t.queue != [] && Good(t.queue[0])
  {
    var offset := OffsetStart(t, force);
    Tx(t.queue[1..], FrameBlocks(t.queue[0], offset), 0, Max(if offset then Max(t.ifgCnt - 4, 0) else t.ifgCnt, 0))
  }

  lemma FrameBlocksExist(f: Frame, offset: bool)
    requires Good(f)
    ensures FrameBlocks(f, offset) != []
  {
  }

  function Advance(cfg: Config, force: bool, t: Tx): (Tx, Block)
    requires t.Valid()
  {
    if Holding(cfg, t) then (t.(ifgCnt := Max(t.ifgCnt - 8, 0)), IdleBlock)
    else if t.ccl != [] then Emit(cfg, t)
    else if t.queue != [] then
      assert t.queue[0] in t.queue;
      FrameBlocksExist(t.queue[0], OffsetStart(t, force));
      Emit(cfg, Started(t, force))
    else (t.(ifgCnt := 0, deficit := 0), IdleBlock)
  }

  // The sink, clock by clock

  datatype Received = Received(data: seq<Octet>, ctrl: seq<bool>, error: seq<bool>)

  datatype Rx = Rx(receiving: bool, d: seq<Octet>, c: seq<bool>, queue: seq<Received>)

  /** The first lane from `from` on that holds a control character, 8 when there is none. */
  function FirstControl(col: Column, from: nat): (lane: nat)
    requires col.Whole() && from <= 8
    ensures from <= lane <= 8 && DataLanes(col, from, lane) && (lane < 8 ==> col.c[lane])
    decreases 8 - from
  {
    if from == 8 || col.c[from] then from else FirstControl(col, from + 1)
  }

  /** A frame as received, with its error lanes marked. */
  function Parse(d: seq<Octet>, c: seq<bool>): Received
    requires |d| == |c|
  {
    Received(d, c, seq(|d|, i requires 0 <= i < |d| => c[i] && d[i] == ERROR))
  }

  function Accept(r: Rx, col: Column): Rx
    requires col.Whole() && |r.d| == |r.c|
  {
    if !r.receiving then
      if col.c[0] && col.d[0] == START then Rx(true, [PRE] + col.d[1..], [false] + col.c[1..], r.queue)
      else if col.c[4] && col.d[4] == START then Rx(true, [PRE] + col.d[5..], [false] + col.c[5..], r.queue)
      else r
    else
      var lane := FirstControl(col, 0);
      if lane == 8 then r.(d := r.d + col.d, c := r.c + col.c)
      else
        var keep := if col.d[lane] == TERM then lane else lane + 1;
        Rx(false, [], [], r.queue + [Parse(r.d + col.d[..keep], r.c + col.c[..keep])])
  }

  // What is delivered

  /** A frame that was started, and whether in lane 4. */
  datatype Sent = Sent(frame: Frame, offset: bool)

  /** Frames whose start fills its block; shorter ones do not make a start block. */
  predicate Kept(s: Sent) {
    |s.frame| >= if s.offset then 4 else 8
  }

  /** An error-free frame with these bytes. */
  function Clean(f: Frame): Received {
    Received(f, Copies(false, |f|), Copies(false, |f|))
  }

  function Delivered(log: seq<Sent>): seq<Received> {
    if log == [] then []
    else
      var s := log[|log| - 1];
      Delivered(log[..|log| - 1]) + if Kept(s) then [Clean(s.frame)] else []
  }

  // Columns of a frame

  /** What remains of a frame after n of its bytes. */
  function TailLanes(f: Frame, n: nat): seq<Octet>
    requires n <= |f|
  {
    PadLanes(f[n..] + [TERM])
  }

  function TailControls(f: Frame, n: nat): seq<bool>
    requires n <= |f|
  {
    PadControls(Copies(false, |f| - n) + [true])
  }

  function TailBlocks(f: Frame, n: nat): (blocks: seq<Block>)
    requires n <= |f|
    ensures blocks != []
  {
    Padded(|f| - n + 1);
    Blocks(TailLanes(f, n), TailControls(f, n))
  }

  lemma OneBlock(d: seq<Octet>, c: seq<bool>)
    requires |d| == |c| == 8
    ensures Blocks(d, c) == [Encode(Column(d, c))]
  {
    hide Encode;
    assert d[..8] == d && c[..8] == c && d[8..] == [] && c[8..] == [];
  }

  lemma PadPeriod(n: nat)
    requires n >= 8
    ensures PadLength(n) == PadLength(n - 8)
  {
  }

  /** A column of data, as long as the frame fills one. */
  lemma DataColumn(f: Frame, n: nat)
    requires n + 8 <= |f|
    ensures var col := Column(f[n..n + 8], Copies(false, 8));
      TailBlocks(f, n) == [Encode(col)] + TailBlocks(f, n + 8)
  {
    hide Encode;
    var d, c := TailLanes(f, n), TailControls(f, n);
    PadPeriod(|f| - n + 1);
    Padded(|f| - n + 1);
    assert d[..8] == f[n..n + 8] && c[..8] == Copies(false, 8);
    assert d[8..] == TailLanes(f, n + 8);
    assert c[8..] == TailControls(f, n + 8);
  }

  function LastColumn(f: Frame, n: nat): Column
    requires n <= |f| < n + 8
  {
    Column(f[n..] + [TERM] + Copies(IDLE, 7 - (|f| - n)), Copies(false, |f| - n) + [true] + Copies(true, 7 - (|f| - n)))
  }

  /** The last column: the bytes that are left, the terminate, and idles. */
  lemma TermColumn(f: Frame, n: nat)
    requires n <= |f| < n + 8
    ensures TailBlocks(f, n) == [Encode(LastColumn(f, n))]
    ensures Terminates(LastColumn(f, n), |f| - n) && ControlLanes(LastColumn(f, n), |f| - n + 1, 8)
  {
    hide Encode, Terminates, ControlLanes, TailLanes, TailControls, Blocks, LastColumn;
    LastLanes(f, n);
    LastForm(f, n);
    Padded(|f| - n + 1);
    OneBlock(TailLanes(f, n), TailControls(f, n));
  }

  lemma LastLanes(f: Frame, n: nat)
    requires n <= |f| < n + 8
    ensures |TailLanes(f, n)| == |TailControls(f, n)| == 8
    ensures LastColumn(f, n) == Column(TailLanes(f, n), TailControls(f, n))
  {
    assert PadLength(|f| - n + 1) == 7 - (|f| - n);
    hide PadLength;
  }

  lemma LastForm(f: Frame, n: nat)
    requires n <= |f| < n + 8
    ensures Terminates(LastColumn(f, n), |f| - n) && ControlLanes(LastColumn(f, n), |f| - n + 1, 8)
  {
  }

  /** The first column of a frame that is kept. */
  function FirstColumn(f: Frame, offset: bool): Column
    requires Kept(Sent(f, offset))
  {
    if offset then
      Column(Copies(IDLE, 4) + [START] + f[1..4], Copies(true, 4) + [true] + Copies(false, 3))
    else Column([START] + f[1..8], [true] + Copies(false, 7))
  }

  function FirstBytes(offset: bool): nat {
    if offset then 4 else 8
  }

  lemma LowStart(f: Frame)
    requires Good(f) && |f| >= 8
    ensures FrameBlocks(f, false) == [Encode(FirstColumn(f, false))] + TailBlocks(f, 8)
  {
    hide Encode, PadLength;
    var d, c := FrameLanes(f, false), FrameControls(f, false);
    PadPeriod(|f| + 1);
    Padded(|f| + 1);
    assert d == [START] + f[1..8] + TailLanes(f, 8);
    assert c == [true] + Copies(false, 7) + TailControls(f, 8);
    BlocksCons(FirstColumn(f, false), TailLanes(f, 8), TailControls(f, 8), d, c);
  }

  lemma HighStart(f: Frame)
    requires Good(f) && |f| >= 4
    ensures FrameBlocks(f, true) == [Encode(FirstColumn(f, true))] + TailBlocks(f, 4)
  {
    hide Encode, PadLength;
    var d, c := FrameLanes(f, true), FrameControls(f, true);
    PadPeriod(|f| + 5);
    Padded(|f| + 5);
    assert d == Copies(IDLE, 4) + [START] + f[1..4] + TailLanes(f, 4);
    assert c == Copies(true, 4) + [true] + Copies(false, 3) + TailControls(f, 4);
    BlocksCons(FirstColumn(f, true), TailLanes(f, 4), TailControls(f, 4), d, c);
  }

  lemma FirstBlock(d: seq<Octet>, c: seq<bool>)
    requires |d| == |c| >= 8 && |d| % 8 == 0
    ensures Column(d[..8], c[..8]).Whole() && |d[8..]| == |c[8..]| && |d[8..]| % 8 == 0
    ensures Blocks(d, c) == [Encode(Column(d[..8], c[..8]))] + Blocks(d[8..], c[8..])
  {
    hide Encode;
  }

  lemma FrontAndBack<T>(a: seq<T>, b: seq<T>)
    ensures (a + b)[..|a|] == a && (a + b)[|a|..] == b
  {
  }

  lemma BlocksCons(col: Column, d: seq<Octet>, c: seq<bool>, dAll: seq<Octet>, cAll: seq<bool>)
    requires |col.d| == |col.c| == 8 && |d| == |c| && |dAll| == |cAll| && |dAll| % 8 == 0
    requires dAll == col.d + d && cAll == col.c + c
    ensures |d| % 8 == 0 && Blocks(dAll, cAll) == [Encode(col)] + Blocks(d, c)
  {
    hide *;
    FrontAndBack(col.d, d);
    FrontAndBack(col.c, c);
    FirstBlock(dAll, cAll);
    assert Column(dAll[..8], cAll[..8]) == col;
  }

  lemma StartColumn(f: Frame, offset: bool)
    requires Good(f) && Kept(Sent(f, offset))
    ensures FrameBlocks(f, offset) == [Encode(FirstColumn(f, offset))] + TailBlocks(f, FirstBytes(offset))
    ensures Representable(FirstColumn(f, offset))
  {
    hide Encode, FrameBlocks, TailBlocks;
    if offset {
      HighStart(f);
      assert Starts(FirstColumn(f, true), 4) && ControlLanes(FirstColumn(f, true), 0, 4);
    } else {
      LowStart(f);
      assert Starts(FirstColumn(f, false), 0);
    }
  }

  /** A frame that is too short for a start block becomes one column of control codes. */
  lemma ShortColumn(f: Frame, offset: bool)
    requires Good(f) && !Kept(Sent(f, offset))
    ensures |FrameLanes(f, offset)| == |FrameControls(f, offset)| == 8
    ensures var col := Column(FrameLanes(f, offset), FrameControls(f, offset));
      && FrameBlocks(f, offset) == [Encode(col)]
      && Seen(col) == Column(FixedLanes(col, 0, 8), Repeat(true, 8))
  {
    ShortLanes(f, offset);
    hide Encode, FixedLanes, Seen, FrameLanes, FrameControls, Kept, Blocks, Repeat;
    var d, c := FrameLanes(f, offset), FrameControls(f, offset);
    OneBlock(d, c);
    NoBlockType(Column(d, c), if offset then 4 else 0, |f| + if offset then 4 else 0);
  }

  /** Its lanes: idles if offset, the start, the other bytes, the terminate, and idles again. */
  lemma ShortLanes(f: Frame, offset: bool)
    requires Good(f) && !Kept(Sent(f, offset))
    ensures |FrameLanes(f, offset)| == |FrameControls(f, offset)| == 8
    ensures var d, c := FrameLanes(f, offset), FrameControls(f, offset);
      var start: nat, stop: nat := if offset then 4 else 0, |f| + if offset then 4 else 0;
      && start < stop < 8 && c[0] && c[start] && d[start] == START && c[stop] && d[stop] == TERM
      && (start == 4 ==> d[0] == IDLE)
      && forall i | start < i < 8 && c[i] :: d[i] in {TERM, IDLE}
  {
    if offset {
      assert PadLength(|f| + 5) == 3 - |f|;
      hide PadLength;
      ShortLaid(Copies(IDLE, 4), Copies(true, 4), f, 3 - |f|);
      assert PadLanes(Copies(IDLE, 4) + [START] + f[1..] + [TERM])
          == Copies(IDLE, 4) + [START] + f[1..] + [TERM] + Copies(IDLE, 3 - |f|);
    } else {
      assert PadLength(|f| + 1) == 7 - |f|;
      hide PadLength;
      ShortLaid([], [], f, 7 - |f|);
      assert [] + [START] + f[1..] + [TERM] == [START] + f[1..] + [TERM];
    }
  }

  lemma ShortLaid(front: seq<Octet>, marks: seq<bool>, f: Frame, pad: nat)
    requires Good(f) && |front| == |marks| && |front| + |f| + 1 + pad == 8
    ensures var d := front + [START] + f[1..] + [TERM] + Copies(IDLE, pad);
      var c := marks + [true] + Copies(false, |f| - 1) + [true] + Copies(true, pad);
      var start, stop := |front|, |front| + |f|;
      && |d| == |c| == 8 && c[start] && d[start] == START && c[stop] && d[stop] == TERM
      && forall i | start < i < 8 && c[i] :: d[i] in {TERM, IDLE}
  {
  }

  /** A column with a start in lane 0 or 4 and a terminate behind it has no block type of its own. */
  lemma NoBlockType(col: Column, start: nat, stop: nat)
    requires col.Whole() && start in {0, 4} && start < stop < 8
    requires col.c[0] && col.c[start] && col.d[start] == START && col.c[stop] && col.d[stop] == TERM
    requires start == 4 ==> col.d[0] == IDLE
    requires forall i | start < i < 8 && col.c[i] :: col.d[i] in {TERM, IDLE}
    ensures Seen(col) == Column(FixedLanes(col, 0, 8), Repeat(true, 8))
  {
    hide FixedLanes;
    assert !DataLanes(col, 0, 8) && !Starts(col, 0) && !Starts(col, 4) && !Ordered(col, 0) && !Ordered(col, 4);
    assert TermLane(col, 0) == 8 by {
      forall lane | 0 <= lane < 8
        ensures !Terminates(col, lane)
      {
        assert lane > 0 ==> !DataLanes(col, 0, lane);
      }
    }
  }

  // Sink and source in step

  /** Before the source's next clock, the sink has taken in all that was sent. */
  ghost predicate Linked(log: seq<Sent>, t: Tx, r: Rx) {
    && t.Valid()
    && |r.d| == |r.c|
    && if t.ccl == [] then !r.receiving && r.queue == Delivered(log)
       else InFlight(log, t, r)
  }

  /** A frame is under way: the sink has its first bytes, and the source the blocks of the others. */
  ghost predicate InFlight(log: seq<Sent>, t: Tx, r: Rx) {
    && log != []
    && var f := log[|log| - 1].frame;
    var n := |r.d|;
    && Kept(log[|log| - 1]) && Good(f) && n <= |f|
    && r.receiving && r.d == f[..n] && r.c == Copies(false, n)
    && t.ccl == TailBlocks(f, n) && t.ifgCnt == 0
    && r.queue == Delivered(log[..|log| - 1])
  }

  lemma IdleColumn()
    ensures Decode(IdleBlock) == Column(Copies(IDLE, 8), Copies(true, 8))
  {
    forall k | 0 <= k < 8
      ensures CtrlOf(0x1e)[k] == IDLE
    {
      TypeFields(0x1e, k);
    }
    TypeFields(0x1e, 0);
    hide ByteAt, CtrlOf, DataOf, NibbleLow, NibbleHigh, OCode, BlockTermLane;
    assert CtrlOf(0x1e) == Copies(IDLE, 8);
    assert Repeat(true, 8) == Copies(true, 8);
  }

  /** Outside a frame the sink passes over idles. */
  lemma IdleIgnored(r: Rx)
    requires !r.receiving && |r.d| == |r.c|
    ensures Accept(r, Decode(IdleBlock)) == r
  {
    hide Decode;
    IdleColumn();
  }

  /** Control codes do not start a frame. */
  lemma ShortIgnored(r: Rx, col: Column)
    requires !r.receiving && |r.d| == |r.c| && col.Whole()
    requires Seen(col) == Column(FixedLanes(col, 0, 8), Repeat(true, 8))
    ensures Accept(r, Decode(Encode(col))) == r
  {
    hide Decode, Encode, Seen;
    DecodeEncode(col);
    assert Fixed(col.d[0], col.c[0]) != START && Fixed(col.d[4], col.c[4]) != START;
  }

  lemma DataAccepted(r: Rx, f: Frame, n: nat)
    requires r.receiving && n + 8 <= |f| && r.d == f[..n] && r.c == Copies(false, n)
    ensures var col := Column(f[n..n + 8], Copies(false, 8));
      Accept(r, Decode(Encode(col))) == Rx(true, f[..n + 8], Copies(false, n + 8), r.queue)
  {
    hide Decode, Encode;
    var col := Column(f[n..n + 8], Copies(false, 8));
    RoundTrip(col);
    assert f[..n] + f[n..n + 8] == f[..n + 8];
    assert Copies(false, n) + Copies(false, 8) == Copies(false, n + 8);
  }

  lemma LastAccepted(r: Rx, f: Frame, n: nat)
    requires r.receiving && n <= |f| < n + 8 && r.d == f[..n] && r.c == Copies(false, n)
    ensures Accept(r, Decode(Encode(LastColumn(f, n)))) == Rx(false, [], [], r.queue + [Clean(f)])
  {
    TermColumn(f, n);
    LastTaken(r, f, n);
    hide Decode, Encode, Accept, LastColumn, TailBlocks;
    RoundTrip(LastColumn(f, n));
  }

  lemma LastTaken(r: Rx, f: Frame, n: nat)
    requires r.receiving && n <= |f| < n + 8 && r.d == f[..n] && r.c == Copies(false, n)
    ensures Accept(r, LastColumn(f, n)) == Rx(false, [], [], r.queue + [Clean(f)])
  {
    var col, lane := LastColumn(f, n), |f| - n;
    LastLane(f, n);
    assert f[..n] + col.d[..lane] == f;
    assert Copies(false, n) + col.c[..lane] == Copies(false, |f|);
    CleanParsed(f);
    hide FirstControl, Parse, Clean;
  }

  lemma LastLane(f: Frame, n: nat)
    requires n <= |f| < n + 8
    ensures LastColumn(f, n).Whole() && FirstControl(LastColumn(f, n), 0) == |f| - n
    ensures LastColumn(f, n).d[|f| - n] == TERM
  {
    var c := LastColumn(f, n).c;
    assert c[|f| - n];
    assert forall i | 0 <= i < |f| - n :: !c[i];
    hide FirstControl;
  }

  lemma CleanParsed(f: Frame)
    ensures Parse(f, Copies(false, |f|)) == Clean(f)
  {
  }

  lemma FirstAccepted(r: Rx, f: Frame, offset: bool)
    requires !r.receiving && |r.d| == |r.c| && Good(f) && Kept(Sent(f, offset))
    ensures var n := FirstBytes(offset);
      Accept(r, Decode(Encode(FirstColumn(f, offset)))) == Rx(true, f[..n], Copies(false, n), r.queue)
  {
    hide Decode, Encode;
    var col, n := FirstColumn(f, offset), FirstBytes(offset);
    StartColumn(f, offset);
    RoundTrip(col);
    if offset {
      assert [PRE] + col.d[5..] == f[..4] && [false] + col.c[5..] == Copies(false, 4);
    } else {
      assert [PRE] + col.d[1..] == f[..8] && [false] + col.c[1..] == Copies(false, 8);
    }
  }

  /** The frames started, with the one that this clock starts. */
  function Logged(cfg: Config, force: bool, log: seq<Sent>, t: Tx): seq<Sent> {
    if Starting(cfg, t) then log + [Sent(t.queue[0], OffsetStart(t, force))] else log
  }

  lemma DeliveredNext(log: seq<Sent>, s: Sent)
    ensures Delivered(log + [s]) == Delivered(log) + if Kept(s) then [Clean(s.frame)] else []
  {
    assert (log + [s])[..|log|] == log;
  }

  /** One clock at both ends keeps them in step. */
  lemma ClockKeeps(cfg: Config, force: bool, log: seq<Sent>, t: Tx, r: Rx)
    requires Linked(log, t, r)
    ensures var next := Advance(cfg, force, t);
      Linked(Logged(cfg, force, log, t), next.0, Accept(r, Decode(next.1)))
  {
    hide Encode, Decode, TailBlocks, FrameBlocks, Accept, Delivered, GapAfter;
    if Holding(cfg, t) || (t.ccl == [] && t.queue == []) {
      IdleIgnored(r);
    } else if t.ccl != [] {
      var f, n := log[|log| - 1].frame, |r.d|;
      if n + 8 <= |f| {
        DataColumn(f, n);
        DataAccepted(r, f, n);
      } else {
        TermColumn(f, n);
        LastAccepted(r, f, n);
        DeliveredNext(log[..|log| - 1], log[|log| - 1]);
        assert log == log[..|log| - 1] + [log[|log| - 1]];
      }
    } else {
      var f, offset := t.queue[0], OffsetStart(t, force);
      assert f in t.queue;
      DeliveredNext(log, Sent(f, offset));
      assert (log + [Sent(f, offset)])[..|log|] == log;
      if Kept(Sent(f, offset)) {
        StartColumn(f, offset);
        FirstAccepted(r, f, offset);
      } else {
        ShortColumn(f, offset);
        ShortIgnored(r, Column(FrameLanes(f, offset), FrameControls(f, offset)));
      }
    }
  }

  // Runs of the link

  datatype Event = Send(frame: Frame) | Clock(force: bool)

  /** The link with the frames handed to the source and the frames started so far. */
  datatype Link = Link(sent: seq<Frame>, log: seq<Sent>, t: Tx, r: Rx)

  predicate Enabled(e: Event) {
    e.Send? ==> Good(e.frame)
  }

  function Step(cfg: Config, s: Link, e: Event): Link
    requires s.t.Valid() && |s.r.d| == |s.r.c|
  {
    match e
    case Send(f) => s.(sent := s.sent + [f], t := s.t.(queue := s.t.queue + [f]))
    case Clock(force) =>
      var next := Advance(cfg, force, s.t);
      Link(s.sent, Logged(cfg, force, s.log, s.t), next.0, Accept(s.r, Decode(next.1)))
  }

  function Frames(log: seq<Sent>): (frames: seq<Frame>)
    ensures |frames| == |log|
  {
    seq(|log|, i requires 0 <= i < |log| => log[i].frame)
  }

  ghost predicate Inv(s: Link) {
    Linked(s.log, s.t, s.r) && Frames(s.log) + s.t.queue == s.sent
  }

  /** A clock moves at most the first frame of the queue into the log. */
  lemma FramesNext(cfg: Config, force: bool, log: seq<Sent>, t: Tx)
    requires t.Valid()
    ensures Frames(Logged(cfg, force, log, t)) + Advance(cfg, force, t).0.queue == Frames(log) + t.queue
  {
    hide FrameBlocks, GapAfter;
    if Starting(cfg, t) {
      assert t.queue == [t.queue[0]] + t.queue[1..];
      assert Frames(log + [Sent(t.queue[0], OffsetStart(t, force))]) == Frames(log) + [t.queue[0]];
    }
  }

  /** A clock at which the source is not done brings it nearer: fewer frames, blocks, or lanes of gap to go. */
  lemma ClockProgress(cfg: Config, force: bool, t: Tx)
    requires t.Valid() && (t.queue != [] || t.ccl != [])
    ensures var next := Advance(cfg, force, t).0;
      || |next.queue| < |t.queue|
      || (|next.queue| == |t.queue| && |next.ccl| < |t.ccl|)
      || (|next.queue| == |t.queue| && |next.ccl| == |t.ccl| && Max(next.ifgCnt, 0) < Max(t.ifgCnt, 0))
  {
    hide FrameBlocks, GapAfter;
  }

  const Initial := Link([], [], Tx([], [], 0, 0), Rx(false, [], [], []))

  lemma StepKeeps(cfg: Config, s: Link, e: Event)
    requires Inv(s) && Enabled(e)
    ensures Inv(Step(cfg, s, e))
  {
    if e.Clock? {
      assert s.t.Valid() && |s.r.d| == |s.r.c|;
      ClockKeeps(cfg, e.force, s.log, s.t, s.r);
      FramesNext(cfg, e.force, s.log, s.t);
      hide Linked, Advance, Accept, Decode, Logged, Frames, Tx.Valid;
    } else {
      SendKeeps(s, e.frame);
    }
  }

  lemma SendKeeps(s: Link, f: Frame)
    requires Inv(s) && Good(f)
    ensures Inv(s.(sent := s.sent + [f], t := s.t.(queue := s.t.queue + [f])))
  {
    hide Delivered, TailBlocks, Kept, Frames;
    assert Frames(s.log) + (s.t.queue + [f]) == (Frames(s.log) + s.t.queue) + [f];
  }

  ghost predicate Run(cfg: Config, s: Link, events: seq<Event>, last: Link)
    decreases |events|
  {
    if events == [] then s == last
    else Enabled(events[0]) && s.t.Valid() && |s.r.d| == |s.r.c| && Run(cfg, Step(cfg, s, events[0]), events[1..], last)
  }

  lemma {:induction false} RunKeeps(cfg: Config, s: Link, events: seq<Event>, last: Link)
    requires Inv(s) && Run(cfg, s, events, last)
    ensures Inv(last)
    decreases |events|
  {
    hide Step, Inv, Enabled;
    if events != [] {
      StepKeeps(cfg, s, events[0]);
      RunKeeps(cfg, Step(cfg, s, events[0]), events[1..], last);
    }
  }

  lemma InitialInv()
    ensures Inv(Initial)
  {
  }

  /**
   * Whatever is sent and clocked from the start on: once the source has nothing left, the
   * sink has received exactly the frames that were kept, in order, and with their bytes.
   */
  lemma FramesDelivered(cfg: Config, events: seq<Event>, last: Link)
    requires Run(cfg, Initial, events, last)
    requires last.t.queue == [] && last.t.ccl == []
    ensures Frames(last.log) == last.sent && last.r.queue == Delivered(last.log)
  {
    InitialInv();
    RunKeeps(cfg, Initial, events, last);
  }

  /** The clocks from i on of an unending sequence of them, with the offsets forced as given. */
  function Clocks(forces: nat -> bool, i: nat, n: nat): seq<Event>
    decreases n
  {
    if n == 0 then [] else [Clock(forces(i))] + Clocks(forces, i + 1, n - 1)
  }

  /** Given clocks, the source comes to an end with what it has, whichever offsets are forced. */
  lemma {:induction false} Drains(cfg: Config, s: Link, forces: nat -> bool, i: nat) returns (n: nat, last: Link)
    requires Inv(s)
    ensures Run(cfg, s, Clocks(forces, i, n), last) && Inv(last)
    ensures last.sent == s.sent && last.t.queue == [] && last.t.ccl == []
    decreases |s.t.queue|, |s.t.ccl|, Max(s.t.ifgCnt, 0)
  {
    n, last := 0, s;
    if s.t.queue != [] || s.t.ccl != [] {
      var e := Clock(forces(i));
      StepKeeps(cfg, s, e);
      ClockProgress(cfg, forces(i), s.t);
      assert s.t.Valid() && |s.r.d| == |s.r.c|;
      hide Inv, Advance, Accept, Decode, Logged, FrameBlocks;
      n, last := Drains(cfg, Step(cfg, s, e), forces, i + 1);
      n := n + 1;
      assert Clocks(forces, i, n)[1..] == Clocks(forces, i + 1, n - 1);
    }
  }

  /**
   * After any run, clocking on delivers everything: within finitely many clocks the sink has
   * received exactly the frames sent, in order, but for those too short to start.
   */
  lemma EverythingArrives(cfg: Config, events: seq<Event>, s: Link, forces: nat -> bool) returns (n: nat, last: Link)
    requires Run(cfg, Initial, events, s)
    ensures Run(cfg, s, Clocks(forces, 0, n), last)
    ensures Frames(last.log) == s.sent && last.r.queue == Delivered(last.log)
    ensures (forall f <- s.sent :: |f| >= 8) ==> last.r.queue == CleanAll(s.sent)
  {
    InitialInv();
    RunKeeps(cfg, Initial, events, s);
    n, last := Drains(cfg, s, forces, 0);
    assert Frames(last.log) + [] == Frames(last.log);
    if forall f <- s.sent :: |f| >= 8 {
      LogsLead(last);
    }
  }

  function CleanAll(frames: seq<Frame>): (received: seq<Received>)
    ensures |received| == |frames|
  {
    seq(|frames|, i requires 0 <= i < |frames| => Clean(frames[i]))
  }

  lemma {:induction false} AllKept(log: seq<Sent>)
    requires forall s <- log :: |s.frame| >= 8
    ensures Delivered(log) == CleanAll(Frames(log))
    decreases |log|
  {
    if log != [] {
      var s, front := log[|log| - 1], log[..|log| - 1];
      AllKept(front);
      assert s in log;
      assert Frames(log) == Frames(front) + [s.frame];
      assert CleanAll(Frames(log)) == CleanAll(Frames(front)) + [Clean(s.frame)];
    }
  }

  /** Frames of at least eight bytes all arrive, whichever lane they start in; at any time those received lead. */
  lemma LongFramesArrive(cfg: Config, events: seq<Event>, last: Link)
    requires Run(cfg, Initial, events, last)
    requires forall f <- last.sent :: |f| >= 8
    ensures last.r.queue <= CleanAll(last.sent)
    ensures last.t.queue == [] && last.t.ccl == [] ==> last.r.queue == CleanAll(last.sent)
  {
    InitialInv();
    RunKeeps(cfg, Initial, events, last);
    LogsLead(last);
  }

  lemma LogsLead(s: Link)
    requires Inv(s) && forall f <- s.sent :: |f| >= 8
    ensures s.r.queue <= CleanAll(s.sent)
    ensures s.t.queue == [] && s.t.ccl == [] ==> s.r.queue == CleanAll(s.sent)
  {
    var n := DoneSoFar(s);
    hide Inv, Frames, CleanAll, Delivered;
    FirstFrames(s.log, s.sent, s.t.queue, n);
    forall x <- s.log[..n]
      ensures |x.frame| >= 8
    {
      assert x.frame in s.sent;
    }
    AllKept(s.log[..n]);
    FirstCleaned(s.sent, n);
    assert s.t.queue == [] && n == |s.log| ==> n == |s.sent|;
  }

  /** How many of the frames started have arrived as far as they ever will. */
  lemma DoneSoFar(s: Link) returns (n: nat)
    requires Inv(s)
    ensures n <= |s.log| && (s.t.ccl == [] ==> n == |s.log|)
    ensures s.r.queue == Delivered(s.log[..n]) && Frames(s.log) + s.t.queue == s.sent
  {
    hide Clean, TailBlocks, Kept, Delivered, Frames;
    n := if s.t.ccl == [] then |s.log| else |s.log| - 1;
    assert s.log[..|s.log|] == s.log;
  }

  lemma FirstFrames(log: seq<Sent>, sent: seq<Frame>, queue: seq<Frame>, n: nat)
    requires Frames(log) + queue == sent && n <= |log|
    ensures n <= |log| <= |sent| && Frames(log[..n]) == sent[..n] && forall x <- log[..n] :: x.frame in sent
  {
    forall i | 0 <= i < n
      ensures log[..n][i].frame in sent
    {
      assert sent[i] == Frames(log)[i];
    }
  }

  lemma FirstCleaned(frames: seq<Frame>, n: nat)
    requires n <= |frames|
    ensures CleanAll(frames[..n]) == CleanAll(frames)[..n]
  {
    hide Clean;
  }
}
