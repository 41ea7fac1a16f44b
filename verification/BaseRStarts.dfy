/**
 * When frames start, and in which lane: the source's gap counter in closed form, read off
 * the columns that the far end decodes.
 */
module BaseRStarts {
  import opened Numbers
  import opened Words
  import opened BlockCode
  import opened BaseRLink
  import opened BaseRGaps

  // Columns seen

  predicate Idles(col: Column) {
    col == Column(Copies(0x07, 8), Copies(true, 8))
  }

  /** A frame starts, in lane 4 behind four idles, or in lane 0, and its bytes but the first follow. */
  predicate StartsIn(col: Column, f: Frame, offset: bool) {
    if offset then
      && |f| >= 4
      && col == Column(Copies(0x07, 4) + [0xfb] + f[1..4], Copies(true, 4) + [true] + Copies(false, 3))
    else
      && |f| >= 8
      && col == Column([0xfb] + f[1..8], [true] + Copies(false, 7))
  }

  /** Neither a start nor a terminate. */
  predicate NoMarks(col: Column) {
    col.Whole() && forall k | 0 <= k < 8 :: col.c[k] && col.d[k] != 0xfb && col.d[k] != 0xfd
  }

  // One clock

  lemma IdleClock(cfg: Config, force: bool, t: Tx)
    requires t.Valid() && (Holding(cfg, t) || (t.ccl == [] && t.queue == []))
    ensures Idles(Decode(Advance(cfg, force, t).1))
  {
    IdleColumn();
    hide Decode;
  }

  /** A clock at which nothing is held, sent or queued clears what was left of the gap. */
  lemma IdleClears(cfg: Config, force: bool, t: Tx)
    requires t.Valid() && !Holding(cfg, t) && t.ccl == [] && t.queue == []
    ensures Advance(cfg, force, t).0 == Tx([], [], 0, 0)
  {
  }

  /** What a started frame owes of the gap before it. */
  function Owed(count: int, offset: bool): int {
    Max(0, if offset then count - 4 else count)
  }

  lemma StartNow(cfg: Config, force: bool, t: Tx)
    requires t.Valid() && Starting(cfg, t) && Kept(Sent(t.queue[0], force || t.ifgCnt >= 4))
    ensures var next, offset := Advance(cfg, force, t), force || t.ifgCnt >= 4;
      && StartsIn(Decode(next.1), t.queue[0], offset)
      && next.0.queue == t.queue[1..] && next.0.ccl != [] && next.0.ifgCnt == 0
      && next.0.deficit == Owed(t.ifgCnt, offset)
  {
    var f, offset := t.queue[0], force || t.ifgCnt >= 4;
    assert f in t.queue;
    StartColumn(f, offset);
    RoundTrip(FirstColumn(f, offset));
    BlockCount(f, offset);
    FirstColumnIs(f, offset);
    hide Decode, Encode, FrameBlocks, TailBlocks, Representable, FirstColumn, GapAfter, StartsIn, Kept;
    assert Advance(cfg, force, t) == Emit(cfg, Started(t, force));
  }

  lemma FirstColumnIs(f: Frame, offset: bool)
    requires Kept(Sent(f, offset))
    ensures StartsIn(FirstColumn(f, offset), f, offset)
  {
  }

  /** A frame too short to start leaves the whole nominal gap to be counted. */
  lemma ShortNow(cfg: Config, force: bool, t: Tx)
    requires t.Valid() && Starting(cfg, t) && !Kept(Sent(t.queue[0], force || t.ifgCnt >= 4))
    ensures var next, offset := Advance(cfg, force, t), force || t.ifgCnt >= 4;
      && NoMarks(Decode(next.1))
      && next.0.queue == t.queue[1..] && next.0.ccl == []
      && next.0.deficit == Owed(t.ifgCnt, offset) && next.0.ifgCnt == cfg.ifg + next.0.deficit
  {
    var f, offset := t.queue[0], force || t.ifgCnt >= 4;
    assert f in t.queue;
    ShortBlock(f, offset);
    hide Decode, Encode, FrameBlocks, NoMarks, Kept, ByteAt, BlockTermLane;
    assert Advance(cfg, force, t) == Emit(cfg, Started(t, force));
  }

  lemma ShortBlock(f: Frame, offset: bool)
    requires Good(f) && !Kept(Sent(f, offset))
    ensures |FrameBlocks(f, offset)| == 1
    ensures var b := FrameBlocks(f, offset)[0]; NoMarks(Decode(b)) && BlockTermLane(ByteAt(b.data, 0)) == 8
  {
    ShortColumn(f, offset);
    var col := Column(FrameLanes(f, offset), FrameControls(f, offset));
    DecodeEncode(col);
    ControlOnly(col);
    hide Decode, Encode, FrameBlocks, Seen, FrameLanes, FrameControls, Kept, ByteAt, BlockTermLane;
    TwoHeaders(col);
    NotTerminated(Encode(col));
  }

  lemma TwoHeaders(col: Column)
    requires col.Whole()
    ensures Encode(col).header in {SYNC_DATA, SYNC_CTRL}
  {
    hide Or, Bytes, Codes, LowCodes, HighCodes, AllCodes, TermCodes, TermType, TermLane, DataLanes, Starts, Ordered;
    hide Signal;
  }

  lemma ControlOnly(col: Column)
    requires col.Whole()
    ensures NoMarks(Column(FixedLanes(col, 0, 8), Repeat(true, 8)))
  {
    var d := FixedLanes(col, 0, 8);
    forall k | 0 <= k < 8 ensures d[k] != START && d[k] != TERM {
      assert d[k] == Fixed(col.d[k], col.c[k]);
    }
    hide FixedLanes, Fixed;
  }

  /** A block that decodes to neither starts nor terminates, all control, has no terminate type. */
  lemma NotTerminated(b: Block)
    requires b.header in {SYNC_DATA, SYNC_CTRL} && NoMarks(Decode(b))
    ensures BlockTermLane(ByteAt(b.data, 0)) == 8
  {
    if b.header == SYNC_DATA {
      DataUnmarked(b);
    }
    hide Decode, ByteAt, TermType, NoMarks;
    var lane := BlockTermLane(ByteAt(b.data, 0));
    if lane < 8 {
      TermAt(b, lane);
    }
  }

  lemma DataUnmarked(b: Block)
    requires b.header == SYNC_DATA
    ensures !NoMarks(Decode(b))
  {
    hide DataOf, CtrlOf, ByteAt;
    assert !Decode(b).c[0];
  }

  lemma TermAt(b: Block, lane: nat)
    requires b.header == SYNC_CTRL && lane < 8 && ByteAt(b.data, 0) == TermType(lane)
    ensures !NoMarks(Decode(b))
  {
    TermDecoded(b.data, lane);
    hide Decode, ByteAt, TermType, DataOf, CtrlOf, Repeat;
    assert Decode(b).d[lane] == TERM;
  }

  // The gap counted down

  /** The clocks for which nothing is sent, when so many lanes are left to count. */
  function Waits(cfg: Config, count: int): nat {
    if cfg.dic then if count > 7 then count / 8 else 0
    else if count > 0 then (count + 7) / 8 else 0
  }

  /** The lanes left after them. */
  function LeftOver(cfg: Config, count: int): int {
    if cfg.dic then if count > 7 then count % 8 else count
    else if count > 0 then 0 else count
  }

  lemma {:induction false} GapCounted(cfg: Config, s: Link, forces: nat -> bool, i: nat)
    returns (last: Link, cols: seq<Column>)
    requires Inv(s) && s.t.ccl == []
    ensures var n := Waits(cfg, s.t.ifgCnt);
      && Emits(cfg, s, Clocks(forces, i, n), last, cols) && |cols| == n && forall col <- cols :: Idles(col)
    ensures Inv(last) && last.t == s.t.(ifgCnt := LeftOver(cfg, s.t.ifgCnt)) && last.sent == s.sent
    decreases Max(s.t.ifgCnt, 0)
  {
    last, cols := s, [];
    if Holding(cfg, s.t) {
      var e := Clock(forces(i));
      StepKeeps(cfg, s, e);
      IdleClock(cfg, forces(i), s.t);
      HeldOnce(cfg, s.t.ifgCnt);
      assert s.t.Valid() && |s.r.d| == |s.r.c|;
      hide Inv, Accept, Decode, Logged, FrameBlocks, Idles, Waits, LeftOver;
      var later;
      last, later := GapCounted(cfg, Step(cfg, s, e), forces, i + 1);
      cols := [Decode(Advance(cfg, forces(i), s.t).1)] + later;
      assert cols[1..] == later;
      var n := Waits(cfg, s.t.ifgCnt);
      assert Clocks(forces, i, n)[1..] == Clocks(forces, i + 1, n - 1);
    }
  }

  lemma HeldOnce(cfg: Config, count: int)
    requires count > 7 || (!cfg.dic && count > 0)
    ensures Waits(cfg, count) == Waits(cfg, Max(count - 8, 0)) + 1
    ensures LeftOver(cfg, count) == LeftOver(cfg, Max(count - 8, 0))
  {
  }

  lemma NothingHeld(cfg: Config, count: int)
    ensures !(LeftOver(cfg, count) > 7 || (!cfg.dic && LeftOver(cfg, count) > 0))
  {
  }

  lemma {:induction false} EmitsMore(cfg: Config, s: Link, first: seq<Event>, mid: Link, cols: seq<Column>,
                                     e: Event, last: Link, col: Column)
    requires Emits(cfg, s, first, mid, cols) && e.Clock?
    requires mid.t.Valid() && |mid.r.d| == |mid.r.c| && last == Step(cfg, mid, e)
    requires col == Decode(Advance(cfg, e.force, mid.t).1)
    ensures Emits(cfg, s, first + [e], last, cols + [col])
    decreases |first|
  {
    hide Step, Advance, Decode, Tx.Valid;
    if first == [] {
      assert first + [e] == [e] && cols + [col] == [col];
      assert [e][1..] == [] && [col][1..] == [];
    } else {
      assert (first + [e])[1..] == first[1..] + [e];
      if first[0].Send? {
        EmitsMore(cfg, Step(cfg, s, first[0]), first[1..], mid, cols, e, last, col);
      } else {
        EmitsMore(cfg, Step(cfg, s, first[0]), first[1..], mid, cols[1..], e, last, col);
        assert (cols + [col])[1..] == cols[1..] + [col];
      }
    }
  }

  lemma {:induction false} OneClockMore(forces: nat -> bool, i: nat, n: nat)
    ensures Clocks(forces, i, n) + [Clock(forces(i + n))] == Clocks(forces, i, n + 1)
    decreases n
  {
    if n > 0 {
      OneClockMore(forces, i + 1, n - 1);
    }
  }

  lemma Ready(cfg: Config, s: Link)
    requires Inv(s) && s.t.ccl == [] && s.t.queue != []
    requires !(s.t.ifgCnt > 7 || (!cfg.dic && s.t.ifgCnt > 0))
    ensures s.t.Valid() && |s.r.d| == |s.r.c| && Starting(cfg, s.t)
  {
  }

  lemma Clocked(cfg: Config, s: Link, force: bool)
    requires s.t.Valid() && |s.r.d| == |s.r.c|
    ensures Step(cfg, s, Clock(force)).t == Advance(cfg, force, s.t).0
  {
    hide Advance, Accept, Decode, Logged;
  }

  lemma Begun(cfg: Config, t: Tx, force: bool)
    requires t.Valid() && Starting(cfg, t)
    ensures var next, f, offset := Advance(cfg, force, t), t.queue[0], force || t.ifgCnt >= 4;
      && next.0.queue == t.queue[1..] && next.0.deficit == Owed(t.ifgCnt, offset)
      && if Kept(Sent(f, offset)) then StartsIn(Decode(next.1), f, offset) && next.0.ccl != []
         else NoMarks(Decode(next.1)) && next.0.ccl == [] && next.0.ifgCnt == cfg.ifg + next.0.deficit
  {
    hide StartsIn, NoMarks, Kept, Advance, Decode, Owed;
    if Kept(Sent(t.queue[0], force || t.ifgCnt >= 4)) {
      StartNow(cfg, force, t);
    } else {
      ShortNow(cfg, force, t);
    }
  }

  /**
   * Once a frame has ended and another is queued: the columns until it starts are counted
   * and idle, and it starts in lane 4 exactly if an offset is forced or four lanes are
   * left over. Those that were not made are owed to the next gap.
   */
  lemma NextStart(cfg: Config, s: Link, forces: nat -> bool, i: nat) returns (last: Link, cols: seq<Column>)
    requires Inv(s) && s.t.ccl == [] && s.t.queue != []
    ensures var n, left := Waits(cfg, s.t.ifgCnt), LeftOver(cfg, s.t.ifgCnt);
      var offset, f := forces(i + n) || left >= 4, s.t.queue[0];
      && Emits(cfg, s, Clocks(forces, i, n + 1), last, cols)
      && |cols| == n + 1 && (forall k | 0 <= k < n :: Idles(cols[k]))
      && last.t.queue == s.t.queue[1..] && last.t.deficit == Owed(left, offset)
      && if Kept(Sent(f, offset)) then StartsIn(cols[n], f, offset) && last.t.ccl != []
         else NoMarks(cols[n]) && last.t.ccl == [] && last.t.ifgCnt == cfg.ifg + last.t.deficit
  {
    hide *;
    var n := Waits(cfg, s.t.ifgCnt);
    var mid;
    mid, cols := GapCounted(cfg, s, forces, i);
    NothingHeld(cfg, s.t.ifgCnt);
    Ready(cfg, mid);
    var force := forces(i + n);
    Begun(cfg, mid.t, force);
    Clocked(cfg, mid, force);
    last := Step(cfg, mid, Clock(force));
    var col := Decode(Advance(cfg, force, mid.t).1);
    EmitsMore(cfg, s, Clocks(forces, i, n), mid, cols, Clock(force), last, col);
    OneClockMore(forces, i, n);
    cols := cols + [col];
  }

  // After an idle clock

  function Sends(frames: seq<Frame>): seq<Event> {
    if frames == [] then [] else [Send(frames[0])] + Sends(frames[1..])
  }

  lemma FirstSend(frames: seq<Frame>, more: seq<Event>)
    ensures Sends(frames) + more ==
      if frames == [] then more else [Send(frames[0])] + (Sends(frames[1..]) + more)
  {
    if frames != [] {
      assert ([Send(frames[0])] + Sends(frames[1..])) + more == [Send(frames[0])] + (Sends(frames[1..]) + more);
    }
  }

  lemma {:induction false} SendsOnly(cfg: Config, s: Link, frames: seq<Frame>, more: seq<Event>, last: Link,
                                     cols: seq<Column>, g: Gap)
    requires Inv(s) && Emits(cfg, s, Sends(frames) + more, last, cols)
    ensures var queued := s.(sent := s.sent + frames, t := s.t.(queue := s.t.queue + frames));
      && Inv(queued) && Emits(cfg, queued, more, last, cols)
      && Books(cfg, s, g, Sends(frames) + more) == Books(cfg, queued, g, more)
    decreases |frames|
  {
    hide *;
    FirstSend(frames, more);
    if frames == [] {
      assert s.sent + frames == s.sent && s.t.queue + frames == s.t.queue;
    } else {
      SendOne(cfg, s, frames[0], Sends(frames[1..]) + more, last, cols, g);
      var next := s.(sent := s.sent + [frames[0]], t := s.t.(queue := s.t.queue + [frames[0]]));
      SendsOnly(cfg, next, frames[1..], more, last, cols, g);
      assert s.sent + frames == (s.sent + [frames[0]]) + frames[1..];
      assert s.t.queue + frames == (s.t.queue + [frames[0]]) + frames[1..];
    }
  }

  lemma SendOne(cfg: Config, s: Link, f: Frame, more: seq<Event>, last: Link, cols: seq<Column>, g: Gap)
    requires Inv(s) && Emits(cfg, s, [Send(f)] + more, last, cols)
    ensures var next := s.(sent := s.sent + [f], t := s.t.(queue := s.t.queue + [f]));
      && Inv(next) && Emits(cfg, next, more, last, cols)
      && Books(cfg, s, g, [Send(f)] + more) == Books(cfg, next, g, more)
  {
    assert ([Send(f)] + more)[1..] == more;
    assert s.t.Valid() && |s.r.d| == |s.r.c|;
    hide Inv, Advance, Accept, Decode, Logged, Account, Tx.Valid, Good;
    StepKeeps(cfg, s, Send(f));
  }

  /**
   * In every run: a frame started after a clock at which the source was idle starts in lane 0,
   * unless an offset is forced, whatever gap came before; it owes nothing, and the run of
   * back-to-back gaps that begins with it starts with nothing owed.
   */
  lemma StartAfterIdle(cfg: Config, before: seq<Event>, s: Link, idle: bool, frames: seq<Frame>, force: bool,
                       last: Link, cols: seq<Column>)
    requires Run(cfg, Initial, before, s) && s.t.queue == [] && s.t.ccl == [] && !Holding(cfg, s.t)
    requires frames != [] && Kept(Sent(frames[0], force))
    requires Emits(cfg, s, [Clock(idle)] + (Sends(frames) + [Clock(force)]), last, cols)
    ensures |cols| == 2 && Idles(cols[0]) && StartsIn(cols[1], frames[0], force)
    ensures last.t.deficit == 0
    ensures
      var g := Books(cfg, Initial, NoGap, before);
      var after := Books(cfg, s, g, [Clock(idle)] + (Sends(frames) + [Clock(force)]));
      after.run == [] && after.base == 0
  {
    FromTheStart(cfg);
    RunKeeps(cfg, Initial, before, s);
    var more := Sends(frames) + [Clock(force)];
    assert ([Clock(idle)] + more)[1..] == more;
    assert s.t.Valid() && |s.r.d| == |s.r.c|;
    IdleClock(cfg, idle, s.t);
    IdleClears(cfg, idle, s.t);
    StepKeeps(cfg, s, Clock(idle));
    var g := Books(cfg, Initial, NoGap, before);
    NotTight(cfg, idle, g, s.t);
    AfterIdle(cfg, Step(cfg, s, Clock(idle)), frames, force, last, cols[1..], Account(cfg, idle, g, s.t));
  }

  /** The books know of no gap counted down to the next frame any more. */
  lemma NotTight(cfg: Config, force: bool, g: Gap, t: Tx)
    requires t.Valid() && !Holding(cfg, t) && t.ccl == [] && t.queue == []
    ensures !Account(cfg, force, g, t).phase.Tight?
  {
  }

  lemma AfterIdle(cfg: Config, s: Link, frames: seq<Frame>, force: bool, last: Link, cols: seq<Column>, g: Gap)
    requires Inv(s) && s.t == Tx([], [], 0, 0) && !g.phase.Tight?
    requires frames != [] && Kept(Sent(frames[0], force))
    requires Emits(cfg, s, Sends(frames) + [Clock(force)], last, cols)
    ensures |cols| == 1 && StartsIn(cols[0], frames[0], force) && last.t.deficit == 0
    ensures var after := Books(cfg, s, g, Sends(frames) + [Clock(force)]); after.run == [] && after.base == 0
  {
    var e := Clock(force);
    SendsOnly(cfg, s, frames, [e], last, cols, g);
    var queued := s.(sent := s.sent + frames, t := s.t.(queue := s.t.queue + frames));
    assert s.t.queue + frames == frames;
    assert [e][1..] == [];
    assert queued.t.Valid() && |queued.r.d| == |queued.r.c|;
    StartNow(cfg, force, queued.t);
    BooksBegin(cfg, force, g, queued.t);
    hide Inv, StartsIn, Kept, Advance, Decode, Accept, Logged, Account, Sends;
    assert Emits(cfg, Step(cfg, queued, e), [], last, cols[1..]);
    assert Books(cfg, queued, g, [e]) == Account(cfg, force, g, queued.t);
  }

  lemma BooksBegin(cfg: Config, force: bool, g: Gap, t: Tx)
    requires t.Valid() && t.queue != [] && t.ccl == [] && t.ifgCnt == 0 && t.deficit == 0
    requires !g.phase.Tight? && Kept(Sent(t.queue[0], force))
    ensures var after := Account(cfg, force, g, t); after.run == [] && after.base == 0
  {
    assert t.queue[0] in t.queue;
    hide FrameBlocks;
  }
}
