/**
 * The gaps between frames: as they are seen on the line, from a terminate up to the next
 * start, and as the source's counters make them (section 46.3.1.4 of IEEE 802.3).
 */
module BaseRGaps {
  import opened Numbers
  import opened Wrappers
  import opened Words
  import opened BlockCode
  import opened BaseRLink

  // Seen on the line

  /** The lanes since the last terminate, itself included, unless a frame is under way; and the gaps so far. */
  datatype Line = Line(open: Option<nat>, gaps: seq<nat>)

  const Quiet := Line(None, [])

  function Passed(l: Line, n: nat): Line {
    if l.open.Some? then l.(open := Some(l.open.value + n)) else l
  }

  function Mark(l: Line, x: Octet, control: bool): Line {
    if control && x == START then Line(None, if l.open.Some? then l.gaps + [l.open.value] else l.gaps)
    else if control && x == TERM then l.(open := Some(1))
    else Passed(l, 1)
  }

  /** The lanes of a column from i on. */
  function Observe(l: Line, col: Column, i: nat): Line
    requires col.Whole() && i <= 8
    decreases 8 - i
  {
    if i == 8 then l else Observe(Mark(l, col.d[i], col.c[i]), col, i + 1)
  }

  function Watch(l: Line, cols: seq<Column>): Line
    requires forall col <- cols :: col.Whole()
    decreases |cols|
  {
    if cols == [] then l else Watch(Observe(l, cols[0], 0), cols[1..])
  }

  predicate Marked(x: Octet, control: bool) {
    control && x in {START, TERM}
  }

  /** Lanes with neither a start nor a terminate only lengthen a gap. */
  lemma {:induction false} Unmarked(l: Line, col: Column, i: nat, j: nat)
    requires col.Whole() && i <= j <= 8 && forall k | i <= k < j :: !Marked(col.d[k], col.c[k])
    ensures Observe(l, col, i) == Observe(Passed(l, j - i), col, j)
    decreases j - i
  {
    hide *;
    if i < j {
      OneLane(l, col, i, j - i);
      Unmarked(Passed(l, 1), col, i + 1, j);
    } else {
      NoLanes(l);
    }
  }

  lemma OneLane(l: Line, col: Column, i: nat, n: nat)
    requires col.Whole() && i < 8 && !Marked(col.d[i], col.c[i]) && n > 0
    ensures Observe(l, col, i) == Observe(Passed(l, 1), col, i + 1)
    ensures Passed(Passed(l, 1), n - 1) == Passed(l, n)
  {
    assert Mark(l, col.d[i], col.c[i]) == Passed(l, 1);
  }

  lemma NoLanes(l: Line)
    ensures Passed(l, 0) == l
  {
  }

  lemma IdleSeen(l: Line)
    ensures Observe(l, Decode(IdleBlock), 0) == Passed(l, 8)
  {
    hide Decode;
    IdleColumn();
    Unmarked(l, Decode(IdleBlock), 0, 8);
  }

  /** A frame too short to start shows neither its start nor its end. */
  lemma ShortSeen(l: Line, col: Column)
    requires col.Whole() && Seen(col) == Column(FixedLanes(col, 0, 8), Repeat(true, 8))
    ensures Observe(l, Decode(Encode(col)), 0) == Passed(l, 8)
  {
    hide Decode, Encode, Seen;
    DecodeEncode(col);
    forall k | 0 <= k < 8
      ensures !Marked(FixedLanes(col, 0, 8)[k], true)
    {
      assert Fixed(col.d[k], col.c[k]) !in {START, TERM};
    }
    Unmarked(l, Decode(Encode(col)), 0, 8);
  }

  /** A start ends the gap, after the four idle lanes before it if it is in lane 4. */
  lemma StartSeen(l: Line, f: Frame, offset: bool)
    requires Good(f) && Kept(Sent(f, offset))
    ensures var before := Passed(l, if offset then 4 else 0);
      Observe(l, Decode(Encode(FirstColumn(f, offset))), 0)
      == Line(None, if l.open.Some? then l.gaps + [before.open.value] else l.gaps)
  {
    hide Decode, Encode;
    var col, lane := FirstColumn(f, offset), if offset then 4 else 0;
    StartColumn(f, offset);
    RoundTrip(col);
    assert col.d[lane] == START && col.c[lane];
    Unmarked(l, col, 0, lane);
    Unmarked(Mark(Passed(l, lane), col.d[lane], col.c[lane]), col, lane + 1, 8);
  }

  lemma DataSeen(l: Line, f: Frame, n: nat)
    requires n + 8 <= |f| && l.open.None?
    ensures Observe(l, Decode(Encode(Column(f[n..n + 8], Copies(false, 8)))), 0) == l
  {
    hide Decode, Encode;
    var col := Column(f[n..n + 8], Copies(false, 8));
    RoundTrip(col);
    Unmarked(l, col, 0, 8);
  }

  /** A terminate opens a gap, which the rest of its column belongs to. */
  lemma LastSeen(l: Line, f: Frame, n: nat)
    requires n <= |f| < n + 8 && l.open.None?
    ensures Observe(l, Decode(Encode(LastColumn(f, n))), 0) == l.(open := Some(8 - (|f| - n)))
  {
    hide Decode, Encode;
    var col, lane := LastColumn(f, n), |f| - n;
    TermColumn(f, n);
    RoundTrip(col);
    assert col.d[lane] == TERM && col.c[lane];
    Unmarked(l, col, 0, lane);
    Unmarked(Mark(l, col.d[lane], col.c[lane]), col, lane + 1, 8);
  }

  // In the source's books

  /** What kind of gap is open: none, one counted down to the next frame, or a longer one. */
  datatype Phase = Unknown | Tight | Loose

  /**
   * The lanes of the open gap, all gaps so far, and those of the back-to-back run of frames
   * under way, which began with `base` lanes owed.
   */
  datatype Gap = Gap(phase: Phase, lanes: nat, all: seq<nat>, run: seq<nat>, base: int)

  const NoGap := Gap(Unknown, 0, [], [], 0)

  function Ended(g: Gap, b: Block): Gap {
    var lane := BlockTermLane(ByteAt(b.data, 0));
    if lane < 8 then g.(phase := Tight, lanes := 8 - lane) else g.(phase := Unknown)
  }

  function Waited(g: Gap): Gap {
    g.(phase := if g.phase.Unknown? then Unknown else Loose, lanes := g.lanes + 8)
  }

  /** The lanes of the gap that a frame started now ends. */
  function GapLength(g: Gap, t: Tx, force: bool): nat {
    g.lanes + if OffsetStart(t, force) then 4 else 0
  }

  function Closed(g: Gap, t: Tx, force: bool): Gap
    requires t.queue != [] && Good(t.queue[0])
  {
    var length := GapLength(g, t, force);
    Gap(Unknown, 0, if g.phase.Unknown? then g.all else g.all + [length],
      if g.phase.Tight? then g.run + [length] else [],
      if g.phase.Tight? then g.base else Started(t, force).deficit)
  }

  /** One clock. A frame too short to start leaves the gap open. */
  function Account(cfg: Config, force: bool, g: Gap, t: Tx): Gap
    requires t.Valid()
  {
    if Holding(cfg, t) then g.(lanes := g.lanes + 8)
    else if t.ccl != [] then if |t.ccl| == 1 then Ended(g, t.ccl[0]) else g
    else if t.queue != [] && Kept(Sent(t.queue[0], OffsetStart(t, force))) then
      assert t.queue[0] in t.queue;
      Closed(g, t, force)
    else Waited(g)
  }

  /** The books balance: an open gap and what is left to count make the nominal gap and what is owed. */
  ghost predicate Balanced(cfg: Config, g: Gap, t: Tx) {
    && 0 <= t.deficit <= 3 && (cfg.ifg >= 8 ==> 0 <= t.ifgCnt)
    && (t.ccl != [] ==> t.ifgCnt == 0 && g.phase.Unknown?)
    && (!cfg.dic ==> t.deficit == 0)
    && (g.phase.Tight? && cfg.dic ==> g.lanes + t.ifgCnt == cfg.ifg + t.deficit)
    && (g.phase.Tight? && !cfg.dic ==>
          if t.ifgCnt > 0 then g.lanes + t.ifgCnt == cfg.ifg else cfg.ifg <= g.lanes < Max(cfg.ifg, 1) + 8)
    && (g.phase.Loose? ==> g.lanes > cfg.ifg)
    && (g.phase.Tight? && t.ifgCnt < 0 ==> g.lanes <= 8)
  }

  function Least(cfg: Config): int {
    if cfg.dic then cfg.ifg - 3 else cfg.ifg
  }

  /**
   * The longest gap between frames sent back to back: a column may have begun when a terminate
   * ends it, and without deficit idles starts wait for whole columns.
   */
  function Most(cfg: Config): int {
    if cfg.dic then Max(cfg.ifg + 3, 8) else Max(cfg.ifg, 1) + 7
  }

  /** What forcing an offset may add. */
  function Delay(force: bool): int {
    if force then 4 else 0
  }

  /** No gap is too short, and those of the run are the last of all. */
  ghost predicate GapsSound(cfg: Config, g: Gap) {
    && (forall x <- g.all :: x >= Least(cfg))
    && |g.run| <= |g.all| && g.all[|g.all| - |g.run|..] == g.run
  }

  /** None of the run is too long. */
  ghost predicate Prompt(cfg: Config, g: Gap, forced: bool) {
    forall x <- g.run :: x <= Most(cfg) + Delay(forced)
  }

  /** What the gaps of the run have borrowed is owed. */
  ghost predicate Conserved(cfg: Config, g: Gap, t: Tx) {
    && 0 <= g.base <= 3
    && (g.phase.Tight? || t.ccl != [] ==> Sum(g.run) + t.deficit == |g.run| * cfg.ifg + g.base)
  }

  /** How many blocks a frame makes: one if it is too short, more otherwise. */
  lemma BlockCount(f: Frame, offset: bool)
    requires Good(f)
    ensures Kept(Sent(f, offset)) <==> |FrameBlocks(f, offset)| > 1
  {
    hide Encode, FrameBlocks, TailBlocks;
    if Kept(Sent(f, offset)) {
      StartColumn(f, offset);
      assert TailBlocks(f, FirstBytes(offset)) != [];
    } else {
      ShortColumn(f, offset);
    }
  }

  lemma ClockBalances(cfg: Config, force: bool, g: Gap, t: Tx)
    requires t.Valid() && Balanced(cfg, g, t)
    ensures Balanced(cfg, Account(cfg, force, g, t), Advance(cfg, force, t).0)
  {
    if Starting(cfg, t) {
      StartBalances(cfg, force, g, t);
    } else {
      hide ByteAt, BlockTermLane, FrameBlocks, Encode, Kept, Started, Closed;
    }
  }

  lemma StartBalances(cfg: Config, force: bool, g: Gap, t: Tx)
    requires t.Valid() && Balanced(cfg, g, t) && Starting(cfg, t)
    ensures Balanced(cfg, Account(cfg, force, g, t), Advance(cfg, force, t).0)
  {
    assert t.queue[0] in t.queue;
    BlockCount(t.queue[0], OffsetStart(t, force));
    hide ByteAt, BlockTermLane, FrameBlocks, Encode, Kept;
  }

  /**
   * With deficit idles, and no forced offset, each gap of back-to-back frames is the
   * nominal one plus what was owed before it and less what is owed after it.
   */
  lemma GapLaw(cfg: Config, g: Gap, t: Tx)
    requires t.Valid() && cfg.ifg >= 8 && cfg.dic && Balanced(cfg, g, t) && g.phase.Tight? && Starting(cfg, t)
    ensures var after := Started(t, false).deficit;
      && GapLength(g, t, false) == cfg.ifg + t.deficit - after
      && 0 <= after <= 3
  {
    assert t.queue[0] in t.queue;
    hide FrameBlocks;
  }

  /**
   * No gap is shorter than the nominal one by more than three lanes; without deficit idles, none
   * is shorter at all. Between frames back to back none is longer than it must be either.
   */
  lemma GapBounds(cfg: Config, force: bool, g: Gap, t: Tx)
    requires t.Valid() && Balanced(cfg, g, t) && !g.phase.Unknown? && Starting(cfg, t)
    ensures GapLength(g, t, force) >= Least(cfg)
    ensures g.phase.Tight? ==> GapLength(g, t, force) <= Most(cfg) + Delay(force)
  {
  }

  lemma ClockSound(cfg: Config, force: bool, g: Gap, t: Tx)
    requires t.Valid() && Balanced(cfg, g, t) && GapsSound(cfg, g)
    ensures GapsSound(cfg, Account(cfg, force, g, t))
  {
    hide ByteAt, BlockTermLane, FrameBlocks, Encode, Kept;
    if Starting(cfg, t) {
      assert t.queue[0] in t.queue;
      if !g.phase.Unknown? {
        GapBounds(cfg, force, g, t);
      }
    }
  }

  lemma ClockPrompt(cfg: Config, force: bool, g: Gap, t: Tx, forced: bool)
    requires t.Valid() && Balanced(cfg, g, t) && Prompt(cfg, g, forced) && (force ==> forced)
    ensures Prompt(cfg, Account(cfg, force, g, t), forced)
  {
    hide ByteAt, BlockTermLane, FrameBlocks, Encode, Kept, Most;
    if Starting(cfg, t) {
      assert t.queue[0] in t.queue;
      if g.phase.Tight? {
        GapBounds(cfg, force, g, t);
      }
    }
  }

  lemma ClockConserves(cfg: Config, g: Gap, t: Tx)
    requires t.Valid() && cfg.ifg >= 8 && cfg.dic && Balanced(cfg, g, t) && Conserved(cfg, g, t)
    ensures Conserved(cfg, Account(cfg, false, g, t), Advance(cfg, false, t).0)
  {
    if Starting(cfg, t) {
      StartConserves(cfg, g, t);
    } else {
      hide ByteAt, BlockTermLane, FrameBlocks, Encode, Kept, Sum;
    }
  }

  lemma StartConserves(cfg: Config, g: Gap, t: Tx)
    requires t.Valid() && cfg.ifg >= 8 && cfg.dic && Balanced(cfg, g, t) && Conserved(cfg, g, t) && Starting(cfg, t)
    ensures Conserved(cfg, Account(cfg, false, g, t), Advance(cfg, false, t).0)
  {
    assert t.queue[0] in t.queue;
    BlockCount(t.queue[0], OffsetStart(t, false));
    if g.phase.Tight? {
      GapLaw(cfg, g, t);
      OneMoreGap(cfg.ifg, g.run, g.base, t.deficit, GapLength(g, t, false), Started(t, false).deficit);
    }
    hide ByteAt, BlockTermLane, FrameBlocks, Encode, Kept, Sum, GapLength;
    assert Advance(cfg, false, t).0.deficit == Started(t, false).deficit;
  }

  lemma OneMoreGap(ifg: nat, run: seq<nat>, base: int, before: int, x: nat, after: int)
    requires Sum(run) + before == |run| * ifg + base && x == ifg + before - after
    ensures Sum(run + [x]) + after == |run + [x]| * ifg + base
  {
    SumNext(run, x);
    hide Sum;
    assert (|run| + 1) * ifg == |run| * ifg + ifg;
  }

  // The books are right

  /** The line shows the gaps that the books say. */
  ghost predicate Shown(l: Line, g: Gap) {
    && l.gaps == g.all
    && l.open == if g.phase.Unknown? then None else Some(g.lanes)
  }

  lemma TermShown(f: Frame, n: nat, b: Block)
    requires n <= |f| < n + 8 && [b] == TailBlocks(f, n)
    ensures b == Encode(LastColumn(f, n)) && BlockTermLane(ByteAt(b.data, 0)) == |f| - n
  {
    hide Encode, ByteAt, BlockTermLane;
    TermColumn(f, n);
    TermBlockType(LastColumn(f, n), |f| - n);
  }

  /** The gap is counted from the lane in which the frame does terminate. */
  lemma GapFromTerminate(cfg: Config, f: Frame, n: nat, deficit: int)
    requires n <= |f| < n + 8
    ensures GapAfter(cfg, TailBlocks(f, n)[0], deficit) == cfg.ifg - (8 - (|f| - n)) + deficit
  {
    hide TailBlocks, ByteAt, BlockTermLane;
    TermColumn(f, n);
    TermShown(f, n, TailBlocks(f, n)[0]);
  }

  /** What the source emits at a clock, decoded, changes the line as its books change. */
  lemma ClockShown(cfg: Config, force: bool, s: Link, g: Gap, l: Line)
    requires Inv(s) && Balanced(cfg, g, s.t) && Shown(l, g)
    ensures s.t.Valid()
    ensures Shown(Observe(l, Decode(Advance(cfg, force, s.t).1), 0), Account(cfg, force, g, s.t))
  {
    var t := s.t;
    hide Encode, Decode, FrameBlocks, TailBlocks, ByteAt, BlockTermLane, Observe, Delivered;
    if Holding(cfg, t) || (t.ccl == [] && t.queue == []) {
      IdleSeen(l);
    } else if t.ccl != [] {
      var f, n := s.log[|s.log| - 1].frame, |s.r.d|;
      if n + 8 <= |f| {
        DataColumn(f, n);
        DataSeen(l, f, n);
      } else {
        TermColumn(f, n);
        TermShown(f, n, t.ccl[0]);
        LastSeen(l, f, n);
      }
    } else {
      StartShown(cfg, force, t, g, l);
    }
  }

  lemma StartShown(cfg: Config, force: bool, t: Tx, g: Gap, l: Line)
    requires t.Valid() && Starting(cfg, t) && Shown(l, g)
    ensures Shown(Observe(l, Decode(Advance(cfg, force, t).1), 0), Account(cfg, force, g, t))
  {
    hide Encode, Decode, FrameBlocks, TailBlocks, Observe;
    var f, offset := t.queue[0], OffsetStart(t, force);
    assert f in t.queue;
    if Kept(Sent(f, offset)) {
      StartColumn(f, offset);
      StartSeen(l, f, offset);
    } else {
      ShortColumn(f, offset);
      ShortSeen(l, Column(FrameLanes(f, offset), FrameControls(f, offset)));
    }
  }

  // Over runs

  /** The columns that the source emits in a run, as the far end decodes them. */
  ghost predicate Emits(cfg: Config, s: Link, events: seq<Event>, last: Link, cols: seq<Column>)
    decreases |events|
  {
    if events == [] then s == last && cols == []
    else
      && Enabled(events[0]) && s.t.Valid() && |s.r.d| == |s.r.c|
      && if events[0].Send? then Emits(cfg, Step(cfg, s, events[0]), events[1..], last, cols)
         else
           && cols != [] && cols[0] == Decode(Advance(cfg, events[0].force, s.t).1)
           && Emits(cfg, Step(cfg, s, events[0]), events[1..], last, cols[1..])
  }

  /** Every run emits columns. */
  lemma {:induction false} RunEmits(cfg: Config, s: Link, events: seq<Event>, last: Link) returns (cols: seq<Column>)
    requires Run(cfg, s, events, last)
    ensures Emits(cfg, s, events, last, cols) && forall col <- cols :: col.Whole()
    decreases |events|
  {
    hide Step, Advance, Decode;
    cols := [];
    if events != [] {
      var later := RunEmits(cfg, Step(cfg, s, events[0]), events[1..], last);
      cols := later;
      if events[0].Clock? {
        cols := [Decode(Advance(cfg, events[0].force, s.t).1)] + later;
        assert cols[1..] == later;
      }
    }
  }

  predicate Unforced(events: seq<Event>) {
    forall e <- events :: e.Clock? ==> !e.force
  }

  /** The books after a run. */
  ghost function Books(cfg: Config, s: Link, g: Gap, events: seq<Event>): Gap
    decreases |events|
  {
    if events == [] || !s.t.Valid() || |s.r.d| != |s.r.c| then g
    else
      Books(cfg, Step(cfg, s, events[0]), if events[0].Send? then g else Account(cfg, events[0].force, g, s.t),
        events[1..])
  }

  /** A run that begins with one event, and its books. */
  lemma OneEvent(cfg: Config, s: Link, g: Gap, e: Event, events: seq<Event>, last: Link)
    requires Enabled(e) && s.t.Valid() && |s.r.d| == |s.r.c| && Run(cfg, Step(cfg, s, e), events, last)
    ensures Run(cfg, s, [e] + events, last)
    ensures Books(cfg, s, g, [e] + events)
         == Books(cfg, Step(cfg, s, e), if e.Send? then g else Account(cfg, e.force, g, s.t), events)
    ensures Unforced(events) && (e.Clock? ==> !e.force) ==> Unforced([e] + events)
  {
    hide Step, Account, Tx.Valid, Enabled;
    assert ([e] + events)[1..] == events;
  }

  /** The books of a run are kept, and show what can be seen on the line. */
  lemma {:induction false} BooksKept(cfg: Config, s: Link, events: seq<Event>, last: Link, cols: seq<Column>, g: Gap,
                                     l: Line)
    requires Inv(s) && Balanced(cfg, g, s.t) && GapsSound(cfg, g) && Shown(l, g)
    requires Emits(cfg, s, events, last, cols) && forall col <- cols :: col.Whole()
    ensures var after := Books(cfg, s, g, events);
      Balanced(cfg, after, last.t) && GapsSound(cfg, after) && Shown(Watch(l, cols), after)
    decreases |events|
  {
    if events != [] {
      var e := events[0];
      StepKeeps(cfg, s, e);
      if e.Clock? {
        ClockBalances(cfg, e.force, g, s.t);
        ClockSound(cfg, e.force, g, s.t);
        ClockShown(cfg, e.force, s, g, l);
      }
      hide Inv, Account, Advance, Decode, Observe, Shown, GapsSound, Accept, Logged;
      if e.Clock? {
        BooksKept(cfg, Step(cfg, s, e), events[1..], last, cols[1..], Account(cfg, e.force, g, s.t),
          Observe(l, cols[0], 0));
      } else {
        BooksKept(cfg, Step(cfg, s, e), events[1..], last, cols, g, l);
      }
    }
  }

  /** Nor does any gap of a run between frames back to back grow too long. */
  lemma {:induction false} BooksPrompt(cfg: Config, s: Link, events: seq<Event>, last: Link, g: Gap, forced: bool)
    requires Run(cfg, s, events, last) && (Unforced(events) || forced)
    requires Inv(s) && Balanced(cfg, g, s.t) && Prompt(cfg, g, forced)
    ensures Prompt(cfg, Books(cfg, s, g, events), forced)
    decreases |events|
  {
    if events != [] {
      var e := events[0];
      StepKeeps(cfg, s, e);
      assert !forced ==> Unforced(events[1..]) && (e.Clock? ==> !e.force);
      if e.Clock? {
        ClockBalances(cfg, e.force, g, s.t);
        ClockPrompt(cfg, e.force, g, s.t, forced);
      }
      hide Inv, Account, Advance, Decode, Accept, Logged, Unforced, Prompt;
      var after := if e.Send? then g else Account(cfg, e.force, g, s.t);
      BooksPrompt(cfg, Step(cfg, s, e), events[1..], last, after, forced);
    }
  }

  /** With deficit idles and no forced offset, what the gaps borrow from the nominal one stays owed. */
  lemma {:induction false} BooksConserve(cfg: Config, s: Link, events: seq<Event>, last: Link, g: Gap)
    requires cfg.ifg >= 8 && cfg.dic && Unforced(events) && Run(cfg, s, events, last)
    requires Inv(s) && Balanced(cfg, g, s.t) && Conserved(cfg, g, s.t)
    ensures var after := Books(cfg, s, g, events); Balanced(cfg, after, last.t) && Conserved(cfg, after, last.t)
    decreases |events|
  {
    if events != [] {
      var e := events[0];
      StepKeeps(cfg, s, e);
      assert Unforced(events[1..]) && (e.Clock? ==> !e.force);
      if e.Clock? {
        ClockBalances(cfg, e.force, g, s.t);
        ClockConserves(cfg, g, s.t);
      }
      hide Inv, Account, Advance, Decode, Accept, Logged, Unforced;
      BooksConserve(cfg, Step(cfg, s, e), events[1..], last, if e.Send? then g else Account(cfg, e.force, g, s.t));
    }
  }

  lemma FromTheStart(cfg: Config)
    ensures Inv(Initial) && Balanced(cfg, NoGap, Initial.t) && GapsSound(cfg, NoGap) && Shown(Quiet, NoGap)
    ensures Conserved(cfg, NoGap, Initial.t)
  {
    InitialInv();
  }

  /**
   * In every run, with offsets forced or not, no gap on the line is shorter than the nominal
   * one by more than three lanes, nor, without deficit idles, at all. The books, from which
   * the source works, say of the gaps what the line shows.
   */
  lemma EveryGapLongEnough(cfg: Config, events: seq<Event>, last: Link, cols: seq<Column>)
    requires Emits(cfg, Initial, events, last, cols) && forall col <- cols :: col.Whole()
    ensures forall x <- Watch(Quiet, cols).gaps :: x >= if cfg.dic then cfg.ifg - 3 else cfg.ifg
    ensures var g := Books(cfg, Initial, NoGap, events);
      Watch(Quiet, cols).gaps == g.all && |g.run| <= |g.all| && g.all[|g.all| - |g.run|..] == g.run
  {
    FromTheStart(cfg);
    BooksKept(cfg, Initial, events, last, cols, NoGap, Quiet);
  }

  /**
   * However many frames have followed back to back, none of their gaps is longer than nominal by
   * more than three lanes, or seven without deficit idles, but for gaps of less than a column, and
   * for four lanes more where an offset may have been forced.
   */
  lemma NoGapTooLong(cfg: Config, events: seq<Event>, last: Link)
    requires Run(cfg, Initial, events, last)
    ensures forall x <- Books(cfg, Initial, NoGap, events).run :: x <= Most(cfg) + Delay(!Unforced(events))
  {
    FromTheStart(cfg);
    BooksPrompt(cfg, Initial, events, last, NoGap, !Unforced(events));
  }

  /** The gaps of frames sent back to back, the last on the line, make the nominal ones within three lanes. */
  ghost predicate AddedUp(cfg: Config, g: Gap, t: Tx) {
    g.phase.Tight? || t.ccl != [] ==> -3 <= Sum(g.run) - |g.run| * cfg.ifg <= 3
  }

  /** So it is, however many have been sent, with deficit idles and no forced offset. */
  lemma GapsAddUp(cfg: Config, events: seq<Event>, last: Link)
    requires cfg.ifg >= 8 && cfg.dic && Unforced(events) && Run(cfg, Initial, events, last)
    ensures AddedUp(cfg, Books(cfg, Initial, NoGap, events), last.t)
  {
    FromTheStart(cfg);
    BooksConserve(cfg, Initial, events, last, NoGap);
  }

  // Nominal gaps of less than a column

  const Eight: Frame := [PRE] + Copies(0, 7)

  /** Nothing is left to count when a frame of eight bytes ends, whose terminate opens a column. */
  ghost predicate Rested(t: Tx) {
    t.ccl == [] && t.ifgCnt <= 0 && t.deficit == 0 && forall f <- t.queue :: f == Eight
  }

  lemma EightBlocks()
    ensures |Eight| == 8 && Good(Eight) && |FrameBlocks(Eight, false)| == 2 && Kept(Sent(Eight, false))
    ensures BlockTermLane(ByteAt(FrameBlocks(Eight, false)[1].data, 0)) == 0
  {
    hide Encode, FrameBlocks, TailBlocks, ByteAt, BlockTermLane;
    LowStart(Eight);
    TermColumn(Eight, 8);
    TermShown(Eight, 8, TailBlocks(Eight, 8)[0]);
  }

  /** The first clock starts it and ends the gap before it. */
  lemma EightStarts(cfg: Config, t: Tx, g: Gap)
    requires t.Valid() && Rested(t) && t.queue != [] && !g.phase.Loose?
    ensures |FrameBlocks(Eight, false)| == 2
    ensures Advance(cfg, false, t).0 == Tx(t.queue[1..], [FrameBlocks(Eight, false)[1]], 0, 0)
    ensures var after := Account(cfg, false, g, t);
      after.phase.Unknown? && after.run == if g.phase.Tight? then g.run + [g.lanes] else []
  {
    EightBlocks();
    assert t.queue[0] in t.queue && t.queue[0] == Eight;
    hide Encode, FrameBlocks, ByteAt, BlockTermLane, Eight, Kept, GapAfter;
  }

  /** The second ends it. */
  lemma EightEnds(cfg: Config, t: Tx, g: Gap)
    requires cfg.ifg < 8 && t.Valid() && |FrameBlocks(Eight, false)| == 2
    requires t.ccl == [FrameBlocks(Eight, false)[1]] && t.ifgCnt == 0 && t.deficit == 0
    ensures Advance(cfg, false, t).0 == Tx(t.queue, [], cfg.ifg - 8, 0)
    ensures Account(cfg, false, g, t) == g.(phase := Tight, lanes := 8)
  {
    EightBlocks();
    hide Encode, FrameBlocks, ByteAt, BlockTermLane, Eight, Kept;
  }

  lemma InvMeans(s: Link)
    requires Inv(s)
    ensures s.t.Valid() && |s.r.d| == |s.r.c|
  {
  }

  lemma StepMeans(cfg: Config, s: Link)
    requires Inv(s)
    ensures s.t.Valid() && |s.r.d| == |s.r.c|
    ensures Inv(Step(cfg, s, Clock(false))) && Step(cfg, s, Clock(false)).t == Advance(cfg, false, s.t).0
  {
    InvMeans(s);
    StepKeeps(cfg, s, Clock(false));
    hide Advance, Inv;
  }

  lemma RestedNext(t: Tx, count: int)
    requires Rested(t) && t.queue != [] && count <= 0
    ensures Rested(Tx(t.queue[1..], [], count, 0))
  {
    hide Eight;
    assert forall f <- t.queue[1..] :: f in t.queue;
  }

  /** Two clocks send such a frame, eight lanes behind the one before. */
  lemma TwoClocks(cfg: Config, s: Link, g: Gap)
    requires cfg.ifg < 8 && Inv(s) && Rested(s.t) && s.t.queue != [] && !g.phase.Loose?
    ensures s.t.Valid() && |s.r.d| == |s.r.c|
    ensures var mid := Step(cfg, s, Clock(false));
      && mid.t.Valid() && |mid.r.d| == |mid.r.c|
      && var last, after := Step(cfg, mid, Clock(false)), Account(cfg, false, Account(cfg, false, g, s.t), mid.t);
      && Inv(last) && Rested(last.t) && last.t.queue == s.t.queue[1..]
      && after.phase.Tight? && after.lanes == 8 && after.run == if g.phase.Tight? then g.run + [g.lanes] else []
  {
    hide *;
    StepMeans(cfg, s);
    EightStarts(cfg, s.t, g);
    var mid := Step(cfg, s, Clock(false));
    StepMeans(cfg, mid);
    EightEnds(cfg, mid.t, Account(cfg, false, g, s.t));
    RestedNext(s.t, cfg.ifg - 8);
  }

  /** All frames in the queue are sent so. */
  lemma {:induction false} SentBackToBack(cfg: Config, s: Link, g: Gap) returns (events: seq<Event>, last: Link)
    requires cfg.ifg < 8 && Inv(s) && Rested(s.t) && g.phase.Tight? && g.lanes == 8
    ensures Run(cfg, s, events, last) && Unforced(events)
    ensures Books(cfg, s, g, events).phase.Tight?
    ensures Books(cfg, s, g, events).run == g.run + Copies(8, |s.t.queue|)
    decreases |s.t.queue|
  {
    hide *;
    if s.t.queue == [] {
      events, last := [], s;
      NoEvents(cfg, s, g);
    } else {
      events, last := SentThenMore(cfg, s, g);
      EightMore(g.run, |s.t.queue| - 1);
    }
  }

  lemma NoEvents(cfg: Config, s: Link, g: Gap)
    ensures Run(cfg, s, [], s) && Unforced([]) && Books(cfg, s, g, []) == g && g.run + Copies(8, 0) == g.run
  {
  }

  lemma EightMore(run: seq<nat>, n: nat)
    ensures run + [8] + Copies(8, n) == run + Copies(8, n + 1)
  {
  }

  /** One of them, and the others behind it. */
  lemma {:induction false} SentThenMore(cfg: Config, s: Link, g: Gap) returns (events: seq<Event>, last: Link)
    requires cfg.ifg < 8 && Inv(s) && Rested(s.t) && !g.phase.Loose? && s.t.queue != []
    ensures Run(cfg, s, events, last) && Unforced(events)
    ensures Books(cfg, s, g, events).phase.Tight?
    ensures Books(cfg, s, g, events).run
         == (if g.phase.Tight? then g.run + [g.lanes] else []) + Copies(8, |s.t.queue| - 1)
    decreases |s.t.queue|, 0
  {
    hide *;
    var tick := Clock(false);
    TwoClocks(cfg, s, g);
    var mid := Step(cfg, s, tick);
    var next, booked := Step(cfg, mid, tick), Account(cfg, false, g, s.t);
    var after := Account(cfg, false, booked, mid.t);
    events, last := SentBackToBack(cfg, next, after);
    ClockAllowed();
    OneEvent(cfg, mid, booked, tick, events, last);
    OneEvent(cfg, s, g, tick, [tick] + events, last);
    events := [tick] + ([tick] + events);
  }

  lemma ClockAllowed()
    ensures Enabled(Clock(false))
  {
  }

  /** The frames queued, and n more, are sent so when the line has been quiet. */
  lemma {:induction false} QueuedAndSent(cfg: Config, s: Link, n: nat) returns (events: seq<Event>, last: Link)
    requires cfg.ifg < 8 && Inv(s) && Rested(s.t) && |s.t.queue| + n > 0
    ensures Run(cfg, s, events, last) && Unforced(events)
    ensures Books(cfg, s, NoGap, events).phase.Tight?
    ensures Books(cfg, s, NoGap, events).run == Copies(8, |s.t.queue| + n - 1)
    decreases n
  {
    var quiet := NoGap;
    assert quiet.phase.Unknown?;
    hide *;
    if n == 0 {
      events, last := SentThenMore(cfg, s, quiet);
      assert [] + Copies(8, |s.t.queue| - 1) == Copies(8, |s.t.queue| - 1);
    } else {
      QueueOne(cfg, s);
      var next := Step(cfg, s, Send(Eight));
      events, last := QueuedAndSent(cfg, next, n - 1);
      OneEvent(cfg, s, quiet, Send(Eight), events, last);
      events := [Send(Eight)] + events;
    }
  }

  lemma QueueOne(cfg: Config, s: Link)
    requires Inv(s) && Rested(s.t)
    ensures Enabled(Send(Eight)) && s.t.Valid() && |s.r.d| == |s.r.c|
    ensures var next := Step(cfg, s, Send(Eight));
      Inv(next) && Rested(next.t) && |next.t.queue| == |s.t.queue| + 1
  {
    InvMeans(s);
    EightBlocks();
    StepKeeps(cfg, s, Send(Eight));
    hide Inv, Advance, Accept, Decode, FrameBlocks, Eight;
  }

  /** With a nominal gap of less than a column, five such frames have eight lanes between them each. */
  lemma GapsTooLong(cfg: Config) returns (events: seq<Event>, last: Link)
    requires cfg.ifg < 8
    ensures Run(cfg, Initial, events, last) && Unforced(events)
    ensures Books(cfg, Initial, NoGap, events).run == Copies(8, 4)
    ensures !AddedUp(cfg, Books(cfg, Initial, NoGap, events), last.t)
  {
    var start, none := Initial, NoGap;
    FromTheStart(cfg);
    assert Rested(start.t) && start.t.queue == [];
    hide *;
    events, last := QueuedAndSent(cfg, start, 5);
    FourEights(cfg, Books(cfg, start, none, events), last.t);
  }

  lemma FourEights(cfg: Config, g: Gap, t: Tx)
    requires cfg.ifg < 8 && g.phase.Tight? && g.run == Copies(8, 4)
    ensures !AddedUp(cfg, g, t)
  {
    assert g.run == [] + [8] + [8] + [8] + [8];
    SumNext([], 8);
    SumNext([] + [8], 8);
    SumNext([] + [8] + [8], 8);
    SumNext([] + [8] + [8] + [8], 8);
  }

  /** So the nominal gaps are kept on average exactly when they are of at least one column. */
  lemma GapsAddUpWhen(cfg: Config)
    requires cfg.dic
    ensures (forall events, last :: Run(cfg, Initial, events, last) && Unforced(events) ==>
                                      AddedUp(cfg, Books(cfg, Initial, NoGap, events), last.t))
            <==> cfg.ifg >= 8
  {
    hide *;
    if cfg.ifg >= 8 {
      forall events, last | Run(cfg, Initial, events, last) && Unforced(events)
        ensures AddedUp(cfg, Books(cfg, Initial, NoGap, events), last.t)
      {
        GapsAddUp(cfg, events, last);
      }
    } else {
      var events, last := GapsTooLong(cfg);
    }
  }
}
