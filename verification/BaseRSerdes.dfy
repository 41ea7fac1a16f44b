/**
 * BaseRSerdesSource and BaseRSerdesSink: BaseRLink over a scrambled, optionally
 * bit-reversed, serdes interface, one 64-bit word and a two-bit header to a clock.
 */
module BaseRSerdes {
  import opened Numbers
  import opened Words
  import opened BlockCode
  import C = BlockCoder
  import L = BaseRLink
  import B = Scrambler
  import S = ScrambledWord

  /** The two bits of a header in the opposite order. */
  function Swapped(h: Word): Word { ((h >> 1) & 1) | ((h & 1) << 1) }

  /** The low bit of either header is the high bit of the other. */
  predicate HeaderMirrored(h: Word, r: Word) {
    r < 4 && (r & 2 != 0 <==> h & 1 != 0) && (r & 1 != 0 <==> h & 2 != 0)
  }

  lemma SwappedMirrors(h: Word)
    ensures HeaderMirrored(h, Swapped(h))
  {
  }

  /** Reversing what arrives undoes reversing what is sent: a data header is 1 on the line, a control header 2. */
  lemma MirroredHeader(h: Word, r: Word)
    requires h < 4 && HeaderMirrored(h, r)
    ensures Swapped(r) == h
    ensures (h == 2 ==> r == 1) && (h == 1 ==> r == 2)
  {
  }

  class Source {
    const ifg: nat
    const enableDic: bool
    const scramble: bool
    const reverse: bool
    var forceOffset: bool
    var queue: seq<L.Frame>
    var ccl: seq<Block>
    var ifgCnt: int
    var deficit: int
    var state: Word

    function Line(): L.Tx
      reads this
    {
      L.Tx(queue, ccl, ifgCnt, deficit)
    }

    function Config(): L.Config {
      L.Config(ifg, enableDic)
    }

    constructor (ifg: nat, enableDic: bool, scramble: bool, reverse: bool)
      ensures Line() == L.Initial.t && state == 0 && !forceOffset
      ensures Config() == L.Config(ifg, enableDic) && this.scramble == scramble && this.reverse == reverse
    {
      this.ifg, this.enableDic, this.scramble, this.reverse := ifg, enableDic, scramble, reverse;
      forceOffset, queue, ccl, ifgCnt, deficit, state := false, [], [], 0, 0, 0;
    }

    method Send(frame: L.Frame)
      modifies this`queue
      ensures queue == old(queue) + [frame]
    {
      queue := queue + [frame];
    }

    /** XGMIIFrame.build for a frame without errors or control characters. */
    static method Build(frame: L.Frame) returns (d: seq<Octet>, c: seq<bool>)
      ensures d == frame && c == L.Copies(false, |frame|)
    {
      d, c := [], [];
      for i := 0 to |frame|
        invariant d == frame[..i] && c == L.Copies(false, i)
      {
        d, c := d + [frame[i]], c + [false];
      }
    }

    /** Idles up to a multiple of eight lanes. */
    static method Pad(d: seq<Octet>, c: seq<bool>) returns (dl: seq<Octet>, cl: seq<bool>)
      requires |d| == |c|
      ensures dl == L.PadLanes(d) && cl == L.PadControls(c)
    {
      dl, cl := d, c;
      if |d| % 8 != 0 {
        for k := 0 to 8 - |d| % 8
          invariant dl == d + L.Copies(IDLE, k) && cl == c + L.Copies(true, k)
        {
          dl, cl := dl + [IDLE], cl + [true];
        }
      }
    }

    /** The encoding loop, a column at a time. */
    static method EncodeLanes(dl: seq<Octet>, cl: seq<bool>) returns (blocks: seq<Block>)
      requires |dl| == |cl| && |dl| % 8 == 0
      ensures blocks == L.Blocks(dl, cl)
    {
      hide Encode;
      blocks := [];
      var k := 0;
      while k < |dl|
        invariant k <= |dl| && k % 8 == 0
        invariant blocks + L.Blocks(dl[k..], cl[k..]) == L.Blocks(dl, cl)
      {
        var col := Column(dl[k..k + 8], cl[k..k + 8]);
        assert dl[k..][..8] == col.d && cl[k..][..8] == col.c;
        assert dl[k..][8..] == dl[k + 8..] && cl[k..][8..] == cl[k + 8..];
        var b := C.EncodeColumn(col);
        blocks := blocks + [b];
        k := k + 8;
      }
    }

    /** The next frame of the queue is taken, laid out and encoded. */
    method Start()
      requires Line().Valid() && queue != [] && L.Good(queue[0])
      modifies this`queue, this`ccl, this`ifgCnt, this`deficit
      ensures Line() == L.Started(old(Line()), forceOffset)
    {
      hide Encode, L.Blocks;
      var frame := queue[0];
      queue := queue[1..];
      var dl, cl := Build(frame);
      dl, cl := dl[0 := START], cl[0 := true];
      dl, cl := dl + [TERM], cl + [true];
      assert dl == [START] + frame[1..] + [TERM] && cl == [true] + L.Copies(false, |frame| - 1) + [true];
      ghost var offset := ifgCnt >= 4 || forceOffset;
      if ifgCnt >= 4 || forceOffset {
        ifgCnt := Max(ifgCnt - 4, 0);
        dl, cl := L.Copies(IDLE, 4) + dl, L.Copies(true, 4) + cl;
      }
      assert dl == (if offset then L.Copies(IDLE, 4) else []) + [START] + frame[1..] + [TERM];
      assert cl == (if offset then L.Copies(true, 4) else []) + [true] + L.Copies(false, |frame| - 1) + [true];
      deficit := Max(ifgCnt, 0);
      ifgCnt := 0;
      L.Padded(|dl|);
      dl, cl := Pad(dl, cl);
      ccl := EncodeLanes(dl, cl);
    }

    method Pop() returns (b: Block)
      requires ccl != []
      modifies this`ccl, this`ifgCnt
      ensures (Line(), b) == L.Emit(Config(), old(Line()))
    {
      hide ByteAt, BlockTermLane;
      b := ccl[0];
      ccl := ccl[1..];
      if ccl == [] {
        var lane := BlockTermLane(ByteAt(b.data, 0));
        if lane < 8 {
          ifgCnt := ifg - (8 - lane) + deficit;
        } else {
          ifgCnt := ifg + deficit;
        }
      }
    }

    /** The block for this clock. */
    method Next() returns (b: Block)
      requires Line().Valid()
      modifies this`queue, this`ccl, this`ifgCnt, this`deficit
      ensures (Line(), b) == L.Advance(Config(), forceOffset, old(Line()))
    {
      hide L.Emit, L.Started;
      b := L.IdleBlock;
      if ifgCnt > 7 || (!enableDic && ifgCnt > 0) {
        ifgCnt := Max(ifgCnt - 8, 0);
      } else if ccl != [] {
        b := Pop();
      } else if queue != [] {
        assert queue[0] in queue;
        StartedBlocks(Line(), forceOffset);
        Start();
        b := Pop();
      } else {
        ifgCnt, deficit := 0, 0;
      }
    }

    /** One clock: the block scrambled, and the word and the header reversed, as configured. */
    method Clock() returns (header: Word, data: Word, ghost b: Block, ghost w: Word)
      requires Line().Valid()
      modifies this`queue, this`ccl, this`ifgCnt, this`deficit, this`state
      ensures (Line(), b) == L.Advance(Config(), forceOffset, old(Line()))
      ensures OnWire(scramble, reverse, old(state), state, b, w, header, data)
    {
      hide L.Advance, Swapped, HeaderMirrored;
      var block := Next();
      b := block;
      header, data := block.header, block.data;
      if scramble {
        data, state := S.ScrambleWord(state, data);
      }
      w := data;
      if reverse {
        data := S.ReverseWord(data);
        SwappedMirrors(header);
        header := Swapped(header);
      }
    }
  }

  lemma StartedBlocks(t: L.Tx, force: bool)
    requires t.queue != [] && L.Good(t.queue[0])
    ensures L.Started(t, force).ccl != []
  {
    L.FrameBlocksExist(t.queue[0], L.OffsetStart(t, force));
    hide Encode, L.FrameBlocks;
  }

  /** Block b as the word w, scrambled or not, and w as data and header, reversed or not. */
  ghost predicate OnWire(scramble: bool, reverse: bool, before: Word, after: Word, b: Block, w: Word,
                         header: Word, data: Word)
  {
    && (if scramble then
          && S.Bits(w) == B.Scramble(S.Abs(before), S.Bits(b.data))
          && S.Abs(after) == B.After(S.Abs(before), S.Bits(w))
        else w == b.data && after == before)
    && (if reverse then S.Mirrored(w, data) && HeaderMirrored(b.header, header) else data == w && header == b.header)
  }

  lemma OneMore<T>(a: seq<T>, s: seq<T>, i: nat)
    requires i < |s|
    ensures (a + s[..i]) + [s[i]] == a + s[..i + 1]
  {
  }

  class Sink {
    const scramble: bool
    const reverse: bool
    var receiving: bool
    var d: seq<Octet>
    var c: seq<bool>
    var queue: seq<L.Received>
    var state: Word

    function Line(): L.Rx
      reads this
    {
      L.Rx(receiving, d, c, queue)
    }

    constructor (scramble: bool, reverse: bool)
      ensures Line() == L.Initial.r && state == 0 && this.scramble == scramble && this.reverse == reverse
    {
      this.scramble, this.reverse := scramble, reverse;
      receiving, d, c, queue, state := false, [], [], [], 0;
    }

    /** The framer: a column taken in, lane by lane up to a control character. */
    method Take(col: Column)
      requires col.Whole() && |d| == |c|
      modifies this`receiving, this`d, this`c, this`queue
      ensures Line() == L.Accept(old(Line()), col)
    {
      if !receiving {
        if col.c[0] && col.d[0] == START {
          receiving, d, c := true, [L.PRE] + col.d[1..], [false] + col.c[1..];
        } else if col.c[4] && col.d[4] == START {
          receiving, d, c := true, [L.PRE] + col.d[5..], [false] + col.c[5..];
        }
        return;
      }
      var i := 0;
      while i < 8 && !col.c[i]
        invariant receiving && queue == old(queue)
        invariant i <= 8 && L.FirstControl(col, i) == L.FirstControl(col, 0)
        invariant d == old(d) + col.d[..i] && c == old(c) + col.c[..i]
      {
        OneMore(old(d), col.d, i);
        OneMore(old(c), col.c, i);
        d, c := d + [col.d[i]], c + [col.c[i]];
        i := i + 1;
      }
      assert i == L.FirstControl(col, 0);
      assert col.d[..8] == col.d && col.c[..8] == col.c;
      if i < 8 {
        if col.d[i] != TERM {
          OneMore(old(d), col.d, i);
          OneMore(old(c), col.c, i);
          d, c := d + [col.d[i]], c + [col.c[i]];
        }
        queue := queue + [L.Parse(d, c)];
        receiving, d, c := false, [], [];
      }
    }

    /**
     * The word and the header put right again, if the scramblers were in step; one word
     * brings them in step if they were not.
     */
    method Restore(header: Word, data: Word, ghost peer: Word, ghost peerNext: Word, ghost b: Block, ghost w: Word)
      returns (h: Word, word: Word)
      requires b.header < 4
      requires OnWire(scramble, reverse, peer, peerNext, b, w, header, data)
      modifies this`state
      ensures h == b.header
      ensures (scramble ==> S.Abs(old(state)) == S.Abs(peer)) ==> word == b.data
      ensures scramble ==> S.Abs(state) == S.Abs(peerNext)
    {
      hide Swapped, HeaderMirrored, S.Mirrored, S.Abs, S.Bits, B.After, B.Scramble, B.Descramble;
      h, word := header, data;
      if reverse {
        word := S.ReverseWord(data);
        S.MirroredTwice(w, data, word);
        MirroredHeader(b.header, header);
        h := Swapped(header);
      }
      if scramble {
        ghost var before := state;
        var plain;
        plain, state := S.DescrambleWord(state, word);
        if S.Abs(before) == S.Abs(peer) {
          S.WordRoundTrip(peer, before, b.data, w, plain);
        }
        S.InStepAfterOneWord(before, peer, w);
        word := plain;
      }
    }

    /** One clock: the word and the header put right again, decoded and framed. */
    method Clock(header: Word, data: Word, ghost peer: Word, ghost peerNext: Word, ghost b: Block, ghost w: Word)
      returns (ghost seen: Column)
      requires |d| == |c| && b.header < 4
      requires OnWire(scramble, reverse, peer, peerNext, b, w, header, data)
      modifies this`receiving, this`d, this`c, this`queue, this`state
      ensures seen.Whole() && Line() == L.Accept(old(Line()), seen)
      ensures (scramble ==> S.Abs(old(state)) == S.Abs(peer)) ==> seen == Decode(b)
      ensures scramble ==> S.Abs(state) == S.Abs(peerNext)
    {
      hide OnWire, Decode, L.Accept, S.Abs;
      var h, word := Restore(header, data, peer, peerNext, b, w);
      var col := C.DecodeBlock(Block(h, word));
      seen := col;
      Take(col);
    }
  }

  lemma EncodedHeader(col: Column)
    requires col.Whole()
    ensures Encode(col).header < 4
  {
    hide Or, Bytes, Codes, LowCodes, HighCodes, AllCodes, TermCodes, TermType, TermLane, DataLanes, Starts, Ordered,
        Signal;
  }

  lemma {:induction false} BlockHeaders(d: seq<Octet>, c: seq<bool>)
    requires |d| == |c| && |d| % 8 == 0
    ensures forall b <- L.Blocks(d, c) :: b.header < 4
    decreases |d|
  {
    hide Encode;
    if d != [] {
      EncodedHeader(Column(d[..8], c[..8]));
      BlockHeaders(d[8..], c[8..]);
    }
  }

  /** Headers are two bits wide. */
  lemma HeaderBound(cfg: L.Config, force: bool, t: L.Tx, log: seq<L.Sent>, r: L.Rx)
    requires L.Linked(log, t, r)
    ensures L.Advance(cfg, force, t).1.header < 4
  {
    hide Encode, L.Blocks, L.GapAfter, L.Delivered, L.Kept;
    if t.ccl != [] {
      var f, n := log[|log| - 1].frame, |r.d|;
      L.Padded(|f| - n + 1);
      BlockHeaders(L.TailLanes(f, n), L.TailControls(f, n));
    } else if t.queue != [] {
      var f, offset := t.queue[0], L.OffsetStart(t, force);
      assert f in t.queue;
      StartedBlocks(t, force);
      L.Padded(|f| + 1 + if offset then 4 else 0);
      BlockHeaders(L.FrameLanes(f, offset), L.FrameControls(f, offset));
    }
  }

  /** Source and sink agree on how the line is driven. */
  predicate SameLine(source: Source, sink: Sink) {
    source.scramble == sink.scramble && source.reverse == sink.reverse
  }

  /** And their scramblers are in step. */
  ghost predicate Matched(source: Source, sink: Sink)
    reads source, sink
  {
    SameLine(source, sink) && (source.scramble ==> S.Abs(source.state) == S.Abs(sink.state))
  }

  /** A sink without the frames that it received earlier. */
  function Since(r: L.Rx, earlier: seq<L.Received>): L.Rx
    requires earlier <= r.queue
  {
    r.(queue := r.queue[|earlier|..])
  }

  /** Those make no difference to what it takes in. */
  lemma AcceptSince(r: L.Rx, earlier: seq<L.Received>, col: Column)
    requires earlier <= r.queue && col.Whole() && |r.d| == |r.c|
    ensures earlier <= L.Accept(r, col).queue
    ensures Since(L.Accept(r, col), earlier) == L.Accept(Since(r, earlier), col)
  {
  }

  /** The link with the frames received earlier set aside. */
  ghost predicate LinkedSince(log: seq<L.Sent>, t: L.Tx, r: L.Rx, earlier: seq<L.Received>)
  {
    earlier <= r.queue && L.Linked(log, t, Since(r, earlier))
  }

  /**
   * One clock at both ends is one clock of the link, whether or not the line is scrambled
   * and reversed.
   */
  method Tick(source: Source, sink: Sink, ghost log: seq<L.Sent>, ghost earlier: seq<L.Received>)
    returns (ghost next: seq<L.Sent>)
    requires Matched(source, sink) && LinkedSince(log, source.Line(), sink.Line(), earlier)
    modifies source, sink
    ensures Matched(source, sink) && LinkedSince(next, source.Line(), sink.Line(), earlier)
    ensures next == L.Logged(source.Config(), old(source.forceOffset), log, old(source.Line()))
    ensures old(source.Line()).Valid() && |old(sink.Line()).d| == |old(sink.Line()).c|
    ensures var sent := L.Advance(source.Config(), old(source.forceOffset), old(source.Line()));
      && source.Line() == sent.0 && source.forceOffset == old(source.forceOffset)
      && sink.Line() == L.Accept(old(sink.Line()), Decode(sent.1))
  {
    ghost var cfg, t, r := source.Config(), source.Line(), sink.Line();
    next := L.Logged(cfg, source.forceOffset, log, t);
    HeaderBound(cfg, source.forceOffset, t, log, Since(r, earlier));
    L.ClockKeeps(cfg, source.forceOffset, log, t, Since(r, earlier));
    assert t.Valid() && |r.d| == |r.c|;
    hide L.Linked, L.Advance, L.Accept, Decode, OnWire, S.Abs, L.Logged, Since;
    ghost var peer := source.state;
    var header, data;
    ghost var b, w;
    header, data, b, w := source.Clock();
    ghost var seen := sink.Clock(header, data, peer, source.state, b, w);
    AcceptSince(r, earlier, seen);
  }

  /** Frames sent and clocks given in any order are a run of the link. */
  method Play(source: Source, sink: Sink, events: seq<L.Event>, ghost s: L.Link, ghost earlier: seq<L.Received>)
    returns (ghost last: L.Link)
    requires Matched(source, sink) && earlier <= sink.queue
    requires L.Inv(s) && s.t == source.Line() && s.r == Since(sink.Line(), earlier)
    requires forall e <- events :: L.Enabled(e)
    modifies source, sink
    ensures Matched(source, sink) && earlier <= sink.queue
    ensures L.Inv(last) && last.t == source.Line() && last.r == Since(sink.Line(), earlier)
    ensures L.Run(source.Config(), s, events, last)
    decreases |events|
  {
    last := s;
    assert s.t.Valid() && |s.r.d| == |s.r.c|;
    hide L.Advance, L.Accept, Decode, L.Linked, L.Delivered, L.InFlight, L.Logged, L.Frames;
    if events != [] {
      L.StepKeeps(source.Config(), s, events[0]);
      ghost var next := L.Step(source.Config(), s, events[0]);
      match events[0] {
        case Send(f) =>
          source.Send(f);
        case Clock(force) =>
          ghost var r, col := sink.Line(), Decode(L.Advance(source.Config(), force, s.t).1);
          source.forceOffset := force;
          AcceptSince(r, earlier, col);
          ghost var log := Tick(source, sink, s.log, earlier);
      }
      assert next.t == source.Line() && next.r == Since(sink.Line(), earlier);
      last := Play(source, sink, events[1..], next, earlier);
    }
  }

  /**
   * Clocked until it has nothing left, which takes finitely many clocks, the source has
   * handed every frame of its queue over, in order, scrambled and reversed or not; the sink
   * holds, behind what it had earlier, what arrives of them.
   */
  method Drain(source: Source, sink: Sink, ghost log: seq<L.Sent>, ghost earlier: seq<L.Received>)
    returns (ghost next: seq<L.Sent>)
    requires Matched(source, sink) && LinkedSince(log, source.Line(), sink.Line(), earlier)
    modifies source, sink
    ensures Matched(source, sink) && source.queue == [] && source.ccl == []
    ensures L.Frames(next) == L.Frames(log) + old(source.queue)
    ensures sink.queue == earlier + L.Delivered(next)
  {
    next := log;
    hide L.Delivered, L.InFlight, Decode, L.Accept, L.Frames;
    while source.queue != [] || source.ccl != []
      invariant Matched(source, sink) && LinkedSince(next, source.Line(), sink.Line(), earlier)
      invariant L.Frames(next) + source.queue == L.Frames(log) + old(source.queue)
      decreases |source.queue|, |source.ccl|, Max(source.ifgCnt, 0)
    {
      L.ClockProgress(source.Config(), source.forceOffset, source.Line());
      L.FramesNext(source.Config(), source.forceOffset, next, source.Line());
      next := Tick(source, sink, next, earlier);
    }
  }

  // A sink that joins late

  /** One clock with nothing to send. */
  method IdleTick(source: Source, sink: Sink)
    requires SameLine(source, sink) && source.queue == [] && source.ccl == [] && |sink.d| == |sink.c|
    modifies source, sink
    ensures Matched(source, sink) && source.queue == [] && source.ccl == [] && |sink.d| == |sink.c|
    ensures old(sink.queue) <= sink.queue && |sink.queue| <= |old(sink.queue)| + 1
    ensures old(Matched(source, sink)) ==> !sink.receiving
  {
    ghost var r := sink.Line();
    IdleAdvance(source.Config(), source.forceOffset, source.Line());
    hide L.Advance, L.Accept, Decode, OnWire, S.Abs;
    ghost var peer := source.state;
    var header, data;
    ghost var b, w;
    header, data, b, w := source.Clock();
    ghost var seen := sink.Clock(header, data, peer, source.state, b, w);
    AcceptGrows(r, seen);
    if seen == Decode(L.IdleBlock) {
      IdleEnds(r);
    }
  }

  lemma IdleAdvance(cfg: L.Config, force: bool, t: L.Tx)
    requires t.queue == [] && t.ccl == []
    ensures t.Valid() && L.Advance(cfg, force, t).1 == L.IdleBlock && L.IdleBlock.header < 4
    ensures L.Advance(cfg, force, t).0.queue == [] && L.Advance(cfg, force, t).0.ccl == []
  {
  }

  lemma AcceptGrows(r: L.Rx, col: Column)
    requires col.Whole() && |r.d| == |r.c|
    ensures var next := L.Accept(r, col);
      |next.d| == |next.c| && r.queue <= next.queue && |next.queue| <= |r.queue| + 1
  {
  }

  /** Idles end any frame. */
  lemma IdleEnds(r: L.Rx)
    requires |r.d| == |r.c|
    ensures Decode(L.IdleBlock).Whole() && !L.Accept(r, Decode(L.IdleBlock)).receiving
  {
    L.IdleColumn();
    hide Decode;
    assert Decode(L.IdleBlock).c[0] && Decode(L.IdleBlock).c[4];
  }

  /**
   * A sink that joins with any scrambler state, and in the middle of anything, is in step after
   * two clocks of an idle line. What it makes of them is at most two frames; from then on
   * it receives every frame sent, in order, but for those too short to start.
   */
  method Join(source: Source, sink: Sink, frames: seq<L.Frame>)
    returns (ghost earlier: seq<L.Received>, ghost log: seq<L.Sent>)
    requires SameLine(source, sink) && source.queue == [] && source.ccl == [] && |sink.d| == |sink.c|
    requires forall f <- frames :: L.Good(f)
    modifies source, sink
    ensures Matched(source, sink) && source.queue == [] && source.ccl == []
    ensures old(sink.queue) <= earlier && |earlier| <= |old(sink.queue)| + 2
    ensures L.Frames(log) == frames && sink.queue == earlier + L.Delivered(log)
  {
    IdleTick(source, sink);
    IdleTick(source, sink);
    earlier := sink.queue;
    hide OnWire, Decode, L.Accept, S.Abs, L.Advance, L.InFlight;
    for i := 0 to |frames|
      invariant Matched(source, sink) && source.ccl == [] && source.queue == frames[..i]
      invariant !sink.receiving && |sink.d| == |sink.c| && sink.queue == earlier
    {
      source.Send(frames[i]);
    }
    assert source.queue == frames;
    log := Drain(source, sink, [], earlier);
    assert L.Frames([]) + frames == frames;
  }
}
