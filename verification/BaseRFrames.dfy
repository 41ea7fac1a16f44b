/**
 * Frames lane by lane: what the far end's decoder makes of the blocks of a frame, and what
 * the sink makes of lanes, with every character by its value.
 */
module BaseRFrames {
  import opened Words
  import opened BlockCode
  import opened BaseRLink

  // Lanes sent

  /** The decoded lanes of blocks, one after the other. */
  function LanesOf(blocks: seq<Block>): (d: seq<Octet>)
    ensures |d| == 8 * |blocks|
  {
    if blocks == [] then [] else Decode(blocks[0]).d + LanesOf(blocks[1..])
  }

  function MarksOf(blocks: seq<Block>): (c: seq<bool>)
    ensures |c| == 8 * |blocks|
  {
    if blocks == [] then [] else Decode(blocks[0]).c + MarksOf(blocks[1..])
  }

  /**
   * A frame that starts shows four idles if it starts in lane 4, the start, its bytes but
   * the first, the terminate, and idles up to the end of the column.
   */
  lemma FrameShown(f: Frame, offset: bool) returns (pad: nat)
    requires Good(f) && Kept(Sent(f, offset))
    ensures pad < 8
    ensures LanesOf(FrameBlocks(f, offset))
         == (if offset then Copies(0x07, 4) else []) + [0xfb] + f[1..] + [0xfd] + Copies(0x07, pad)
    ensures MarksOf(FrameBlocks(f, offset))
         == (if offset then Copies(true, 4) else []) + [true] + Copies(false, |f| - 1) + [true] + Copies(true, pad)
  {
    hide *;
    FirstLanes(f, offset);
    var n := FirstBytes(offset);
    pad := TailShown(f, n);
    StartShown(f, offset);
    var idles, marks := if offset then Copies(0x07, 4) else [], if offset then Copies(true, 4) else [];
    Regroup(idles + [0xfb], f[1..n], f[n..], [0xfd] + Copies(0x07, pad));
    Regroup(marks + [true], Copies(false, n - 1), Copies(false, |f| - n), [true] + Copies(true, pad));
    OneAfter(f[n..], [0xfd], Copies(0x07, pad));
    OneAfter(Copies(false, |f| - n), [true], Copies(true, pad));
    OneAfter(idles + [0xfb] + f[1..], [0xfd], Copies(0x07, pad));
    OneAfter(marks + [true] + Copies(false, |f| - 1), [true], Copies(true, pad));
    assert f[1..n] + f[n..] == f[1..];
    MoreCopies(n - 1, |f| - n);
  }

  lemma StartShown(f: Frame, offset: bool)
    requires Good(f) && Kept(Sent(f, offset))
    ensures FirstBytes(offset) <= |f|
    ensures LanesOf(FrameBlocks(f, offset))
         == FirstColumn(f, offset).d + LanesOf(TailBlocks(f, FirstBytes(offset)))
    ensures MarksOf(FrameBlocks(f, offset))
         == FirstColumn(f, offset).c + MarksOf(TailBlocks(f, FirstBytes(offset)))
  {
    StartColumn(f, offset);
    hide Decode, Encode, FrameBlocks, TailBlocks, LanesOf, MarksOf, Representable, FirstColumn;
    RoundTrip(FirstColumn(f, offset));
    OneMoreBlock(Encode(FirstColumn(f, offset)), TailBlocks(f, FirstBytes(offset)));
  }

  lemma OneAfter<T>(a: seq<T>, b: seq<T>, c: seq<T>)
    ensures a + b + c == a + (b + c)
  {
  }

  lemma Regroup<T>(a: seq<T>, b: seq<T>, c: seq<T>, d: seq<T>)
    ensures (a + b) + (c + d) == a + (b + c) + d
  {
  }

  lemma MoreCopies(m: nat, n: nat)
    ensures Copies(false, m) + Copies(false, n) == Copies(false, m + n)
  {
  }

  lemma OneMoreBlock(b: Block, rest: seq<Block>)
    ensures LanesOf([b] + rest) == Decode(b).d + LanesOf(rest)
    ensures MarksOf([b] + rest) == Decode(b).c + MarksOf(rest)
  {
    hide Decode;
    assert ([b] + rest)[1..] == rest;
  }

  lemma FirstLanes(f: Frame, offset: bool)
    requires Kept(Sent(f, offset))
    ensures var n := FirstBytes(offset);
      && 0 < n <= |f|
      && FirstColumn(f, offset).d == (if offset then Copies(0x07, 4) else []) + [0xfb] + f[1..n]
      && FirstColumn(f, offset).c == (if offset then Copies(true, 4) else []) + [true] + Copies(false, n - 1)
  {
  }

  lemma {:induction false} TailShown(f: Frame, n: nat) returns (pad: nat)
    requires n <= |f|
    ensures pad < 8
    ensures LanesOf(TailBlocks(f, n)) == f[n..] + [0xfd] + Copies(0x07, pad)
    ensures MarksOf(TailBlocks(f, n)) == Copies(false, |f| - n) + [true] + Copies(true, pad)
    decreases |f| - n
  {
    hide Decode, Encode, TailBlocks, LanesOf, MarksOf, Representable, DataLanes;
    if n + 8 <= |f| {
      var col := Column(f[n..n + 8], Copies(false, 8));
      DataColumn(f, n);
      DataSurvives(col);
      pad := TailShown(f, n + 8);
      OneMoreBlock(Encode(col), TailBlocks(f, n + 8));
      assert f[n..n + 8] + f[n + 8..] == f[n..];
      assert Copies(false, 8) + Copies(false, |f| - (n + 8)) == Copies(false, |f| - n);
    } else {
      pad := 7 - (|f| - n);
      TermColumn(f, n);
      LastSurvives(f, n);
      OneMoreBlock(Encode(LastColumn(f, n)), []);
      NoBlocks();
      assert [Encode(LastColumn(f, n))] == [Encode(LastColumn(f, n))] + [];
    }
  }

  lemma NoBlocks()
    ensures LanesOf([]) == [] && MarksOf([]) == []
  {
  }

  lemma DataSurvives(col: Column)
    requires col.Whole() && col.c == Copies(false, 8)
    ensures Decode(Encode(col)) == col
  {
    RoundTrip(col);
    assert DataLanes(col, 0, 8);
    hide Decode, Encode;
  }

  lemma LastSurvives(f: Frame, n: nat)
    requires n <= |f| < n + 8
    ensures Decode(Encode(LastColumn(f, n))) == LastColumn(f, n)
    ensures LastColumn(f, n).d == f[n..] + [0xfd] + Copies(0x07, 7 - (|f| - n))
    ensures LastColumn(f, n).c == Copies(false, |f| - n) + [true] + Copies(true, 7 - (|f| - n))
  {
    TermColumn(f, n);
    RoundTrip(LastColumn(f, n));
    hide Decode, Encode, TailBlocks;
  }

  // Lanes received

  ghost function AcceptAll(r: Rx, cols: seq<Column>): (next: Rx)
    requires |r.d| == |r.c| && forall col <- cols :: col.Whole()
    ensures |next.d| == |next.c|
    decreases |cols|
  {
    if cols == [] then r else AcceptAll(Accept(r, cols[0]), cols[1..])
  }

  /** The lanes of columns, one after the other. */
  ghost function Taken(cols: seq<Column>): (d: seq<Octet>)
    requires forall col <- cols :: col.Whole()
    ensures |d| == 8 * |cols|
    decreases |cols|
  {
    if cols == [] then [] else
      assert cols[0].Whole() && |cols| == 1 + |cols[1..]|;
      cols[0].d + Taken(cols[1..])
  }

  /** Outside a frame a sink waits for a start in lane 0 or 4; the frame begins with the preamble byte in its place. */
  lemma FrameBegins(r: Rx, col: Column)
    requires !r.receiving && |r.d| == |r.c| && col.Whole()
    ensures Accept(r, col)
         == if col.c[0] && col.d[0] == 0xfb then Rx(true, [0x55] + col.d[1..], [false] + col.c[1..], r.queue)
            else if col.c[4] && col.d[4] == 0xfb then Rx(true, [0x55] + col.d[5..], [false] + col.c[5..], r.queue)
            else r
  {
  }

  /**
   * In a frame it takes data up to the first control character, which ends the frame. That
   * character is kept, and marked, unless it is a terminate; errors are marked as such.
   */
  lemma FrameEnds(r: Rx, cols: seq<Column>, last: Column, lane: nat) returns (got: Received)
    requires r.receiving && |r.d| == |r.c|
    requires forall col <- cols :: col.Whole() && forall i | 0 <= i < 8 :: !col.c[i]
    requires last.Whole() && lane < 8 && last.c[lane] && forall i | 0 <= i < lane :: !last.c[i]
    ensures forall col <- cols + [last] :: col.Whole()
    ensures AcceptAll(r, cols + [last]) == Rx(false, [], [], r.queue + [got])
    ensures var kept := if last.d[lane] == 0xfd then [] else [last.d[lane]];
      && got.data == r.d + Taken(cols) + last.d[..lane] + kept
      && got.ctrl == r.c + Copies(false, |Taken(cols)| + lane) + Copies(true, |kept|)
    ensures |got.data| == |got.ctrl| == |got.error|
    ensures forall i | 0 <= i < |got.data| :: got.error[i] <==> got.ctrl[i] && got.data[i] == 0xfe
  {
    hide AcceptAll, Taken, Copies, Parse;
    TakenIn(r, cols, last, lane);
    var kept := if last.d[lane] == 0xfd then [] else [last.d[lane]];
    var d, c := r.d + Taken(cols) + last.d[..lane] + kept,
                r.c + Copies(false, |Taken(cols)| + lane) + Copies(true, |kept|);
    Parsed(d, c);
    got := Parse(d, c);
  }

  /** A character counts as an error exactly if it is an error character. */
  lemma Parsed(d: seq<Octet>, c: seq<bool>)
    requires |d| == |c|
    ensures var got := Parse(d, c);
      && got.data == d && got.ctrl == c && |got.error| == |d|
      && forall i | 0 <= i < |d| :: got.error[i] <==> c[i] && d[i] == 0xfe
  {
  }

  lemma {:induction false} TakenIn(r: Rx, cols: seq<Column>, last: Column, lane: nat)
    requires r.receiving && |r.d| == |r.c|
    requires forall col <- cols :: col.Whole() && forall i | 0 <= i < 8 :: !col.c[i]
    requires last.Whole() && lane < 8 && last.c[lane] && forall i | 0 <= i < lane :: !last.c[i]
    ensures forall col <- cols + [last] :: col.Whole()
    ensures var kept := if last.d[lane] == 0xfd then [] else [last.d[lane]];
      AcceptAll(r, cols + [last])
      == Rx(false, [], [], r.queue + [Parse(r.d + Taken(cols) + last.d[..lane] + kept,
                                            r.c + Copies(false, |Taken(cols)| + lane) + Copies(true, |kept|))])
    decreases |cols|
  {
    hide Parse, Accept;
    if cols == [] {
      assert cols + [last] == [last];
      LastTakenIn(r, last, lane);
      assert r.d + Taken(cols) == r.d;
    } else {
      var first, rest := cols[0], cols[1..];
      assert first in cols;
      assert (cols + [last])[0] == first && (cols + [last])[1..] == rest + [last];
      TakenWhole(r, first);
      TakenIn(Accept(r, first), rest, last, lane);
      assert (r.d + first.d) + Taken(rest) == r.d + Taken(cols);
      MoreCopies(8, |Taken(rest)| + lane);
      assert (r.c + Copies(false, 8)) + Copies(false, |Taken(rest)| + lane)
          == r.c + (Copies(false, 8) + Copies(false, |Taken(rest)| + lane));
      hide Copies, Taken;
    }
  }

  lemma TakenWhole(r: Rx, col: Column)
    requires r.receiving && |r.d| == |r.c| && col.Whole() && forall i | 0 <= i < 8 :: !col.c[i]
    ensures Accept(r, col) == Rx(true, r.d + col.d, r.c + Copies(false, 8), r.queue)
  {
    assert FirstControl(col, 0) == 8;
    assert col.c == Copies(false, 8);
    hide FirstControl;
  }

  lemma LastTakenIn(r: Rx, last: Column, lane: nat)
    requires r.receiving && |r.d| == |r.c|
    requires last.Whole() && lane < 8 && last.c[lane] && forall i | 0 <= i < lane :: !last.c[i]
    ensures var kept := if last.d[lane] == 0xfd then [] else [last.d[lane]];
      AcceptAll(r, [last])
      == Rx(false, [], [], r.queue + [Parse(r.d + last.d[..lane] + kept,
                                            r.c + Copies(false, lane) + Copies(true, |kept|))])
  {
    hide Parse;
    assert FirstControl(last, 0) == lane by {
      hide FirstControl;
    }
    hide FirstControl;
    assert last.c[..lane] == Copies(false, lane);
    if last.d[lane] == 0xfd {
      assert r.d + last.d[..lane] + [] == r.d + last.d[..lane];
      assert r.c + Copies(false, lane) + Copies(true, 0) == r.c + last.c[..lane];
    } else {
      assert r.d + last.d[..lane] + [last.d[lane]] == r.d + last.d[..lane + 1];
      assert r.c + Copies(false, lane) + Copies(true, 1) == r.c + last.c[..lane + 1];
    }
    assert [last][1..] == [];
  }
}
