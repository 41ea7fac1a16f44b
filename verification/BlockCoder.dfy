/** The encoder and the decoder of BlockCode as the endpoints run them, lane by lane. */
module BlockCoder {
  import opened Words
  import opened BlockCode
  import F = BlockFormat

  /** The codes of all lanes. */
  method EncodeControl(col: Column) returns (ctrl: Word)
    requires col.Whole()
    ensures ctrl == Codes(col, 8)
  {
    hide Or, Place, ToCode;
    ctrl := 0;
    for i := 0 to 8
      invariant ctrl == Codes(col, i)
    {
      ctrl := Or(ctrl, Place(ToCode(col.d[i], col.c[i]), 7, i));
    }
  }

  /** The data lanes lo .. hi or-ed into a block, each in the byte `up` above its own. */
  method OrBytes(block: Word, d: seq<Octet>, lo: nat, hi: nat, up: nat) returns (w: Word)
    requires |d| == 8 && lo <= hi && hi + up <= 8
    ensures w == Or(block, Bytes(d, lo, hi, up))
  {
    OrZero(block);
    hide Or, Place;
    w := block;
    for i := lo to hi
      invariant w == Or(block, Bytes(d, lo, i, up))
    {
      OrAssoc(block, Bytes(d, lo, i, up), Place(d[i], 8, i + up));
      w := Or(w, Place(d[i], 8, i + up));
    }
  }

  /** One column to one block. */
  method EncodeColumn(col: Column) returns (b: Block)
    requires col.Whole()
    ensures b == Encode(col) && F.Encoded(col, b)
  {
    F.EncodedAs(col);
    OrZero(Bytes(col.d, 0, 8, 0));
    SignalIs(col.d[0], OCodeLow);
    SignalIs(col.d[4], OCodeHigh);
    hide Or, Bytes, Codes, DataLanes, Starts, Ordered, LowCodes, HighCodes, AllCodes, TermCodes, TermType, Signal;
    hide F.Encoded;
    var ctrl := EncodeControl(col);
    var w: Word;
    if DataLanes(col, 0, 8) {
      w := OrBytes(0, col.d, 0, 8, 0);
      return Block(SYNC_DATA, w);
    }
    if Starts(col, 0) {
      w := OrBytes(0x78, col.d, 1, 8, 0);
    } else if Starts(col, 4) {
      if Ordered(col, 0) {
        w := OrBytes(0x66, col.d, 1, 4, 0);
        w := OrSignal(w, col.d[0], OCodeLow);
      } else {
        w := Or(0x33, LowCodes(ctrl));
      }
      w := OrBytes(w, col.d, 5, 8, 0);
    } else if Ordered(col, 0) {
      if Ordered(col, 4) {
        w := OrBytes(0x55, col.d, 5, 8, 0);
        w := OrSignal(w, col.d[4], OCodeHigh);
      } else {
        w := Or(0x4b, HighCodes(ctrl));
      }
      w := OrBytes(w, col.d, 1, 4, 0);
      w := OrSignal(w, col.d[0], OCodeLow);
    } else if Ordered(col, 4) {
      w := Or(0x2d, LowCodes(ctrl));
      w := OrBytes(w, col.d, 5, 8, 0);
      w := OrSignal(w, col.d[4], OCodeHigh);
    } else {
      var lane := FindTerm(col);
      if lane < 8 {
        w := Or(TermType(lane), TermCodes(ctrl, lane));
        w := OrBytes(w, col.d, 0, lane, 1);
      } else {
        w := Or(0x1e, AllCodes(ctrl));
      }
    }
    b := Block(SYNC_CTRL, w);
  }

  lemma SignalIs(x: Octet, code: Word)
    ensures forall w: Word :: Or(w, Signal(x, code)) == if x == SIG_OS then Or(w, code) else w
  {
  }

  method OrSignal(block: Word, x: Octet, code: Word) returns (w: Word)
    ensures w == Or(block, Signal(x, code))
  {
    SignalIs(x, code);
    hide Or, Signal;
    w := block;
    if x == SIG_OS {
      w := Or(w, code);
    }
  }

  /** The terminate cases, tried lane by lane. */
  method FindTerm(col: Column) returns (lane: nat)
    requires col.Whole()
    ensures lane == TermLane(col, 0)
  {
    lane := 0;
    while lane < 8 && !Terminates(col, lane)
      invariant lane <= 8 && TermLane(col, lane) == TermLane(col, 0)
    {
      lane := lane + 1;
    }
  }

  /** The control characters of all codes. */
  method DecodeControl(w: Word) returns (ctrl: seq<Octet>)
    ensures ctrl == CtrlOf(w)
  {
    hide CodeAt, FromCode;
    ctrl := [];
    for i := 0 to 8
      invariant ctrl == CtrlOf(w)[..i]
    {
      ctrl := ctrl + [FromCode(CodeAt(w, i))];
    }
  }

  /** The bytes lo .. hi of a block, appended to the lanes. */
  method AppendBytes(dl: seq<Octet>, w: Word, lo: nat, hi: nat) returns (lanes: seq<Octet>)
    requires lo <= hi <= 8
    ensures lanes == dl + DataOf(w)[lo..hi]
  {
    hide ByteAt;
    lanes := dl;
    for k := lo to hi
      invariant lanes == dl + DataOf(w)[lo..k]
    {
      lanes := lanes + [ByteAt(w, k)];
      OneByteMore(dl, w, lo, k);
    }
  }

  lemma OneByteMore(dl: seq<Octet>, w: Word, lo: nat, k: nat)
    requires lo <= k < 8
    ensures dl + DataOf(w)[lo..k] + [ByteAt(w, k)] == dl + DataOf(w)[lo..k + 1]
  {
    hide ByteAt;
    var d := DataOf(w);
    assert d[k] == ByteAt(w, k);
    hide DataOf;
    assert d[lo..k] + [d[k]] == d[lo..k + 1];
  }

  /** One block to one column. */
  method DecodeBlock(b: Block) returns (col: Column)
    ensures col == Decode(b) && F.Decoded(b, col)
  {
    F.DecodedAs(b);
    hide ByteAt, CtrlOf, DataOf, NibbleLow, NibbleHigh, OCode, Repeat, BlockTermLane, ErrorColumn, F.Decoded;
    var w := b.data;
    var ctrl := DecodeControl(w);
    if b.header == SYNC_DATA {
      var dl := AppendBytes([], w, 0, 8);
      assert [] + DataOf(w)[0..8] == DataOf(w);
      col := Column(dl, Repeat(false, 8));
    } else if b.header != SYNC_CTRL {
      col := ErrorColumn();
    } else if ByteAt(w, 0) in {0x2d, 0x33, 0x66, 0x55, 0x78, 0x4b} {
      col := DecodeMixed(w, ctrl);
    } else if ByteAt(w, 0) == 0x1e {
      col := Column(ctrl, Repeat(true, 8));
    } else {
      var lane := BlockTermLane(ByteAt(w, 0));
      if lane < 8 {
        var dl := AppendBytes([], w, 1, lane + 1);
        col := Column(dl + [TERM] + ctrl[lane + 1..], Repeat(false, 8)[..lane] + Repeat(true, 8)[..8 - lane]);
      } else {
        col := ErrorColumn();
      }
    }
  }

  /** The blocks with a start or an ordered set. */
  method DecodeMixed(w: Word, ctrl: seq<Octet>) returns (col: Column)
    requires ctrl == CtrlOf(w) && ByteAt(w, 0) in {0x2d, 0x33, 0x66, 0x55, 0x78, 0x4b}
    ensures col == Decode(Block(SYNC_CTRL, w))
  {
    hide ByteAt, CtrlOf, DataOf, NibbleLow, NibbleHigh, OCode, Repeat, BlockTermLane, ErrorColumn;
    var bt := ByteAt(w, 0);
    var t, f := Repeat(true, 8), Repeat(false, 8);
    var dl: seq<Octet>;
    if bt == 0x2d {
      dl := AppendBytes(ctrl[..4] + [OCode(NibbleHigh(w), SIG_OS)], w, 5, 8);
      col := Column(dl, t[..5] + f[..3]);
    } else if bt == 0x33 {
      dl := AppendBytes(ctrl[..4] + [START], w, 5, 8);
      col := Column(dl, t[..5] + f[..3]);
    } else if bt == 0x66 {
      dl := AppendBytes([OCode(NibbleLow(w), SIG_OS)], w, 1, 4);
      dl := AppendBytes(dl + [START], w, 5, 8);
      col := Column(dl, [true] + f[..3] + [true] + f[..3]);
    } else if bt == 0x55 {
      dl := AppendBytes([OCode(NibbleLow(w), SIG_OS)], w, 1, 4);
      dl := AppendBytes(dl + [OCode(NibbleHigh(w), SIG_OS)], w, 5, 8);
      col := Column(dl, [true] + f[..3] + [true] + f[..3]);
    } else if bt == 0x78 {
      dl := AppendBytes([START], w, 1, 8);
      col := Column(dl, [true] + f[..7]);
    } else {
      dl := AppendBytes([OCode(NibbleLow(w), SEQ_OS)], w, 1, 4);
      col := Column(dl + ctrl[4..], [true] + f[..3] + t[..4]);
    }
  }
}
