/**
 * The 64B/66B block code of 10GBASE-R (section 49.2.4 of IEEE 802.3), as the serdes
 * endpoints encode and decode it: eight lanes to a block and back.
 */
module BlockCode {

  import opened Words

  // Control characters of a lane

  const IDLE: Octet := 0x07
  const LPI: Octet := 0x06
  const START: Octet := 0xfb
  const TERM: Octet := 0xfd
  const ERROR: Octet := 0xfe
  const SEQ_OS: Octet := 0x9c
  const RES_0: Octet := 0x1c
  const RES_1: Octet := 0x3c
  const RES_2: Octet := 0x7c
  const RES_3: Octet := 0xbc
  const RES_4: Octet := 0xdc
  const RES_5: Octet := 0xf7
  const SIG_OS: Octet := 0x5c

  // Control codes of a block

  const CTRL_ERROR: Word := 0x1e

  const SYNC_DATA: Word := 2
  const SYNC_CTRL: Word := 1

  datatype Column = Column(d: seq<Octet>, c: seq<bool>) {
    predicate Whole() {
      |d| == |c| == 8
    }
  }

  datatype Block = Block(header: Word, data: Word)

  /** The control characters that have a code of their own. */
  predicate Mapped(x: Octet) {
    x in {IDLE, LPI, ERROR, RES_0, RES_1, RES_2, RES_3, RES_4, RES_5}
  }

  function ToCode(x: Octet, control: bool): (code: Word)
    ensures code < 0x80
  {
    if !control then CTRL_ERROR
    else if x == IDLE then 0x00
    else if x == LPI then 0x06
    else if x == ERROR then CTRL_ERROR
    else if x == RES_0 then 0x2d
    else if x == RES_1 then 0x33
    else if x == RES_2 then 0x4b
    else if x == RES_3 then 0x55
    else if x == RES_4 then 0x66
    else if x == RES_5 then 0x78
    else CTRL_ERROR
  }

  function FromCode(code: Word): Octet {
    if code == 0x00 then IDLE
    else if code == 0x06 then LPI
    else if code == CTRL_ERROR then ERROR
    else if code == 0x2d then RES_0
    else if code == 0x33 then RES_1
    else if code == 0x4b then RES_2
    else if code == 0x55 then RES_3
    else if code == 0x66 then RES_4
    else if code == 0x78 then RES_5
    else ERROR
  }

  /** What is left of a lane that is sent as a control code. */
  function Fixed(x: Octet, control: bool): Octet {
    if control && Mapped(x) then x else ERROR
  }

  lemma CodeRoundTrip(x: Octet, control: bool)
    ensures FromCode(ToCode(x, control)) == Fixed(x, control)
    ensures Fixed(x, control) == x && control <==> control && Mapped(x)
  {
  }

  // Fields of a block

  /** (x >> (8 * k)) & 0xff */
  function ByteAt(x: Word, k: nat): (b: Octet) {
    FieldBound(x, 8, k);
    Field(x, 8, k)
  }

  /** (x >> (7 * k + 8)) & 0x7f */
  function CodeAt(x: Word, k: nat): Word {
    Field(Down8(x), 7, k)
  }

  function TermMask(lane: nat): Word
    requires lane < 8
  {
    if lane == 0 then 0xffffffffffff80
    else if lane == 1 then 0xffffffffffc000
    else if lane == 2 then 0xffffffffe00000
    else if lane == 3 then 0xfffffff0000000
    else if lane == 4 then 0xfffff800000000
    else if lane == 5 then 0xfffc0000000000
    else if lane == 6 then 0xfe000000000000
    else 0x0
  }

  function NibbleLow(w: Word): Word { (w >> 32) & 0xf }

  function NibbleHigh(w: Word): Word { (w >> 36) & 0xf }

  const LowMask: Word := 0xfffffff

  function LowCodes(ctrl: Word): Word { Up8(And(ctrl, LowMask)) }

  function HighCodes(ctrl: Word): Word { And(ctrl, LowMask) << 40 }

  function AllCodes(ctrl: Word): Word { Up8(ctrl) }

  function TermCodes(ctrl: Word, lane: nat): Word
    requires lane < 8
  {
    Up8(And(ctrl, TermMask(lane)))
  }

  // The encoder

  /** The control codes of the n first lanes. */
  function Codes(col: Column, n: nat): Word
    requires col.Whole() && n <= 8
  {
    if n == 0 then 0 else Or(Codes(col, n - 1), Place(ToCode(col.d[n - 1], col.c[n - 1]), 7, n - 1))
  }

  /** The data lanes lo .. hi, each in the byte `up` above its own. */
  function Bytes(d: seq<Octet>, lo: nat, hi: nat, up: nat): Word
    requires |d| == 8 && lo <= hi && hi + up <= 8
  {
    if lo == hi then 0 else Or(Bytes(d, lo, hi - 1, up), Place(d[hi - 1], 8, hi - 1 + up))
  }

  /** No control character in the lanes lo .. hi. */
  predicate DataLanes(col: Column, lo: nat, hi: nat)
    requires col.Whole() && lo <= hi <= 8
  {
    forall i | lo <= i < hi :: !col.c[i]
  }

  predicate Starts(col: Column, lane: nat)
    requires col.Whole() && lane < 8
  {
    col.c[lane] && col.d[lane] == START && DataLanes(col, lane + 1, 8)
  }

  /** An ordered set in lanes 0 to 3, or in lanes 4 to 7. */
  predicate Ordered(col: Column, lane: nat)
    requires col.Whole() && lane in {0, 4}
  {
    col.c[lane] && (col.d[lane] == SEQ_OS || col.d[lane] == SIG_OS) && DataLanes(col, lane + 1, lane + 4)
  }

  predicate Terminates(col: Column, lane: nat)
    requires col.Whole() && lane < 8
  {
    col.c[lane] && col.d[lane] == TERM && DataLanes(col, 0, lane)
  }

  /** The lane at which a column terminates, 8 when it does not. */
  function TermLane(col: Column, from: nat): (lane: nat)
    requires col.Whole() && from <= 8
    ensures from <= lane <= 8
    ensures lane < 8 ==> Terminates(col, lane)
    ensures forall l | from <= l < lane :: !Terminates(col, l)
    decreases 8 - from
  {
    if from == 8 || Terminates(col, from) then from else TermLane(col, from + 1)
  }

  function TermType(lane: nat): Word
    requires lane < 8
  {
    if lane == 0 then 0x87
    else if lane == 1 then 0x99
    else if lane == 2 then 0xaa
    else if lane == 3 then 0xb4
    else if lane == 4 then 0xcc
    else if lane == 5 then 0xd2
    else if lane == 6 then 0xe1
    else 0xff
  }

  function Signal(x: Octet, code: Word): (w: Word)
    ensures w in {0, code}
  {
    if x == SIG_OS then code else 0
  }

  const OCodeLow: Word := 0xf00000000
  const OCodeHigh: Word := 0xf000000000

  function Encode(col: Column): Block
    requires col.Whole()
  {
    var d, ctrl := col.d, Codes(col, 8);
    if DataLanes(col, 0, 8) then Block(SYNC_DATA, Bytes(d, 0, 8, 0))
    else
      Block(SYNC_CTRL,
        if Starts(col, 0) then Or(0x78, Bytes(d, 1, 8, 0))
        else if Starts(col, 4) then
          if Ordered(col, 0) then
            Or(Or(Or(0x66, Bytes(d, 1, 4, 0)), Signal(d[0], OCodeLow)), Bytes(d, 5, 8, 0))
          else Or(Or(0x33, LowCodes(ctrl)), Bytes(d, 5, 8, 0))
        else if Ordered(col, 0) then
          if Ordered(col, 4) then
            Or(Or(Or(Or(0x55, Bytes(d, 5, 8, 0)), Signal(d[4], OCodeHigh)), Bytes(d, 1, 4, 0)), Signal(d[0], OCodeLow))
          else Or(Or(Or(0x4b, HighCodes(ctrl)), Bytes(d, 1, 4, 0)), Signal(d[0], OCodeLow))
        else if Ordered(col, 4) then
          Or(Or(Or(0x2d, LowCodes(ctrl)), Bytes(d, 5, 8, 0)), Signal(d[4], OCodeHigh))
        else
          var lane := TermLane(col, 0);
          if lane < 8 then Or(Or(TermType(lane), TermCodes(ctrl, lane)), Bytes(d, 0, lane, 1))
          else Or(0x1e, AllCodes(ctrl)))
  }

  // The decoder

  function DataOf(w: Word): (d: seq<Octet>)
    ensures |d| == 8
  {
    seq<Octet>(8, k requires 0 <= k < 8 => ByteAt(w, k))
  }

  function CtrlOf(w: Word): (d: seq<Octet>)
    ensures |d| == 8
  {
    seq<Octet>(8, k requires 0 <= k < 8 => FromCode(CodeAt(w, k)))
  }

  function OCode(nibble: Word, signal: Octet): Octet {
    if nibble == 0 then SEQ_OS else if nibble == 0xf then signal else ERROR
  }

  /** The lane in which a block type terminates, if it does. */
  function BlockTermLane(bt: Word): (lane: nat)
    ensures lane <= 8
    ensures lane < 8 ==> TermType(lane) == bt
  {
    if bt == 0x87 then 0 else if bt == 0x99 then 1 else if bt == 0xaa then 2 else if bt == 0xb4 then 3
    else if bt == 0xcc then 4 else if bt == 0xd2 then 5 else if bt == 0xe1 then 6 else if bt == 0xff then 7
    else 8
  }

  function Repeat(b: bool, n: nat): (c: seq<bool>)
    ensures |c| == n && forall i | 0 <= i < n :: c[i] == b
  {
    seq(n, i => b)
  }

  /** What an invalid block is decoded to. */
  function ErrorColumn(): (col: Column)
    ensures col.Whole()
  {
    Column(seq<Octet>(8, i => ERROR), Repeat(true, 8))
  }

  function Decode(b: Block): (col: Column)
    ensures col.Whole()
  {
    var w := b.data;
    var data, ctrl, bt := DataOf(w), CtrlOf(w), ByteAt(w, 0);
    var o0, o4 := OCode(NibbleLow(w), SIG_OS), OCode(NibbleHigh(w), SIG_OS);
    var t, f := Repeat(true, 8), Repeat(false, 8);
    if b.header == SYNC_DATA then Column(data, f)
    else if b.header != SYNC_CTRL then ErrorColumn()
    else if bt == 0x1e then Column(ctrl, t)
    else if bt == 0x2d then Column(ctrl[..4] + [o4] + data[5..], t[..5] + f[..3])
    else if bt == 0x33 then Column(ctrl[..4] + [START] + data[5..], t[..5] + f[..3])
    else if bt == 0x66 then
      Column([o0] + data[1..4] + [START] + data[5..], [true] + f[..3] + [true] + f[..3])
    else if bt == 0x55 then
      Column([o0] + data[1..4] + [o4] + data[5..], [true] + f[..3] + [true] + f[..3])
    else if bt == 0x78 then Column([START] + data[1..], [true] + f[..7])
    else if bt == 0x4b then
      Column([OCode(NibbleLow(w), SEQ_OS)] + data[1..4] + ctrl[4..], [true] + f[..3] + t[..4])
    else
      var lane := BlockTermLane(bt);
      if lane < 8 then Column(data[1..lane + 1] + [TERM] + ctrl[lane + 1..], f[..lane] + t[..8 - lane])
      else ErrorColumn()
  }

  // What comes out for what goes in

  function FixedLanes(col: Column, lo: nat, hi: nat): (d: seq<Octet>)
    requires col.Whole() && lo <= hi <= 8
    ensures |d| == hi - lo
  {
    seq<Octet>(hi - lo, i requires 0 <= i < hi - lo => Fixed(col.d[lo + i], col.c[lo + i]))
  }

  /** The column that the far end sees for a column. */
  function Seen(col: Column): Column
    requires col.Whole()
  {
    var d := col.d;
    if DataLanes(col, 0, 8) || Starts(col, 0) || (Starts(col, 4) && Ordered(col, 0)) then col
    else if Starts(col, 4) then Column(FixedLanes(col, 0, 4) + d[4..], Repeat(true, 4) + col.c[4..])
    else if Ordered(col, 0) && Ordered(col, 4) then col
    else if Ordered(col, 0) then
      Column([SEQ_OS] + d[1..4] + [ERROR, ERROR, ERROR, ERROR], col.c[..4] + Repeat(true, 4))
    else if Ordered(col, 4) then Column(FixedLanes(col, 0, 4) + d[4..], Repeat(true, 4) + col.c[4..])
    else
      var lane := TermLane(col, 0);
      if lane < 8 then
        Column(d[..lane + 1] + FixedLanes(col, lane + 1, 8), col.c[..lane + 1] + Repeat(true, 7 - lane))
      else Column(FixedLanes(col, 0, 8), Repeat(true, 8))
  }

  // Fields of the parts of an encoded word

  /** The masks keep the codes above the lane, and no byte that holds data below it. */
  lemma TermMaskCodes(lane: nat, k: nat)
    requires lane < 8 && k < 8
    ensures k > lane ==> Field(TermMask(lane), 7, k) == 0x7f
  {
    hide Field;
    if lane == 0 {
      Row(0xffffffffffff80, 7, 0x1ffffffffffff, 0x3ffffffffff, 0x7ffffffff, 0xfffffff, 0x1fffff, 0x3fff, 0x7f);
    } else if lane == 1 {
      Row(0xffffffffffc000, 7, 0x1ffffffffff80, 0x3ffffffffff, 0x7ffffffff, 0xfffffff, 0x1fffff, 0x3fff, 0x7f);
    } else if lane == 2 {
      Row(0xffffffffe00000, 7, 0x1ffffffffc000, 0x3ffffffff80, 0x7ffffffff, 0xfffffff, 0x1fffff, 0x3fff, 0x7f);
    } else if lane == 3 {
      Row(0xfffffff0000000, 7, 0x1ffffffe00000, 0x3ffffffc000, 0x7ffffff80, 0xfffffff, 0x1fffff, 0x3fff, 0x7f);
    } else if lane == 4 {
      Row(0xfffff800000000, 7, 0x1fffff0000000, 0x3ffffe00000, 0x7ffffc000, 0xfffff80, 0x1fffff, 0x3fff, 0x7f);
    } else if lane == 5 {
      Row(0xfffc0000000000, 7, 0x1fff800000000, 0x3fff0000000, 0x7ffe00000, 0xfffc000, 0x1fff80, 0x3fff, 0x7f);
    } else if lane == 6 {
      Row(0xfe000000000000, 7, 0x1fc0000000000, 0x3f800000000, 0x7f0000000, 0xfe00000, 0x1fc000, 0x3f80, 0x7f);
    } else {
      Row(0x0, 7, 0x0, 0x0, 0x0, 0x0, 0x0, 0x0, 0x0);
    }
  }

  lemma TermMaskBytes(lane: nat, k: nat)
    requires lane < 8 && k < 8
    ensures k < lane ==> Field(TermMask(lane), 8, k) == 0
  {
    hide Field;
    if lane == 0 {
      Row(0xffffffffffff80, 8, 0xffffffffffff, 0xffffffffff, 0xffffffff, 0xffffff, 0xffff, 0xff, 0x0);
    } else if lane == 1 {
      Row(0xffffffffffc000, 8, 0xffffffffffc0, 0xffffffffff, 0xffffffff, 0xffffff, 0xffff, 0xff, 0x0);
    } else if lane == 2 {
      Row(0xffffffffe00000, 8, 0xffffffffe000, 0xffffffffe0, 0xffffffff, 0xffffff, 0xffff, 0xff, 0x0);
    } else if lane == 3 {
      Row(0xfffffff0000000, 8, 0xfffffff00000, 0xfffffff000, 0xfffffff0, 0xffffff, 0xffff, 0xff, 0x0);
    } else if lane == 4 {
      Row(0xfffff800000000, 8, 0xfffff8000000, 0xfffff80000, 0xfffff800, 0xfffff8, 0xffff, 0xff, 0x0);
    } else if lane == 5 {
      Row(0xfffc0000000000, 8, 0xfffc00000000, 0xfffc000000, 0xfffc0000, 0xfffc00, 0xfffc, 0xff, 0x0);
    } else if lane == 6 {
      Row(0xfe000000000000, 8, 0xfe0000000000, 0xfe00000000, 0xfe000000, 0xfe0000, 0xfe00, 0xfe, 0x0);
    } else {
      Row(0x0, 8, 0x0, 0x0, 0x0, 0x0, 0x0, 0x0, 0x0);
    }
  }

  lemma TermMaskFields(lane: nat, k: nat)
    requires lane < 8 && k < 8
    ensures k > lane ==> Field(TermMask(lane), 7, k) == 0x7f
    ensures k < lane ==> Field(TermMask(lane), 8, k) == 0
  {
    hide Field, TermMask;
    TermMaskCodes(lane, k);
    TermMaskBytes(lane, k);
  }

  lemma LowMaskFields(k: nat)
    requires k < 8
    ensures k < 4 ==> Field(LowMask, 7, k) == 0x7f
    ensures k >= 4 ==> Field(LowMask, 8, k) == 0
  {
    hide Field;
    Row(LowMask, 7, 0x1fffff, 0x3fff, 0x7f, 0x0, 0x0, 0x0, 0x0);
    Row(LowMask, 8, 0xfffff, 0xfff, 0xf, 0x0, 0x0, 0x0, 0x0);
  }

  lemma OnesFields(k: nat)
    requires k < 8
    ensures Field(Ones, 7, k) == 0x7f
    ensures k < 7 ==> Field(Ones, 8, k) == 0xff
  {
    hide Field;
    Row(Ones, 7, 0x1ffffffffffff, 0x3ffffffffff, 0x7ffffffff, 0xfffffff, 0x1fffff, 0x3fff, 0x7f);
    Row(Ones, 8, 0xffffffffffff, 0xffffffffff, 0xffffffff, 0xffffff, 0xffff, 0xff, 0x0);
  }

  /** A word that is a byte has no other bytes, and no codes. */
  lemma TypeFields(bt: Word, k: nat)
    requires bt < 0x100
    ensures ByteAt(bt, k) == (if k == 0 then bt else 0) && CodeAt(bt, k) == 0
    ensures NibbleLow(bt) == 0 && NibbleHigh(bt) == 0
  {
    Single(bt, 8);
    ByteNibbles(bt);
    hide Low8, Down8, NibbleLow, NibbleHigh;
    NoField(7, k);
    if k > 0 {
      NoField(8, k - 1);
    }
  }

  lemma ByteNibbles(bt: Word)
    requires bt < 0x100
    ensures NibbleLow(bt) == 0 && NibbleHigh(bt) == 0
  {
  }

  lemma NibbleOr(a: Word, b: Word)
    ensures NibbleLow(Or(a, b)) == Or(NibbleLow(a), NibbleLow(b))
  {
  }

  lemma NibbleHighOr(a: Word, b: Word)
    ensures NibbleHigh(Or(a, b)) == Or(NibbleHigh(a), NibbleHigh(b))
  {
  }

  /** The parts of a word that is put together from two. */
  lemma Joined(a: Word, b: Word, k: nat)
    ensures ByteAt(Or(a, b), k) == Or(ByteAt(a, k), ByteAt(b, k))
    ensures CodeAt(Or(a, b), k) == Or(CodeAt(a, k), CodeAt(b, k))
    ensures NibbleLow(Or(a, b)) == Or(NibbleLow(a), NibbleLow(b))
    ensures NibbleHigh(Or(a, b)) == Or(NibbleHigh(a), NibbleHigh(b))
  {
    hide Or, Down8, NibbleLow, NibbleHigh, Low, Down;
    FieldOr(a, b, 8, k);
    OrDown8(a, b);
    FieldOr(Down8(a), Down8(b), 7, k);
    NibbleOr(a, b);
    NibbleHighOr(a, b);
  }

  // Data bytes

  lemma {:induction false} BytesFields(d: seq<Octet>, lo: nat, hi: nat, up: nat, k: nat)
    requires |d| == 8 && lo <= hi && hi + up <= 8 && k < 8
    ensures ByteAt(Bytes(d, lo, hi, up), k) == if lo + up <= k < hi + up then d[k - up] else 0
    decreases hi
  {
    hide Or, Place, Field;
    if lo == hi {
      NoField(8, k);
    } else {
      BytesFields(d, lo, hi - 1, up, k);
      FieldOr(Bytes(d, lo, hi - 1, up), Place(d[hi - 1], 8, hi - 1 + up), 8, k);
      Placed(d[hi - 1], 8, hi - 1 + up, k);
      OrZero(d[hi - 1]);
      OrZero(ByteAt(Bytes(d, lo, hi - 1, up), k));
    }
  }

  lemma {:induction false} CodesFields(col: Column, n: nat, k: nat)
    requires col.Whole() && n <= 8 && k < 8
    ensures Field(Codes(col, n), 7, k) == if k < n then ToCode(col.d[k], col.c[k]) else 0
    decreases n
  {
    hide Or, Place, Field, ToCode;
    if n == 0 {
      NoField(7, k);
    } else {
      CodesFields(col, n - 1, k);
      var code := ToCode(col.d[n - 1], col.c[n - 1]);
      FieldOr(Codes(col, n - 1), Place(code, 7, n - 1), 7, k);
      Placed(code, 7, n - 1, k);
      OrZero(code);
      OrZero(Field(Codes(col, n - 1), 7, k));
    }
  }

  /** Codes moved up a byte are in their places in the block. */
  lemma Up8Fields(y: Word, k: nat)
    requires k < 8
    ensures CodeAt(Up8(y), k) == Field(y, 7, k)
    ensures ByteAt(Up8(y), k) == if k == 0 then 0 else Field(y, 8, k - 1)
  {
    UpDown(y);
    hide Up8, Down8, And, Low8;
    Masked(y, Ones, 7, k);
    OnesFields(k);
    if k > 0 {
      Masked(y, Ones, 8, k - 1);
      OnesFields(k - 1);
    }
  }

  lemma LowCodesFields(ctrl: Word, k: nat)
    requires k < 8
    ensures k < 4 ==> CodeAt(LowCodes(ctrl), k) == Field(ctrl, 7, k)
    ensures k == 0 || k >= 5 ==> ByteAt(LowCodes(ctrl), k) == 0
  {
    hide Up8, Down8, And, Field, LowMask;
    Up8Fields(And(ctrl, LowMask), k);
    Masked(ctrl, LowMask, 7, k);
    LowMaskFields(k);
    if k > 0 {
      Masked(ctrl, LowMask, 8, k - 1);
      LowMaskFields(k - 1);
    }
  }

  lemma LowCodesNibble(ctrl: Word)
    ensures NibbleHigh(LowCodes(ctrl)) == 0
  {
  }

  lemma TermCodesFields(ctrl: Word, lane: nat, k: nat)
    requires lane < 8 && k < 8
    ensures k > lane ==> CodeAt(TermCodes(ctrl, lane), k) == Field(ctrl, 7, k)
    ensures k <= lane ==> ByteAt(TermCodes(ctrl, lane), k) == 0
  {
    hide Up8, Down8, And, Field, TermMask;
    var mask := TermMask(lane);
    Up8Fields(And(ctrl, mask), k);
    Masked(ctrl, mask, 7, k);
    TermMaskFields(lane, k);
    if k > 0 {
      Masked(ctrl, mask, 8, k - 1);
      TermMaskFields(lane, k - 1);
    }
  }

  lemma FourthByte(x: Word)
    requires (x >> 32) & 0xff == 0
    ensures (x >> 32) & 0xf == 0 && (x >> 36) & 0xf == 0
  {
  }

  /** A word without a fifth byte has no ordered set nibbles. */
  lemma NoNibbles(x: Word)
    requires ByteAt(x, 4) == 0
    ensures NibbleLow(x) == 0 && NibbleHigh(x) == 0
  {
    FieldOfRest(x, 8, 4);
    RestBytes(x);
    hide Field, Rest;
    FourthByte(x);
  }

  /** Data bytes lie in their places and nowhere else. */
  lemma BytesPlaces(d: seq<Octet>, lo: nat, hi: nat, up: nat, k: nat)
    requires |d| == 8 && lo <= hi && hi + up <= 8 && k < 8
    ensures ByteAt(Bytes(d, lo, hi, up), k) == if lo + up <= k < hi + up then d[k - up] else 0
    ensures k + 1 < lo + up || k >= hi + up ==> CodeAt(Bytes(d, lo, hi, up), k) == 0
    ensures lo + up > 4 || hi + up <= 4 ==>
      NibbleLow(Bytes(d, lo, hi, up)) == 0 && NibbleHigh(Bytes(d, lo, hi, up)) == 0
  {
    hide Bytes, Field, Down8, NibbleLow, NibbleHigh;
    var b := Bytes(d, lo, hi, up);
    BytesFields(d, lo, hi, up, k);
    BytesFields(d, lo, hi, up, 4);
    if lo + up > 4 || hi + up <= 4 {
      NoNibbles(b);
    }
    if k + 1 < lo + up || k >= hi + up {
      if k < 7 {
        BytesFields(d, lo, hi, up, k + 1);
      }
      CodeInBytes(b, k);
    }
  }

  lemma SignalFields(code: Word, k: nat)
    requires code in {0, OCodeLow, OCodeHigh} && k < 8
    ensures k != 4 ==> ByteAt(code, k) == 0
    ensures (if code == OCodeLow then k != 3 else k != 4) ==> CodeAt(code, k) == 0
    ensures NibbleLow(code) == if code == OCodeLow then 0xf else 0
    ensures NibbleHigh(code) == if code == OCodeHigh then 0xf else 0
  {
    LowSignal(k);
    HighSignal(k);
    NoSignal(k);
    hide ByteAt, CodeAt;
  }

  lemma LowSignal(k: nat)
    requires k < 8
    ensures k != 4 ==> ByteAt(OCodeLow, k) == 0
    ensures k != 3 ==> CodeAt(OCodeLow, k) == 0
  {
    assert Down8(OCodeLow) == 0xf000000;
    hide Field;
    Row(OCodeLow, 8, 0xf000000, 0xf0000, 0xf00, 0xf, 0, 0, 0);
    Row(0xf000000, 7, 0x1e0000, 0x3c00, 0x78, 0, 0, 0, 0);
  }

  lemma HighSignal(k: nat)
    requires k < 8
    ensures k != 4 ==> ByteAt(OCodeHigh, k) == 0
    ensures k != 4 ==> CodeAt(OCodeHigh, k) == 0
  {
    assert Down8(OCodeHigh) == 0xf0000000;
    hide Field;
    Row(OCodeHigh, 8, 0xf0000000, 0xf00000, 0xf000, 0xf0, 0, 0, 0);
    Row(0xf0000000, 7, 0x1e00000, 0x3c000, 0x780, 0xf, 0, 0, 0);
  }

  lemma NoSignal(k: nat)
    requires k < 8
    ensures ByteAt(0, k) == 0 && CodeAt(0, k) == 0
  {
    assert Down8(0) == 0;
    hide Field;
    NoField(8, k);
    NoField(7, k);
  }

  lemma OrZeros()
    ensures forall x: Word :: Or(x, 0) == x
    ensures forall x: Word :: Or(0, x) == x
  {
  }

  // The fields of each kind of block

  /** Start or ordered set in lane 4 behind control codes. */
  lemma HighBlock(bt: Word, ctrl: Word, d: seq<Octet>, signal: Word, k: nat)
    requires |d| == 8 && bt < 0x100 && signal in {0, OCodeHigh} && k < 8
    ensures var w := Or(Or(Or(bt, LowCodes(ctrl)), Bytes(d, 5, 8, 0)), signal);
      && (k == 0 ==> ByteAt(w, k) == bt)
      && (k >= 5 ==> ByteAt(w, k) == d[k])
      && (k < 4 ==> CodeAt(w, k) == Field(ctrl, 7, k))
      && NibbleHigh(w) == (if signal == 0 then 0 else 0xf)
  {
    var codes, bytes := LowCodes(ctrl), Bytes(d, 5, 8, 0);
    hide Or, LowCodes, Bytes, ByteAt, CodeAt, NibbleLow, NibbleHigh, Field;
    OrZeros();
    TypeFields(bt, k);
    LowCodesFields(ctrl, k);
    LowCodesNibble(ctrl);
    BytesPlaces(d, 5, 8, 0, k);
    SignalFields(signal, k);
    Joined(bt, codes, k);
    Joined(Or(bt, codes), bytes, k);
    Joined(Or(Or(bt, codes), bytes), signal, k);
  }

  /** Ordered sets and data in both halves, or a start behind an ordered set. */
  lemma OrderedBlock(bt: Word, d: seq<Octet>, low: Word, high: Word, k: nat)
    requires |d| == 8 && bt < 0x100 && low in {0, OCodeLow} && high in {0, OCodeHigh} && k < 8
    ensures var w := Or(Or(Or(Or(bt, Bytes(d, 5, 8, 0)), high), Bytes(d, 1, 4, 0)), low);
      && (k == 0 ==> ByteAt(w, k) == bt)
      && (k != 0 && k != 4 ==> ByteAt(w, k) == d[k])
      && NibbleLow(w) == (if low == 0 then 0 else 0xf)
      && NibbleHigh(w) == (if high == 0 then 0 else 0xf)
  {
    var upper, lower := Bytes(d, 5, 8, 0), Bytes(d, 1, 4, 0);
    hide Or, Bytes, ByteAt, CodeAt, NibbleLow, NibbleHigh, Field;
    OrZeros();
    TypeFields(bt, k);
    BytesPlaces(d, 5, 8, 0, k);
    BytesPlaces(d, 1, 4, 0, k);
    SignalFields(low, k);
    SignalFields(high, k);
    Joined(bt, upper, k);
    Joined(Or(bt, upper), high, k);
    Joined(Or(Or(bt, upper), high), lower, k);
    Joined(Or(Or(Or(bt, upper), high), lower), low, k);
  }

  /** The parts of a block can be put together in any order. */
  lemma Reordered(bt: Word, a: Word, b: Word, c: Word)
    ensures Or(Or(Or(bt, a), b), c) == Or(Or(Or(Or(bt, c), 0), a), b)
    ensures Or(Or(bt, a), b) == Or(Or(Or(bt, a), b), 0)
  {
    OrSwap(Or(bt, a), b, c);
    OrSwap(bt, a, c);
    OrZeros();
    hide Or;
  }

  lemma TermBlockBytes(bt: Word, lane: nat, ctrl: Word, d: seq<Octet>, k: nat)
    requires |d| == 8 && k <= lane < 8 && bt < 0x100
    ensures ByteAt(Or(Or(bt, TermCodes(ctrl, lane)), Bytes(d, 0, lane, 1)), k) == if k == 0 then bt else d[k - 1]
  {
    var codes, bytes := TermCodes(ctrl, lane), Bytes(d, 0, lane, 1);
    hide Or, TermCodes, Bytes, ByteAt, CodeAt, NibbleLow, NibbleHigh, Field;
    OrZeros();
    TypeFields(bt, k);
    TermCodesFields(ctrl, lane, k);
    BytesPlaces(d, 0, lane, 1, k);
    Joined(bt, codes, k);
    Joined(Or(bt, codes), bytes, k);
  }

  lemma TermBlockCodes(bt: Word, lane: nat, ctrl: Word, d: seq<Octet>, k: nat)
    requires |d| == 8 && lane < k < 8 && bt < 0x100
    ensures CodeAt(Or(Or(bt, TermCodes(ctrl, lane)), Bytes(d, 0, lane, 1)), k) == Field(ctrl, 7, k)
  {
    var codes, bytes := TermCodes(ctrl, lane), Bytes(d, 0, lane, 1);
    hide Or, TermCodes, Bytes, ByteAt, CodeAt, NibbleLow, NibbleHigh, Field;
    OrZeros();
    TypeFields(bt, k);
    TermCodesFields(ctrl, lane, k);
    BytesPlaces(d, 0, lane, 1, k);
    Joined(bt, codes, k);
    Joined(Or(bt, codes), bytes, k);
  }

  lemma ControlBlock(ctrl: Word, k: nat)
    requires k < 8
    ensures var w := Or(0x1e, AllCodes(ctrl));
      && (k == 0 ==> ByteAt(w, k) == 0x1e)
      && CodeAt(w, k) == Field(ctrl, 7, k)
  {
    TypeFields(0x1e, k);
    hide Or, Up8, ByteAt, CodeAt, NibbleLow, NibbleHigh, Field;
    OrZeros();
    Up8Fields(ctrl, k);
    Joined(0x1e, AllCodes(ctrl), k);
  }

  lemma StartBlock(d: seq<Octet>, k: nat)
    requires |d| == 8 && k < 8
    ensures ByteAt(Or(0x78, Bytes(d, 1, 8, 0)), k) == if k == 0 then 0x78 else d[k]
  {
    TypeFields(0x78, k);
    hide Or, Bytes, ByteAt, CodeAt, NibbleLow, NibbleHigh, Field;
    OrZeros();
    BytesPlaces(d, 1, 8, 0, k);
    Joined(0x78, Bytes(d, 1, 8, 0), k);
  }

  // What comes out is what is seen, block type by block type

  /** The codes of a column come back as its control characters, as far as they have codes. */
  lemma ControlSeen(col: Column, w: Word, k: nat)
    requires col.Whole() && k < 8 && CodeAt(w, k) == Field(Codes(col, 8), 7, k)
    ensures CtrlOf(w)[k] == Fixed(col.d[k], col.c[k])
  {
    hide Field, Codes, ToCode, FromCode, Fixed, Down8;
    CodesFields(col, 8, k);
    CodeRoundTrip(col.d[k], col.c[k]);
  }

  lemma HighSeen(col: Column, bt: Word, signal: Word)
    requires col.Whole() && bt < 0x100 && signal in {0, OCodeHigh}
    ensures var w := Or(Or(Or(bt, LowCodes(Codes(col, 8))), Bytes(col.d, 5, 8, 0)), signal);
      && ByteAt(w, 0) == bt
      && CtrlOf(w)[..4] == FixedLanes(col, 0, 4) && DataOf(w)[5..] == col.d[5..]
      && NibbleHigh(w) == (if signal == 0 then 0 else 0xf)
  {
    var ctrl, d := Codes(col, 8), col.d;
    var w := Or(Or(Or(bt, LowCodes(ctrl)), Bytes(d, 5, 8, 0)), signal);
    HighBlock(bt, ctrl, d, signal, 0);
    hide Or, LowCodes, Codes, Bytes, ByteAt, CodeAt, NibbleHigh, Field, Fixed, FromCode;
    forall k | 0 <= k < 8
      ensures k < 4 ==> CtrlOf(w)[k] == Fixed(col.d[k], col.c[k])
      ensures k >= 5 ==> DataOf(w)[k] == d[k]
    {
      HighBlock(bt, ctrl, d, signal, k);
      if k < 4 {
        ControlSeen(col, w, k);
      }
    }
  }

  lemma OrderedSeen(d: seq<Octet>, bt: Word, low: Word, high: Word)
    requires |d| == 8 && bt < 0x100 && low in {0, OCodeLow} && high in {0, OCodeHigh}
    ensures var w := Or(Or(Or(Or(bt, Bytes(d, 5, 8, 0)), high), Bytes(d, 1, 4, 0)), low);
      && ByteAt(w, 0) == bt
      && DataOf(w)[1..4] == d[1..4] && DataOf(w)[5..] == d[5..]
      && NibbleLow(w) == (if low == 0 then 0 else 0xf) && NibbleHigh(w) == (if high == 0 then 0 else 0xf)
  {
    var w := Or(Or(Or(Or(bt, Bytes(d, 5, 8, 0)), high), Bytes(d, 1, 4, 0)), low);
    hide Or, Bytes, ByteAt, NibbleLow, NibbleHigh;
    OrderedBlock(bt, d, low, high, 0);
    forall k | 0 <= k < 8
      ensures k != 0 && k != 4 ==> DataOf(w)[k] == d[k]
    {
      OrderedBlock(bt, d, low, high, k);
    }
    hide DataOf;
    assert DataOf(w)[1..4] == d[1..4] && DataOf(w)[5..] == d[5..];
  }

  lemma TermDataSeen(d: seq<Octet>, bt: Word, lane: nat, ctrl: Word)
    requires |d| == 8 && lane < 8 && bt < 0x100
    ensures var w := Or(Or(bt, TermCodes(ctrl, lane)), Bytes(d, 0, lane, 1));
      ByteAt(w, 0) == bt && DataOf(w)[1..lane + 1] == d[..lane]
  {
    hide Or, TermCodes, Bytes, ByteAt;
    var w := Or(Or(bt, TermCodes(ctrl, lane)), Bytes(d, 0, lane, 1));
    TermBlockBytes(bt, lane, ctrl, d, 0);
    var seen := DataOf(w)[1..lane + 1];
    forall k | 0 <= k < |seen|
      ensures seen[k] == d[..lane][k]
    {
      TermBlockBytes(bt, lane, ctrl, d, k + 1);
    }
  }

  lemma TermCtrlSeen(col: Column, bt: Word, lane: nat)
    requires col.Whole() && lane < 8 && bt < 0x100
    ensures var w := Or(Or(bt, TermCodes(Codes(col, 8), lane)), Bytes(col.d, 0, lane, 1));
      CtrlOf(w)[lane + 1..] == FixedLanes(col, lane + 1, 8)
  {
    hide Or, TermCodes, Codes, Bytes, CodeAt, Field, Fixed, FromCode;
    var w := Or(Or(bt, TermCodes(Codes(col, 8), lane)), Bytes(col.d, 0, lane, 1));
    var seen := CtrlOf(w)[lane + 1..];
    forall k | 0 <= k < |seen|
      ensures seen[k] == FixedLanes(col, lane + 1, 8)[k]
    {
      TermBlockCodes(bt, lane, Codes(col, 8), col.d, lane + 1 + k);
      ControlSeen(col, w, lane + 1 + k);
    }
  }

  lemma AllSeen(col: Column)
    requires col.Whole()
    ensures var w := Or(0x1e, AllCodes(Codes(col, 8)));
      ByteAt(w, 0) == 0x1e && CtrlOf(w) == FixedLanes(col, 0, 8)
  {
    var ctrl := Codes(col, 8);
    var w := Or(0x1e, AllCodes(ctrl));
    ControlBlock(ctrl, 0);
    hide Or, AllCodes, Codes, ByteAt, CodeAt, Field, Fixed, FromCode;
    forall k | 0 <= k < 8
      ensures CtrlOf(w)[k] == Fixed(col.d[k], col.c[k])
    {
      ControlBlock(ctrl, k);
      ControlSeen(col, w, k);
    }
  }

  lemma StartSeen(d: seq<Octet>)
    requires |d| == 8
    ensures var w := Or(0x78, Bytes(d, 1, 8, 0));
      ByteAt(w, 0) == 0x78 && DataOf(w)[1..] == d[1..]
    ensures DataOf(Bytes(d, 0, 8, 0)) == d
  {
    var w := Or(0x78, Bytes(d, 1, 8, 0));
    hide Or, Bytes, ByteAt;
    forall k | 0 <= k < 8
      ensures ByteAt(w, k) == if k == 0 then 0x78 else d[k]
      ensures DataOf(Bytes(d, 0, 8, 0))[k] == d[k]
    {
      StartBlock(d, k);
      BytesPlaces(d, 0, 8, 0, k);
    }
    assert forall k | 1 <= k < 8 :: DataOf(w)[k] == d[k];
  }

  // The ordered set in lane 0 alone, whose control codes are misplaced

  lemma FourErrorsShifted(c: Word)
    requires c & 0x7f == 0x1e && (c >> 7) & 0x7f == 0x1e && (c >> 14) & 0x7f == 0x1e && (c >> 21) & 0x7f == 0x1e
    ensures (c & 0xfffffff) << 40 == Misplaced
  {
  }

  const Misplaced: Word := 0xc78f1e0000000000

  lemma FourErrors(c: Word)
    requires forall k | 0 <= k < 4 :: Field(c, 7, k) == 0x1e
    ensures HighCodes(c) == Misplaced
  {
    FieldOfRest(c, 7, 0);
    FieldOfRest(c, 7, 1);
    FieldOfRest(c, 7, 2);
    FieldOfRest(c, 7, 3);
    RestCodes(c);
    assert Rest(c, 7, 0) == c;
    hide Field, Rest;
    FourErrorsShifted(c);
  }

  lemma MisplacedFields(k: nat)
    requires k < 8
    ensures k <= 4 ==> ByteAt(Misplaced, k) == 0
    ensures k >= 4 ==> FromCode(CodeAt(Misplaced, k)) == ERROR
    ensures NibbleLow(Misplaced) == 0
  {
    MisplacedBytes(k);
    MisplacedCodes(k);
    assert FromCode(0x60) == ERROR && FromCode(0x63) == ERROR;
    hide ByteAt, CodeAt, FromCode;
  }

  lemma MisplacedBytes(k: nat)
    requires k < 8
    ensures k <= 4 ==> ByteAt(Misplaced, k) == 0
  {
    hide Field;
    Row(Misplaced, 8, 0xc78f1e00000000, 0xc78f1e000000, 0xc78f1e0000, 0xc78f1e00, 0xc78f1e, 0xc78f, 0xc7);
  }

  lemma MisplacedCodes(k: nat)
    requires k < 8
    ensures k >= 4 ==> CodeAt(Misplaced, k) in {0x60, 0x63}
  {
    assert Down8(Misplaced) == 0xc78f1e00000000;
    hide Field;
    Row(0xc78f1e00000000, 7, 0x18f1e3c000000, 0x31e3c780000, 0x63c78f000, 0xc78f1e0, 0x18f1e3, 0x31e3, 0x63);
  }

  lemma LoneOrderedSeen(d: seq<Octet>, low: Word, k: nat)
    requires |d| == 8 && low in {0, OCodeLow} && k < 8
    ensures var w := Or(Or(Or(0x4b, Misplaced), Bytes(d, 1, 4, 0)), low);
      && (k == 0 ==> ByteAt(w, k) == 0x4b)
      && (1 <= k < 4 ==> ByteAt(w, k) == d[k])
      && (k >= 4 ==> FromCode(CodeAt(w, k)) == ERROR)
      && NibbleLow(w) == (if low == 0 then 0 else 0xf)
  {
    TypeFields(0x4b, k);
    hide Or, Bytes, ByteAt, CodeAt, NibbleLow, NibbleHigh, Field, FromCode;
    OrZeros();
    MisplacedFields(k);
    BytesPlaces(d, 1, 4, 0, k);
    SignalFields(low, k);
    Joined(0x4b, Misplaced, k);
    Joined(Or(0x4b, Misplaced), Bytes(d, 1, 4, 0), k);
    Joined(Or(Or(0x4b, Misplaced), Bytes(d, 1, 4, 0)), low, k);
  }

  // The theorem: every column comes out as it is seen

  lemma SignalCode(x: Octet)
    requires x == SEQ_OS || x == SIG_OS
    ensures OCode(if Signal(x, OCodeLow) == 0 then 0 else 0xf, SIG_OS) == x
    ensures OCode(if Signal(x, OCodeHigh) == 0 then 0 else 0xf, SIG_OS) == x
    ensures OCode(if Signal(x, OCodeLow) == 0 then 0 else 0xf, SEQ_OS) == SEQ_OS
  {
  }

  lemma DataCase(col: Column)
    requires col.Whole() && DataLanes(col, 0, 8)
    ensures Decode(Encode(col)) == Seen(col)
  {
    StartSeen(col.d);
    hide Or, Bytes, Codes, ByteAt, DataOf, CtrlOf, NibbleLow, NibbleHigh, Starts, Ordered;
    assert Decode(Encode(col)).c == col.c;
  }

  lemma StartCase(col: Column)
    requires col.Whole() && Starts(col, 0)
    ensures Decode(Encode(col)) == Seen(col)
  {
    StartSeen(col.d);
    hide Or, Bytes, Codes, ByteAt, DataOf, CtrlOf, NibbleLow, NibbleHigh, Ordered;
    var w := Encode(col).data;
    assert !DataLanes(col, 0, 8);
    assert Decode(Encode(col)) == Column([START] + DataOf(w)[1..], [true] + Repeat(false, 8)[..7]);
    assert [START] + DataOf(w)[1..] == col.d;
    assert [true] + Repeat(false, 8)[..7] == col.c;
  }

  lemma StartHighCase(col: Column)
    requires col.Whole() && !Starts(col, 0) && Starts(col, 4) && !Ordered(col, 0)
    ensures Decode(Encode(col)) == Seen(col)
  {
    hide Or, Bytes, Codes, LowCodes, ByteAt, DataOf, CtrlOf, NibbleLow, NibbleHigh, FixedLanes, Decode;
    HighSeen(col, 0x33, 0);
    Reordered(0x33, LowCodes(Codes(col, 8)), Bytes(col.d, 5, 8, 0), 0);
    assert Repeat(true, 8)[..5] + Repeat(false, 8)[..3] == Repeat(true, 4) + col.c[4..];
    assert !DataLanes(col, 0, 8);
    hide DataLanes, Starts, Ordered, Repeat;
    var w := Encode(col).data;
    HighDecoded(w);
    assert [START] + col.d[5..] == col.d[4..];
    assert CtrlOf(w)[..4] + [START] + DataOf(w)[5..] == FixedLanes(col, 0, 4) + col.d[4..];
  }

  lemma OrderedDecoded(w: Word)
    ensures ByteAt(w, 0) == 0x66 ==> (Decode(Block(SYNC_CTRL, w))
         == Column([OCode(NibbleLow(w), SIG_OS)] + DataOf(w)[1..4] + [START] + DataOf(w)[5..],
                   [true] + Repeat(false, 8)[..3] + [true] + Repeat(false, 8)[..3]))
    ensures ByteAt(w, 0) == 0x55 ==> (Decode(Block(SYNC_CTRL, w))
         == Column([OCode(NibbleLow(w), SIG_OS)] + DataOf(w)[1..4] + [OCode(NibbleHigh(w), SIG_OS)] + DataOf(w)[5..],
                   [true] + Repeat(false, 8)[..3] + [true] + Repeat(false, 8)[..3]))
  {
    hide ByteAt, DataOf, CtrlOf, NibbleLow, NibbleHigh, OCode, BlockTermLane, Repeat, ErrorColumn;
  }

  lemma OrderedStartCase(col: Column)
    requires col.Whole() && !Starts(col, 0) && Starts(col, 4) && Ordered(col, 0)
    ensures Decode(Encode(col)) == Seen(col)
  {
    hide Or, Bytes, Codes, LowCodes, ByteAt, DataOf, CtrlOf, NibbleLow, NibbleHigh;
    hide OCode, Signal, Decode;
    var d := col.d;
    var low := Signal(d[0], OCodeLow);
    OrderedSeen(d, 0x66, low, 0);
    Reordered(0x66, Bytes(d, 1, 4, 0), low, Bytes(d, 5, 8, 0));
    SignalCode(d[0]);
    assert [true] + Repeat(false, 8)[..3] + [true] + Repeat(false, 8)[..3] == col.c;
    assert !DataLanes(col, 0, 8);
    hide DataLanes, Starts, Ordered, Repeat;
    var w := Encode(col).data;
    OrderedDecoded(w);
    assert [d[0]] + d[1..4] + [START] + d[5..] == d;
  }

  lemma BothOrderedCase(col: Column)
    requires col.Whole() && !Starts(col, 0) && !Starts(col, 4) && Ordered(col, 0) && Ordered(col, 4)
    ensures Decode(Encode(col)) == Seen(col)
  {
    hide Or, Bytes, Codes, LowCodes, ByteAt, DataOf, CtrlOf, NibbleLow, NibbleHigh;
    hide OCode, Signal, Decode;
    var d := col.d;
    var low, high := Signal(d[0], OCodeLow), Signal(d[4], OCodeHigh);
    OrderedSeen(d, 0x55, low, high);
    SignalCode(d[0]);
    SignalCode(d[4]);
    assert [true] + Repeat(false, 8)[..3] + [true] + Repeat(false, 8)[..3] == col.c;
    assert !DataLanes(col, 0, 8);
    hide DataLanes, Starts, Ordered, Repeat;
    var w := Encode(col).data;
    OrderedDecoded(w);
    assert [d[0]] + d[1..4] + [d[4]] + d[5..] == d;
  }

  lemma HighDecoded(w: Word)
    ensures ByteAt(w, 0) == 0x2d ==> (Decode(Block(SYNC_CTRL, w))
         == Column(CtrlOf(w)[..4] + [OCode(NibbleHigh(w), SIG_OS)] + DataOf(w)[5..],
                   Repeat(true, 8)[..5] + Repeat(false, 8)[..3]))
    ensures ByteAt(w, 0) == 0x33 ==> (Decode(Block(SYNC_CTRL, w))
         == Column(CtrlOf(w)[..4] + [START] + DataOf(w)[5..], Repeat(true, 8)[..5] + Repeat(false, 8)[..3]))
  {
    hide ByteAt, DataOf, CtrlOf, NibbleLow, NibbleHigh, OCode, BlockTermLane, Repeat, ErrorColumn;
  }

  lemma HighOrderedCase(col: Column)
    requires col.Whole() && !Starts(col, 0) && !Starts(col, 4) && !Ordered(col, 0) && Ordered(col, 4)
    ensures Decode(Encode(col)) == Seen(col)
  {
    hide Or, Bytes, Codes, LowCodes, ByteAt, DataOf, CtrlOf, NibbleLow, NibbleHigh, Decode;
    hide OCode, Signal, FixedLanes;
    var d := col.d;
    var high := Signal(d[4], OCodeHigh);
    HighSeen(col, 0x2d, high);
    SignalCode(d[4]);
    assert Repeat(true, 8)[..5] + Repeat(false, 8)[..3] == Repeat(true, 4) + col.c[4..];
    assert !DataLanes(col, 0, 8);
    hide DataLanes, Starts, Ordered, Repeat;
    var w := Encode(col).data;
    HighDecoded(w);
    assert [d[4]] + d[5..] == d[4..];
    assert CtrlOf(w)[..4] + [d[4]] + DataOf(w)[5..] == FixedLanes(col, 0, 4) + d[4..];
  }

  lemma LowOrderedCase(col: Column)
    requires col.Whole() && !Starts(col, 0) && !Starts(col, 4) && Ordered(col, 0) && !Ordered(col, 4)
    ensures Decode(Encode(col)) == Seen(col)
  {
    var d := col.d;
    var low := Signal(d[0], OCodeLow);
    LowCodesAreErrors(col);
    var w := Or(Or(Or(0x4b, Misplaced), Bytes(d, 1, 4, 0)), low);
    SignalCode(d[0]);
    hide Or, Bytes, Codes, LowCodes, ByteAt, DataOf, CtrlOf, NibbleLow, NibbleHigh, HighCodes, Misplaced;
    hide OCode, Signal, FromCode, CodeAt;
    LoneOrderedSeen(d, low, 0);
    LoneOrderedParts(d, low);
    assert !DataLanes(col, 0, 8);
    assert Encode(col) == Block(SYNC_CTRL, w);
    assert Decode(Encode(col)) == Column([OCode(NibbleLow(w), SEQ_OS)] + DataOf(w)[1..4] + CtrlOf(w)[4..],
                                         [true] + Repeat(false, 8)[..3] + Repeat(true, 8)[..4]);
    assert [true] + Repeat(false, 8)[..3] + Repeat(true, 8)[..4] == col.c[..4] + Repeat(true, 4);
  }

  lemma LowCodesAreErrors(col: Column)
    requires col.Whole() && Ordered(col, 0)
    ensures HighCodes(Codes(col, 8)) == Misplaced
  {
    hide Codes, HighCodes, Misplaced, Field;
    forall k | 0 <= k < 4
      ensures Field(Codes(col, 8), 7, k) == 0x1e
    {
      CodesFields(col, 8, k);
    }
    FourErrors(Codes(col, 8));
  }

  lemma LoneOrderedParts(d: seq<Octet>, low: Word)
    requires |d| == 8 && low in {0, OCodeLow}
    ensures var w := Or(Or(Or(0x4b, Misplaced), Bytes(d, 1, 4, 0)), low);
      DataOf(w)[1..4] == d[1..4] && CtrlOf(w)[4..] == [ERROR, ERROR, ERROR, ERROR]
  {
    var w := Or(Or(Or(0x4b, Misplaced), Bytes(d, 1, 4, 0)), low);
    hide Or, Bytes, ByteAt, CodeAt, NibbleLow, NibbleHigh, FromCode, Misplaced;
    forall k | 1 <= k < 8
      ensures k < 4 ==> DataOf(w)[k] == d[k]
      ensures k >= 4 ==> CtrlOf(w)[k] == ERROR
    {
      LoneOrderedSeen(d, low, k);
    }
    hide DataOf, CtrlOf;
    assert DataOf(w)[1..4] == d[1..4] && CtrlOf(w)[4..] == [ERROR, ERROR, ERROR, ERROR];
  }

  lemma TermCase(col: Column)
    requires col.Whole() && !DataLanes(col, 0, 8) && !Starts(col, 0) && !Starts(col, 4) && !Ordered(col, 0)
        && !Ordered(col, 4)
    requires TermLane(col, 0) < 8
    ensures Decode(Encode(col)) == Seen(col)
  {
    hide Or, Bytes, Codes, ByteAt, DataOf, CtrlOf, TermCodes, TermType, BlockTermLane, FixedLanes, Decode;
    hide Starts, Ordered, TermLane;
    var d, lane := col.d, TermLane(col, 0);
    var bt := TermType(lane);
    TermTypes(lane);
    TermDataSeen(d, bt, lane, Codes(col, 8));
    TermCtrlSeen(col, bt, lane);
    var w := Or(Or(bt, TermCodes(Codes(col, 8), lane)), Bytes(d, 0, lane, 1));
    TermDecoded(w, lane);
    assert Terminates(col, lane);
    assert d[..lane] + [TERM] == d[..lane + 1];
    assert Repeat(false, 8)[..lane] + Repeat(true, 8)[..8 - lane] == col.c[..lane + 1] + Repeat(true, 7 - lane);
  }

  lemma TermDecoded(w: Word, lane: nat)
    requires lane < 8 && ByteAt(w, 0) == TermType(lane)
    ensures Decode(Block(SYNC_CTRL, w)) == Column(DataOf(w)[1..lane + 1] + [TERM] + CtrlOf(w)[lane + 1..],
                                                  Repeat(false, 8)[..lane] + Repeat(true, 8)[..8 - lane])
  {
    TermTypes(lane);
    hide ByteAt, DataOf, CtrlOf, TermType, BlockTermLane, NibbleLow, NibbleHigh, OCode, Repeat;
  }

  /** The block types tell the lanes apart, and from all other blocks. */
  lemma TermTypes(lane: nat)
    requires lane < 8
    ensures TermType(lane) < 0x100 && BlockTermLane(TermType(lane)) == lane
    ensures TermType(lane) !in {0x1e, 0x2d, 0x33, 0x66, 0x55, 0x78, 0x4b}
  {
  }

  lemma ControlCase(col: Column)
    requires col.Whole() && !DataLanes(col, 0, 8) && !Starts(col, 0) && !Starts(col, 4) && !Ordered(col, 0)
        && !Ordered(col, 4)
    requires TermLane(col, 0) == 8
    ensures Decode(Encode(col)) == Seen(col)
  {
    AllSeen(col);
    hide Or, Bytes, Codes, LowCodes, ByteAt, DataOf, CtrlOf, NibbleLow, NibbleHigh, AllCodes;
    hide TermLane, FixedLanes, Starts, Ordered;
  }

  /** What the far end decodes is what Seen says, for every column there is. */
  lemma DecodeEncode(col: Column)
    requires col.Whole()
    ensures Decode(Encode(col)) == Seen(col)
  {
    hide Decode, Encode, Seen, DataLanes, Starts, Ordered, TermLane;
    if DataLanes(col, 0, 8) {
      DataCase(col);
    } else if Starts(col, 0) {
      StartCase(col);
    } else if Starts(col, 4) {
      if Ordered(col, 0) {
        OrderedStartCase(col);
      } else {
        StartHighCase(col);
      }
    } else if Ordered(col, 0) {
      if Ordered(col, 4) {
        BothOrderedCase(col);
      } else {
        LowOrderedCase(col);
      }
    } else if Ordered(col, 4) {
      HighOrderedCase(col);
    } else if TermLane(col, 0) < 8 {
      TermCase(col);
    } else {
      ControlCase(col);
    }
  }

  // Which columns survive

  /** Control characters with codes in all the lanes lo .. hi. */
  predicate ControlLanes(col: Column, lo: nat, hi: nat)
    requires col.Whole() && lo <= hi <= 8
  {
    forall i | lo <= i < hi :: col.c[i] && Mapped(col.d[i])
  }

  /** The columns that have a block of their own. */
  predicate Representable(col: Column)
    requires col.Whole()
  {
    || DataLanes(col, 0, 8)
    || Starts(col, 0)
    || (Starts(col, 4) && (Ordered(col, 0) || ControlLanes(col, 0, 4)))
    || (Ordered(col, 0) && Ordered(col, 4))
    || (Ordered(col, 4) && ControlLanes(col, 0, 4))
    || (exists lane | 0 <= lane < 8 :: Terminates(col, lane) && ControlLanes(col, lane + 1, 8))
    || ControlLanes(col, 0, 8)
    || MisplacedErrors(col)
  }

  /** An ordered set in lane 0 survives only as a sequence before four errors. */
  predicate MisplacedErrors(col: Column)
    requires col.Whole()
  {
    Ordered(col, 0) && col.d[0] == SEQ_OS && forall i | 4 <= i < 8 :: col.c[i] && col.d[i] == ERROR
  }

  lemma FixedSame(col: Column, lo: nat, hi: nat)
    requires col.Whole() && lo <= hi <= 8
    ensures FixedLanes(col, lo, hi) == col.d[lo..hi] && Repeat(true, hi - lo) == col.c[lo..hi]
      <==> ControlLanes(col, lo, hi)
  {
    hide Fixed, Mapped;
    forall i | lo <= i < hi
      ensures Fixed(col.d[i], col.c[i]) == col.d[i] && col.c[i] <==> col.c[i] && Mapped(col.d[i])
    {
      CodeRoundTrip(col.d[i], col.c[i]);
    }
    if FixedLanes(col, lo, hi) == col.d[lo..hi] && Repeat(true, hi - lo) == col.c[lo..hi] {
      forall i | lo <= i < hi
        ensures col.c[i] && Mapped(col.d[i])
      {
        assert FixedLanes(col, lo, hi)[i - lo] == col.d[lo..hi][i - lo];
        assert Repeat(true, hi - lo)[i - lo] == col.c[lo..hi][i - lo];
      }
    }
    if ControlLanes(col, lo, hi) {
      var d, c := FixedLanes(col, lo, hi), Repeat(true, hi - lo);
      forall i | 0 <= i < |d|
        ensures d[i] == col.d[lo..hi][i] && c[i] == col.c[lo..hi][i]
      {
        assert col.c[lo + i] && Mapped(col.d[lo + i]);
      }
    }
  }

  lemma HighSame(col: Column)
    requires col.Whole()
    ensures Column(FixedLanes(col, 0, 4) + col.d[4..], Repeat(true, 4) + col.c[4..]) == col <==> ControlLanes(col, 0, 4)
  {
    FixedSame(col, 0, 4);
    hide FixedLanes, ControlLanes;
    assert col.d == col.d[0..4] + col.d[4..] && col.c == col.c[0..4] + col.c[4..];
    assert (FixedLanes(col, 0, 4) + col.d[4..])[0..4] == FixedLanes(col, 0, 4);
    assert (Repeat(true, 4) + col.c[4..])[0..4] == Repeat(true, 4);
  }

  lemma TermSame(col: Column, lane: nat)
    requires col.Whole() && lane < 8
    ensures Column(col.d[..lane + 1] + FixedLanes(col, lane + 1, 8), col.c[..lane + 1] + Repeat(true, 7 - lane)) == col
      <==> ControlLanes(col, lane + 1, 8)
  {
    FixedSame(col, lane + 1, 8);
    hide FixedLanes, ControlLanes;
    assert col.d == col.d[..lane + 1] + col.d[lane + 1..8] && col.c == col.c[..lane + 1] + col.c[lane + 1..8];
    assert (col.d[..lane + 1] + FixedLanes(col, lane + 1, 8))[lane + 1..] == FixedLanes(col, lane + 1, 8);
    assert (col.c[..lane + 1] + Repeat(true, 7 - lane))[lane + 1..] == Repeat(true, 7 - lane);
  }

  lemma AllSame(col: Column)
    requires col.Whole()
    ensures Column(FixedLanes(col, 0, 8), Repeat(true, 8)) == col <==> ControlLanes(col, 0, 8)
  {
    FixedSame(col, 0, 8);
    hide FixedLanes, ControlLanes;
    assert col.d == col.d[0..8] && col.c == col.c[0..8];
  }

  lemma MisplacedSame(col: Column)
    requires col.Whole() && Ordered(col, 0)
    ensures Column([SEQ_OS] + col.d[1..4] + [ERROR, ERROR, ERROR, ERROR], col.c[..4] + Repeat(true, 4)) == col
      <==> MisplacedErrors(col)
  {
    var seen := Column([SEQ_OS] + col.d[1..4] + [ERROR, ERROR, ERROR, ERROR], col.c[..4] + Repeat(true, 4));
    assert forall i | 4 <= i < 8 :: seen.d[i] == ERROR && seen.c[i];
    assert seen.d[0] == SEQ_OS;
    if MisplacedErrors(col) {
      assert seen.d == col.d && seen.c == col.c;
    }
  }

  // The control characters of a column decide which block it can have

  /** A lane that starts, or holds an ordered set or a terminate, is no lane of control codes. */
  lemma NoCode(col: Column, lane: nat, lo: nat, hi: nat)
    requires col.Whole() && lo <= lane < hi <= 8
    requires !col.c[lane] || col.d[lane] in {START, SEQ_OS, SIG_OS, TERM}
    ensures !ControlLanes(col, lo, hi)
  {
    assert !Mapped(START) && !Mapped(SEQ_OS) && !Mapped(SIG_OS) && !Mapped(TERM);
  }

  ghost predicate TermControl(col: Column)
    requires col.Whole()
  {
    exists lane | 0 <= lane < 8 :: Terminates(col, lane) && ControlLanes(col, lane + 1, 8)
  }

  /** A column with a start or an ordered set in a lane does not terminate into control codes. */
  lemma NoTermControl(col: Column, lane: nat)
    requires col.Whole() && lane < 8 && col.c[lane] && col.d[lane] in {START, SEQ_OS, SIG_OS}
    ensures !TermControl(col)
  {
    hide ControlLanes;
    forall l | 0 <= l < 8
      ensures !(Terminates(col, l) && ControlLanes(col, l + 1, 8))
    {
      if l < lane {
        NoCode(col, lane, l + 1, 8);
      }
    }
  }

  lemma TermControlLane(col: Column)
    requires col.Whole()
    ensures var lane := TermLane(col, 0); TermControl(col) <==> lane < 8 && ControlLanes(col, lane + 1, 8)
  {
    hide ControlLanes;
    var lane := TermLane(col, 0);
    forall l | 0 <= l < 8 && Terminates(col, l)
      ensures l == lane
    {
    }
  }

  /** The condition, block type by block type, under which a column is seen as it is. */
  predicate Survives(col: Column)
    requires col.Whole()
  {
    if DataLanes(col, 0, 8) || Starts(col, 0) || (Starts(col, 4) && Ordered(col, 0)) then true
    else if Starts(col, 4) then ControlLanes(col, 0, 4)
    else if Ordered(col, 0) && Ordered(col, 4) then true
    else if Ordered(col, 0) then MisplacedErrors(col)
    else if Ordered(col, 4) then ControlLanes(col, 0, 4)
    else if TermLane(col, 0) < 8 then ControlLanes(col, TermLane(col, 0) + 1, 8)
    else ControlLanes(col, 0, 8)
  }

  lemma SeenSame(col: Column)
    requires col.Whole()
    ensures Seen(col) == col <==> Survives(col)
  {
    hide ControlLanes, TermLane, FixedLanes, Repeat, DataLanes, Starts, Ordered, MisplacedErrors;
    HighSame(col);
    AllSame(col);
    if TermLane(col, 0) < 8 {
      TermSame(col, TermLane(col, 0));
    }
    if Ordered(col, 0) {
      MisplacedSame(col);
    }
  }

  lemma SurvivesRepresentable(col: Column)
    requires col.Whole()
    ensures Survives(col) <==> Representable(col)
  {
    assert Representable(col) <==>
      || DataLanes(col, 0, 8)
      || Starts(col, 0)
      || (Starts(col, 4) && (Ordered(col, 0) || ControlLanes(col, 0, 4)))
      || (Ordered(col, 0) && Ordered(col, 4))
      || (Ordered(col, 4) && ControlLanes(col, 0, 4))
      || TermControl(col)
      || ControlLanes(col, 0, 8)
      || MisplacedErrors(col);
    ControlKinds(col);
    hide Representable, ControlLanes, TermControl, TermLane, DataLanes, Starts, Ordered, MisplacedErrors;
    TermControlLane(col);
  }

  /** A start or an ordered set leaves no other block type open. */
  lemma ControlKinds(col: Column)
    requires col.Whole()
    ensures Starts(col, 4) ==> !Ordered(col, 4)
    ensures Starts(col, 4) || Ordered(col, 0) || Ordered(col, 4) ==> !TermControl(col) && !ControlLanes(col, 0, 8)
    ensures TermLane(col, 0) < 8 ==> !ControlLanes(col, 0, 8)
    ensures Ordered(col, 4) ==> !MisplacedErrors(col)
    ensures MisplacedErrors(col) ==> Ordered(col, 0) && !Starts(col, 4)
    ensures Ordered(col, 0) ==> !ControlLanes(col, 0, 4)
  {
    if Starts(col, 4) || Ordered(col, 4) {
      NoCode(col, 4, 0, 8);
      NoTermControl(col, 4);
    } else if Ordered(col, 0) {
      NoCode(col, 0, 0, 8);
      NoTermControl(col, 0);
    }
    if Ordered(col, 0) {
      NoCode(col, 0, 0, 4);
    }
    if TermLane(col, 0) < 8 {
      NoCode(col, TermLane(col, 0), 0, 8);
    }
  }

  /** A column survives exactly when it is representable. */
  lemma RoundTrip(col: Column)
    requires col.Whole()
    ensures Decode(Encode(col)) == col <==> Representable(col)
  {
    hide *;
    DecodeEncode(col);
    SeenSame(col);
    SurvivesRepresentable(col);
  }

  /** The type of a block tells the lane in which its column terminates. */
  lemma TermBlockType(col: Column, lane: nat)
    requires col.Whole() && lane < 8 && Terminates(col, lane) && ControlLanes(col, lane + 1, 8)
    ensures BlockTermLane(ByteAt(Encode(col).data, 0)) == lane
  {
    hide Or, Bytes, Codes, ByteAt, TermCodes, TermType, BlockTermLane, TermLane, ControlLanes;
    NoTermElse(col, lane);
    TermTypes(lane);
    TermDataSeen(col.d, TermType(lane), lane, Codes(col, 8));
  }

  lemma NoTermElse(col: Column, lane: nat)
    requires col.Whole() && lane < 8 && Terminates(col, lane) && ControlLanes(col, lane + 1, 8)
    ensures !DataLanes(col, 0, 8) && !Starts(col, 0) && !Starts(col, 4) && !Ordered(col, 0) && !Ordered(col, 4)
    ensures TermLane(col, 0) == lane
  {
    hide TermLane;
    assert TermControl(col);
    TermControlLane(col);
    if Starts(col, 0) || Ordered(col, 0) {
      NoTermControl(col, 0);
    }
    if Starts(col, 4) || Ordered(col, 4) {
      NoTermControl(col, 4);
    }
    assert Terminates(col, TermLane(col, 0));
  }
}
