/**
 * The block formats of 10GBASE-R as they stand on the wire (section 49.2.4 of IEEE 802.3,
 * and the table at the head of the endpoints): every sync header, block type, control code
 * and character by its value, and every field by its bit position.
 */
module BlockFormat {
  import opened Words
  import opened BlockCode

  // Fields by their bits

  function DownBytes(w: Word, k: nat): Word {
    if k == 0 then w
    else if k == 1 then w >> 8
    else if k == 2 then w >> 16
    else if k == 3 then w >> 24
    else if k == 4 then w >> 32
    else if k == 5 then w >> 40
    else if k == 6 then w >> 48
    else w >> 56
  }

  function DownCodes(w: Word, k: nat): Word {
    if k == 0 then w >> 8
    else if k == 1 then w >> 15
    else if k == 2 then w >> 22
    else if k == 3 then w >> 29
    else if k == 4 then w >> 36
    else if k == 5 then w >> 43
    else if k == 6 then w >> 50
    else w >> 57
  }

  function ByteOf(w: Word, k: nat): Word {
    DownBytes(w, k) & 0xff
  }

  function CodeOf(w: Word, k: nat): Word {
    DownCodes(w, k) & 0x7f
  }

  /** The nibbles that tell the ordered sets of lanes 0 and 4 apart. */
  function SetOf(w: Word, lane: nat): Word {
    if lane == 0 then (w >> 32) & 0xf else (w >> 36) & 0xf
  }

  // Values

  /** The control code of a lane; data and characters without a code are errors. */
  function CodeFor(x: Octet, control: bool): Word {
    if !control then 0x1e
    else if x == 0x07 then 0x00
    else if x == 0x06 then 0x06
    else if x == 0xfe then 0x1e
    else if x == 0x1c then 0x2d
    else if x == 0x3c then 0x33
    else if x == 0x7c then 0x4b
    else if x == 0xbc then 0x55
    else if x == 0xdc then 0x66
    else if x == 0xf7 then 0x78
    else 0x1e
  }

  /** The control character of a code; others are errors. */
  function CharFor(code: Word): Octet {
    if code == 0x00 then 0x07
    else if code == 0x06 then 0x06
    else if code == 0x2d then 0x1c
    else if code == 0x33 then 0x3c
    else if code == 0x4b then 0x7c
    else if code == 0x55 then 0xbc
    else if code == 0x66 then 0xdc
    else if code == 0x78 then 0xf7
    else 0xfe
  }

  /** The sequence and the signal ordered set, and an error for other nibbles. */
  function SetFor(nibble: Word): Octet {
    if nibble == 0 then 0x9c else if nibble == 0xf then 0x5c else 0xfe
  }

  /** The block that terminates in a lane. */
  function TerminateType(lane: nat): Word {
    if lane == 0 then 0x87
    else if lane == 1 then 0x99
    else if lane == 2 then 0xaa
    else if lane == 3 then 0xb4
    else if lane == 4 then 0xcc
    else if lane == 5 then 0xd2
    else if lane == 6 then 0xe1
    else 0xff
  }

  /** The bits between the data and the codes of a block that terminates in a lane, in the byte above the data. */
  function UnusedBits(lane: nat): Word {
    if lane == 0 then 0x7f
    else if lane == 1 then 0x3f
    else if lane == 2 then 0x1f
    else if lane == 3 then 0x0f
    else if lane == 4 then 0x07
    else if lane == 5 then 0x03
    else 0x01
  }

  // What is on the wire for a column

  predicate NoControl(col: Column, lo: nat, hi: nat)
    requires col.Whole() && lo <= hi <= 8
  {
    forall i | lo <= i < hi :: !col.c[i]
  }

  predicate StartIn(col: Column, lane: nat)
    requires col.Whole() && lane < 8
  {
    col.c[lane] && col.d[lane] == 0xfb && NoControl(col, lane + 1, 8)
  }

  predicate SetIn(col: Column, lane: nat)
    requires col.Whole() && lane in {0, 4}
  {
    col.c[lane] && col.d[lane] in {0x9c, 0x5c} && NoControl(col, lane + 1, lane + 4)
  }

  predicate TerminateIn(col: Column, lane: nat)
    requires col.Whole() && lane < 8
  {
    col.c[lane] && col.d[lane] == 0xfd && NoControl(col, 0, lane)
  }

  /** The data of the lanes lo .. hi is in the bytes of those lanes. */
  predicate BytesIn(w: Word, col: Column, lo: nat, hi: nat)
    requires col.Whole() && lo <= hi <= 8
  {
    forall k | lo <= k < hi :: ByteOf(w, k) == col.d[k]
  }

  predicate CodesIn(w: Word, col: Column, lo: nat, hi: nat)
    requires col.Whole() && lo <= hi <= 8
  {
    forall k | lo <= k < hi :: CodeOf(w, k) == CodeFor(col.d[k], col.c[k])
  }

  /** The nibble of an ordered set, of the sequence or of the signal kind. */
  predicate SetNibble(w: Word, col: Column, lane: nat)
    requires col.Whole() && lane in {0, 4}
  {
    SetOf(w, lane) == if col.d[lane] == 0x5c then 0xf else 0
  }

  predicate Terminated(w: Word, col: Column, lane: nat)
    requires col.Whole() && lane < 8
  {
    && ByteOf(w, 0) == TerminateType(lane)
    && (forall k | 0 <= k < lane :: ByteOf(w, k + 1) == col.d[k])
    && (lane < 7 ==> ByteOf(w, lane + 1) & UnusedBits(lane) == 0)
    && CodesIn(w, col, lane + 1, 8)
  }

  /**
   * The block of a column, in the order of the encoder's cases. The codes behind a lone
   * ordered set in lane 0, all errors, stand four bits too high, so that the last is cut.
   */
  ghost predicate Encoded(col: Column, b: Block)
    requires col.Whole()
  {
    var w := b.data;
    if NoControl(col, 0, 8) then b.header == 2 && BytesIn(w, col, 0, 8)
    else
      && b.header == 1
      && if StartIn(col, 0) then ByteOf(w, 0) == 0x78 && BytesIn(w, col, 1, 8)
         else if StartIn(col, 4) then
           if SetIn(col, 0) then
             && ByteOf(w, 0) == 0x66 && BytesIn(w, col, 1, 4) && SetNibble(w, col, 0) && SetOf(w, 4) == 0
             && BytesIn(w, col, 5, 8)
           else ByteOf(w, 0) == 0x33 && CodesIn(w, col, 0, 4) && SetOf(w, 4) == 0 && BytesIn(w, col, 5, 8)
         else if SetIn(col, 0) then
           if SetIn(col, 4) then
             && ByteOf(w, 0) == 0x55 && BytesIn(w, col, 1, 4) && SetNibble(w, col, 0) && SetNibble(w, col, 4)
             && BytesIn(w, col, 5, 8)
           else
             && ByteOf(w, 0) == 0x4b && BytesIn(w, col, 1, 4) && SetNibble(w, col, 0) && SetOf(w, 4) == 0
             && w >> 40 == 0xc78f1e
         else if SetIn(col, 4) then
           ByteOf(w, 0) == 0x2d && CodesIn(w, col, 0, 4) && SetNibble(w, col, 4) && BytesIn(w, col, 5, 8)
         else if exists lane | 0 <= lane < 8 :: TerminateIn(col, lane) then
           forall lane | 0 <= lane < 8 && TerminateIn(col, lane) :: Terminated(w, col, lane)
         else ByteOf(w, 0) == 0x1e && CodesIn(w, col, 0, 8)
  }

  // What is read from the wire

  predicate DataFrom(w: Word, col: Column, lo: nat, hi: nat)
    requires col.Whole() && lo <= hi <= 8
  {
    forall k | lo <= k < hi :: !col.c[k] && col.d[k] == ByteOf(w, k)
  }

  predicate CharsFrom(w: Word, col: Column, lo: nat, hi: nat)
    requires col.Whole() && lo <= hi <= 8
  {
    forall k | lo <= k < hi :: col.c[k] && col.d[k] == CharFor(CodeOf(w, k))
  }

  predicate CharIn(col: Column, lane: nat, x: Octet)
    requires col.Whole() && lane < 8
  {
    col.c[lane] && col.d[lane] == x
  }

  /** The column read from a block; other headers and types give eight errors. */
  ghost predicate Decoded(b: Block, col: Column)
    requires col.Whole()
  {
    var w, bt := b.data, ByteOf(b.data, 0);
    if b.header == 2 then DataFrom(w, col, 0, 8)
    else if b.header != 1 then forall k | 0 <= k < 8 :: CharIn(col, k, 0xfe)
    else if bt == 0x1e then CharsFrom(w, col, 0, 8)
    else if bt == 0x2d then CharsFrom(w, col, 0, 4) && CharIn(col, 4, SetFor(SetOf(w, 4))) && DataFrom(w, col, 5, 8)
    else if bt == 0x33 then CharsFrom(w, col, 0, 4) && CharIn(col, 4, 0xfb) && DataFrom(w, col, 5, 8)
    else if bt == 0x66 then
      && CharIn(col, 0, SetFor(SetOf(w, 0))) && DataFrom(w, col, 1, 4)
      && CharIn(col, 4, 0xfb) && DataFrom(w, col, 5, 8)
    else if bt == 0x55 then
      && CharIn(col, 0, SetFor(SetOf(w, 0))) && DataFrom(w, col, 1, 4)
      && CharIn(col, 4, SetFor(SetOf(w, 4))) && DataFrom(w, col, 5, 8)
    else if bt == 0x78 then CharIn(col, 0, 0xfb) && DataFrom(w, col, 1, 8)
    else if bt == 0x4b then
      && CharIn(col, 0, if SetOf(w, 0) in {0, 0xf} then 0x9c else 0xfe) && DataFrom(w, col, 1, 4)
      && CharsFrom(w, col, 4, 8)
    else if bt in {0x87, 0x99, 0xaa, 0xb4, 0xcc, 0xd2, 0xe1, 0xff} then
      forall lane | 0 <= lane < 8 && bt == TerminateType(lane) ::
        && (forall k | 0 <= k < lane :: !col.c[k] && col.d[k] == ByteOf(w, k + 1))
        && CharIn(col, lane, 0xfd) && CharsFrom(w, col, lane + 1, 8)
    else forall k | 0 <= k < 8 :: CharIn(col, k, 0xfe)
  }

  // The fields are those of the coder

  lemma ByteIs(w: Word, k: nat)
    requires k < 8
    ensures ByteAt(w, k) == ByteOf(w, k)
  {
    FieldOfRest(w, 8, k);
    LowIs(Rest(w, 8, k));
    RestOfBytes(w, k);
    hide Field, Rest, Low, DownBytes;
  }

  lemma RestOfBytes(w: Word, k: nat)
    requires k < 8
    ensures Rest(w, 8, k) == DownBytes(w, k)
  {
    WholeRest(w);
    RestBytes(w);
    hide Rest;
  }

  lemma CodeIs(w: Word, k: nat)
    requires k < 8
    ensures CodeAt(w, k) == CodeOf(w, k)
  {
    FieldOfRest(Down8(w), 7, k);
    LowIs(Rest(Down8(w), 7, k));
    RestOfCodes(w, k);
    hide Field, Rest, Low, DownCodes, Down8;
  }

  lemma RestOfCodes(w: Word, k: nat)
    requires k < 8
    ensures Rest(Down8(w), 7, k) == DownCodes(w, k)
  {
    WholeRest(w);
    Sevens(Down8(w), k);
    CodesAbove(w, Down8(w), k);
    hide Rest, Down8, BySevens, DownCodes;
  }

  function BySevens(x: Word, k: nat): Word {
    if k == 0 then x
    else if k == 1 then x >> 7
    else if k == 2 then x >> 14
    else if k == 3 then x >> 21
    else if k == 4 then x >> 28
    else if k == 5 then x >> 35
    else if k == 6 then x >> 42
    else x >> 49
  }

  lemma Sevens(x: Word, k: nat)
    requires k < 8
    ensures Rest(x, 7, k) == BySevens(x, k)
  {
    hide Rest;
    RestCodes(x);
    WholeOf(x);
  }

  lemma WholeOf(x: Word)
    ensures Rest(x, 7, 0) == x
  {
  }

  lemma CodesAbove(w: Word, x: Word, k: nat)
    requires k < 8 && x == w >> 8
    ensures BySevens(x, k) == DownCodes(w, k)
  {
  }

  lemma ValuesAre(x: Octet, control: bool, code: Word)
    ensures ToCode(x, control) == CodeFor(x, control) && FromCode(code) == CharFor(code)
  {
  }

  lemma SetsAre(w: Word)
    ensures NibbleLow(w) == SetOf(w, 0) && NibbleHigh(w) == SetOf(w, 4)
  {
  }

  lemma FormsAre(col: Column)
    requires col.Whole()
    ensures DataLanes(col, 0, 8) <==> NoControl(col, 0, 8)
    ensures Starts(col, 0) <==> StartIn(col, 0)
    ensures Starts(col, 4) <==> StartIn(col, 4)
    ensures Ordered(col, 0) <==> SetIn(col, 0)
    ensures Ordered(col, 4) <==> SetIn(col, 4)
    ensures forall lane | 0 <= lane < 8 :: Terminates(col, lane) <==> TerminateIn(col, lane)
  {
  }

  // What the encoder makes

  lemma DataFormat(col: Column)
    requires col.Whole()
    ensures BytesIn(Bytes(col.d, 0, 8, 0), col, 0, 8)
  {
    hide Bytes, ByteAt, ByteOf, CodeAt, NibbleLow, NibbleHigh;
    forall k | 0 <= k < 8
      ensures ByteOf(Bytes(col.d, 0, 8, 0), k) == col.d[k]
    {
      BytesPlaces(col.d, 0, 8, 0, k);
      ByteIs(Bytes(col.d, 0, 8, 0), k);
    }
  }

  lemma StartFormat(col: Column)
    requires col.Whole()
    ensures var w := Or(0x78, Bytes(col.d, 1, 8, 0)); ByteOf(w, 0) == 0x78 && BytesIn(w, col, 1, 8)
  {
    hide Or, Bytes, ByteAt, ByteOf;
    var w := Or(0x78, Bytes(col.d, 1, 8, 0));
    forall k | 0 <= k < 8
      ensures ByteOf(w, k) == if k == 0 then 0x78 else col.d[k]
    {
      StartBlock(col.d, k);
      ByteIs(w, k);
    }
  }

  lemma OrderedFormat(col: Column, bt: Word, low: Word, high: Word)
    requires col.Whole() && bt < 0x100 && low in {0, OCodeLow} && high in {0, OCodeHigh}
    ensures var w := Or(Or(Or(Or(bt, Bytes(col.d, 5, 8, 0)), high), Bytes(col.d, 1, 4, 0)), low);
      && ByteOf(w, 0) == bt && BytesIn(w, col, 1, 4) && BytesIn(w, col, 5, 8)
      && SetOf(w, 0) == (if low == 0 then 0 else 0xf) && SetOf(w, 4) == (if high == 0 then 0 else 0xf)
  {
    hide Or, Bytes, ByteAt, ByteOf, NibbleLow, NibbleHigh, SetOf;
    var w := Or(Or(Or(Or(bt, Bytes(col.d, 5, 8, 0)), high), Bytes(col.d, 1, 4, 0)), low);
    SetsAre(w);
    forall k | 0 <= k < 8
      ensures k == 0 ==> ByteOf(w, k) == bt
      ensures k != 0 && k != 4 ==> ByteOf(w, k) == col.d[k]
    {
      OrderedBlock(bt, col.d, low, high, k);
      ByteIs(w, k);
    }
    OrderedBlock(bt, col.d, low, high, 0);
  }

  lemma HighFormat(col: Column, bt: Word, signal: Word)
    requires col.Whole() && bt < 0x100 && signal in {0, OCodeHigh}
    ensures var w := Or(Or(Or(bt, LowCodes(Codes(col, 8))), Bytes(col.d, 5, 8, 0)), signal);
      && ByteOf(w, 0) == bt && CodesIn(w, col, 0, 4) && BytesIn(w, col, 5, 8)
      && SetOf(w, 4) == (if signal == 0 then 0 else 0xf)
  {
    hide Or, LowCodes, Codes, Bytes, ByteAt, ByteOf, CodeAt, CodeOf, CodeFor, NibbleHigh, SetOf, Field;
    var ctrl, d := Codes(col, 8), col.d;
    var w := Or(Or(Or(bt, LowCodes(ctrl)), Bytes(d, 5, 8, 0)), signal);
    SetsAre(w);
    forall k | 0 <= k < 8
      ensures k == 0 ==> ByteOf(w, k) == bt
      ensures k >= 5 ==> ByteOf(w, k) == d[k]
      ensures k < 4 ==> CodeOf(w, k) == CodeFor(col.d[k], col.c[k])
    {
      HighBlock(bt, ctrl, d, signal, k);
      ByteIs(w, k);
      CodeHere(col, w, k);
    }
    HighBlock(bt, ctrl, d, signal, 0);
  }

  /** A code that is that of the column's lane. */
  lemma CodeHere(col: Column, w: Word, k: nat)
    requires col.Whole() && k < 8
    ensures CodeAt(w, k) == Field(Codes(col, 8), 7, k) ==> CodeOf(w, k) == CodeFor(col.d[k], col.c[k])
  {
    hide Codes, CodeAt, CodeOf, Field, ToCode, FromCode, CodeFor, CharFor;
    CodesFields(col, 8, k);
    ValuesAre(col.d[k], col.c[k], 0);
    CodeIs(w, k);
  }

  lemma AllFormat(col: Column)
    requires col.Whole()
    ensures var w := Or(0x1e, AllCodes(Codes(col, 8))); ByteOf(w, 0) == 0x1e && CodesIn(w, col, 0, 8)
  {
    hide Or, AllCodes, Codes, ByteAt, ByteOf, CodeAt, CodeOf, CodeFor, Field;
    var w := Or(0x1e, AllCodes(Codes(col, 8)));
    forall k | 0 <= k < 8
      ensures k == 0 ==> ByteOf(w, k) == 0x1e
      ensures CodeOf(w, k) == CodeFor(col.d[k], col.c[k])
    {
      ControlBlock(Codes(col, 8), k);
      ByteIs(w, k);
      CodeHere(col, w, k);
    }
  }

  lemma LoneFormat(col: Column, low: Word)
    requires col.Whole() && low in {0, OCodeLow}
    ensures var w := Or(Or(Or(0x4b, Misplaced), Bytes(col.d, 1, 4, 0)), low);
      && ByteOf(w, 0) == 0x4b && BytesIn(w, col, 1, 4) && SetOf(w, 0) == (if low == 0 then 0 else 0xf)
      && SetOf(w, 4) == 0 && w >> 40 == 0xc78f1e
  {
    hide Or, Bytes, ByteAt, ByteOf, CodeAt, FromCode, NibbleLow, NibbleHigh, SetOf, Misplaced;
    var w := Or(Or(Or(0x4b, Misplaced), Bytes(col.d, 1, 4, 0)), low);
    SetsAre(w);
    forall k | 0 <= k < 8
      ensures k == 0 ==> ByteOf(w, k) == 0x4b
      ensures 1 <= k < 4 ==> ByteOf(w, k) == col.d[k]
    {
      LoneOrderedSeen(col.d, low, k);
      ByteIs(w, k);
    }
    LoneOrderedSeen(col.d, low, 0);
    forall k | 5 <= k < 8
      ensures ByteOf(Bytes(col.d, 1, 4, 0), k) == 0
    {
      BytesPlaces(col.d, 1, 4, 0, k);
      ByteIs(Bytes(col.d, 1, 4, 0), k);
    }
    BytesPlaces(col.d, 1, 4, 0, 0);
    SetsAre(Bytes(col.d, 1, 4, 0));
    LoneUpper(Bytes(col.d, 1, 4, 0), low);
  }

  lemma LoneUpper(bytes: Word, low: Word)
    requires ByteOf(bytes, 5) == 0 && ByteOf(bytes, 6) == 0 && ByteOf(bytes, 7) == 0 && SetOf(bytes, 4) == 0
    requires low in {0, OCodeLow}
    ensures var w := Or(Or(Or(0x4b, Misplaced), bytes), low); w >> 40 == 0xc78f1e && SetOf(w, 4) == 0
  {
  }

  /** The block of a column that terminates in a lane. */
  function TermWord(col: Column, lane: nat): Word
    requires col.Whole() && lane < 8
  {
    Or(Or(TermType(lane), TermCodes(Codes(col, 8), lane)), Bytes(col.d, 0, lane, 1))
  }

  lemma TermFormat(col: Column, lane: nat)
    requires col.Whole() && lane < 8
    ensures Terminated(TermWord(col, lane), col, lane)
  {
    hide TermWord, ByteOf, CodeOf, CodeFor, TerminateType, UnusedBits;
    var w := TermWord(col, lane);
    TermByte(col, lane, 0);
    forall k | 0 <= k < lane
      ensures ByteOf(w, k + 1) == col.d[k]
    {
      TermByte(col, lane, k + 1);
    }
    forall k | lane < k < 8
      ensures CodeOf(w, k) == CodeFor(col.d[k], col.c[k])
    {
      TermCode(col, lane, k);
    }
    if lane < 7 {
      TermRest(col, lane);
    }
  }

  lemma TermByte(col: Column, lane: nat, k: nat)
    requires col.Whole() && k <= lane < 8
    ensures ByteOf(TermWord(col, lane), k) == if k == 0 then TerminateType(lane) else col.d[k - 1]
  {
    TermTypes(lane);
    TypesAre(lane);
    hide Or, TermCodes, Codes, Bytes, ByteAt, ByteOf, TermType, TerminateType, BlockTermLane;
    TermBlockBytes(TermType(lane), lane, Codes(col, 8), col.d, k);
    ByteIs(TermWord(col, lane), k);
  }

  lemma TermCode(col: Column, lane: nat, k: nat)
    requires col.Whole() && lane < k < 8
    ensures CodeOf(TermWord(col, lane), k) == CodeFor(col.d[k], col.c[k])
  {
    TermTypes(lane);
    hide Or, TermCodes, Codes, Bytes, CodeAt, CodeOf, CodeFor, TermType, BlockTermLane, Field;
    TermBlockCodes(TermType(lane), lane, Codes(col, 8), col.d, k);
    CodeHere(col, TermWord(col, lane), k);
  }

  lemma TermRest(col: Column, lane: nat)
    requires col.Whole() && lane < 7
    ensures ByteOf(TermWord(col, lane), lane + 1) & UnusedBits(lane) == 0
  {
    TermTypes(lane);
    hide Or, TermCodes, Codes, Bytes, ByteOf, TermType, BlockTermLane, UnusedBits;
    TermUnused(TermType(lane), lane, Codes(col, 8), col.d);
  }

  lemma TypesAre(lane: nat)
    requires lane < 8
    ensures TermType(lane) == TerminateType(lane)
  {
  }

  /** Between its data and its codes the block has zeros. */
  lemma TermUnused(bt: Word, lane: nat, ctrl: Word, d: seq<Octet>)
    requires |d| == 8 && lane < 7 && bt < 0x100
    ensures ByteOf(Or(Or(bt, TermCodes(ctrl, lane)), Bytes(d, 0, lane, 1)), lane + 1) & UnusedBits(lane) == 0
  {
    hide Or, TermCodes, Bytes, ByteAt, ByteOf, CodeAt, NibbleLow, NibbleHigh, UnusedBits;
    var codes, bytes, k := TermCodes(ctrl, lane), Bytes(d, 0, lane, 1), lane + 1;
    TypeFields(bt, k);
    BytesPlaces(d, 0, lane, 1, k);
    Joined(bt, codes, k);
    Joined(Or(bt, codes), bytes, k);
    OrZeros();
    ByteIs(Or(Or(bt, codes), bytes), k);
    ByteIs(codes, k);
    MaskedOff(ctrl, lane);
  }

  lemma MaskedOff(ctrl: Word, lane: nat)
    requires lane < 7
    ensures ByteOf(TermCodes(ctrl, lane), lane + 1) & UnusedBits(lane) == 0
  {
  }

  /** Every column is encoded to a block of this format. */
  lemma EncodedAs(col: Column)
    requires col.Whole()
    ensures Encoded(col, Encode(col))
  {
    FormsAre(col);
    hide DataLanes, Starts, Ordered, Terminates, NoControl, StartIn, SetIn, TerminateIn, TermLane;
    hide Or, Bytes, Codes, LowCodes, HighCodes, AllCodes, TermCodes, TermType, Signal, ByteOf, SetOf;
    hide BytesIn, CodesIn, Terminated, SetNibble;
    if DataLanes(col, 0, 8) {
      DataFormat(col);
    } else if Starts(col, 0) {
      StartFormat(col);
    } else if Starts(col, 4) {
      if Ordered(col, 0) {
        OrderedStartFormat(col);
      } else {
        HighFormat(col, 0x33, 0);
        Reordered(0x33, LowCodes(Codes(col, 8)), Bytes(col.d, 5, 8, 0), 0);
      }
    } else if Ordered(col, 0) {
      OrderedLowFormat(col);
    } else if Ordered(col, 4) {
      SignalIn(col.d[4]);
      HighFormat(col, 0x2d, Signal(col.d[4], OCodeHigh));
      NibbleIn(Encode(col).data, col, 4);
    } else {
      LastForms(col);
    }
  }

  lemma SignalIn(x: Octet)
    ensures Signal(x, OCodeLow) in {0, OCodeLow} && (Signal(x, OCodeLow) == 0 <==> x != 0x5c)
    ensures Signal(x, OCodeHigh) in {0, OCodeHigh} && (Signal(x, OCodeHigh) == 0 <==> x != 0x5c)
  {
  }

  lemma NibbleIn(w: Word, col: Column, lane: nat)
    requires col.Whole() && lane in {0, 4} && SetOf(w, lane) == if col.d[lane] == 0x5c then 0xf else 0
    ensures SetNibble(w, col, lane)
  {
  }

  lemma OrderedStartFormat(col: Column)
    requires col.Whole() && !DataLanes(col, 0, 8) && !Starts(col, 0) && Starts(col, 4) && Ordered(col, 0)
    ensures var w := Encode(col).data;
      && Encode(col).header == 1
      && ByteOf(w, 0) == 0x66 && BytesIn(w, col, 1, 4) && SetNibble(w, col, 0) && SetOf(w, 4) == 0
      && BytesIn(w, col, 5, 8)
  {
    hide DataLanes, Starts, Ordered, Or, Bytes, Codes, Signal, ByteOf, SetOf, BytesIn, SetNibble;
    var low := Signal(col.d[0], OCodeLow);
    SignalIn(col.d[0]);
    OrderedFormat(col, 0x66, low, 0);
    Reordered(0x66, Bytes(col.d, 1, 4, 0), low, Bytes(col.d, 5, 8, 0));
    NibbleIn(Encode(col).data, col, 0);
  }

  lemma OrderedLowFormat(col: Column)
    requires col.Whole() && !DataLanes(col, 0, 8) && !Starts(col, 0) && !Starts(col, 4) && Ordered(col, 0)
    ensures var w := Encode(col).data;
      && Encode(col).header == 1 && BytesIn(w, col, 1, 4) && SetNibble(w, col, 0)
      && if Ordered(col, 4) then ByteOf(w, 0) == 0x55 && SetNibble(w, col, 4) && BytesIn(w, col, 5, 8)
         else ByteOf(w, 0) == 0x4b && SetOf(w, 4) == 0 && w >> 40 == 0xc78f1e
  {
    LowCodesAreErrors(col);
    hide DataLanes, Starts, Ordered, Or, Bytes, Codes, HighCodes, Signal, ByteOf, SetOf, BytesIn, SetNibble, Misplaced;
    var low, high := Signal(col.d[0], OCodeLow), Signal(col.d[4], OCodeHigh);
    SignalIn(col.d[0]);
    SignalIn(col.d[4]);
    if Ordered(col, 4) {
      OrderedFormat(col, 0x55, low, high);
      NibbleIn(Encode(col).data, col, 4);
    } else {
      LoneFormat(col, low);
    }
    NibbleIn(Encode(col).data, col, 0);
  }

  lemma LastForms(col: Column)
    requires col.Whole() && !DataLanes(col, 0, 8) && !Starts(col, 0) && !Starts(col, 4) && !Ordered(col, 0)
          && !Ordered(col, 4)
    ensures var w := Encode(col).data;
      && Encode(col).header == 1
      && if exists lane | 0 <= lane < 8 :: TerminateIn(col, lane) then
           forall lane | 0 <= lane < 8 && TerminateIn(col, lane) :: Terminated(w, col, lane)
         else ByteOf(w, 0) == 0x1e && CodesIn(w, col, 0, 8)
  {
    FormsAre(col);
    OneTerminate(col);
    hide DataLanes, Starts, Ordered, Terminates, TerminateIn, TermLane, NoControl, StartIn, SetIn;
    hide Or, Bytes, Codes, AllCodes, TermCodes, TermType, ByteOf, CodesIn, Terminated;
    var first := TermLane(col, 0);
    if first < 8 {
      TermFormat(col, first);
    } else {
      AllFormat(col);
    }
  }

  /** A column terminates in one lane at most, the one found. */
  lemma OneTerminate(col: Column)
    requires col.Whole()
    ensures var first := TermLane(col, 0);
      && (first < 8 ==> TerminateIn(col, first))
      && forall lane | 0 <= lane < 8 && TerminateIn(col, lane) :: lane == first
  {
    var first := TermLane(col, 0);
    forall lane | 0 <= lane < 8 && TerminateIn(col, lane)
      ensures lane == first
    {
      assert Terminates(col, lane);
      assert first < 8 ==> col.c[first];
    }
  }

  // What the decoder reads

  /** Every block is decoded from this format. */
  lemma DecodedAs(b: Block)
    ensures Decoded(b, Decode(b))
  {
    var w, bt := b.data, ByteOf(b.data, 0);
    ByteIs(w, 0);
    TypesRead(bt);
    hide Decode, ByteOf, BlockTermLane, TerminateType;
    if b.header != 1 {
      PlainRead(b);
    } else if bt in {0x1e, 0x2d, 0x33} {
      HighRead(w);
    } else if bt in {0x66, 0x55} {
      LowSetRead(w);
    } else if bt in {0x78, 0x4b} {
      LowRead(w);
    } else if BlockTermLane(bt) < 8 {
      TermRead(w, BlockTermLane(bt));
    } else {
      UnknownRead(w);
    }
  }

  lemma PlainRead(b: Block)
    requires b.header != 1
    ensures Decoded(b, Decode(b))
  {
    FieldsRead(b.data);
    hide ByteAt, ByteOf, NibbleLow, NibbleHigh, SetOf, OCode, SetFor, BlockTermLane, TerminateType, CtrlOf;
  }

  lemma UnknownRead(w: Word)
    requires ByteOf(w, 0) !in {0x1e, 0x2d, 0x33, 0x66, 0x55, 0x78, 0x4b} && BlockTermLane(ByteOf(w, 0)) == 8
    ensures Decode(Block(1, w)) == ErrorColumn() && forall k | 0 <= k < 8 :: CharIn(ErrorColumn(), k, 0xfe)
  {
    ByteIs(w, 0);
    hide ByteAt, ByteOf, NibbleLow, NibbleHigh, OCode, BlockTermLane, CtrlOf, DataOf;
  }

  lemma HighRead(w: Word)
    requires ByteOf(w, 0) in {0x1e, 0x2d, 0x33}
    ensures Decoded(Block(1, w), Decode(Block(1, w)))
  {
    FieldsRead(w);
    SetsRead(w);
    hide ByteAt, ByteOf, NibbleLow, NibbleHigh, SetOf, OCode, SetFor, BlockTermLane, TerminateType, CtrlOf, DataOf;
    hide CharFor, CodeOf, ErrorColumn;
  }

  lemma LowSetRead(w: Word)
    requires ByteOf(w, 0) in {0x66, 0x55}
    ensures Decoded(Block(1, w), Decode(Block(1, w)))
  {
    FieldsRead(w);
    SetsRead(w);
    hide ByteAt, ByteOf, NibbleLow, NibbleHigh, SetOf, OCode, SetFor, BlockTermLane, TerminateType, CtrlOf, DataOf;
    hide CharFor, CodeOf, ErrorColumn;
  }

  lemma LowRead(w: Word)
    requires ByteOf(w, 0) in {0x78, 0x4b}
    ensures Decoded(Block(1, w), Decode(Block(1, w)))
  {
    FieldsRead(w);
    SetsRead(w);
    hide ByteAt, ByteOf, NibbleLow, NibbleHigh, SetOf, OCode, SetFor, BlockTermLane, TerminateType, CtrlOf, DataOf;
    hide CharFor, CodeOf, ErrorColumn;
  }

  lemma TermRead(w: Word, lane: nat)
    requires lane < 8 && BlockTermLane(ByteOf(w, 0)) == lane
    requires ByteOf(w, 0) in {0x87, 0x99, 0xaa, 0xb4, 0xcc, 0xd2, 0xe1, 0xff}
    ensures Decoded(Block(1, w), Decode(Block(1, w)))
  {
    TypesRead(ByteOf(w, 0));
    ByteIs(w, 0);
    hide Decode, ByteAt, ByteOf, TermType, BlockTermLane, TerminateType, CharFor, CodeOf, CharsFrom, CharIn;
    TermDecoded(w, lane);
    TermLanes(w, lane, Decode(Block(1, w)));
  }

  lemma TermLanes(w: Word, lane: nat, col: Column)
    requires lane < 8 && col.Whole()
    requires col == Column(DataOf(w)[1..lane + 1] + [TERM] + CtrlOf(w)[lane + 1..],
                           Repeat(false, 8)[..lane] + Repeat(true, 8)[..8 - lane])
    ensures forall k | 0 <= k < lane :: !col.c[k] && col.d[k] == ByteOf(w, k + 1)
    ensures CharIn(col, lane, 0xfd) && CharsFrom(w, col, lane + 1, 8)
  {
    FieldsRead(w);
    hide ByteAt, ByteOf, CharFor, CodeOf, CtrlOf, DataOf;
    forall k | 0 <= k < lane
      ensures !col.c[k] && col.d[k] == ByteOf(w, k + 1)
    {
      assert DataOf(w)[k + 1] == ByteOf(w, k + 1);
    }
  }

  lemma FieldsRead(w: Word)
    ensures forall k | 0 <= k < 8 :: DataOf(w)[k] == ByteOf(w, k) && CtrlOf(w)[k] == CharFor(CodeOf(w, k))
    ensures ByteAt(w, 0) == ByteOf(w, 0)
  {
    hide ByteAt, ByteOf, CodeAt, CodeOf, FromCode, CharFor, ToCode, CodeFor;
    ByteIs(w, 0);
    forall k | 0 <= k < 8
      ensures DataOf(w)[k] == ByteOf(w, k) && CtrlOf(w)[k] == CharFor(CodeOf(w, k))
    {
      ByteIs(w, k);
      CodeIs(w, k);
      ValuesAre(0, true, CodeOf(w, k));
    }
  }

  lemma SetsRead(w: Word)
    ensures OCode(NibbleLow(w), SIG_OS) == SetFor(SetOf(w, 0)) && OCode(NibbleHigh(w), SIG_OS) == SetFor(SetOf(w, 4))
    ensures OCode(NibbleLow(w), SEQ_OS) == if SetOf(w, 0) in {0, 0xf} then 0x9c else 0xfe
  {
    SetsAre(w);
    hide NibbleLow, NibbleHigh, SetOf;
  }

  lemma TypesRead(bt: Word)
    ensures BlockTermLane(bt) < 8 <==> bt in {0x87, 0x99, 0xaa, 0xb4, 0xcc, 0xd2, 0xe1, 0xff}
    ensures forall lane | 0 <= lane < 8 && bt == TerminateType(lane) :: BlockTermLane(bt) == lane
  {
  }
}
