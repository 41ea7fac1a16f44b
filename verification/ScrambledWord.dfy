/**
 * The scrambler as the serdes endpoints run it: on 64-bit words, bit 0 first, with the
 * state in the low 58 bits of a word.
 */
module ScrambledWord {
  import opened Scrambler

  type Word = bv64

  // The operations on words, named so that proofs need not look inside them

  function Half(w: Word): Word { w >> 1 }

  function Twice(w: Word): Word { w << 1 }

  function Low(w: Word): bool { w & 1 == 1 }

  function Both(a: Word, b: Word): Word { a & b }

  function Either(a: Word, b: Word): Word { a | b }

  function Plus(a: Word, b: Word): Word { a + b }

  /** 1 << i */
  function OneBit(i: nat): Word {
    if i == 0 then 1 else Twice(OneBit(i - 1))
  }

  function BitOf(w: Word, i: nat): bool {
    if i == 0 then Low(w) else BitOf(Half(w), i - 1)
  }

  /** The bits of a word, in the order in which they are sent. */
  function Bits(w: Word): (bits: seq<bool>)
    ensures |bits| == 64
  {
    seq(64, i requires 0 <= i < 64 => BitOf(w, i))
  }

  /** The channel bits that a state stands for. */
  function Abs(state: Word): State {
    seq(Width, i requires 0 <= i < Width => BitOf(state, i))
  }

  const StateMask: Word := 0x1ffffffffffffff

  // Bits of words

  lemma HalfBoth(a: Word, b: Word)
    ensures Half(Both(a, b)) == Both(Half(a), Half(b))
  {
  }

  lemma LowBoth(a: Word, b: Word)
    ensures Low(Both(a, b)) <==> Low(a) && Low(b)
  {
  }

  lemma HalfEither(a: Word, b: Word)
    ensures Half(Either(a, b)) == Either(Half(a), Half(b))
  {
  }

  lemma LowEither(a: Word, b: Word)
    ensures Low(Either(a, b)) <==> Low(a) || Low(b)
  {
  }

  lemma ZeroAndOne()
    ensures Half(0) == 0 && !Low(0) && Half(1) == 0 && Low(1)
  {
  }

  lemma Halves(a: Word, b: Word)
    ensures Half(Both(a, b)) == Both(Half(a), Half(b)) && (Low(Both(a, b)) <==> Low(a) && Low(b))
    ensures Half(Either(a, b)) == Either(Half(a), Half(b)) && (Low(Either(a, b)) <==> Low(a) || Low(b))
    ensures Half(0) == 0 && !Low(0) && Half(1) == 0 && Low(1)
  {
    hide *;
    HalfBoth(a, b);
    LowBoth(a, b);
    HalfEither(a, b);
    LowEither(a, b);
    ZeroAndOne();
  }

  lemma {:induction false} BitsBoth(a: Word, b: Word, i: nat)
    ensures BitOf(Both(a, b), i) <==> BitOf(a, i) && BitOf(b, i)
    ensures BitOf(Either(a, b), i) <==> BitOf(a, i) || BitOf(b, i)
    decreases i
  {
    hide Half, Low, Both, Either;
    Halves(a, b);
    if i > 0 {
      BitsBoth(Half(a), Half(b), i - 1);
    }
  }

  lemma {:induction false} BitZero(i: nat)
    ensures !BitOf(0, i)
    decreases i
  {
    hide Half, Low;
    Halves(0, 0);
    if i > 0 {
      BitZero(i - 1);
    }
  }

  // Powers of two

  const Top: Word := 0x8000000000000000

  lemma TwiceHalved(p: Word)
    requires p < Top
    ensures Half(Twice(p)) == p && !Low(Twice(p))
  {
  }

  /** 1 << i has bit i and no other. */
  lemma {:induction false} BitOneBit(i: nat, j: nat)
    requires i < 64
    ensures BitOf(OneBit(i), j) <==> j == i
    decreases j
  {
    hide Half, Low, Twice;
    Halves(0, 0);
    if i == 0 {
      if j > 0 {
        BitZero(j - 1);
      }
    } else {
      OneBitBelow(i - 1);
      TwiceHalved(OneBit(i - 1));
      if j > 0 {
        BitOneBit(i - 1, j - 1);
      }
    }
  }

  /** The next eight values of 1 << i. */
  lemma OneBitRun(i: nat)
    ensures OneBit(i + 1) == Twice(OneBit(i)) && OneBit(i + 2) == Twice(OneBit(i + 1))
    ensures OneBit(i + 3) == Twice(OneBit(i + 2)) && OneBit(i + 4) == Twice(OneBit(i + 3))
    ensures OneBit(i + 5) == Twice(OneBit(i + 4)) && OneBit(i + 6) == Twice(OneBit(i + 5))
    ensures OneBit(i + 7) == Twice(OneBit(i + 6)) && OneBit(i + 8) == Twice(OneBit(i + 7))
  {
    hide Twice;
  }

  lemma OneBitValues()
    ensures OneBit(0) == 0x1 && OneBit(8) == 0x100 && OneBit(16) == 0x10000 && OneBit(24) == 0x1000000
    ensures OneBit(32) == 0x100000000 && OneBit(40) == 0x10000000000 && OneBit(48) == 0x1000000000000
    ensures OneBit(56) == 0x100000000000000 && OneBit(57) == 0x200000000000000 && OneBit(38) == 0x4000000000
  {
    assert OneBit(0) == 1;
    hide OneBit;
    OneBitRun(0);
    OneBitRun(8);
    OneBitRun(16);
    OneBitRun(24);
    OneBitRun(32);
    OneBitRun(40);
    OneBitRun(48);
    OneBitRun(56);
  }

  lemma OneBitBelow(i: nat)
    requires i < 63
    ensures OneBit(i) < Top
  {
    hide OneBit;
    OneBitValues();
    OneBitRun(if i < 8 then 0 else if i < 16 then 8 else if i < 24 then 16 else if i < 32 then 24
              else if i < 40 then 32 else if i < 48 then 40 else if i < 56 then 48 else 56);
  }

  function Less(w: Word): Word { w - 1 }

  lemma LessHalved(p: Word)
    requires p != 0 && p < Top
    ensures Half(Less(Twice(p))) == Less(p) && Low(Less(Twice(p))) && Twice(p) != 0 && Less(1) == 0
  {
  }

  /** (1 << n) - 1 has the n low bits. */
  lemma {:induction false} BitMask(n: nat, i: nat)
    requires n < 63
    ensures OneBit(n) != 0 && (BitOf(Less(OneBit(n)), i) <==> i < n)
    decreases n
  {
    LessHalved(1);
    hide Half, Low, Twice, Less;
    if n == 0 {
      BitZero(i);
    } else {
      OneBitBelow(n - 1);
      BitMask(n - 1, if i > 0 then i - 1 else 0);
      LessHalved(OneBit(n - 1));
    }
  }

  // The state

  /** A channel bit shifted into the state word. */
  function Shifted(state: Word, y: bool): Word {
    if y then ((state & StateMask) << 1) | 1 else (state & StateMask) << 1
  }

  lemma ShiftedHalves(state: Word, y: bool)
    ensures Half(Shifted(state, y)) == Both(state, StateMask) && Low(Shifted(state, y)) == y
  {
  }

  lemma MaskIs()
    ensures Less(OneBit(57)) == StateMask
  {
    OneBitValues();
  }

  /** Shifting a channel bit into the state word pushes it on the state. */
  lemma ShiftedPushes(state: Word, y: bool)
    ensures Abs(Shifted(state, y)) == Push(Abs(state), y)
  {
    ShiftedHalves(state, y);
    MaskIs();
    hide Half, Low, Both, Either, Shifted, OneBit, Less;
    forall i | 0 < i < Width
      ensures BitOf(Shifted(state, y), i) == BitOf(state, i - 1)
    {
      BitMask(57, i - 1);
      BitsBoth(state, StateMask, i - 1);
    }
  }

  // Words and their bits

  function Drop(w: Word, i: nat): Word {
    if i == 0 then w else Drop(Half(w), i - 1)
  }

  lemma {:induction false} DropBit(w: Word, i: nat)
    ensures BitOf(w, i) <==> Low(Drop(w, i))
    ensures Drop(w, i + 1) == Half(Drop(w, i))
    decreases i
  {
    hide Half, Low;
    if i > 0 {
      DropBit(Half(w), i - 1);
    }
  }

  lemma EightHalves(w: Word)
    ensures Half(Half(Half(Half(Half(Half(Half(Half(w)))))))) == w >> 8
  {
  }

  lemma DropEight(w: Word, i: nat)
    ensures Drop(w, i + 8) == Drop(w, i) >> 8
  {
    EightHalves(Drop(w, i));
    hide Half, Drop, Low;
    DropBit(w, i);
    DropBit(w, i + 1);
    DropBit(w, i + 2);
    DropBit(w, i + 3);
    DropBit(w, i + 4);
    DropBit(w, i + 5);
    DropBit(w, i + 6);
    DropBit(w, i + 7);
  }

  lemma DropAll(w: Word)
    ensures Drop(w, 64) == 0
  {
    assert Drop(w, 0) == w;
    hide Drop;
    DropEight(w, 0);
    DropEight(w, 8);
    DropEight(w, 16);
    DropEight(w, 24);
    DropEight(w, 32);
    DropEight(w, 40);
    DropEight(w, 48);
    DropEight(w, 56);
  }

  lemma Rejoined(a: Word, b: Word)
    requires Half(a) == Half(b) && Low(a) == Low(b)
    ensures a == b
  {
  }

  ghost predicate Alike(a: Word, b: Word) {
    forall j | 0 <= j < 64 :: BitOf(a, j) == BitOf(b, j)
  }

  lemma {:induction false} SameFrom(a: Word, b: Word, i: nat)
    requires i <= 64 && Alike(a, b)
    ensures Drop(a, i) == Drop(b, i)
    decreases 64 - i
  {
    hide Half, Low, Drop;
    if i == 64 {
      DropAll(a);
      DropAll(b);
    } else {
      SameFrom(a, b, i + 1);
      DropBit(a, i);
      DropBit(b, i);
      Rejoined(Drop(a, i), Drop(b, i));
    }
  }

  /** A word is the bits it sends. */
  lemma SameBits(a: Word, b: Word)
    requires Alike(a, b)
    ensures a == b
  {
    SameFrom(a, b, 0);
  }

  lemma Tested(w: Word, i: nat)
    requires i < 64
    ensures Both(w, OneBit(i)) != 0 <==> BitOf(w, i)
  {
    hide Half, Low, Both, OneBit, BitOf;
    if BitOf(w, i) {
      BitsBoth(w, OneBit(i), i);
      BitOneBit(i, i);
      BitZero(i);
    } else {
      forall j | 0 <= j < 64
        ensures BitOf(Both(w, OneBit(i)), j) == BitOf(0, j)
      {
        BitsBoth(w, OneBit(i), j);
        BitOneBit(i, j);
        BitZero(j);
      }
      SameBits(Both(w, OneBit(i)), 0);
    }
  }

  // The loops over the bits of a word

  /** The n first bits that a word sends. */
  function Prefix(w: Word, n: nat): (bits: seq<bool>)
    ensures |bits| == n
  {
    seq(n, i requires 0 <= i < n => BitOf(w, i))
  }

  ghost predicate Clear(w: Word, n: nat) {
    forall j | n <= j < 64 :: !BitOf(w, j)
  }

  /** Setting bit n, or leaving it clear, sends one more bit. */
  lemma NextBit(w: Word, n: nat, y: bool)
    requires n < 64 && Clear(w, n)
    ensures var next := if y then Either(w, OneBit(n)) else w;
      Prefix(next, n + 1) == Prefix(w, n) + [y] && Clear(next, n + 1)
  {
    hide Either, OneBit, BitOf;
    forall j | 0 <= j < 64
      ensures BitOf(Either(w, OneBit(n)), j) <==> BitOf(w, j) || j == n
    {
      BitsBoth(w, OneBit(n), j);
      BitOneBit(n, j);
    }
  }

  lemma Nothing(state: State)
    ensures Clear(0, 0) && Prefix(0, 0) == [] && Scramble(state, []) == [] && Descramble(state, []) == []
    ensures After(state, []) == state
  {
    forall j | 0 <= j < 64
      ensures !BitOf(0, j)
    {
      BitZero(j);
    }
  }

  lemma WholeWord(w: Word)
    ensures Prefix(w, 64) == Bits(w)
  {
  }

  /** The sum of the two taps of a state. */
  method Tapped(state: Word) returns (bit: bool)
    ensures bit == Feedback(Abs(state))
  {
    Tested(state, 38);
    Tested(state, 57);
    hide Both, OneBit, BitOf;
    bit := (Both(state, OneBit(38)) != 0) != (Both(state, OneBit(57)) != 0);
  }

  /** The scrambler loop. */
  method ScrambleWord(state: Word, data: Word) returns (out: Word, next: Word)
    ensures Bits(out) == Scramble(Abs(state), Bits(data))
    ensures Abs(next) == After(Abs(state), Bits(out))
  {
    hide Both, Either, OneBit, BitOf, Shifted, Feedback, Push, Scramble, Descramble, After, Abs, Clear;
    ghost var s := Abs(state);
    Nothing(s);
    out, next := 0, state;
    var i := 0;
    while i < 64
      invariant i <= 64 && Clear(out, i)
      invariant Prefix(out, i) == Scramble(s, Prefix(data, i))
      invariant Abs(next) == After(s, Prefix(out, i))
    {
      var tap := Tapped(next);
      Tested(data, i);
      var y := tap != (Both(data, OneBit(i)) != 0);
      ScrambleNext(s, Prefix(data, i), BitOf(data, i));
      AfterNext(s, Prefix(out, i), y);
      assert Prefix(data, i + 1) == Prefix(data, i) + [BitOf(data, i)];
      NextBit(out, i, y);
      ShiftedPushes(next, y);
      next := Shifted(next, y);
      if y {
        out := Either(out, OneBit(i));
      }
      i := i + 1;
    }
    WholeWord(out);
    WholeWord(data);
  }

  /** The descrambler loop. */
  method DescrambleWord(state: Word, data: Word) returns (out: Word, next: Word)
    ensures Bits(out) == Descramble(Abs(state), Bits(data))
    ensures Abs(next) == After(Abs(state), Bits(data))
  {
    hide Both, Either, OneBit, BitOf, Shifted, Feedback, Push, Scramble, Descramble, After, Abs, Clear;
    ghost var s := Abs(state);
    Nothing(s);
    out, next := 0, state;
    var i := 0;
    while i < 64
      invariant i <= 64 && Clear(out, i)
      invariant Prefix(out, i) == Descramble(s, Prefix(data, i))
      invariant Abs(next) == After(s, Prefix(data, i))
    {
      var tap := Tapped(next);
      Tested(data, i);
      var y := Both(data, OneBit(i)) != 0;
      DescrambleNext(s, Prefix(data, i), y);
      AfterNext(s, Prefix(data, i), y);
      assert Prefix(data, i + 1) == Prefix(data, i) + [y];
      NextBit(out, i, tap != y);
      if tap != y {
        out := Either(out, OneBit(i));
      }
      ShiftedPushes(next, y);
      next := Shifted(next, y);
      i := i + 1;
    }
    WholeWord(out);
    WholeWord(data);
  }

  /** Descrambling a scrambled word from the same channel history gives the word back. */
  lemma WordRoundTrip(state: Word, peer: Word, data: Word, sent: Word, received: Word)
    requires Abs(state) == Abs(peer) && Bits(sent) == Scramble(Abs(state), Bits(data))
    requires Bits(received) == Descramble(Abs(peer), Bits(sent))
    ensures received == data
  {
    DescrambleScramble(Abs(state), Bits(data));
    hide BitOf, Scramble, Descramble;
    assert Bits(received) == Bits(data);
    forall j | 0 <= j < 64
      ensures BitOf(received, j) == BitOf(data, j)
    {
      assert BitOf(received, j) == Bits(received)[j];
    }
    SameBits(received, data);
  }

  /** One word received is enough to bring a sink with any state in step with its source. */
  lemma InStepAfterOneWord(state: Word, peer: Word, sent: Word)
    ensures After(Abs(state), Bits(sent)) == After(Abs(peer), Bits(sent))
  {
    StatesMeet(Abs(state), Abs(peer), Bits(sent));
  }

  // Bit reversal

  lemma NoCarry(w: Word, p: Word)
    requires w & p == 0
    ensures w + p == w | p
  {
  }

  lemma AddBit(w: Word, p: Word)
    requires Both(w, p) == 0
    ensures Plus(w, p) == Either(w, p)
  {
    NoCarry(w, p);
  }

  ghost predicate Mirrored(w: Word, r: Word) {
    forall j | 0 <= j < 64 :: BitOf(r, j) == BitOf(w, 63 - j)
  }

  /** The word with its bits in the opposite order: the sum of the bits moved. */
  method ReverseWord(w: Word) returns (r: Word)
    ensures Mirrored(w, r)
  {
    hide Both, Either, Plus, OneBit, BitOf;
    r := 0;
    var i := 0;
    forall j | 0 <= j < 64
      ensures !BitOf(0, j)
    {
      BitZero(j);
    }
    while i < 64
      invariant i <= 64
      invariant forall j | 0 <= j < 64 :: BitOf(r, j) == (63 - j < i && BitOf(w, 63 - j))
    {
      Tested(w, i);
      if Both(w, OneBit(i)) != 0 {
        Moved(r, 63 - i);
        r := Plus(r, OneBit(63 - i));
      }
      i := i + 1;
    }
  }

  /** Adding a power of two that is not in a word sets its bit. */
  lemma Moved(r: Word, k: nat)
    requires k < 64 && !BitOf(r, k)
    ensures forall j | 0 <= j < 64 :: BitOf(Plus(r, OneBit(k)), j) <==> BitOf(r, j) || j == k
  {
    hide Both, Either, Plus, OneBit, BitOf;
    Tested(r, k);
    AddBit(r, OneBit(k));
    forall j | 0 <= j < 64
      ensures BitOf(Either(r, OneBit(k)), j) <==> BitOf(r, j) || j == k
    {
      BitsBoth(r, OneBit(k), j);
      BitOneBit(k, j);
    }
  }

  /** Reversing twice restores the word. */
  lemma MirroredTwice(w: Word, r: Word, v: Word)
    requires Mirrored(w, r) && Mirrored(r, v)
    ensures v == w
  {
    hide BitOf;
    forall j | 0 <= j < 64
      ensures BitOf(v, j) == BitOf(w, j)
    {
      assert BitOf(v, j) == BitOf(r, 63 - j) == BitOf(w, 63 - (63 - j));
    }
    SameBits(v, w);
  }
}
