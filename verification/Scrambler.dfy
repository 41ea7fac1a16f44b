/**
 * The self-synchronising scrambler of 10GBASE-R (sections 49.2.6 and 49.2.10 of
 * IEEE 802.3), on streams of bits. Both ends keep the last 58 bits of the channel.
 */
module Scrambler {

  const Width := 58

  /** The last bits of the channel, the latest first. */
  type State = s: seq<bool> | |s| == Width witness seq(Width, _ => false)

  function Feedback(s: State): bool {
    s[38] != s[57]
  }

  function Push(s: State, y: bool): State {
    [y] + s[..Width - 1]
  }

  function Scramble(s: State, xs: seq<bool>): (ys: seq<bool>)
    ensures |ys| == |xs|
    decreases |xs|
  {
    if xs == [] then []
    else
      var y := xs[0] != Feedback(s);
      [y] + Scramble(Push(s, y), xs[1..])
  }

  function Descramble(s: State, ys: seq<bool>): (xs: seq<bool>)
    ensures |xs| == |ys|
    decreases |ys|
  {
    if ys == [] then []
    else [ys[0] != Feedback(s)] + Descramble(Push(s, ys[0]), ys[1..])
  }

  /** The state after these channel bits. */
  function After(s: State, ys: seq<bool>): State
    decreases |ys|
  {
    if ys == [] then s else After(Push(s, ys[0]), ys[1..])
  }

  /** From equal states the descrambler undoes the scrambler, however long the stream. */
  lemma {:induction false} DescrambleScramble(s: State, xs: seq<bool>)
    ensures Descramble(s, Scramble(s, xs)) == xs
    decreases |xs|
  {
    if xs != [] {
      var y := xs[0] != Feedback(s);
      assert Scramble(s, xs)[1..] == Scramble(Push(s, y), xs[1..]);
      DescrambleScramble(Push(s, y), xs[1..]);
    }
  }

  lemma {:induction false} ScrambleDescramble(s: State, ys: seq<bool>)
    ensures Scramble(s, Descramble(s, ys)) == ys
    decreases |ys|
  {
    if ys != [] {
      assert Descramble(s, ys)[1..] == Descramble(Push(s, ys[0]), ys[1..]);
      ScrambleDescramble(Push(s, ys[0]), ys[1..]);
    }
  }

  /** Channel bit j, where the bits before the stream are those of the state. */
  function Past(s: State, ys: seq<bool>, j: int): bool
    requires -Width <= j < |ys|
  {
    if j >= 0 then ys[j] else s[-1 - j]
  }

  lemma PastPush(s: State, ys: seq<bool>, j: int)
    requires ys != [] && -Width <= j < |ys| - 1
    ensures Past(Push(s, ys[0]), ys[1..], j) == Past(s, ys, j + 1)
  {
  }

  /** Each descrambled bit is the sum of three channel bits. */
  lemma {:induction false} DescrambledBit(s: State, ys: seq<bool>, i: nat)
    requires i < |ys|
    ensures Descramble(s, ys)[i] == (ys[i] != (Past(s, ys, i - 39) != Past(s, ys, i - 58)))
    decreases i
  {
    if i > 0 {
      DescrambledBit(Push(s, ys[0]), ys[1..], i - 1);
      PastPush(s, ys, i - 1 - 39);
      PastPush(s, ys, i - 1 - 58);
    }
  }

  /** Where two descramblers that start apart differ, they differ by what their states contribute. */
  lemma StartsApart(s: State, r: State, ys: seq<bool>, i: nat)
    requires i < |ys|
    ensures Descramble(s, ys)[i] != Descramble(r, ys)[i] <==>
      (i < 39 && s[38 - i] != r[38 - i]) != (i < 58 && s[57 - i] != r[57 - i])
  {
    DescrambledBit(s, ys, i);
    DescrambledBit(r, ys, i);
  }

  /** From the 59th bit on the outputs agree, whatever the states were. */
  lemma SelfSynchronises(s: State, r: State, ys: seq<bool>)
    requires |ys| >= Width
    ensures Descramble(s, ys)[Width..] == Descramble(r, ys)[Width..]
  {
    forall i | Width <= i < |ys|
      ensures Descramble(s, ys)[i] == Descramble(r, ys)[i]
    {
      StartsApart(s, r, ys, i);
    }
  }

  /** The bound is tight: states that differ in their latest bit still disagree at the 58th bit. */
  lemma NotSooner(s: State, r: State, ys: seq<bool>)
    requires s[0] != r[0] && |ys| >= Width
    ensures Descramble(s, ys)[Width - 1] != Descramble(r, ys)[Width - 1]
  {
    StartsApart(s, r, ys, Width - 1);
  }

  /** A flipped channel bit flips exactly three descrambled bits, as far as the stream goes. */
  lemma FlippedBit(s: State, ys: seq<bool>, t: nat, i: nat)
    requires t < |ys| && i < |ys|
    ensures Descramble(s, ys[t := !ys[t]])[i] != Descramble(s, ys)[i] <==> i == t || i == t + 39 || i == t + 58
  {
    DescrambledBit(s, ys, i);
    DescrambledBit(s, ys[t := !ys[t]], i);
  }

  // Streams in pieces

  lemma {:induction false} DescrambleAppend(s: State, a: seq<bool>, b: seq<bool>)
    ensures Descramble(s, a + b) == Descramble(s, a) + Descramble(After(s, a), b)
    ensures After(s, a + b) == After(After(s, a), b)
    decreases |a|
  {
    if a == [] {
      assert a + b == b;
    } else {
      assert (a + b)[1..] == a[1..] + b;
      DescrambleAppend(Push(s, a[0]), a[1..], b);
    }
  }

  lemma {:induction false} StateAfter(s: State, ys: seq<bool>, k: nat)
    requires k < Width
    ensures After(s, ys)[k] == Past(s, ys, |ys| - 1 - k)
    decreases |ys|
  {
    if ys != [] {
      StateAfter(Push(s, ys[0]), ys[1..], k);
      PastPush(s, ys, |ys| - 2 - k);
    }
  }

  /** After 58 channel bits both ends hold the same state, whatever they started with. */
  lemma StatesMeet(s: State, r: State, ys: seq<bool>)
    requires |ys| >= Width
    ensures After(s, ys) == After(r, ys)
  {
    forall k | 0 <= k < Width
      ensures After(s, ys)[k] == After(r, ys)[k]
    {
      StateAfter(s, ys, k);
      StateAfter(r, ys, k);
    }
  }

  lemma {:induction false} ScrambleNext(s: State, xs: seq<bool>, x: bool)
    ensures Scramble(s, xs + [x]) == Scramble(s, xs) + [x != Feedback(After(s, Scramble(s, xs)))]
    decreases |xs|
  {
    if xs == [] {
      assert xs + [x] == [x] && [x][1..] == [];
    } else {
      assert (xs + [x])[1..] == xs[1..] + [x];
      ScrambleNext(Push(s, xs[0] != Feedback(s)), xs[1..], x);
    }
  }

  lemma AfterNext(s: State, ys: seq<bool>, y: bool)
    ensures After(s, ys + [y]) == Push(After(s, ys), y)
  {
    DescrambleAppend(s, ys, [y]);
    assert [y][1..] == [];
  }

  lemma DescrambleNext(s: State, ys: seq<bool>, y: bool)
    ensures Descramble(s, ys + [y]) == Descramble(s, ys) + [y != Feedback(After(s, ys))]
  {
    DescrambleAppend(s, ys, [y]);
    assert [y][1..] == [];
  }
}
