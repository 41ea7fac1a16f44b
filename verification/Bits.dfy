/** Bitwise arithmetic on unbounded naturals, as Python's integers have it. */
module Bits {

  type Byte = x: int | 0 <= x < 256

  predicate Bit(n: nat, i: nat) {
    if i == 0 then n % 2 == 1 else Bit(n / 2, i - 1)
  }

  function Shl(n: nat, k: nat): nat {
    if k == 0 then n else 2 * Shl(n, k - 1)
  }

  function Shr(n: nat, k: nat): nat {
    if k == 0 then n else Shr(n / 2, k - 1)
  }

  /** 2^k - 1 */
  function Ones(k: nat): nat {
    if k == 0 then 0 else 2 * Ones(k - 1) + 1
  }

  function And(a: nat, b: nat): nat
    decreases a
  {
    if a == 0 || b == 0 then 0
    else 2 * And(a / 2, b / 2) + (if a % 2 == 1 && b % 2 == 1 then 1 else 0)
  }

  function Or(a: nat, b: nat): nat
    decreases a + b
  {
    if a == 0 then b else if b == 0 then a
    else 2 * Or(a / 2, b / 2) + (if a % 2 == 1 || b % 2 == 1 then 1 else 0)
  }

  lemma {:induction false} BitZero(i: nat)
    ensures !Bit(0, i)
  {
    if i > 0 {
      BitZero(i - 1);
    }
  }

  lemma {:induction false} BitShl(n: nat, k: nat, i: nat)
    ensures Bit(Shl(n, k), i) <==> i >= k && Bit(n, i - k)
  {
    if k > 0 && i > 0 {
      BitShl(n, k - 1, i - 1);
    }
  }

  lemma {:induction false} BitShr(n: nat, k: nat, i: nat)
    ensures Bit(Shr(n, k), i) <==> Bit(n, i + k)
  {
    if k > 0 {
      BitShr(n / 2, k - 1, i);
    }
  }

  lemma {:induction false} BitOnes(k: nat, i: nat)
    ensures Bit(Ones(k), i) <==> i < k
  {
    if k == 0 {
      BitZero(i);
    } else if i > 0 {
      BitOnes(k - 1, i - 1);
    }
  }

  lemma {:induction false} BitAnd(a: nat, b: nat, i: nat)
    ensures Bit(And(a, b), i) <==> Bit(a, i) && Bit(b, i)
  {
    if a == 0 || b == 0 {
      BitZero(i);
    } else if i > 0 {
      BitAnd(a / 2, b / 2, i - 1);
    }
  }

  /** Or-ing a number into place above the bits already there adds it. */
  lemma {:induction false} OrAbove(a: nat, n: nat, k: nat)
    requires a <= Ones(k)
    ensures Or(a, Shl(n, k)) == a + Shl(n, k)
  {
    if k > 0 {
      OrAbove(a / 2, n, k - 1);
      if a / 2 == 0 {
        assert Or(a / 2, Shl(n, k - 1)) == Shl(n, k - 1);
      }
    }
  }

  lemma {:induction false} ShlZero(k: nat)
    ensures Shl(0, k) == 0
  {
    if k > 0 {
      ShlZero(k - 1);
    }
  }

  lemma {:induction false} ShlAdd(n: nat, j: nat, k: nat)
    ensures Shl(n, j + k) == Shl(Shl(n, j), k)
  {
    if k > 0 {
      ShlAdd(n, j, k - 1);
    }
  }

  // Byte lanes

  /** Byte j of a word. */
  function Lane(w: nat, j: nat): (b: Byte) {
    if j == 0 then w % 256 else Lane(w / 256, j - 1)
  }

  /** A word without its j lowest bytes. */
  function DropLanes(w: nat, j: nat): nat {
    if j == 0 then w else DropLanes(w, j - 1) / 256
  }

  lemma {:induction false} DropNext(w: nat, j: nat)
    ensures DropLanes(w / 256, j) == DropLanes(w, j + 1)
  {
    if j > 0 {
      DropNext(w, j - 1);
    }
  }

  lemma {:induction false} LowLane(w: nat, j: nat)
    ensures DropLanes(w, j) % 256 == Lane(w, j)
    decreases j
  {
    if j > 0 {
      LowLane(w / 256, j - 1);
      DropNext(w, j - 1);
    }
  }

  /** The word whose low bytes these are, first byte lowest. */
  function Pack(bytes: seq<Byte>): nat {
    if bytes == [] then 0 else bytes[0] + 256 * Pack(bytes[1..])
  }

  lemma {:induction false} LaneZero(j: nat)
    ensures Lane(0, j) == 0
  {
    if j > 0 {
      LaneZero(j - 1);
    }
  }

  lemma {:induction false} LanePack(bytes: seq<Byte>, j: nat)
    ensures Lane(Pack(bytes), j) == if j < |bytes| then bytes[j] else 0
  {
    if bytes == [] {
      LaneZero(j);
    } else {
      assert Pack(bytes) % 256 == bytes[0] && Pack(bytes) / 256 == Pack(bytes[1..]);
      if j > 0 {
        LanePack(bytes[1..], j - 1);
      }
    }
  }

  /** Shifting down by whole bytes brings a lane to the bottom. */
  lemma {:induction false} ShrLane(w: nat, j: nat)
    ensures Shr(w, 8 * j) % 256 == Lane(w, j)
  {
    if j > 0 {
      assert Shr(w, 8 * j) == Shr(w / 256, 8 * (j - 1)) by {
        ShrByte(w, 8 * (j - 1));
      }
      ShrLane(w / 256, j - 1);
    }
  }

  lemma ShrByte(w: nat, k: nat)
    ensures Shr(w, k + 8) == Shr(w / 256, k)
  {
    ShrTwice(w, k + 6);
    ShrTwice(w / 4, k + 4);
    ShrTwice(w / 16, k + 2);
    ShrTwice(w / 64, k);
  }

  lemma ShrTwice(w: nat, k: nat)
    ensures Shr(w, k + 2) == Shr(w / 4, k)
  {
    assert Shr(w, k + 2) == Shr(w / 2, k + 1) == Shr(w / 2 / 2, k);
    assert w / 2 / 2 == w / 4;
  }

  lemma ShlByte(n: nat, k: nat)
    ensures Shl(n, k + 8) == 256 * Shl(n, k)
  {
    assert Shl(n, k + 4) == 16 * Shl(n, k) by {
      assert Shl(n, k + 2) == 4 * Shl(n, k);
    }
    assert Shl(n, k + 6) == 4 * Shl(n, k + 4);
  }

  /** Bytes packed and shifted up s lanes sit in lanes s, s + 1 and so on; other lanes are zero. */
  lemma {:induction false} LaneShifted(bytes: seq<Byte>, s: nat, j: nat)
    ensures Lane(Shl(Pack(bytes), 8 * s), j) == if s <= j < s + |bytes| then bytes[j - s] else 0
  {
    if s == 0 {
      LanePack(bytes, j);
    } else {
      ShlByte(Pack(bytes), 8 * (s - 1));
      if j > 0 {
        LaneShifted(bytes, s - 1, j - 1);
      }
    }
  }

  /** Or-ing the next byte into its lane extends the packed bytes by it. */
  lemma {:induction false} PackAppend(bytes: seq<Byte>, b: Byte, s: nat)
    ensures Or(Shl(Pack(bytes), 8 * s), Shl(b, 8 * (s + |bytes|))) == Shl(Pack(bytes + [b]), 8 * s)
  {
    PackBound(bytes, s);
    OrAbove(Shl(Pack(bytes), 8 * s), b, 8 * (s + |bytes|));
    PackSum(bytes, b);
    ShlAdd(b, 8 * |bytes|, 8 * s);
    ShlSum(Pack(bytes), Shl(b, 8 * |bytes|), 8 * s);
    assert 8 * (s + |bytes|) == 8 * |bytes| + 8 * s;
  }

  lemma {:induction false} ShlSum(a: nat, b: nat, k: nat)
    ensures Shl(a + b, k) == Shl(a, k) + Shl(b, k)
  {
    if k > 0 {
      ShlSum(a, b, k - 1);
    }
  }

  lemma {:induction false} PackSum(bytes: seq<Byte>, b: Byte)
    ensures Pack(bytes + [b]) == Pack(bytes) + Shl(b, 8 * |bytes|)
  {
    if bytes == [] {
      assert Pack([b]) == b;
    } else {
      PackSum(bytes[1..], b);
      assert (bytes + [b])[1..] == bytes[1..] + [b];
      ShlByte(b, 8 * (|bytes| - 1));
    }
  }

  lemma {:induction false} PackBound(bytes: seq<Byte>, s: nat)
    ensures Shl(Pack(bytes), 8 * s) <= Ones(8 * (s + |bytes|))
    decreases |bytes|, s
  {
    if s > 0 {
      PackBound(bytes, s - 1);
      ShlByte(Pack(bytes), 8 * (s - 1));
      OnesByte(8 * (s - 1 + |bytes|));
    } else if bytes != [] {
      PackBound(bytes[1..], 0);
      OnesByte(8 * (|bytes| - 1));
    }
  }

  lemma OnesByte(k: nat)
    ensures Ones(k + 8) == 256 * Ones(k) + 255
  {
    assert Ones(k + 4) == 16 * Ones(k) + 15 by {
      assert Ones(k + 2) == 4 * Ones(k) + 3;
    }
    assert Ones(k + 6) == 4 * Ones(k + 4) + 3;
  }
}
