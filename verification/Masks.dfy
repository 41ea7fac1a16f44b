/** Alignment tests with a mask, `x & (b - 1)`, and the sizes b for which they test alignment. */
module Masks {
  import opened Modular
  import Bits

  function Masked(x: nat, b: nat): (r: nat)
    requires b > 0
    ensures r < b
  {
    AndBound(x, b - 1);
    Bits.And(x, b - 1)
  }

  lemma {:induction false} AndBound(a: nat, b: nat)
    ensures Bits.And(a, b) <= b
  {
    if a != 0 && b != 0 {
      AndBound(a / 2, b / 2);
    }
  }

  /** Powers of two. */
  predicate Power(b: nat) {
    b == 1 || (b > 1 && b % 2 == 0 && Power(b / 2))
  }

  lemma {:induction false} PowerIs(e: nat)
    ensures Power(PowerOfTwo(e))
  {
    if e > 0 {
      PowerIs(e - 1);
      assert PowerOfTwo(e) == 2 * PowerOfTwo(e - 1);
    }
  }

  lemma {:induction false} Exponent(b: nat) returns (e: nat)
    requires Power(b)
    ensures b == PowerOfTwo(e)
  {
    e := 0;
    if b > 1 {
      e := Exponent(b / 2);
      e := e + 1;
    }
  }

  /** Masking with one less than a power of two is taking the remainder. */
  lemma {:induction false} MaskIsRemainder(x: nat, b: nat)
    requires Power(b)
    ensures Masked(x, b) == x % b
  {
    if b == 1 {
      assert Bits.And(x, 0) == 0;
    } else {
      var c := b / 2;
      MaskIsRemainder(x / 2, c);
      assert b - 1 == 2 * (c - 1) + 1;
      assert (b - 1) / 2 == c - 1;
      assert Masked(x, b) == 2 * ((x / 2) % c) + x % 2;
      HalfRemainder(x, c);
    }
  }

  lemma HalfRemainder(x: nat, c: nat)
    requires c > 0
    ensures x % (2 * c) == 2 * ((x / 2) % c) + x % 2
  {
    var q, r := x / 2 / c, (x / 2) % c;
    assert x / 2 == q * c + r;
    assert q * (2 * c) == 2 * (q * c);
    QuotientUnique(x, 2 * c, q, 2 * r + x % 2);
  }

  lemma {:induction false} MaskOfItself(b: nat)
    requires b > 0
    ensures Masked(b, b) == 0 <==> Power(b)
  {
    if b % 2 == 1 {
      var c := b / 2;
      AndSelf(c);
      assert (b - 1) / 2 == c && (b - 1) % 2 == 0;
      if b > 1 {
        assert Masked(b, b) == 2 * Bits.And(c, c);
      }
    } else {
      MaskOfItself(b / 2);
      assert (b - 1) / 2 == b / 2 - 1 && b - 1 > 0;
      assert Masked(b, b) == 2 * Masked(b / 2, b / 2);
    }
  }

  lemma {:induction false} AndSelf(x: nat)
    ensures Bits.And(x, x) == x
  {
    if x > 0 {
      AndSelf(x / 2);
    }
  }

  /** Only then: of any other size even a multiple does not pass. */
  lemma MaskIsRemainderWhen(b: nat)
    requires b > 0
    ensures (forall x: nat :: Masked(x, b) == x % b) <==> Power(b)
  {
    if Power(b) {
      forall x: nat
        ensures Masked(x, b) == x % b
      {
        MaskIsRemainder(x, b);
      }
    } else {
      MaskOfItself(b);
      assert Masked(b, b) != b % b;
    }
  }
}
