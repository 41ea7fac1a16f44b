/**
 * Modular arithmetic behind the ring pointers: 32-bit free-running counters in
 * memory, 16-bit counters in the device registers, and slot numbers taken
 * modulo a power-of-two ring size.
 */
module Modular {

  const U16 := 0x1_0000
  const U32 := 0x1_0000_0000

  type U16Value = x: int | 0 <= x < U16
  type U32Value = x: int | 0 <= x < U32

  lemma {:induction false} AddMultiple(x: int, m: int, k: int)
    requires m > 0
    ensures (x + m * k) % m == x % m
    decreases if k < 0 then -k else k
  {
    if k > 0 {
      AddMultiple(x, m, k - 1);
      OneMore(x, m, k - 1);
    } else if k < 0 {
      AddMultiple(x, m, k + 1);
      OneMore(x, m, k);
    }
  }

  lemma OneMore(x: int, m: int, k: int)
    requires m > 0
    ensures (x + m * (k + 1)) % m == (x + m * k) % m
  {
    var y := x + m * k;
    assert x + m * (k + 1) == y + m;
    AddOne(y, m);
  }

  lemma AddOne(x: int, m: int)
    requires m > 0
    ensures (x + m) % m == x % m
    ensures (x + m) / m == x / m + 1
  {
    var q, r := x / m, x % m;
    assert x == q * m + r;
    QuotientUnique(x + m, m, q + 1, r);
  }

  lemma QuotientUnique(x: int, m: int, q: int, r: int)
    requires m > 0 && 0 <= r < m && x == q * m + r
    ensures x / m == q && x % m == r
  {
    var d := x / m - q;
    assert x == (x / m) * m + x % m;
    assert d * m == r - x % m by {
      assert d * m == (x / m) * m - q * m;
    }
    MultipleOutside(d, m);
  }

  /** A non-zero multiple of m is at least m away from zero. */
  lemma MultipleOutside(d: int, m: int)
    requires m > 0
    ensures d > 0 ==> d * m >= m
    ensures d < 0 ==> d * m <= -m
  {
    if d > 0 {
      assert (d - 1) * m >= 0;
    } else if d < 0 {
      assert (-d - 1) * m >= 0;
    }
  }

  /** The multiple of m at or below x. */
  function RoundDown(x: nat, m: nat): nat
    requires m > 0
  {
    x - x % m
  }

  lemma RoundDownMultiple(x: nat, m: nat)
    requires m > 0
    ensures RoundDown(x, m) == x / m * m && RoundDown(x, m) % m == 0
    ensures RoundDown(x, m) <= x < RoundDown(x, m) + m
  {
    QuotientUnique(x / m * m, m, x / m, 0);
  }

  /** Truncating a counter to a wider power of two first does not change its slot number. */
  lemma NestedMod(x: int, m: int, k: int)
    requires m > 0 && k > 0
    ensures m * k > 0
    ensures (x % (m * k)) % m == x % m
  {
    var n := m * k;
    assert n > 0;
    var q := x / n;
    assert x == n * q + x % n;
    assert n * q == m * (k * q);
    AddMultiple(x % n, m, k * q);
  }

  /** Counters less than one ring apart never share a slot. */
  lemma SlotsDistinct(i: int, j: int, m: int)
    requires m > 0 && i % m == j % m && -m < i - j < m
    ensures i == j
  {
    var q := i / m - j / m;
    assert i - j == q * m;
    MultipleOutside(q, m);
  }

  /** A slot number is unchanged by whole turns of the ring. */
  lemma SlotPeriod(i: int, m: int)
    requires m > 0
    ensures (i - m) % m == i % m
  {
    AddOne(i - m, m);
  }

  /** The 32-bit difference of two truncated counters is their true distance, when that fits. */
  lemma Distance32(a: int, b: int)
    requires 0 <= b <= a < b + U32
    ensures (a % U32 - b % U32) % U32 == a - b
  {
  }

  /** Two counters less than 2^32 apart are equal exactly when their truncations are. */
  lemma Equal32(a: int, b: int)
    requires 0 <= b <= a < b + U32
    ensures a % U32 == b % U32 <==> a == b
  {
  }

  /** Incrementing a truncated counter truncates the incremented counter. */
  lemma Increment(c: nat)
    ensures (c % U32 + 1) % U32 == (c + 1) % U32
    ensures (c % U16 + 1) % U16 == (c + 1) % U16
  {
    AddMultiple(c % U32 + 1, U32, c / U32);
    AddMultiple(c % U16 + 1, U16, c / U16);
  }

  /** The 16-bit registers of two counters less than 2^16 apart differ exactly when they do. */
  lemma Equal16(a: nat, b: nat)
    requires b <= a < b + U16
    ensures a % U16 == b % U16 <==> a == b
  {
  }

  /** Truncating to 32 bits first does not change the 16-bit register value. */
  lemma TruncateTwice(c: nat)
    ensures (c % U32) % U16 == c % U16
  {
    NestedMod(c, U16, U16);
  }

  /**
   * The value a driver pointer takes after `p += (reg - p) & 0xffff`, where p is the
   * 32-bit pointer and reg the 16-bit register.
   */
  function Recover(p: U32Value, reg: U16Value): (r: U32Value)
  {
    (p + (reg - p) % U16) % U32
  }

  /**
   * Recovery yields the true counter exactly when the device advanced by less than 2^16
   * since the pointer was last brought up to date.
   */
  lemma RecoverExact(known: nat, actual: nat)
    requires known <= actual < known + U32
    ensures Recover(known % U32, actual % U16) == actual % U32 <==> actual - known < U16
  {
    var d := actual - known;
    ResidueOfDifference(known, actual);
    ResidueOfSum(known, d % U16);
    Equal32(actual, known + d % U16);
  }

  lemma ResidueOfDifference(known: nat, actual: nat)
    ensures (actual % U16 - known % U32) % U16 == (actual - known) % U16
  {
    var a, b := known / U32, actual / U16;
    AddMultiple(actual - known, U16, U16 * a - b);
    assert actual - known + U16 * (U16 * a - b) == actual % U16 - known % U32;
  }

  lemma ResidueOfSum(known: nat, step: nat)
    ensures (known % U32 + step) % U32 == (known + step) % U32
  {
    AddMultiple(known + step, U32, -(known / U32));
    assert known + step + U32 * -(known / U32) == known % U32 + step;
  }

  /** A full turn of a 2^16-entry ring is indistinguishable from no progress at all. */
  lemma RecoverAliases(known: nat)
    ensures Recover(known % U32, (known + U16) % U16) == known % U32
  {
    ResidueOfDifference(known, known + U16);
  }

  // Ring sizes

  ghost predicate RingSize(n: nat)
  {
    n > 0 && exists k: nat :: Turns(n, k)
  }

  /** n divides 2^16: the sizes a 16-bit ring pointer can address without a seam. */
  ghost predicate Turns(n: nat, k: nat)
  {
    n * k == U16
  }

  /** Linux's roundup_pow_of_two. */
  function RoundUpPowerOfTwo(n: nat): (r: nat)
    requires 0 < n
    ensures n <= r
    ensures n == 1 ==> r == 1
    ensures n > 1 ==> r < 2 * n && r % 2 == 0
  {
    if n == 1 then 1
    else
      var half := RoundUpPowerOfTwo((n + 1) / 2);
      Doubled(n, (n + 1) / 2, half);
      2 * half
  }

  lemma Doubled(n: nat, m: nat, half: nat)
    requires n > 1 && m == (n + 1) / 2 && m <= half
    requires if m == 1 then half == 1 else half < 2 * m && half % 2 == 0
    ensures n <= 2 * half < 2 * n
  {
    assert n == 2 * m || n == 2 * m - 1;
    if m > 1 {
      var k := half / 2;
      assert half == 2 * k && k <= m - 1;
    }
  }

  function PowerOfTwo(e: nat): (r: nat)
    ensures r > 0
  {
    if e == 0 then 1 else 2 * PowerOfTwo(e - 1)
  }

  /** Rounding up gives a power of two, and none beyond one that bounds the request. */
  lemma {:induction false} RoundUpIsPower(n: nat, e: nat) returns (d: nat)
    requires 0 < n <= PowerOfTwo(e)
    ensures d <= e && RoundUpPowerOfTwo(n) == PowerOfTwo(d) <= PowerOfTwo(e)
  {
    if n == 1 {
      d := 0;
    } else {
      d := RoundUpIsPower((n + 1) / 2, e - 1);
      d := d + 1;
    }
  }

  lemma ProductRegrouped(x: int, a: int, b: int)
    ensures (x * a) * b == x * (a * b)
  {
  }

  lemma {:induction false} PowersMultiply(d: nat, e: nat)
    ensures PowerOfTwo(d) * PowerOfTwo(e) == PowerOfTwo(d + e)
  {
    if d > 0 {
      PowersMultiply(d - 1, e);
      var a, b, c := PowerOfTwo(d - 1), PowerOfTwo(e), PowerOfTwo(d - 1 + e);
      assert PowerOfTwo(d) == 2 * a && PowerOfTwo(d + e) == 2 * c;
      hide PowerOfTwo;
      ProductRegrouped(2, a, b);
    }
  }

  lemma RoundUpIsRingSize(n: nat)
    requires 0 < n <= U16
    ensures RingSize(RoundUpPowerOfTwo(n)) && RoundUpPowerOfTwo(n) <= U16
    ensures n <= U16 / 2 ==> RoundUpPowerOfTwo(n) <= U16 / 2
  {
    SixteenBits();
    var d := RoundUpIsPower(n, 16);
    PowersMultiply(d, 16 - d);
    assert Turns(PowerOfTwo(d), PowerOfTwo(16 - d));
    if n <= U16 / 2 {
      assert PowerOfTwo(16) == 2 * PowerOfTwo(15);
      var _ := RoundUpIsPower(n, 15);
    }
  }

  lemma SixteenBits()
    ensures U16 == PowerOfTwo(16)
  {
    assert PowerOfTwo(4) == 16;
    assert PowerOfTwo(8) == 256;
    assert PowerOfTwo(12) == 4096;
  }

  /** Slot numbers survive both the 32-bit and the 16-bit truncation of a counter. */
  lemma SlotOfTruncated(c: nat, size: nat)
    requires RingSize(size)
    ensures (c % U32) % size == c % size
    ensures (c % U16) % size == c % size
  {
    var k: nat :| Turns(size, k);
    assert k > 0;
    NestedMod(c, size, k);
    assert size * (k * U16) == (size * k) * U16 == U32;
    NestedMod(c, size, k * U16);
  }
}
