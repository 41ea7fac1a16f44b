/**
 * Arithmetic on seconds/nanoseconds pairs in 64-bit signed fields. Assigning to a field
 * is checked against the range of long, so what verifies here never overflows.
 */
module Timespec {
  import opened Modular

  const LongMax := 0x7fff_ffff_ffff_ffff
  const NsecPerSec := 1_000_000_000

  type Long = x: int | -LongMax - 1 <= x <= LongMax

  datatype Time = Time(sec: Long, nsec: Long)

  /** The instant or duration a pair stands for, in nanoseconds. */
  function Total(t: Time): int {
    t.sec * NsecPerSec + t.nsec
  }

  /** The normal form: less than a second of nanoseconds, and no mixed signs. */
  predicate Canonical(t: Time) {
    && -NsecPerSec < t.nsec < NsecPerSec
    && (t.sec > 0 ==> t.nsec >= 0)
    && (t.sec < 0 ==> t.nsec <= 0)
  }

  /** Totals whose normal form has its seconds within range. */
  predicate Fits(total: int) {
    -(LongMax + 2) * NsecPerSec < total < (LongMax + 1) * NsecPerSec
  }

  /** Totals whose normal form can also be negated. */
  predicate Negatable(total: int) {
    -(LongMax + 1) * NsecPerSec < total < (LongMax + 1) * NsecPerSec
  }

  lemma CanonicalUnique(a: Time, b: Time)
    requires Canonical(a) && Canonical(b) && Total(a) == Total(b)
    ensures a == b
  {
  }

  method Normalise(ts: Time) returns (r: Time)
    requires Fits(Total(ts))
    ensures Canonical(r) && Total(r) == Total(ts)
  {
    var sec, nsec := ts.sec, ts.nsec;
    while nsec >= NsecPerSec
      invariant sec * NsecPerSec + nsec == Total(ts)
      invariant ts.nsec > -NsecPerSec ==> nsec > -NsecPerSec
      invariant ts.nsec <= -NsecPerSec ==> nsec == ts.nsec
    {
      sec := sec + 1;
      nsec := nsec - NsecPerSec;
    }
    while nsec <= -NsecPerSec
      invariant sec * NsecPerSec + nsec == Total(ts)
      invariant nsec < NsecPerSec
    {
      sec := sec - 1;
      nsec := nsec + NsecPerSec;
    }
    if nsec < 0 && sec > 0 {
      sec := sec - 1;
      nsec := NsecPerSec - (-1 * nsec);
    } else if nsec > 0 && sec < 0 {
      sec := sec + 1;
      nsec := -NsecPerSec - (-1 * nsec);
    }
    r := Time(sec, nsec);
  }

  method Add(a: Time, b: Time) returns (r: Time)
    requires Fits(Total(a)) && Fits(Total(b)) && Fits(Total(a) + Total(b))
    ensures Canonical(r) && Total(r) == Total(a) + Total(b)
  {
    var x := Normalise(a);
    var y := Normalise(b);
    r := Normalise(Time(x.sec + y.sec, x.nsec + y.nsec));
  }

  method Sub(a: Time, b: Time) returns (r: Time)
    requires Fits(Total(a)) && Negatable(Total(b)) && Fits(Total(a) - Total(b))
    ensures Canonical(r) && Total(r) == Total(a) - Total(b)
  {
    var x := Normalise(a);
    var y := Normalise(b);
    r := Normalise(Time(x.sec - y.sec, x.nsec - y.nsec));
  }

  // Comparators: lexicographic on the fields

  predicate Eq(a: Time, b: Time) {
    a.sec == b.sec && a.nsec == b.nsec
  }

  predicate Gt(a: Time, b: Time) {
    a.sec > b.sec || (a.sec == b.sec && a.nsec > b.nsec)
  }

  predicate Ge(a: Time, b: Time) {
    a.sec > b.sec || (a.sec == b.sec && a.nsec >= b.nsec)
  }

  predicate Lt(a: Time, b: Time) {
    a.sec < b.sec || (a.sec == b.sec && a.nsec < b.nsec)
  }

  predicate Le(a: Time, b: Time) {
    a.sec < b.sec || (a.sec == b.sec && a.nsec <= b.nsec)
  }

  /** On normal forms the comparators are the order of the numbers. */
  lemma ComparatorsNumeric(a: Time, b: Time)
    requires Canonical(a) && Canonical(b)
    ensures Eq(a, b) <==> Total(a) == Total(b)
    ensures Gt(a, b) <==> Total(a) > Total(b)
    ensures Ge(a, b) <==> Total(a) >= Total(b)
    ensures Lt(a, b) <==> Total(a) < Total(b)
    ensures Le(a, b) <==> Total(a) <= Total(b)
  {
  }

  // Division by shift and subtract

  /** A divisor while it is being shifted: a full second may stay in the nanoseconds. */
  predicate Shifting(d: Time) {
    0 <= d.sec && 0 <= d.nsec <= NsecPerSec && Total(d) > 0
  }

  const HalfMax := LongMax / 2

  /** One left shift of the divisor, as the first loop of timespec_mod does it. */
  function Doubled(d: Time): (r: Time)
    requires Shifting(d) && d.sec < HalfMax
    ensures Shifting(r) && Total(r) == 2 * Total(d)
  {
    if 2 * d.nsec > NsecPerSec then Time(2 * d.sec + 1, 2 * d.nsec - NsecPerSec)
    else Time(2 * d.sec, 2 * d.nsec)
  }

  /** One right shift of the divisor, as the second loop does it. */
  function Halved(d: Time): Time
    requires Shifting(d)
  {
    Time(d.sec / 2, (if d.sec % 2 == 1 then d.nsec + NsecPerSec else d.nsec) / 2)
  }

  /** The right shift exactly undoes the left shift, transient full seconds included. */
  lemma HalvedUndoesDoubled(d: Time)
    requires Shifting(d) && d.sec < HalfMax
    ensures Halved(Doubled(d)) == d
  {
  }

  /** Against a divisor with a full second in its nanoseconds, Ge is still the numeric order. */
  lemma GeAgainstShifting(a: Time, d: Time)
    requires Canonical(a) && Total(a) >= 0 && Shifting(d)
    ensures Ge(a, d) <==> Total(a) >= Total(d)
  {
  }

  /** The divisor after i shifts, while its seconds allow them. */
  ghost predicate ShiftedFrom(d: Time, i: nat, e: Time)
    requires Shifting(d)
    decreases i
  {
    if i == 0 then e == d
    else Shifting(e) && ShiftedFrom(d, i - 1, Halved(e)) && Shifting(Halved(e))
         && Halved(e).sec < HalfMax && e == Doubled(Halved(e))
  }

  /** The largest shifted divisor the first loop can reach. */
  ghost function Top(d: Time): (r: Time)
    requires Shifting(d)
    ensures Shifting(r) && Total(r) >= Total(d) && r.sec >= HalfMax
    decreases (HalfMax + 1) * NsecPerSec - Total(d)
  {
    if d.sec >= HalfMax then d else Top(Doubled(d))
  }

  /** Floored division's remainder: zero, or of the divisor's sign. */
  function FloorMod(a: int, b: int): (r: int)
    requires b != 0
    ensures b > 0 ==> 0 <= r < b
    ensures b < 0 ==> b < r <= 0
  {
    if b > 0 then a % b else -((-a) % (-b))
  }

  lemma FloorModUnique(a: int, b: int, q: int, r: int)
    requires b != 0 && a == q * b + r
    requires if b > 0 then 0 <= r < b else b < r <= 0
    ensures FloorMod(a, b) == r
  {
    if b > 0 {
      QuotientUnique(a, b, q, r);
    } else {
      assert -a == q * -b + -r;
      QuotientUnique(-a, -b, q, -r);
    }
  }

  function Abs(x: int): (r: nat) {
    if x < 0 then -x else x
  }

  /**
   * The inputs on which timespec_mod is the floored remainder: the dividend is less than
   * twice the largest shift of the divisor, or exactly twice and of the other sign.
   */
  ghost predicate ModDefined(a: int, d: Time, opposite: bool)
    requires Shifting(d)
  {
    a < 2 * Total(Top(d)) || (opposite && a == 2 * Total(Top(d)))
  }

  /** The first loop of timespec_mod: shift the divisor up, counting the shifts. */
  method ShiftUp(a: Time, d: Time) returns (e: Time, i: nat)
    requires Canonical(a) && Total(a) >= 0 && Shifting(d)
    ensures Shifting(e) && ShiftedFrom(d, i, e)
    ensures Total(a) < 2 * Total(Top(d)) ==> Total(a) < 2 * Total(e)
    ensures Total(a) >= 2 * Total(Top(d)) ==> e == Top(d)
  {
    e, i := d, 0;
    while e.sec < HalfMax && Ge(a, e)
      invariant Shifting(e) && ShiftedFrom(d, i, e) && Top(e) == Top(d)
      decreases Headroom(e)
    {
      e := ShiftOnce(d, i, e);
      i := i + 1;
    }
    GeAgainstShifting(a, e);
  }

  /** How much larger a divisor can still become. */
  ghost function Headroom(d: Time): int {
    (HalfMax + 1) * NsecPerSec - Total(d)
  }

  /** One turn of the first loop. */
  method ShiftOnce(ghost d: Time, ghost i: nat, e: Time) returns (next: Time)
    requires Shifting(d) && Shifting(e) && e.sec < HalfMax && ShiftedFrom(d, i, e)
    ensures Shifting(next) && ShiftedFrom(d, i + 1, next) && Top(next) == Top(e)
    ensures Headroom(next) < Headroom(e) && Headroom(e) > 0
  {
    HalvedUndoesDoubled(e);
    var nsec, sec := 2 * e.nsec, 2 * e.sec;
    if nsec > NsecPerSec {
      nsec := nsec - NsecPerSec;
      sec := sec + 1;
    }
    next := Time(sec, nsec);
    assert next == Doubled(e);
  }

  /**
   * The second loop: subtract and shift back down. The remainder is reduced when the
   * dividend was less than twice the shifted divisor, and otherwise misses by exactly
   * the excess.
   */
  method Reduce(a: Time, e: Time, i: nat, d: Time) returns (r: Time, ghost q: nat)
    requires Canonical(a) && Total(a) >= 0 && Shifting(d) && Shifting(e) && ShiftedFrom(d, i, e)
    ensures Canonical(r) && Total(a) == q * Total(d) + Total(r)
    ensures Total(a) < 2 * Total(e) ==> 0 <= Total(r) < Total(d)
    ensures Total(a) >= 2 * Total(e) ==> Total(r) - Total(d) == Total(a) - 2 * Total(e)
  {
    hide *;
    r, q := a, 0;
    var cur, j := e, i;
    while true
      invariant Canonical(r) && Total(r) >= 0 && Shifting(cur) && ShiftedFrom(d, j, cur)
      invariant Total(a) < 2 * Total(e) ==> Total(r) < 2 * Total(cur)
      invariant Total(a) >= 2 * Total(e) ==> Total(r) - 2 * Total(cur) == Total(a) - 2 * Total(e)
      invariant Total(a) == q * Total(d) + Total(r)
      decreases j
    {
      r, q := SubtractOnce(a, r, q, cur, j, d);
      if j == 0 {
        Unshifted(d, cur);
        break;
      }
      cur := UnshiftOnce(d, j, cur);
      j := j - 1;
    }
  }

  lemma Unshifted(d: Time, cur: Time)
    requires Shifting(d) && Shifting(cur) && ShiftedFrom(d, 0, cur)
    ensures cur == d
  {
  }

  /** The subtraction of one turn, when the shifted divisor goes into what remains. */
  method SubtractOnce(ghost a: Time, r: Time, ghost q: nat, cur: Time, ghost j: nat, ghost d: Time)
    returns (next: Time, ghost q': nat)
    requires Canonical(r) && Total(r) >= 0 && Shifting(d) && Shifting(cur) && ShiftedFrom(d, j, cur)
    requires Total(a) == q * Total(d) + Total(r)
    ensures Canonical(next) && Total(a) == q' * Total(d) + Total(next)
    ensures Total(next) == if Total(r) >= Total(cur) then Total(r) - Total(cur) else Total(r)
  {
    GeAgainstShifting(r, cur);
    next, q' := r, q;
    if Ge(r, cur) {
      ghost var scale := Scale(d, j, cur);
      assert (q + scale) * Total(d) == q * Total(d) + scale * Total(d);
      next := Sub(r, cur);
      q' := q + scale;
    }
  }

  /** The right shift of one turn. */
  method UnshiftOnce(ghost d: Time, ghost j: nat, cur: Time) returns (half: Time)
    requires Shifting(d) && j > 0 && Shifting(cur) && ShiftedFrom(d, j, cur)
    ensures Shifting(half) && ShiftedFrom(d, j - 1, half) && Total(cur) == 2 * Total(half)
  {
    var nsec := if cur.sec % 2 == 1 then cur.nsec + NsecPerSec else cur.nsec;
    half := Time(cur.sec / 2, nsec / 2);
    assert half == Halved(cur);
  }

  /** A divisor shifted i times is a multiple of itself. */
  lemma {:induction false} Scale(d: Time, i: nat, e: Time) returns (scale: nat)
    requires Shifting(d) && Shifting(e) && ShiftedFrom(d, i, e)
    ensures Total(e) == scale * Total(d)
  {
    if i == 0 {
      scale := 1;
    } else {
      var half := Scale(d, i - 1, Halved(e));
      assert Total(e) == 2 * Total(Halved(e));
      hide Total, Halved, ShiftedFrom;
      scale := 2 * half;
      ProductRegrouped(2, half, Total(d));
    }
  }

  /** Shift-subtract division of one magnitude by another. */
  method DivideMagnitudes(x: Time, y: Time) returns (rem: Time, ghost q: nat)
    requires Canonical(x) && Total(x) >= 0 && Shifting(y)
    ensures Canonical(rem) && Total(rem) >= 0 && Total(x) == q * Total(y) + Total(rem)
    ensures Total(x) < 2 * Total(Top(y)) ==> Total(rem) < Total(y)
    ensures Total(x) >= 2 * Total(Top(y)) ==> Total(rem) - Total(y) == Total(x) - 2 * Total(Top(y))
  {
    var e, i := ShiftUp(x, y);
    rem, q := Reduce(x, e, i, y);
  }

  /** A negative input is negated and its sign recorded. */
  method Flip(t: Time) returns (r: Time, negative: bool)
    requires Canonical(t) && Negatable(Total(t))
    ensures Canonical(r) && Total(r) == Abs(Total(t)) && negative == (Total(t) < 0)
  {
    r, negative := t, false;
    if t.sec < 0 || t.nsec < 0 {
      negative := true;
      r := Time(-t.sec, -t.nsec);
    }
  }

  /** timespec_mod */
  method Mod(a: Time, b: Time) returns (r: Time)
    requires Negatable(Total(a)) && Negatable(Total(b))
    ensures Canonical(r)
    ensures Total(b) == 0 ==> Total(r) == Total(a)
    ensures Total(b) != 0 ==>
      var d := Magnitude(b);
      Total(r) == FloorMod(Total(a), Total(b))
      <==> ModDefined(Abs(Total(a)), d, (Total(a) < 0) != (Total(b) < 0))
    ensures Total(b) != 0 && Abs(Total(a)) >= 2 * Total(Top(Magnitude(b))) ==>
      var excess := Abs(Total(a)) - 2 * Total(Top(Magnitude(b)));
      Abs(Total(r)) == if (Total(a) < 0) == (Total(b) < 0) then Abs(Total(b)) + excess else excess
  {
    hide FloorMod, Top, Shifting, Magnitude, Eq, Gt, Ge;
    var x := Normalise(a);
    var y := Normalise(b);
    ZeroTotal(y);
    if y.sec == 0 && y.nsec == 0 {
      return x;
    }
    var neg1, neg2;
    x, neg1 := Flip(x);
    y, neg2 := Flip(y);
    CanonicalUnique(y, Magnitude(b));
    hide Canonical, Total, Negatable;
    var rem, q := DivideMagnitudes(x, y);
    r := RestoreSign(rem, y, neg1, neg2);
    SignedRemainder(Total(a), Total(b), q, Total(rem), 2 * Total(Top(y)), Total(r));
  }

  lemma ZeroTotal(t: Time)
    requires Canonical(t)
    ensures Total(t) == 0 <==> t.sec == 0 && t.nsec == 0
  {
  }

  /** The end of timespec_mod: the remainder of the magnitudes gets its sign. */
  method RestoreSign(rem: Time, y: Time, neg1: bool, neg2: bool) returns (r: Time)
    requires Canonical(rem) && Total(rem) >= 0 && Canonical(y) && Total(y) > 0
    ensures Canonical(r)
    ensures var u := if neg1 != neg2 && Total(rem) != 0 then Total(rem) - Total(y) else Total(rem);
      Total(r) == if neg1 then -u else u
  {
    r := rem;
    if neg1 != neg2 && (r.sec != 0 || r.nsec != 0) {
      r := Sub(r, y);
    }
    if neg1 {
      r := Time(-r.sec, -r.nsec);
    }
  }

  lemma SignedProducts(q: int, b: int, n: int, same: bool, exact: bool)
    requires q >= 0 && n == if same then q else if exact then -q else -q - 1
    ensures n * b == if same then q * b else if exact then -(q * b) else -(q * b) - b
    ensures q * Abs(b) == if b < 0 then -(q * b) else q * b
  {
  }

  /** What the sign handling makes of the remainder of the magnitudes. */
  lemma SignedRemainder(a: int, b: int, q: nat, rem: int, limit: int, t: int)
    requires b != 0 && rem >= 0 && Abs(a) == q * Abs(b) + rem
    requires Abs(a) < limit ==> rem < Abs(b)
    requires Abs(a) >= limit ==> rem - Abs(b) == Abs(a) - limit
    requires var u := if (a < 0) != (b < 0) && rem != 0 then rem - Abs(b) else rem;
      t == if a < 0 then -u else u
    ensures Abs(a) >= limit ==>
      Abs(t) == if (a < 0) == (b < 0) then Abs(b) + (Abs(a) - limit) else Abs(a) - limit
    ensures t == FloorMod(a, b) <==> Abs(a) < limit || ((a < 0) != (b < 0) && Abs(a) == limit)
  {
    if Abs(a) < limit || ((a < 0) != (b < 0) && Abs(a) == limit) {
      var n: int := q;
      var q' := if (a < 0) == (b < 0) then n else if rem == 0 then -n else -n - 1;
      SignedProducts(q, b, q', (a < 0) == (b < 0), rem == 0);
      hide FloorMod;
      FloorModUnique(a, b, q', t);
    }
  }

  /** The normal form of the absolute value. */
  function Magnitude(t: Time): (r: Time)
    requires Negatable(Total(t))
    ensures Canonical(r) && Total(r) == Abs(Total(t))
    ensures Total(t) != 0 ==> Shifting(r)
  {
    Time(Abs(Total(t)) / NsecPerSec, Abs(Total(t)) % NsecPerSec)
  }

  /** Every divisor is served while the dividend is under LONG_MAX - 1 seconds. */
  lemma ModDefinedBelow(a: nat, d: Time, opposite: bool)
    requires Shifting(d) && a < (LongMax - 1) * NsecPerSec
    ensures ModDefined(a, d, opposite)
  {
  }

  /**
   * The bound is tight: LONG_MAX seconds by LONG_MAX / 2 seconds is outside the domain,
   * the remainder there being one second.
   */
  lemma ModUndefinedAtMax()
    ensures var d := Time(HalfMax, 0);
      && !ModDefined(LongMax * NsecPerSec, d, false)
      && Total(d) + (LongMax * NsecPerSec - 2 * Total(Top(d))) == (HalfMax + 1) * NsecPerSec
      && FloorMod(LongMax * NsecPerSec, Total(d)) == NsecPerSec
  {
    FloorModUnique(LongMax * NsecPerSec, HalfMax * NsecPerSec, 2, NsecPerSec);
  }
}
