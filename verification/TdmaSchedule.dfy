/**
 * The start time of a TDMA schedule as mqnic-config writes it: a start in the past is
 * moved to the grid of its period around the present.
 */
module TdmaSchedule {
  import opened Modular
  import opened Timespec

  /** C's division: rounded toward zero. */
  function Truncated(a: int, b: int): (q: int)
    requires b > 0
    ensures a >= 0 ==> 0 <= a - q * b < b
    ensures a < 0 ==> -b < a - q * b <= 0
  {
    if a >= 0 then a / b else -((-a) / b)
  }

  /** The clock the NIC keeps: non-negative, normal, with a 48-bit seconds field. */
  predicate ClockTime(t: Time) {
    0 <= t.sec < 0x1_0000_0000_0000 && 0 <= t.nsec < NsecPerSec
  }

  method FromNanoseconds(nanos: Long) returns (t: Time)
    ensures Canonical(t) && Total(t) == nanos
  {
    var sec := Truncated(nanos, NsecPerSec);
    t := Time(sec, nanos - sec * NsecPerSec);
  }

  /**
   * A start not before now is kept. An earlier one becomes the start congruent to it
   * modulo the period that lies in the period of the grid which holds now; so it is less
   * than one period away from now, on either side.
   */
  method AlignStart(startNsec: Long, periodNsec: Long, now: Time) returns (start: Time)
    requires periodNsec > 0 && ClockTime(now)
    ensures Canonical(start)
    ensures startNsec >= Total(now) ==> Total(start) == startNsec
    ensures startNsec < Total(now) ==>
      && FloorMod(Total(start) - startNsec, periodNsec) == 0
      && var grid := Total(now) - FloorMod(Total(now), periodNsec);
      && FloorMod(grid, periodNsec) == 0 && grid <= Total(now) < grid + periodNsec
      && grid <= Total(start) < grid + periodNsec
      && Total(now) - periodNsec < Total(start) < Total(now) + periodNsec
  {
    start := FromNanoseconds(startNsec);
    var period := FromNanoseconds(periodNsec);
    ComparatorsNumeric(start, now);
    if Lt(start, now) {
      ModDefinedBelow(Abs(startNsec), Magnitude(period), startNsec < 0);
      ModDefinedBelow(Abs(Total(now)), Magnitude(period), false);
      start := Mod(start, period);
      var phase := Mod(now, period);
      var aligned := Sub(now, phase);
      start := Add(start, aligned);
      SameResidue(startNsec, Total(now), periodNsec);
      SameResidue(0, Total(now), periodNsec);
    }
  }

  /** The contract leaves one start: there is no other in the same period congruent to it. */
  lemma OnlyStart(start: int, other: int, asked: int, grid: int, period: int)
    requires period > 0 && grid <= start < grid + period && grid <= other < grid + period
    requires FloorMod(start - asked, period) == 0 == FloorMod(other - asked, period)
    ensures start == other
  {
    var m := Periods(start - asked, period);
    var n := Periods(other - asked, period);
    MultiplesApart(m, n, period, start - other);
  }

  lemma Periods(x: int, period: int) returns (m: int)
    requires period > 0 && FloorMod(x, period) == 0
    ensures x == m * period
  {
    m := x / period;
  }

  lemma MultiplesApart(m: int, n: int, p: int, d: int)
    requires p > 0 && m * p - n * p == d && -p < d < p
    ensures d == 0
  {
    assert (m - n) * p == d;
    MultipleOutside(m - n, p);
  }

  /** Replacing a's multiple of p by b's changes a by a multiple of p. */
  lemma SameResidue(a: int, b: int, p: int)
    requires p > 0
    ensures FloorMod(FloorMod(a, p) + (b - FloorMod(b, p)) - a, p) == 0
  {
    var m, n := a / p, b / p;
    var r, t := a % p, b % p;
    assert a == m * p + r && b == n * p + t;
    WholePeriods(m, n, p);
    assert r + (b - t) - a == n * p - m * p;
  }

  lemma WholePeriods(m: int, n: int, p: int)
    requires p > 0
    ensures FloorMod(n * p - m * p, p) == 0
  {
    assert (n - m) * p == n * p - m * p;
    FloorModUnique(n * p - m * p, p, n - m, 0);
  }
}
