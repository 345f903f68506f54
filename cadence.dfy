/**
 * The cadence check of Main's loop body: whole days since the start date,
 * the test `datediff % frequency == 0` with C#'s truncating remainder, and the
 * next-run offset written to the log when a rule is off-cadence.
 */
module Cadence {
  import opened Rules

  const MINUTES_PER_DAY: int := 1440

  function Abs(x: int): nat {
    if x < 0 then -x else x
  }

  /** C#'s integer `/`: the quotient rounded toward zero. */
  function TruncDiv(a: int, b: int): int
    requires b != 0
  {
    if (a < 0) == (b < 0) then Abs(a) / Abs(b) else -(Abs(a) / Abs(b))
  }

  /**
   * C#'s integer `%`: the remainder of TruncDiv. Its sign follows the
   * dividend, unlike Dafny's `%`, whose result is never negative.
   */
  function TruncRem(a: int, b: int): (r: int)
    requires b != 0
    ensures a == b * TruncDiv(a, b) + r
    ensures Abs(r) < Abs(b)
    ensures a >= 0 ==> r >= 0
    ensures a <= 0 ==> r <= 0
  {
    EuclideanSplit(Abs(a), Abs(b));
    if a < 0 then -(Abs(a) % Abs(b)) else Abs(a) % Abs(b)
  }

  /** TruncDiv rounds toward zero: its size is the floor of |a| / |b|, its sign that of a * b. */
  lemma TruncDivTowardZero(a: int, b: int)
    requires b != 0
    ensures Abs(b) * Abs(TruncDiv(a, b)) <= Abs(a) < Abs(b) * (Abs(TruncDiv(a, b)) + 1)
    ensures (a < 0) == (b < 0) ==> TruncDiv(a, b) >= 0
    ensures (a < 0) != (b < 0) ==> TruncDiv(a, b) <= 0
  {
    var n, d := Abs(a), Abs(b);
    var q := n / d;
    EuclideanSplit(n, d);
    MulBounds(d, q);
    assert q >= 0;
    assert Abs(TruncDiv(a, b)) == q;
    assert d * (q + 1) == d * q + d;
  }

  /** Dafny's `/` and `%` agree with C#'s on non-negative operands. */
  lemma EuclideanSplit(a: nat, b: nat)
    requires b > 0
    ensures a == b * (a / b) + a % b
    ensures 0 <= a % b < b
  {
  }

  /** TimeSpan.Days of the span from `start` to `now` (both in minutes): whole days, truncated toward zero. */
  function DaysBetween(now: int, start: int): (days: int)
    ensures now >= start ==> 0 <= MINUTES_PER_DAY * days <= now - start < MINUTES_PER_DAY * (days + 1)
    ensures now <= start ==> MINUTES_PER_DAY * (days - 1) < now - start <= MINUTES_PER_DAY * days <= 0
  {
    var r := TruncRem(now - start, MINUTES_PER_DAY);
    TruncDiv(now - start, MINUTES_PER_DAY)
  }

  /** The rule runs today iff `datediff % frequency == 0` in C#. */
  predicate RunsToday(datediff: int, frequency: int)
    requires frequency != 0
  {
    TruncRem(datediff, frequency) == 0
  }

  /** C#'s unchecked `int` subtraction result: wrap into 32 bits. */
  function Wrap32(x: int): (r: Int32)
    ensures MIN_INT32 <= x <= MAX_INT32 ==> r == x
    ensures (r - x) % 0x1_0000_0000 == 0
  {
    var m := x % 0x1_0000_0000;
    if m > MAX_INT32 then m - 0x1_0000_0000 else m
  }

  /** The offset in days to the "next run date" logged when the rule is off-cadence: `frequency - datediff % frequency`. */
  function NextRunOffset(datediff: int, frequency: Int32): Int32
    requires frequency != 0
  {
    Wrap32(frequency - TruncRem(datediff, frequency))
  }

  /** The evidently intended offset: the number of days until the test next holds. */
  function DaysUntilNextRun(datediff: int, frequency: int): nat
    requires frequency != 0
  {
    var m := datediff % Abs(frequency);
    if m == 0 then 0 else Abs(frequency) - m
  }

  /** The test does not depend on signs: it holds exactly when the frequency divides the day count. */
  lemma RunsTodayIffDivides(datediff: int, frequency: int)
    requires frequency != 0
    ensures RunsToday(datediff, frequency) <==> datediff % Abs(frequency) == 0
  {
    var q := TruncDiv(datediff, frequency);
    var r := TruncRem(datediff, frequency);
    if r == 0 {
      SignFlip(frequency, q);
      DividesMod(datediff, Abs(frequency), if frequency < 0 then -q else q);
    } else if datediff % Abs(frequency) == 0 {
      var k := datediff / Abs(frequency);
      var qq := if frequency < 0 then -k else k;
      SignFlip(frequency, qq);
      assert datediff == frequency * qq;
      Distribute(frequency, qq, q);
      MultipleAtLeast(frequency, qq - q);
      assert false;
    }
  }

  /** Multiplying by |b| and by b agree up to the sign of the other factor. */
  lemma SignFlip(b: int, k: int)
    ensures Abs(b) * (if b < 0 then -k else k) == b * k
  {
  }

  lemma Distribute(b: int, x: int, y: int)
    ensures b * (x - y) == b * x - b * y
  {
  }

  lemma DividesMod(x: int, n: int, k: int)
    requires n > 0
    requires x == n * k
    ensures x % n == 0
  {
    DivUnique(x, n, k, 0);
  }

  /** A non-zero multiple of n is at least n in size. */
  lemma MulBounds(n: int, j: int)
    requires n > 0
    ensures j >= 1 ==> n * j >= n
    ensures j <= -1 ==> n * j <= -n
  {
  }

  lemma MultipleAtLeast(b: int, k: int)
    requires b != 0 && k != 0
    ensures Abs(b * k) >= Abs(b)
  {
    if k > 0 {
      if b > 0 { assert b * k >= b; } else { assert b * k <= b; }
    } else {
      if b > 0 { assert b * k <= -b; } else { assert b * k >= -b; }
    }
  }

  /** With frequency 1 (or a frequency field of 0, normalised to 1) the rule runs every day. */
  lemma FrequencyOneAlwaysRuns(datediff: int)
    ensures RunsToday(datediff, NormalizeFrequency(0))
    ensures RunsToday(datediff, 1)
  {
  }

  /** The cadence is periodic: a day is a run day iff the day `frequency` days later is. */
  lemma {:induction false} RunsTodayPeriodic(datediff: int, frequency: int)
    requires frequency != 0
    ensures RunsToday(datediff, frequency) <==> RunsToday(datediff + frequency, frequency)
  {
    RunsTodayIffDivides(datediff, frequency);
    RunsTodayIffDivides(datediff + frequency, frequency);
    ShiftMod(datediff, Abs(frequency), if frequency < 0 then -1 else 1);
  }

  lemma ShiftMod(x: int, n: int, k: int)
    requires n > 0
    ensures (x + n * k) % n == x % n
  {
    var q, r := x / n, x % n;
    assert x + n * k == n * (q + k) + r;
    DivUnique(x + n * k, n, q + k, r);
  }

  lemma DivUnique(x: int, n: int, q: int, r: int)
    requires n > 0 && 0 <= r < n && x == n * q + r
    ensures x % n == r
  {
    var q', r' := x / n, x % n;
    assert n * (q - q') == r' - r;
    MulBounds(n, q - q');
  }

  /**
   * When the rule is off-cadence on a day at or after the start date and the
   * frequency is positive, the logged offset is the next run day: it lies in
   * 1..frequency-1, the test holds that many days later and on no day before.
   */
  lemma NextRunOffsetIsNextRun(datediff: int, frequency: Int32)
    requires datediff >= 0 && frequency > 0
    requires !RunsToday(datediff, frequency)
    ensures 1 <= NextRunOffset(datediff, frequency) <= frequency - 1
    ensures RunsToday(datediff + NextRunOffset(datediff, frequency), frequency)
    ensures forall d :: datediff < d < datediff + NextRunOffset(datediff, frequency) ==> !RunsToday(d, frequency)
    ensures NextRunOffset(datediff, frequency) == DaysUntilNextRun(datediff, frequency)
  {
    RunsTodayIffDivides(datediff, frequency);
    DaysUntilNextRunIsNext(datediff, frequency);
    var r := TruncRem(datediff, frequency);
    assert datediff == frequency * TruncDiv(datediff, frequency) + r;
    DivUnique(datediff, frequency, TruncDiv(datediff, frequency), r);
  }

  /** The corrected offset, for any signs: positive when off-cadence, and the first day the test holds again. */
  lemma DaysUntilNextRunIsNext(datediff: int, frequency: int)
    requires frequency != 0
    ensures RunsToday(datediff, frequency) <==> DaysUntilNextRun(datediff, frequency) == 0
    ensures DaysUntilNextRun(datediff, frequency) < Abs(frequency)
    ensures RunsToday(datediff + DaysUntilNextRun(datediff, frequency), frequency)
    ensures forall d :: datediff < d < datediff + DaysUntilNextRun(datediff, frequency) ==> !RunsToday(d, frequency)
  {
    var n := Abs(frequency);
    var m := datediff % n;
    var d := DaysUntilNextRun(datediff, frequency);
    RunsTodayIffDivides(datediff, frequency);
    RunsTodayIffDivides(datediff + d, frequency);
    if m != 0 {
      ModComplement(datediff, n);
    }
    forall day | datediff < day < datediff + d
      ensures !RunsToday(day, frequency)
    {
      RunsTodayIffDivides(day, frequency);
      ModPlus(datediff, n, day - datediff);
    }
  }

  lemma ModPlus(x: int, n: int, j: int)
    requires n > 0 && 0 <= x % n + j < n
    ensures (x + j) % n == x % n + j
  {
    var q := x / n;
    assert x + j == n * q + (x % n + j);
    DivUnique(x + j, n, q, x % n + j);
  }

  lemma ModComplement(x: int, n: int)
    requires n > 0 && x % n != 0
    ensures (x + (n - x % n)) % n == 0
  {
    var q := x / n;
    assert x + (n - x % n) == n * q + n;
    assert n * q + n == n * (q + 1);
    DividesMod(x + (n - x % n), n, q + 1);
  }

  /**
   * As written, the logged offset overshoots when the start date lies in the
   * future: it is one whole period later than the day the test next holds.
   */
  lemma NextRunOffsetFutureStart(datediff: int, frequency: Int32)
    requires datediff < 0 && frequency > 0 && frequency - datediff <= MAX_INT32
    requires !RunsToday(datediff, frequency)
    ensures NextRunOffset(datediff, frequency) == DaysUntilNextRun(datediff, frequency) + frequency
  {
    var r := TruncRem(datediff, frequency);
    ModAtMost(-datediff, frequency);
    var q := TruncDiv(datediff, frequency);
    assert datediff == frequency * (q - 1) + (frequency + r);
    DivUnique(datediff, frequency, q - 1, frequency + r);
  }

  /**
   * As written, a negative frequency makes the logged next run date lie in
   * the past, whether the start date is past or still to come. (For a past
   * start date the bound keeps the subtraction from wrapping.)
   */
  lemma NextRunOffsetNegativeFrequency(datediff: int, frequency: Int32)
    requires frequency < 0
    requires datediff > 0 ==> frequency - datediff >= MIN_INT32
    requires !RunsToday(datediff, frequency)
    ensures NextRunOffset(datediff, frequency) < 0 < DaysUntilNextRun(datediff, frequency)
  {
    var r := TruncRem(datediff, frequency);
    if datediff > 0 {
      ModAtMost(datediff, Abs(frequency));
      assert 0 < r <= datediff;
    } else {
      assert frequency < r < 0;
    }
    assert NextRunOffset(datediff, frequency) == frequency - r;
    DaysUntilNextRunIsNext(datediff, frequency);
  }

  lemma ModAtMost(a: nat, n: int)
    requires n > 0
    ensures a % n <= a
  {
    if a < n {
      DivUnique(a, n, 0, a);
    }
  }

  /** A start date two days ahead with a weekly rule: the log reports 9 days, the rule next runs in 2. */
  lemma NextRunOffsetCounterexample()
    ensures !RunsToday(-2, 7)
    ensures NextRunOffset(-2, 7) == 9
    ensures DaysUntilNextRun(-2, 7) == 2
  {
  }

  /** A weekly rule started on 2024-01-01 runs on 2024-01-08 (day 7); on 2024-01-09 (day 8) it reports 2024-01-15. */
  lemma WeeklyExample()
    ensures RunsToday(7, 7)
    ensures !RunsToday(8, 7) && NextRunOffset(8, 7) == 6
  {
  }
}
