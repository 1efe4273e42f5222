/**
 * Instants, UTC days and the proleptic Gregorian calendar, as far as the
 * member filters need them. An instant is a whole number of nanoseconds
 * since 1970-01-01T00:00:00Z, the resolution of a pandas timestamp, so a
 * bound written to the second (23:59:59) is exact and an instant half a
 * second later lies strictly beyond it.
 */
module Calendar {

  type Instant = int

  // The day length appears as a literal in the arithmetic below so that the
  // solver sees multiplication and division by a constant.
  const Second: int := 1_000_000_000
  const Day: int := 86_400_000_000_000
  const Week: int := 7 * Day

  /** The UTC day holding instant `t`; day 0 is 1970-01-01. Division floors. */
  function DayNumber(t: Instant): int
  {
    t / 86_400_000_000_000
  }

  /** Midnight UTC opening day `c`; also the length of `c` days in nanoseconds. */
  function DayStart(c: int): Instant
  {
    c * 86_400_000_000_000
  }

  /** True of instants that fall exactly on a UTC midnight. */
  predicate IsMidnight(t: Instant)
  {
    t % 86_400_000_000_000 == 0
  }

  /** Midnight UTC of the day holding `t` (what `Timestamp.normalize` gives). */
  function StartOfDay(t: Instant): (r: Instant)
    ensures r <= t < r + Day
    ensures IsMidnight(r)
    ensures DayNumber(r) == DayNumber(t)
  {
    t - t % 86_400_000_000_000
  }

  /** The start of the day holding `t` is midnight of its day number. */
  lemma StartOfDayIsDayStart(t: Instant)
    ensures StartOfDay(t) == DayStart(DayNumber(t))
  {}

  // ---------------------------------------------------------------------------
  // Years

  predicate IsLeap(y: int)
  {
    y % 4 == 0 && (y % 100 != 0 || y % 400 == 0)
  }

  function YearLength(y: int): int
  {
    if IsLeap(y) then 366 else 365
  }

  /** Leap years among 1..y for y >= 0, shifted consistently for y < 0. */
  function LeapsThrough(y: int): int
  {
    y / 4 - y / 100 + y / 400
  }

  /** Days from 1970-01-01 to January 1 of year `y` (negative before 1970). */
  function DaysBeforeYear(y: int): int
  {
    365 * (y - 1970) + LeapsThrough(y - 1) - LeapsThrough(1969)
  }

  lemma FloorStep4(y: int)
    ensures y / 4 - (y - 1) / 4 == if y % 4 == 0 then 1 else 0
  {}

  lemma FloorStep100(y: int)
    ensures y / 100 - (y - 1) / 100 == if y % 100 == 0 then 1 else 0
  {}

  lemma FloorStep400(y: int)
    ensures y / 400 - (y - 1) / 400 == if y % 400 == 0 then 1 else 0
  {}

  lemma DivisorsNest(y: int)
    ensures y % 400 == 0 ==> y % 100 == 0
    ensures y % 100 == 0 ==> y % 4 == 0
  {}

  lemma LeapsStep(y: int)
    ensures LeapsThrough(y) - LeapsThrough(y - 1) == if IsLeap(y) then 1 else 0
  {
    FloorStep4(y);
    FloorStep100(y);
    FloorStep400(y);
    DivisorsNest(y);
  }

  /** Consecutive New Year's days are one year length apart. */
  lemma YearStep(y: int)
    ensures DaysBeforeYear(y + 1) == DaysBeforeYear(y) + YearLength(y)
  {
    LeapsStep(y);
  }

  lemma {:induction false} DaysBeforeYearMonotone(a: int, b: int)
    requires a < b
    ensures DaysBeforeYear(a) + 365 <= DaysBeforeYear(b)
    decreases b - a
  {
    YearStep(a);
    if a + 1 < b {
      DaysBeforeYearMonotone(a + 1, b);
    }
  }

  /** At most one year brackets a given day. */
  lemma YearUnique(n: int, y1: int, y2: int)
    requires DaysBeforeYear(y1) <= n < DaysBeforeYear(y1 + 1)
    requires DaysBeforeYear(y2) <= n < DaysBeforeYear(y2 + 1)
    ensures y1 == y2
  {
    if y1 < y2 {
      DaysBeforeYearMonotone(y1, y2);
      if y1 + 1 < y2 {
        DaysBeforeYearMonotone(y1 + 1, y2);
      }
    } else if y2 < y1 {
      DaysBeforeYearMonotone(y2, y1);
      if y2 + 1 < y1 {
        DaysBeforeYearMonotone(y2 + 1, y1);
      }
    }
  }

  /** The year holding day `n`, searching forward from year `y`. */
  function YearUp(n: int, y: int): (r: int)
    requires DaysBeforeYear(y) <= n
    ensures y <= r
    ensures DaysBeforeYear(r) <= n < DaysBeforeYear(r + 1)
    decreases n - DaysBeforeYear(y)
  {
    YearStep(y);
    if n < DaysBeforeYear(y + 1) then y else YearUp(n, y + 1)
  }

  /** The year holding day `n`, searching backward from year `y`. */
  function YearDown(n: int, y: int): (r: int)
    requires n < DaysBeforeYear(y + 1)
    ensures r <= y
    ensures DaysBeforeYear(r) <= n < DaysBeforeYear(r + 1)
    decreases DaysBeforeYear(y + 1) - n
  {
    YearStep(y - 1);
    YearStep(y);
    if DaysBeforeYear(y) <= n then y else YearDown(n, y - 1)
  }

  function YearOf(n: int): (r: int)
    ensures DaysBeforeYear(r) <= n < DaysBeforeYear(r + 1)
  {
    if n >= 0 then YearUp(n, 1970) else YearDown(n, 1969)
  }

  // ---------------------------------------------------------------------------
  // Months

  /** Days of year `y` before the first of month `m`; month 13 closes the year. */
  function DaysBeforeMonth(y: int, m: int): (r: int)
    requires 1 <= m <= 13
    ensures m == 1 ==> r == 0
    ensures m == 13 ==> r == YearLength(y)
    ensures r <= YearLength(y)
  {
    var common :=
      if m == 1 then 0 else if m == 2 then 31 else if m == 3 then 59
      else if m == 4 then 90 else if m == 5 then 120 else if m == 6 then 151
      else if m == 7 then 181 else if m == 8 then 212 else if m == 9 then 243
      else if m == 10 then 273 else if m == 11 then 304 else if m == 12 then 334
      else 365;
    if m > 2 && IsLeap(y) then common + 1 else common
  }

  function DaysInMonth(y: int, m: int): (r: int)
    requires 1 <= m <= 12
    ensures 28 <= r <= 31
    ensures DaysBeforeMonth(y, m) + r == DaysBeforeMonth(y, m + 1)
  {
    if m == 2 then (if IsLeap(y) then 29 else 28)
    else if m == 4 || m == 6 || m == 9 || m == 11 then 30
    else 31
  }

  lemma {:induction false} DaysBeforeMonthMonotone(y: int, a: int, b: int)
    requires 1 <= a < b <= 13
    ensures DaysBeforeMonth(y, a) + 28 <= DaysBeforeMonth(y, b)
    decreases b - a
  {
    var _ := DaysInMonth(y, a);
    if a + 1 < b {
      DaysBeforeMonthMonotone(y, a + 1, b);
    }
  }

  /** The month of year `y` holding day-of-year `doy` (0-based), searching from `m`. */
  function MonthUp(y: int, doy: int, m: int): (r: int)
    requires 1 <= m <= 12
    requires DaysBeforeMonth(y, m) <= doy < YearLength(y)
    ensures m <= r <= 12
    ensures DaysBeforeMonth(y, r) <= doy < DaysBeforeMonth(y, r + 1)
    decreases 12 - m
  {
    if doy < DaysBeforeMonth(y, m + 1) then m else MonthUp(y, doy, m + 1)
  }

  // ---------------------------------------------------------------------------
  // Civil dates

  datatype Date = Date(year: int, month: int, day: int)

  predicate ValidDate(d: Date)
  {
    1 <= d.month <= 12 && 1 <= d.day <= DaysInMonth(d.year, d.month)
  }

  /** Day number of a civil date. */
  function DaysFromCivil(d: Date): (n: int)
    requires ValidDate(d)
    ensures DaysBeforeYear(d.year) <= n < DaysBeforeYear(d.year + 1)
  {
    YearStep(d.year);
    DaysBeforeYear(d.year) + DaysBeforeMonth(d.year, d.month) + d.day - 1
  }

  /** Civil date of a day number. */
  function CivilFromDays(n: int): (d: Date)
    ensures ValidDate(d)
    ensures DaysFromCivil(d) == n
  {
    var y := YearOf(n);
    YearStep(y);
    var doy := n - DaysBeforeYear(y);
    var m := MonthUp(y, doy, 1);
    Date(y, m, doy - DaysBeforeMonth(y, m) + 1)
  }

  /** At most one month of a year brackets a given day of that year. */
  lemma MonthUnique(y: int, doy: int, m1: int, m2: int)
    requires 1 <= m1 <= 12 && 1 <= m2 <= 12
    requires DaysBeforeMonth(y, m1) <= doy < DaysBeforeMonth(y, m1 + 1)
    requires DaysBeforeMonth(y, m2) <= doy < DaysBeforeMonth(y, m2 + 1)
    ensures m1 == m2
  {
    if m1 < m2 {
      DaysBeforeMonthMonotone(y, m1 + 1, m2 + 1);
    } else if m2 < m1 {
      DaysBeforeMonthMonotone(y, m2 + 1, m1 + 1);
    }
  }

  /** Distinct valid dates have distinct day numbers. */
  lemma DaysFromCivilInjective(d: Date, e: Date)
    requires ValidDate(d) && ValidDate(e)
    requires DaysFromCivil(d) == DaysFromCivil(e)
    ensures d == e
  {
    var n := DaysFromCivil(d);
    var y := d.year;
    YearUnique(n, y, e.year);
    assert e.year == y;
    var doy := n - DaysBeforeYear(y);
    assert doy == DaysBeforeMonth(y, d.month) + d.day - 1;
    assert doy == DaysBeforeMonth(y, e.month) + e.day - 1;
    var _ := DaysInMonth(y, d.month);
    var _ := DaysInMonth(y, e.month);
    MonthUnique(y, doy, d.month, e.month);
  }

  /** Every valid date survives the trip to a day number and back. */
  lemma CivilRoundTrip(d: Date)
    requires ValidDate(d)
    ensures CivilFromDays(DaysFromCivil(d)) == d
  {
    DaysFromCivilInjective(d, CivilFromDays(DaysFromCivil(d)));
  }

  /** Midnight UTC at the start of a civil date. */
  function Midnight(d: Date): Instant
    requires ValidDate(d)
  {
    DayStart(DaysFromCivil(d))
  }

  /** The instant `h:mi:s` UTC on date `d`. */
  function At(d: Date, h: int, mi: int, s: int): Instant
    requires ValidDate(d)
  {
    Midnight(d) + (h * 3600 + mi * 60 + s) * 1_000_000_000
  }

  /** Civil date (UTC) of an instant. */
  function DateOf(t: Instant): Date
  {
    CivilFromDays(DayNumber(t))
  }

  // ---------------------------------------------------------------------------
  // Month indices: months counted consecutively, 12 * year + (month - 1)

  function MonthIndex(d: Date): int
  {
    12 * d.year + d.month - 1
  }

  function MonthIndexOf(t: Instant): int
  {
    MonthIndex(DateOf(t))
  }

  /** Day number of the first day of the month with index `k`. */
  function MonthStartDays(k: int): int
  {
    DaysBeforeYear(k / 12) + DaysBeforeMonth(k / 12, k % 12 + 1)
  }

  /** A month index splits back into its year and month. */
  lemma IndexParts(y: int, m: int)
    requires 1 <= m <= 12
    ensures (12 * y + m - 1) / 12 == y
    ensures (12 * y + m - 1) % 12 + 1 == m
  {}

  lemma MonthStartOfDate(d: Date)
    requires ValidDate(d)
    ensures MonthStartDays(MonthIndex(d)) == DaysFromCivil(d) - (d.day - 1)
  {
    IndexParts(d.year, d.month);
  }

  lemma MonthStartStep(k: int)
    ensures MonthStartDays(k + 1) == MonthStartDays(k) + DaysInMonth(k / 12, k % 12 + 1)
  {
    var y := k / 12;
    if k % 12 == 11 {
      assert (k + 1) / 12 == y + 1 && (k + 1) % 12 == 0;
      YearStep(y);
    } else {
      assert (k + 1) / 12 == y && (k + 1) % 12 == k % 12 + 1;
    }
  }

  lemma MonthStartGrows(k: int)
    ensures MonthStartDays(k) + 28 <= MonthStartDays(k + 1)
  {
    MonthStartStep(k);
  }

  /** A sequence of integers that grows by at least 28 at each step. */
  lemma {:induction false} GrowingSteps(f: int -> int, j: int, k: int)
    requires forall i :: f(i) + 28 <= f(i + 1)
    requires j < k
    ensures f(j) + 28 <= f(k)
    decreases k - j
  {
    if j + 1 < k {
      GrowingSteps(f, j + 1, k);
    }
  }

  /** Every day lies in the month its civil date names. */
  lemma MonthBracketDays(n: int)
    ensures MonthStartDays(MonthIndex(CivilFromDays(n))) <= n
    ensures n < MonthStartDays(MonthIndex(CivilFromDays(n)) + 1)
  {
    MonthOfDate(CivilFromDays(n));
  }

  /** Every valid date lies in the month its month index names. */
  lemma MonthOfDate(d: Date)
    requires ValidDate(d)
    ensures MonthStartDays(MonthIndex(d)) <= DaysFromCivil(d) < MonthStartDays(MonthIndex(d) + 1)
  {
    var k := MonthIndex(d);
    MonthStartOfDate(d);
    MonthStartStep(k);
    IndexParts(d.year, d.month);
    assert k / 12 == d.year && k % 12 + 1 == d.month;
    DayInBracket(MonthStartDays(k), MonthStartDays(k + 1), DaysFromCivil(d), DaysInMonth(d.year, d.month), d.day);
  }

  lemma DayInBracket(start: int, next: int, n: int, length: int, day: int)
    requires start == n - (day - 1) && next == start + length && 1 <= day <= length
    ensures start <= n < next
  {}

  /** The month holding an instant starts at or before it. */
  lemma MonthStartNotAfter(t: Instant)
    ensures DayStart(MonthStartDays(MonthIndexOf(t))) <= t
  {
    var n := DayNumber(t);
    var k := MonthIndexOf(t);
    assert k == MonthIndex(CivilFromDays(n));
    MonthBracketDays(n);
    assert MonthStartDays(k) <= n;
    ScaleLow(t, MonthStartDays(k));
  }

  /** A lower bound on an instant's day number bounds the instant. */
  lemma ScaleLow(t: Instant, lo: int)
    requires lo <= DayNumber(t)
    ensures DayStart(lo) <= t
  {}

  /** In a growing sequence, the interval holding `n` tells which bounds `n` reaches. */
  lemma BracketOrder(f: int -> int, n: int, j: int, k: int)
    requires forall i :: f(i) + 28 <= f(i + 1)
    requires f(j) <= n < f(j + 1)
    ensures n >= f(k) <==> j >= k
  {
    if j > k {
      GrowingSteps(f, k, j);
    } else if j + 1 < k {
      GrowingSteps(f, j + 1, k);
    }
  }

  /**
   * An instant is at or after the first of month `k` exactly when its own
   * month index is `k` or later: the calendar meaning of a month-start bound.
   */
  lemma AtOrAfterMonthStart(t: Instant, k: int)
    ensures t >= DayStart(MonthStartDays(k)) <==> MonthIndexOf(t) >= k
  {
    AtOrAfterMonthStartDays(DayNumber(t), k);
    DayScale(t, MonthStartDays(k));
  }

  lemma AtOrAfterMonthStartDays(n: int, k: int)
    ensures n >= MonthStartDays(k) <==> MonthIndex(CivilFromDays(n)) >= k
  {
    MonthBracketDays(n);
    MonthOrder(n, MonthIndex(CivilFromDays(n)), k);
  }

  /** The month holding day `n` decides which month starts `n` reaches. */
  lemma MonthOrder(n: int, j: int, k: int)
    requires MonthStartDays(j) <= n < MonthStartDays(j + 1)
    ensures n >= MonthStartDays(k) <==> j >= k
  {
    forall i ensures MonthStartDays(i) + 28 <= MonthStartDays(i + 1) {
      MonthStartGrows(i);
    }
    BracketOrder(MonthStartDays, n, j, k);
  }

  /** An instant reaches midnight of day `c` exactly when its day number does. */
  lemma DayScale(t: Instant, c: int)
    ensures t >= DayStart(c) <==> DayNumber(t) >= c
  {}

  // ---------------------------------------------------------------------------
  // Month starts used by the filters

  /** Dividing a midnight instant by the day length recovers its day. */
  lemma DayOfMidnight(c: int)
    ensures DayNumber(DayStart(c)) == c
    ensures IsMidnight(DayStart(c))
  {}

  /** The midnight opening the first of a month lies in that month, on its first day. */
  lemma MidnightOfFirst(d: Date, k: int)
    requires ValidDate(d) && d.day == 1 && MonthIndex(d) == k
    ensures Midnight(d) == DayStart(MonthStartDays(k))
    ensures IsMidnight(Midnight(d))
    ensures DateOf(Midnight(d)) == d
    ensures MonthIndexOf(Midnight(d)) == k
  {
    MonthStartOfDate(d);
    DayOfMidnight(DaysFromCivil(d));
    CivilRoundTrip(d);
  }

  /** Midnight UTC on the first of the month holding `now`. */
  function MonthStart(now: Instant): (r: Instant)
    ensures r <= now
    ensures IsMidnight(r)
    ensures DateOf(r) == Date(DateOf(now).year, DateOf(now).month, 1)
    ensures MonthIndexOf(r) == MonthIndexOf(now)
    ensures r == DayStart(MonthStartDays(MonthIndexOf(now)))
  {
    var c := DateOf(now);
    var first := Date(c.year, c.month, 1);
    MidnightOfFirst(first, MonthIndexOf(now));
    MonthStartNotAfter(now);
    Midnight(first)
  }

  /**
   * The month before month `m` of year `y`: January steps back to December
   * of the previous year.
   */
  function PreviousMonth(y: int, m: int): (d: Date)
    requires 1 <= m <= 12
    ensures ValidDate(d) && d.day == 1
    ensures MonthIndex(d) == 12 * y + m - 2
  {
    if m > 1 then Date(y, m - 1, 1) else Date(y - 1, 12, 1)
  }

  /** Midnight UTC on the first of the month before the one holding `now`. */
  function PreviousMonthStart(now: Instant): (r: Instant)
    ensures IsMidnight(r)
    ensures DateOf(r).day == 1
    ensures MonthIndexOf(r) == MonthIndexOf(now) - 1
    ensures r == DayStart(MonthStartDays(MonthIndexOf(now) - 1))
  {
    PreviousMonthStartFacts(now);
    Midnight(PreviousMonth(DateOf(now).year, DateOf(now).month))
  }

  lemma PreviousMonthStartFacts(now: Instant)
    ensures var r := Midnight(PreviousMonth(DateOf(now).year, DateOf(now).month));
      && IsMidnight(r)
      && DateOf(r).day == 1
      && MonthIndexOf(r) == MonthIndexOf(now) - 1
      && r == DayStart(MonthStartDays(MonthIndexOf(now) - 1))
  {
    var first := PreviousMonth(DateOf(now).year, DateOf(now).month);
    MidnightOfFirst(first, MonthIndexOf(now) - 1);
  }
}
