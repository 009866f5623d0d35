/** The proleptic Gregorian calendar in UTC days (full-date, section 5.6 of RFC 3339). */
module Calendar {

  datatype Civil = Civil(year: int, month: int, day: int)

  predicate IsLeap(y: int) {
    y % 4 == 0 && (y % 100 != 0 || y % 400 == 0)
  }

  function DaysInMonth(y: int, m: int): int {
    if m == 2 then (if IsLeap(y) then 29 else 28)
    else if m == 4 || m == 6 || m == 9 || m == 11 then 30
    else 31
  }

  predicate IsDate(d: Civil) {
    1 <= d.month <= 12 && 1 <= d.day <= DaysInMonth(d.year, d.month)
  }

  /** The day after, by the calendar's own rule. */
  function NextDay(d: Civil): Civil {
    if d.day < DaysInMonth(d.year, d.month) then Civil(d.year, d.month, d.day + 1)
    else if d.month < 12 then Civil(d.year, d.month + 1, 1)
    else Civil(d.year + 1, 1, 1)
  }

  const EPOCH := Civil(1970, 1, 1)

  /** The date `n` days after the Unix epoch, counted day by day. */
  ghost function DateOf(n: nat): Civil {
    if n == 0 then EPOCH else NextDay(DateOf(n - 1))
  }

  /** Days from the year 1 to the start of a year, in closed form. */
  function DaysBeforeYear(y: int): int {
    var p := y - 1;
    365 * p + p / 4 - p / 100 + p / 400
  }

  function DaysBeforeMonth(y: int, m: int): int
    requires 1 <= m <= 12
    decreases m
  {
    if m == 1 then 0 else DaysBeforeMonth(y, m - 1) + DaysInMonth(y, m - 1)
  }

  /** Signed days since the Unix epoch. */
  function DayNumber(d: Civil): int
    requires 1 <= d.month <= 12
  {
    DaysBeforeYear(d.year) - DaysBeforeYear(1970) + DaysBeforeMonth(d.year, d.month) + d.day - 1
  }

  lemma FloorSteps(y: int)
    ensures y / 4 - (y - 1) / 4 == if y % 4 == 0 then 1 else 0
    ensures y / 100 - (y - 1) / 100 == if y % 100 == 0 then 1 else 0
    ensures y / 400 - (y - 1) / 400 == if y % 400 == 0 then 1 else 0
  {
  }

  lemma YearLength(y: int)
    ensures DaysBeforeYear(y + 1) == DaysBeforeYear(y) + DaysBeforeMonth(y, 12) + 31
  {
    FloorSteps(y);
    MonthTable(y);
    LeapMultiples(y);
  }

  lemma LeapMultiples(y: int)
    ensures y % 400 == 0 ==> y % 100 == 0
    ensures y % 100 == 0 ==> y % 4 == 0
  {
    HundredsIn(y, y / 400);
    FoursIn(y, y / 100);
  }

  lemma HundredsIn(y: int, q: int)
    ensures y == 400 * q ==> y % 100 == 0
  {
    assert 400 * q == 100 * (4 * q);
  }

  lemma FoursIn(y: int, c: int)
    ensures y == 100 * c ==> y % 4 == 0
  {
    assert 100 * c == 4 * (25 * c);
  }

  lemma MonthTable(y: int)
    ensures var l := if IsLeap(y) then 1 else 0;
            && DaysBeforeMonth(y, 2) == 31 && DaysBeforeMonth(y, 3) == 59 + l && DaysBeforeMonth(y, 4) == 90 + l
            && DaysBeforeMonth(y, 5) == 120 + l && DaysBeforeMonth(y, 6) == 151 + l && DaysBeforeMonth(y, 7) == 181 + l
            && DaysBeforeMonth(y, 8) == 212 + l && DaysBeforeMonth(y, 9) == 243 + l && DaysBeforeMonth(y, 10) == 273 + l
            && DaysBeforeMonth(y, 11) == 304 + l && DaysBeforeMonth(y, 12) == 334 + l
  {
    assert DaysBeforeMonth(y, 1) == 0;
    assert DaysBeforeMonth(y, 4) == DaysBeforeMonth(y, 3) + 31;
    assert DaysBeforeMonth(y, 6) == DaysBeforeMonth(y, 5) + 31;
    assert DaysBeforeMonth(y, 8) == DaysBeforeMonth(y, 7) + 31;
    assert DaysBeforeMonth(y, 10) == DaysBeforeMonth(y, 9) + 30;
    assert DaysBeforeMonth(y, 12) == DaysBeforeMonth(y, 11) + 30;
  }

  /** The closed form counts one for each step of the calendar. */
  lemma DayNumberCounts(d: Civil)
    requires IsDate(d)
    ensures IsDate(NextDay(d)) && DayNumber(NextDay(d)) == DayNumber(d) + 1
  {
    if d.day == DaysInMonth(d.year, d.month) && d.month == 12 {
      YearLength(d.year);
    }
  }

  /** Counting days forward is inverted by the closed form. */
  lemma {:induction false} DayNumberOfDateOf(n: nat)
    ensures IsDate(DateOf(n)) && DateOf(n).year >= 1970 && DayNumber(DateOf(n)) == n
  {
    if n > 0 {
      DayNumberOfDateOf(n - 1);
      DayNumberCounts(DateOf(n - 1));
    }
  }

  lemma {:induction false} MonthsIncrease(y: int, a: int, b: int)
    requires 1 <= a < b <= 12
    ensures DaysBeforeMonth(y, a) + DaysInMonth(y, a) <= DaysBeforeMonth(y, b)
    decreases b
  {
    if a < b - 1 { MonthsIncrease(y, a, b - 1); }
  }

  lemma {:induction false} YearsIncrease(a: int, b: int)
    requires a <= b
    ensures DaysBeforeYear(a) + 365 * (b - a) <= DaysBeforeYear(b)
    decreases b - a
  {
    if a < b {
      YearsIncrease(a, b - 1);
      YearLength(b - 1);
      MonthTable(b - 1);
    }
  }

  ghost predicate Before(a: Civil, b: Civil) {
    a.year < b.year || (a.year == b.year && (a.month < b.month || (a.month == b.month && a.day < b.day)))
  }

  /** A later date has a larger number: no two dates share one. */
  lemma DayNumberIncreases(a: Civil, b: Civil)
    requires IsDate(a) && IsDate(b) && Before(a, b)
    ensures DayNumber(a) < DayNumber(b)
  {
    if a.year < b.year {
      YearLength(a.year);
      YearsIncrease(a.year + 1, b.year);
      if a.month < 12 { MonthsIncrease(a.year, a.month, 12); }
      if 1 < b.month { MonthsIncrease(b.year, 1, b.month); }
    } else if a.month < b.month {
      MonthsIncrease(a.year, a.month, b.month);
    }
  }

  /** The closed form is inverted by counting days forward, for every date from the epoch on. */
  lemma DateOfDayNumber(d: Civil)
    requires IsDate(d) && DayNumber(d) >= 0
    ensures DateOf(DayNumber(d)) == d
  {
    var e := DateOf(DayNumber(d));
    DayNumberOfDateOf(DayNumber(d));
    if e != d {
      if Before(e, d) { DayNumberIncreases(e, d); } else { DayNumberIncreases(d, e); }
    }
  }

  /** Dates before 1970 are exactly those with a negative number. */
  lemma NegativeBeforeEpoch(d: Civil)
    requires IsDate(d)
    ensures DayNumber(d) < 0 <==> d.year < 1970
  {
    if d.year < 1970 {
      DayNumberIncreases(d, EPOCH);
    } else if d != EPOCH {
      DayNumberIncreases(EPOCH, d);
    }
  }
}
