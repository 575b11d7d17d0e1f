/** The age calculator: calendar years, months and days from a date of
    birth to a target date, by component-wise subtraction with a
    month-length-aware borrow, plus total months and total days. Dates are
    proleptic Gregorian calendar triples. */
module AgeCalculator {
  import opened Wrappers

  datatype Date = Date(year: int, month: int, day: int)

  predicate IsLeap(y: int) {
    y % 4 == 0 && (y % 100 != 0 || y % 400 == 0)
  }

  /** Number of days of month `m` (1 to 12) of year `y`. */
  function DaysInMonth(y: int, m: int): (n: int)
    requires 1 <= m <= 12
    ensures 28 <= n <= 31
  {
    if m == 2 then (if IsLeap(y) then 29 else 28)
    else if m == 4 || m == 6 || m == 9 || m == 11 then 30
    else 31
  }

  predicate ValidDate(d: Date) {
    1 <= d.month <= 12 && 1 <= d.day <= DaysInMonth(d.year, d.month)
  }

  function YearLength(y: int): int {
    if IsLeap(y) then 366 else 365
  }

  /** Days in the months of year `y` before month `m`. */
  function DaysBeforeMonth(y: int, m: int): (n: int)
    requires 1 <= m <= 13
    ensures 28 * (m - 1) <= n <= 31 * (m - 1)
  {
    if m == 1 then 0 else DaysBeforeMonth(y, m - 1) + DaysInMonth(y, m - 1)
  }

  /** The twelve months make up the year. */
  lemma FullYear(y: int)
    ensures DaysBeforeMonth(y, 13) == YearLength(y)
  {
    var feb := DaysInMonth(y, 2);
    assert DaysBeforeMonth(y, 3) == 31 + feb;
    assert DaysBeforeMonth(y, 5) == 92 + feb;
    assert DaysBeforeMonth(y, 7) == 153 + feb;
    assert DaysBeforeMonth(y, 9) == 215 + feb;
    assert DaysBeforeMonth(y, 11) == 276 + feb;
    assert DaysBeforeMonth(y, 13) == 337 + feb;
  }

  /** Days from 0001-01-01 to January 1st of year `y`. */
  function DaysBeforeYear(y: int): int {
    var p := y - 1;
    365 * p + p / 4 - p / 100 + p / 400
  }

  /** The day number of a date: consecutive dates have consecutive numbers,
      and 0001-01-01 is day 0. This is what `getTime() / 86400000` measures
      for dates parsed at midnight UTC. */
  function DayNumber(d: Date): int
    requires ValidDate(d)
  {
    DaysBeforeYear(d.year) + DaysBeforeMonth(d.year, d.month) + d.day - 1
  }

  lemma YearStep(y: int)
    ensures DaysBeforeYear(y + 1) == DaysBeforeYear(y) + YearLength(y)
  {
    var p := y - 1;
    assert y % 4 == 0 <==> (p + 1) / 4 == p / 4 + 1;
    assert y % 100 == 0 <==> (p + 1) / 100 == p / 100 + 1;
    assert y % 400 == 0 <==> (p + 1) / 400 == p / 400 + 1;
    assert (p + 1) / 4 - p / 4 <= 1 && (p + 1) / 4 >= p / 4;
    assert (p + 1) / 100 - p / 100 <= 1 && (p + 1) / 100 >= p / 100;
    assert (p + 1) / 400 - p / 400 <= 1 && (p + 1) / 400 >= p / 400;
  }

  lemma {:induction false} YearsBefore(y1: int, y2: int)
    requires y1 < y2
    ensures DaysBeforeYear(y1) + YearLength(y1) <= DaysBeforeYear(y2)
    decreases y2 - y1
  {
    YearStep(y1);
    if y1 + 1 < y2 {
      YearsBefore(y1 + 1, y2);
    }
  }

  lemma {:induction false} MonthsBefore(y: int, m1: int, m2: int)
    requires 1 <= m1 < m2 <= 13
    ensures DaysBeforeMonth(y, m1) + DaysInMonth(y, m1) <= DaysBeforeMonth(y, m2)
    decreases m2 - m1
  {
    if m1 + 1 < m2 {
      MonthsBefore(y, m1 + 1, m2);
    }
  }

  /** Calendar (lexicographic) order of valid dates. */
  predicate Before(a: Date, b: Date) {
    a.year < b.year || (a.year == b.year && (a.month < b.month || (a.month == b.month && a.day < b.day)))
  }

  /** Day numbers follow the calendar: an earlier date has a smaller
      number. */
  lemma DayNumberMonotone(a: Date, b: Date)
    requires ValidDate(a) && ValidDate(b) && Before(a, b)
    ensures DayNumber(a) < DayNumber(b)
  {
    FullYear(a.year);
    MonthsBefore(a.year, a.month, 13);
    if a.year < b.year {
      YearsBefore(a.year, b.year);
    } else if a.month < b.month {
      MonthsBefore(a.year, a.month, b.month);
    }
  }

  /** Year and month of the month before the one `d` falls in: what
      `new Date(year, month, 0)` lands in. */
  function PrevMonth(d: Date): (r: (int, int))
    requires 1 <= d.month <= 12
    ensures 1 <= r.1 <= 12
  {
    if d.month == 1 then (d.year - 1, 12) else (d.year, d.month - 1)
  }

  /** What the calculator returns. */
  datatype AgeResult =
    | NoResult
    | OrderError
    | Age(years: int, months: int, days: int, totalMonths: int, totalDays: int)

  /** The result the calculator computes for two valid dates, stated in one
      piece: the raw component differences, the day borrow (one month less,
      the length of the month before the target's month added to the days)
      and the month borrow (one year less, twelve months more). */
  function AgeOf(dob: Date, target: Date): (r: AgeResult)
    requires ValidDate(dob) && ValidDate(target)
    ensures r != NoResult
    ensures r.OrderError? <==> DayNumber(dob) > DayNumber(target)
    ensures r.Age? ==> r.totalDays >= 0 && 0 <= r.months <= 11
    ensures r.Age? ==> -2 <= r.days <= 30
  {
    if DayNumber(dob) > DayNumber(target) then OrderError
    else
      var dayBorrow := target.day < dob.day;
      var m := target.month - dob.month - (if dayBorrow then 1 else 0);
      var monthBorrow := m < 0;
      var prev := PrevMonth(target);
      var years := target.year - dob.year - (if monthBorrow then 1 else 0);
      var months := m + (if monthBorrow then 12 else 0);
      var days := target.day - dob.day + (if dayBorrow then DaysInMonth(prev.0, prev.1) else 0);
      Age(years, months, days, years * 12 + months, DayNumber(target) - DayNumber(dob))
  }

  /** `calculateAge`: no result while a date is missing, an error when the
      date of birth is after the target, otherwise the locals `years`,
      `months` and `days` are computed and then corrected by the two borrow
      steps. */
  method CalculateAge(dob: Option<Date>, target: Option<Date>) returns (r: AgeResult)
    requires dob.Some? ==> ValidDate(dob.value)
    requires target.Some? ==> ValidDate(target.value)
    ensures dob.None? || target.None? <==> r == NoResult
    ensures dob.Some? && target.Some? ==> r == AgeOf(dob.value, target.value)
  {
    if dob.None? || target.None? {
      return NoResult;
    }
    var d1, d2 := dob.value, target.value;
    if DayNumber(d1) > DayNumber(d2) {
      return OrderError;
    }
    var years := d2.year - d1.year;
    var months := d2.month - d1.month;
    var days := d2.day - d1.day;
    if days < 0 {
      months := months - 1;
      var prev := PrevMonth(d2);
      days := days + DaysInMonth(prev.0, prev.1);
    }
    if months < 0 {
      years := years - 1;
      months := months + 12;
    }
    var totalMonths := years * 12 + months;
    var totalDays := DayNumber(d2) - DayNumber(d1);
    r := Age(years, months, days, totalMonths, totalDays);
  }

  /** The ordering error is raised exactly when the date of birth comes
      after the target in the calendar. */
  lemma OrderErrorExactly(dob: Date, target: Date)
    requires ValidDate(dob) && ValidDate(target)
    ensures AgeOf(dob, target) == OrderError <==> Before(target, dob)
  {
    if Before(target, dob) {
      DayNumberMonotone(target, dob);
    } else if dob != target {
      DayNumberMonotone(dob, target);
    }
  }

  /** For a date of birth not after the target: `years >= 0`, months in
      0..11, `totalMonths = years * 12 + months` counts the whole months
      between the two dates (one fewer when the target's day of month is
      below the birth day), and `totalDays` is the exact day difference. */
  lemma AgeBounds(dob: Date, target: Date)
    requires ValidDate(dob) && ValidDate(target)
    requires !Before(target, dob)
    ensures var r := AgeOf(dob, target);
      && r.Age?
      && r.years >= 0
      && 0 <= r.months <= 11
      && r.totalMonths == r.years * 12 + r.months
      && r.totalMonths == (target.year * 12 + target.month) - (dob.year * 12 + dob.month)
                          - (if target.day < dob.day then 1 else 0)
      && r.totalDays == DayNumber(target) - DayNumber(dob) >= 0
      && -2 <= r.days <= 30
  {
    OrderErrorExactly(dob, target);
    if dob != target {
      DayNumberMonotone(dob, target);
    }
  }

  /** Without a borrow the result is the plain component-wise difference;
      with a day borrow the days gain the length of the month before the
      target's month (29 for a leap February). */
  lemma AgeComponents(dob: Date, target: Date)
    requires ValidDate(dob) && ValidDate(target)
    requires !Before(target, dob)
    ensures var r := AgeOf(dob, target);
      && r.Age?
      && (dob.day <= target.day && dob.month <= target.month ==>
            r.years == target.year - dob.year && r.months == target.month - dob.month
            && r.days == target.day - dob.day)
      && (target.day < dob.day ==>
            r.days == target.day - dob.day + DaysInMonth(PrevMonth(target).0, PrevMonth(target).1))
  {
    AgeBounds(dob, target);
  }

  /** Equal dates give all zeros. */
  lemma SameDate(d: Date)
    requires ValidDate(d)
    ensures AgeOf(d, d) == Age(0, 0, 0, 0, 0)
  {
  }

  /** The days are not clamped: from 2000-01-31 to 2024-03-01 the
      calculator reports 24 years, 1 month and -1 days. */
  lemma NegativeDays()
    ensures ValidDate(Date(2000, 1, 31)) && ValidDate(Date(2024, 3, 1))
    ensures AgeOf(Date(2000, 1, 31), Date(2024, 3, 1)) == Age(24, 1, -1, 289, 8796)
  {
    assert IsLeap(2024);
    assert DaysBeforeYear(2024) - DaysBeforeYear(2000) == 8766;
    assert DaysBeforeMonth(2024, 3) == 60;
  }

  // ------------------------------------------------------------------ the corrected borrow

  /** The date `k` months after `d`, with the day clamped to the length of
      the month it lands in. */
  function AddMonths(d: Date, k: int): (r: Date)
    requires ValidDate(d)
    ensures ValidDate(r)
  {
    AtMonthIndex(d.year * 12 + (d.month - 1) + k, d.day)
  }

  /** Day `day` of the month numbered `idx` (January of year 0 is 0),
      clamped to the month's length. */
  function AtMonthIndex(idx: int, day: int): (r: Date)
    requires 1 <= day
    ensures ValidDate(r)
  {
    var y, m := idx / 12, idx % 12 + 1;
    Date(y, m, if day <= DaysInMonth(y, m) then day else DaysInMonth(y, m))
  }

  lemma AtMonthIndexOf(y: int, m: int, day: int)
    requires 1 <= m <= 12 && 1 <= day
    ensures AtMonthIndex(y * 12 + (m - 1), day).year == y
    ensures AtMonthIndex(y * 12 + (m - 1), day).month == m
  {
    var idx := y * 12 + (m - 1);
    assert idx / 12 == y && idx % 12 == m - 1;
  }

  /** The evidently intended result: when the day borrows, the days are
      counted from the monthly anniversary of the birth day, clamped to the
      length of the month before the target's month. */
  function AgeOfCorrected(dob: Date, target: Date): (r: AgeResult)
    requires ValidDate(dob) && ValidDate(target)
  {
    match AgeOf(dob, target)
    case Age(years, months, days, totalMonths, totalDays) =>
      var prev := PrevMonth(target);
      var len := DaysInMonth(prev.0, prev.1);
      var fixedDays := if target.day < dob.day && dob.day > len then target.day else days;
      Age(years, months, fixedDays, totalMonths, totalDays)
    case other => other
  }

  lemma MonthAfter(y: int, m: int)
    requires 1 <= m <= 12
    ensures var next := if m == 12 then Date(y + 1, 1, 1) else Date(y, m + 1, 1);
      ValidDate(next) && DayNumber(next) == DayNumber(Date(y, m, DaysInMonth(y, m))) + 1
  {
    if m == 12 {
      YearStep(y);
      FullYear(y);
    }
  }

  /** `totalMonths` months after the date of birth is the target's month,
      or the month before it when the day borrows. */
  lemma AnniversaryMonth(dob: Date, target: Date)
    requires ValidDate(dob) && ValidDate(target)
    requires !Before(target, dob)
    ensures AgeOf(dob, target).Age?
    ensures var a := AddMonths(dob, AgeOf(dob, target).totalMonths);
      var prev := PrevMonth(target);
      && (target.day < dob.day ==> a.year == prev.0 && a.month == prev.1)
      && (target.day >= dob.day ==> a.year == target.year && a.month == target.month)
  {
    AgeBounds(dob, target);
    var k := AgeOf(dob, target).totalMonths;
    var prev := PrevMonth(target);
    if target.day < dob.day {
      MonthsLater(dob, k, prev.0, prev.1);
    } else {
      MonthsLater(dob, k, target.year, target.month);
    }
  }

  /** `k` months after `dob` is month `m` of year `y` when the month
      numbers differ by `k`. */
  lemma MonthsLater(dob: Date, k: int, y: int, m: int)
    requires ValidDate(dob) && 1 <= m <= 12
    requires k == (y * 12 + m) - (dob.year * 12 + dob.month)
    ensures AddMonths(dob, k).year == y && AddMonths(dob, k).month == m
  {
    assert dob.year * 12 + (dob.month - 1) + k == y * 12 + (m - 1);
    AtMonthIndexOf(y, m, dob.day);
  }

  /** Counting forward from day `a` of a month to day `d` of the next. */
  lemma IntoNextMonth(y: int, m: int, a: int, next: Date)
    requires 1 <= m <= 12 && 1 <= a <= DaysInMonth(y, m)
    requires next == (if m == 12 then Date(y + 1, 1, next.day) else Date(y, m + 1, next.day))
    requires ValidDate(next)
    ensures DayNumber(Date(y, m, a)) + (DaysInMonth(y, m) - a) + next.day == DayNumber(next)
  {
    MonthAfter(y, m);
  }

  /** With the correction the days are never negative, and going
      `totalMonths` months forward from the date of birth and then `days`
      days forward lands exactly on the target. */
  lemma CorrectedAgeAddsUp(dob: Date, target: Date)
    requires ValidDate(dob) && ValidDate(target)
    requires !Before(target, dob)
    ensures var r := AgeOfCorrected(dob, target);
      && r.Age?
      && 0 <= r.days
      && DayNumber(AddMonths(dob, r.totalMonths)) + r.days == DayNumber(target)
  {
    AgeBounds(dob, target);
    AnniversaryMonth(dob, target);
    var r := AgeOfCorrected(dob, target);
    var a := AddMonths(dob, r.totalMonths);
    var prev := PrevMonth(target);
    if target.day < dob.day {
      IntoNextMonth(prev.0, prev.1, a.day, target);
      assert a == Date(prev.0, prev.1, a.day);
    } else {
      assert a == Date(target.year, target.month, dob.day);
    }
  }

  /** Where the two disagree: at the example above the corrected days are 1,
      the day after the clamped anniversary 2024-02-29. */
  lemma CorrectedExample()
    ensures AgeOfCorrected(Date(2000, 1, 31), Date(2024, 3, 1)) == Age(24, 1, 1, 289, 8796)
  {
    NegativeDays();
  }
}
