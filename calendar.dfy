/** The proleptic Gregorian calendar in UTC, counted in whole days from 1970-01-01 (day 0),
    the day arithmetic a JavaScript `Date` performs for `setDate`, `getFullYear`,
    `getMonth` and `getDate`. */
module Calendar {

  /** A calendar date; `month` is 1..12 (`getMonth() + 1`), `day` is `getDate()`. */
  datatype Civil = Civil(year: int, month: int, day: int)

  predicate IsLeapYear(y: int) {
    y % 4 == 0 && (y % 100 != 0 || y % 400 == 0)
  }

  function DaysInYear(y: int): int {
    if IsLeapYear(y) then 366 else 365
  }

  function DaysInMonth(y: int, m: int): (n: int)
    requires 1 <= m <= 12
    ensures 28 <= n <= 31
  {
    if m == 2 then (if IsLeapYear(y) then 29 else 28)
    else if m == 4 || m == 6 || m == 9 || m == 11 then 30
    else 31
  }

  predicate ValidCivil(c: Civil) {
    1 <= c.month <= 12 && 1 <= c.day <= DaysInMonth(c.year, c.month)
  }

  /** Days of year `y` that lie before the first of month `m` (m = 13 gives the whole year).
      From March on the month lengths 31, 30, 31, 30, 31 repeat, so `k` months after the first
      of March lie `(153 * k + 2) / 5` days after it. */
  function DaysBeforeMonth(y: int, m: int): int
    requires 1 <= m <= 13
  {
    if m <= 2 then 31 * (m - 1)
    else 59 + (if IsLeapYear(y) then 1 else 0) + (153 * (m - 3) + 2) / 5
  }

  /** Days from 0000-01-01 to the first of January of year `y` (negative before year 0). */
  function DaysBeforeYear(y: int): int {
    365 * y + (y + 3) / 4 - (y + 99) / 100 + (y + 399) / 400
  }

  /** DaysBeforeYear(1970): 1970-01-01 is day 0 of the model, as it is of `Date`. */
  const EpochOffset: int := 719528

  /** Day number of a date. The day of the month enters linearly, so a day past the end of
      its month runs on into the next one, as `Date` does with out-of-range days. */
  function DayNumber(c: Civil): int
    requires 1 <= c.month <= 12
  {
    DaysBeforeYear(c.year) + DaysBeforeMonth(c.year, c.month) + c.day - 1 - EpochOffset
  }

  // ---------------------------------------------------------------------------
  // facts about the year and month counts

  lemma DaysBeforeMonthStep(y: int, m: int)
    requires 1 <= m <= 12
    ensures DaysBeforeMonth(y, m + 1) == DaysBeforeMonth(y, m) + DaysInMonth(y, m)
  {
  }

  lemma DaysBeforeNextYear(y: int)
    ensures DaysBeforeYear(y + 1) == DaysBeforeYear(y) + DaysInYear(y)
  {
    var a := if y % 4 == 0 then 1 else 0;
    var b := if y % 100 == 0 then 1 else 0;
    var c := if y % 400 == 0 then 1 else 0;
    assert (y + 4) / 4 == (y + 3) / 4 + a;
    assert (y + 100) / 100 == (y + 99) / 100 + b;
    assert (y + 400) / 400 == (y + 399) / 400 + c;
    assert DaysBeforeYear(y + 1) == DaysBeforeYear(y) + 365 + a - b + c;
    LeapCounts(y);
  }

  /** The three divisibility counts of the leap-year rule add up to one exactly in leap years. */
  lemma LeapCounts(y: int)
    ensures (if y % 4 == 0 then 1 else 0) - (if y % 100 == 0 then 1 else 0) + (if y % 400 == 0 then 1 else 0)
         == (if IsLeapYear(y) then 1 else 0)
  {
    if y % 400 == 0 {
      QuotientShift100(4 * (y / 400), 0);
      QuotientShift4(100 * (y / 400), 0);
    } else if y % 100 == 0 {
      QuotientShift4(25 * (y / 100), 0);
    }
  }

  lemma QuotientShift4(x: int, b: int)
    ensures (4 * x + b) / 4 == x + b / 4 && (4 * x + b) % 4 == b % 4
  {
  }

  lemma QuotientShift100(x: int, b: int)
    ensures (100 * x + b) / 100 == x + b / 100 && (100 * x + b) % 100 == b % 100
  {
  }

  lemma QuotientShift400(x: int, b: int)
    ensures (400 * x + b) / 400 == x + b / 400 && (400 * x + b) % 400 == b % 400
  {
  }

  /** The calendar repeats every 400 years, which hold 146097 days. */
  lemma DaysBeforeYearCycle(q: int, k: int)
    ensures DaysBeforeYear(400 * q + k) == 146097 * q + DaysBeforeYear(k)
    ensures IsLeapYear(400 * q + k) == IsLeapYear(k)
  {
    QuotientShift4(100 * q, k + 3);
    QuotientShift100(4 * q, k + 99);
    QuotientShift400(q, k + 399);
    QuotientShift4(100 * q, k);
    QuotientShift100(4 * q, k);
    QuotientShift400(q, k);
  }

  lemma {:induction false} DaysBeforeYearMonotone(a: int, b: int)
    requires a <= b
    ensures DaysBeforeYear(a) <= DaysBeforeYear(b)
    decreases b - a
  {
    if a < b {
      DaysBeforeNextYear(a);
      DaysBeforeYearMonotone(a + 1, b);
    }
  }

  // ---------------------------------------------------------------------------
  // from a day number back to a date

  /** The year `y` of a 400-year cycle (0 <= y < 400) in which day `r` of the cycle falls,
      searched upwards from a year `k` that does not lie after it. */
  function YearInCycle(r: int, k: int): (y: int)
    requires 0 <= k <= 399 && DaysBeforeYear(k) <= r < 146097
    ensures k <= y <= 399 && DaysBeforeYear(y) <= r < DaysBeforeYear(y + 1)
    decreases 400 - k
  {
    if r < DaysBeforeYear(k + 1) then k else YearInCycle(r, k + 1)
  }

  /** The month `m` of year `y` in which day `doy` of the year (0-based) falls. */
  function MonthOfYear(y: int, doy: int, k: int): (m: int)
    requires 1 <= k <= 12 && DaysBeforeMonth(y, k) <= doy < DaysBeforeMonth(y, 13)
    ensures k <= m <= 12 && DaysBeforeMonth(y, m) <= doy < DaysBeforeMonth(y, m + 1)
    decreases 13 - k
  {
    if doy < DaysBeforeMonth(y, k + 1) then k else MonthOfYear(y, doy, k + 1)
  }

  /** Every day number is the day number of a valid date: the date is found by splitting off
      whole 400-year cycles, then searching the year of the cycle and the month of the year. */
  lemma DateOfDayExists(n: int)
    ensures exists c :: ValidCivil(c) && DayNumber(c) == n
  {
    var total := n + EpochOffset;
    var q := total / 146097;
    var r := total % 146097;
    var yc, m, d := DateInCycle(r);
    DaysBeforeYearCycle(q, yc);
    SameLeapSameMonths(400 * q + yc, yc, m);
    var c := Civil(400 * q + yc, m, d);
    assert ValidCivil(c);
    assert DayNumber(c) == 146097 * q + r - EpochOffset;
  }

  /** Day `r` of a 400-year cycle falls on day `d` of month `m` of year `yc` of the cycle. */
  lemma DateInCycle(r: int) returns (yc: int, m: int, d: int)
    requires 0 <= r < 146097
    ensures 0 <= yc <= 399 && ValidCivil(Civil(yc, m, d))
    ensures DaysBeforeYear(yc) + DaysBeforeMonth(yc, m) + d - 1 == r
  {
    assert DaysBeforeYear(r / 366) <= 366 * (r / 366) <= r;
    yc := YearInCycle(r, r / 366);
    var doy := r - DaysBeforeYear(yc);
    DaysBeforeNextYear(yc);
    assert doy < DaysBeforeMonth(yc, 13);
    m := MonthOfYear(yc, doy, 1);
    d := doy - DaysBeforeMonth(yc, m) + 1;
    DaysBeforeMonthStep(yc, m);
  }

  /** Two years that are both leap years or both common years have the same months. */
  lemma SameLeapSameMonths(y1: int, y2: int, m: int)
    requires 1 <= m <= 12 && IsLeapYear(y1) == IsLeapYear(y2)
    ensures DaysBeforeMonth(y1, m) == DaysBeforeMonth(y2, m) && DaysInMonth(y1, m) == DaysInMonth(y2, m)
  {
  }

  /** The date of day `n`, what `Date` reports for the time value of that day: the inverse of
      DayNumber. */
  function CivilFromDays(n: int): (c: Civil)
    ensures ValidCivil(c) && DayNumber(c) == n
  {
    DateOfDayExists(n);
    DayNumberUnique(n);
    var c :| ValidCivil(c) && DayNumber(c) == n; c
  }

  lemma DayNumberUnique(n: int)
    ensures forall c1: Civil, c2: Civil | ValidCivil(c1) && ValidCivil(c2) &&
      DayNumber(c1) == n && DayNumber(c2) == n :: c1 == c2
  {
    forall c1: Civil, c2: Civil | ValidCivil(c1) && ValidCivil(c2) && DayNumber(c1) == n && DayNumber(c2) == n
      ensures c1 == c2
    {
      DayNumberInjective(c1, c2);
    }
  }

  /** Two valid dates with the same day number are the same date. */
  lemma DayNumberInjective(c1: Civil, c2: Civil)
    requires ValidCivil(c1) && ValidCivil(c2) && DayNumber(c1) == DayNumber(c2)
    ensures c1 == c2
  {
    SameDayNumberSameYear(c1, c2);
    var y := c1.year;
    if c1.month < c2.month {
      DaysBeforeMonthStep(y, c1.month);
      DaysBeforeMonthMonotone(y, c1.month + 1, c2.month);
    } else if c2.month < c1.month {
      DaysBeforeMonthStep(y, c2.month);
      DaysBeforeMonthMonotone(y, c2.month + 1, c1.month);
    }
  }

  /** A valid date's day number lies within its year. */
  lemma DayNumberInYear(c: Civil)
    requires ValidCivil(c)
    ensures DaysBeforeYear(c.year) <= DayNumber(c) + EpochOffset < DaysBeforeYear(c.year + 1)
  {
    DaysBeforeMonthStep(c.year, c.month);
    DaysBeforeMonthBound(c.year, c.month + 1);
    DaysBeforeNextYear(c.year);
  }

  lemma SameDayNumberSameYear(c1: Civil, c2: Civil)
    requires ValidCivil(c1) && ValidCivil(c2) && DayNumber(c1) == DayNumber(c2)
    ensures c1.year == c2.year
  {
    DayNumberInYear(c1);
    DayNumberInYear(c2);
    if c1.year < c2.year {
      DaysBeforeYearMonotone(c1.year + 1, c2.year);
    } else if c2.year < c1.year {
      DaysBeforeYearMonotone(c2.year + 1, c1.year);
    }
  }

  lemma DaysBeforeMonthBound(y: int, m: int)
    requires 1 <= m <= 13
    ensures DaysBeforeMonth(y, m) <= DaysInYear(y)
  {
  }

  lemma DaysBeforeMonthMonotone(y: int, a: int, b: int)
    requires 1 <= a <= b <= 13
    ensures DaysBeforeMonth(y, a) <= DaysBeforeMonth(y, b)
  {
  }

  /** Reading a valid date's day number back gives the same date. */
  lemma CivilOfDayNumber(c: Civil)
    requires ValidCivil(c)
    ensures CivilFromDays(DayNumber(c)) == c
  {
    DayNumberInjective(CivilFromDays(DayNumber(c)), c);
  }
}
