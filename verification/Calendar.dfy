// The proleptic Gregorian calendar: civil times, their position on the UTC
// time line, and the year a moment falls in.

module Calendar {

  predicate Leap(year: int) { year % 4 == 0 && (year % 100 != 0 || year % 400 == 0) }

  function YearLength(year: int): int { if Leap(year) then 366 else 365 }

  function MonthLength(year: int, month: int): (days: int)
    requires 1 <= month <= 12
    ensures 28 <= days <= 31
  {
    if month == 2 then (if Leap(year) then 29 else 28)
    else if month in {4, 6, 9, 11} then 30
    else 31
  }

  // Days from 0000-01-01 to January 1st of `year`, in closed form.
  function DaysBeforeYear(year: int): int {
    365 * year + (year + 3) / 4 - (year + 99) / 100 + (year + 399) / 400
  }

  // The closed form counts exactly the days of the years it skips.
  lemma YearsAreContiguous(year: int)
    ensures DaysBeforeYear(0) == 0
    ensures DaysBeforeYear(year + 1) == DaysBeforeYear(year) + YearLength(year)
  {
    CeilingStep(year, 4);
    CeilingStep(year, 100);
    CeilingStep(year, 400);
    CenturiesAreFourfold(year);
  }

  // Multiples of 400 are multiples of 100, and those are multiples of 4.
  lemma CenturiesAreFourfold(year: int)
    ensures year % 100 == 0 ==> year % 4 == 0
    ensures year % 400 == 0 ==> year % 100 == 0
  {
    if year % 100 == 0 { FourDivides(year, 25 * (year / 100)); }
    if year % 400 == 0 { HundredDivides(year, 4 * (year / 400)); }
  }

  lemma FourDivides(year: int, k: int)
    requires year == 4 * k
    ensures year % 4 == 0
  {
  }

  lemma HundredDivides(year: int, k: int)
    requires year == 100 * k
    ensures year % 100 == 0
  {
  }

  // ceil((y+1)/n) exceeds ceil(y/n) exactly when n divides y.
  lemma CeilingStep(y: int, n: int)
    requires n in {4, 100, 400}
    ensures (y + 1 + (n - 1)) / n == (y + (n - 1)) / n + (if y % n == 0 then 1 else 0)
  {
  }

  lemma {:induction false} YearsIncrease(a: int, b: int)
    requires a <= b
    ensures DaysBeforeYear(a) + 365 * (b - a) <= DaysBeforeYear(b)
    decreases b - a
  {
    if a < b {
      YearsIncrease(a, b - 1);
      YearsAreContiguous(b - 1);
    }
  }

  // Days from January 1st to the first day of `month`; month 13 stands for the
  // end of the year.
  function DaysBeforeMonth(year: int, month: int): (days: int)
    requires 1 <= month <= 13
    ensures 0 <= days
  {
    if month == 1 then 0 else DaysBeforeMonth(year, month - 1) + MonthLength(year, month - 1)
  }

  lemma MonthsFillTheYear(year: int)
    ensures DaysBeforeMonth(year, 13) == YearLength(year)
  {
    assert DaysBeforeMonth(year, 2) == 31;
    assert DaysBeforeMonth(year, 3) == 31 + MonthLength(year, 2);
    assert DaysBeforeMonth(year, 5) == 92 + MonthLength(year, 2);
    assert DaysBeforeMonth(year, 7) == 153 + MonthLength(year, 2);
    assert DaysBeforeMonth(year, 9) == 215 + MonthLength(year, 2);
    assert DaysBeforeMonth(year, 11) == 276 + MonthLength(year, 2);
  }

  lemma {:induction false} MonthsIncrease(year: int, a: int, b: int)
    requires 1 <= a < b <= 13
    ensures DaysBeforeMonth(year, a) + MonthLength(year, a) <= DaysBeforeMonth(year, b)
    decreases b - a
  {
    if a + 1 < b {
      MonthsIncrease(year, a, b - 1);
    }
  }

  // ---- civil times ----

  datatype Civil = Civil(year: int, month: int, day: int, hour: int, minute: int, second: int)

  predicate ValidCivil(c: Civil) {
    && 1 <= c.month <= 12 && 1 <= c.day <= MonthLength(c.year, c.month)
    && 0 <= c.hour < 24 && 0 <= c.minute < 60 && 0 <= c.second < 60
  }

  const UNIX_EPOCH_DAY := 719528  // days from 0000-01-01 to 1970-01-01

  function DayNumber(c: Civil): int
    requires ValidCivil(c)
  {
    DaysBeforeYear(c.year) + DaysBeforeMonth(c.year, c.month) + c.day - 1 - UNIX_EPOCH_DAY
  }

  // Seconds since 1970-01-01T00:00:00Z.
  function Timestamp(c: Civil): int
    requires ValidCivil(c)
  {
    DayNumber(c) * 86400 + c.hour * 3600 + c.minute * 60 + c.second
  }

  lemma UnixEpoch()
    ensures Timestamp(Civil(1970, 1, 1, 0, 0, 0)) == 0
  {
  }

  // Field-by-field order of civil times, most significant field first.
  predicate CivilLess(a: Civil, b: Civil) {
    || a.year < b.year
    || (a.year == b.year && (
          || a.month < b.month
          || (a.month == b.month && (
                || a.day < b.day
                || (a.day == b.day && a.hour * 3600 + a.minute * 60 + a.second < b.hour * 3600 + b.minute * 60 + b.second)))))
  }

  lemma DayWithinYear(c: Civil)
    requires ValidCivil(c)
    ensures DaysBeforeYear(c.year) <= DayNumber(c) + UNIX_EPOCH_DAY < DaysBeforeYear(c.year + 1)
  {
    MonthsFillTheYear(c.year);
    MonthsIncrease(c.year, c.month, 13);
    YearsAreContiguous(c.year);
  }

  // Civil order is time order.
  lemma TimestampIncreases(a: Civil, b: Civil)
    requires ValidCivil(a) && ValidCivil(b) && CivilLess(a, b)
    ensures Timestamp(a) < Timestamp(b)
  {
    if a.year < b.year {
      DayWithinYear(a);
      DayWithinYear(b);
      YearsIncrease(a.year + 1, b.year);
    } else if a.month < b.month {
      MonthsIncrease(a.year, a.month, b.month);
    }
  }

  // ---- the year of a moment ----

  // The first second of a year.
  function StartOfYear(year: int): int { (DaysBeforeYear(year) - UNIX_EPOCH_DAY) * 86400 }

  predicate YearHolds(year: int, timestamp: int) {
    StartOfYear(year) <= timestamp < StartOfYear(year + 1)
  }

  // The mean year length locates a day's year to within one.
  function YearGuess(timestamp: int): int { (timestamp / 86400 + UNIX_EPOCH_DAY) * 400 / 146097 }

  lemma SomeYearHolds(timestamp: int)
    ensures exists year :: YearGuess(timestamp) - 1 <= year <= YearGuess(timestamp) + 1 && YearHolds(year, timestamp)
  {
    var guess := YearGuess(timestamp);
    YearsAreContiguous(guess - 1);
    YearsAreContiguous(guess);
    YearsAreContiguous(guess + 1);
    assert YearHolds(guess - 1, timestamp) || YearHolds(guess, timestamp) || YearHolds(guess + 1, timestamp);
  }

  lemma OneYearHolds(a: int, b: int, timestamp: int)
    requires YearHolds(a, timestamp) && YearHolds(b, timestamp)
    ensures a == b
  {
    if a < b { YearsIncrease(a + 1, b); }
    if b < a { YearsIncrease(b + 1, a); }
  }

  lemma OnlyOneYearHolds(timestamp: int)
    ensures forall a, b :: YearHolds(a, timestamp) && YearHolds(b, timestamp) ==> a == b
  {
    forall a, b | YearHolds(a, timestamp) && YearHolds(b, timestamp) ensures a == b {
      OneYearHolds(a, b, timestamp);
    }
  }

  // chrono's `DateTime::year`: the calendar year that holds a moment.
  function YearOf(timestamp: int): (year: int)
    ensures YearHolds(year, timestamp)
  {
    SomeYearHolds(timestamp);
    OnlyOneYearHolds(timestamp);
    var year :| YearGuess(timestamp) - 1 <= year <= YearGuess(timestamp) + 1 && YearHolds(year, timestamp);
    year
  }

  lemma YearOfCivil(c: Civil)
    requires ValidCivil(c)
    ensures YearOf(Timestamp(c)) == c.year
  {
    DayWithinYear(c);
    OneYearHolds(YearOf(Timestamp(c)), c.year, Timestamp(c));
  }

  // December 31st ends where the next January 1st begins.
  lemma YearEnds(year: int)
    ensures Timestamp(Civil(year, 1, 1, 0, 0, 0)) == StartOfYear(year)
    ensures Timestamp(Civil(year, 12, 31, 23, 59, 59)) + 1 == StartOfYear(year + 1)
  {
    MonthsFillTheYear(year);
    YearsAreContiguous(year);
    assert DaysBeforeMonth(year, 13) == DaysBeforeMonth(year, 12) + 31;
  }

  // A moment lies in a year before `year` exactly when it precedes its first second.
  lemma YearBefore(timestamp: int, year: int)
    ensures YearOf(timestamp) < year <==> timestamp < StartOfYear(year)
  {
    var y := YearOf(timestamp);
    if y < year { YearsIncrease(y + 1, year); } else { YearsIncrease(year, y); }
  }
}
