/**
 Seconds since the epoch, utils/clocks.c (mktime64): a closed formula over 32-bit arithmetic, against
 a count of Gregorian days.
 */
module Calendar {

  import opened Integers

  // ----- The Gregorian calendar

  predicate Leap(y: nat) {
    (y % 4 == 0 && y % 100 != 0) || y % 400 == 0
  }

  function YearDays(y: nat): nat {
    if Leap(y) then 366 else 365
  }

  function MonthDays(y: nat, m: nat): nat {
    if m == 2 then (if Leap(y) then 29 else 28)
    else if m == 4 || m == 6 || m == 9 || m == 11 then 30
    else 31
  }

  // Days from the first of January of year 1 to the first of January of year `y`.
  function DaysToYear(y: nat): nat {
    if y <= 1 then 0 else DaysToYear(y - 1) + YearDays(y - 1)
  }

  // Days from the first of January to the first of month `m`.
  function DaysToMonth(y: nat, m: nat): nat {
    if m <= 1 then 0 else DaysToMonth(y, m - 1) + MonthDays(y, m - 1)
  }

  predicate ValidDate(y: nat, m: nat, d: nat) {
    1 <= y && 1 <= m <= 12 && 1 <= d <= MonthDays(y, m)
  }

  // Days since 1970-01-01, negative before it.
  function DayNumber(y: nat, m: nat, d: nat): int {
    DaysToYear(y) + DaysToMonth(y, m) + d - 1 - DaysToYear(1970)
  }

  // ----- The code

  // `(int)x` of a 32-bit unsigned value.
  function AsSigned(x: int): int
    requires 0 <= x < TWO32
  {
    if x < TWO32 / 2 then x else x - TWO32
  }

  // February comes last, so that the leap day does.
  function Shifted(year0: int, mon0: int): (int, int)
    requires 0 <= year0 < TWO32 && 0 <= mon0 < TWO32
  {
    var mon := (mon0 - 2) % TWO32;
    if 0 >= AsSigned(mon) then ((mon + 12) % TWO32, (year0 - 1) % TWO32) else (mon, year0)
  }

  // The days of the formula; unsigned terms wrap at 32 bits before they are widened.
  function Days32(year: int, mon: int, day: int): int {
    (year / 4 - year / 100 + year / 400 + (367 * mon) % TWO32 / 12 + day) % TWO32 + (year * 365) % TWO32 - 719499
  }

  // mktime64
  function Mktime(year0: int, mon0: int, day: int, hour: int, min: int, sec: int): int
    requires 0 <= year0 < TWO32 && 0 <= mon0 < TWO32 && 0 <= day < TWO32
  {
    var (mon, year) := Shifted(year0, mon0);
    ((Days32(year, mon, day) * 24 + hour) * 60 + min) * 60 + sec
  }

  // ----- The formula counts days

  lemma QuotientStep(x: nat, d: nat)
    requires x >= 1 && d >= 1
    ensures x / d == (x - 1) / d + (if x % d == 0 then 1 else 0)
  {
    var q, r := (x - 1) / d, (x - 1) % d;
    assert x == q * d + (r + 1);
    if r + 1 == d {
      assert x == (q + 1) * d;
      Quotient(x, d, q + 1, 0);
    } else {
      Quotient(x, d, q, r + 1);
    }
  }

  function LeapsBefore(y: nat): int {
    y / 4 - y / 100 + y / 400
  }

  lemma LeapsStep(y: nat)
    requires y >= 1
    ensures LeapsBefore(y) == LeapsBefore(y - 1) + (if Leap(y) then 1 else 0)
  {
    QuotientStep(y, 4);
    QuotientStep(y, 100);
    QuotientStep(y, 400);
  }

  // The closed form of the years' lengths.
  lemma {:induction false} DaysToYearClosed(y: nat)
    requires y >= 1
    ensures DaysToYear(y) == 365 * (y - 1) + LeapsBefore(y - 1)
  {
    if y > 1 {
      DaysToYearClosed(y - 1);
      LeapsStep(y - 1);
    }
  }

  lemma Epoch()
    ensures DaysToYear(1970) == 719162
  {
    DaysToYearClosed(1970);
  }

  lemma LeapsBound(y: nat)
    ensures 0 <= LeapsBefore(y) <= y / 4 + 1
  {
  }

  lemma ShiftedMonth(y: nat, m: nat)
    requires 1 <= y < TWO32 && 1 <= m <= 12
    ensures Shifted(y, m) == if m <= 2 then (m + 10, y - 1) else (m - 2, y)
  {
  }

  // The month term of the formula, month by month.
  lemma MonthTerm(y: nat, m: nat)
    requires 1 <= m <= 12
    ensures m <= 2 ==> DaysToMonth(y, m) == 367 * (m + 10) / 12 - 336
    ensures m > 2 ==> DaysToMonth(y, m) == 367 * (m - 2) / 12 + 29 + (if Leap(y) then 1 else 0)
  {
    var leap := if Leap(y) then 1 else 0;
    assert DaysToMonth(y, 1) == 0 && DaysToMonth(y, 2) == 31 && DaysToMonth(y, 3) == 59 + leap;
    assert DaysToMonth(y, 4) == 90 + leap && DaysToMonth(y, 5) == 120 + leap && DaysToMonth(y, 6) == 151 + leap;
    assert DaysToMonth(y, 7) == 181 + leap && DaysToMonth(y, 8) == 212 + leap && DaysToMonth(y, 9) == 243 + leap;
    assert DaysToMonth(y, 10) == 273 + leap && DaysToMonth(y, 11) == 304 + leap && DaysToMonth(y, 12) == 334 + leap;
  }

  function Formula(year: nat, mon: nat, d: nat): int {
    LeapsBefore(year) + 367 * mon / 12 + d + year * 365 - 719499
  }

  // The formula in unbounded arithmetic is the day number: January and February,
  lemma FormulaEarly(y: nat, m: nat, d: nat)
    requires ValidDate(y, m, d) && m <= 2
    ensures Formula(y - 1, m + 10, d) == DayNumber(y, m, d)
  {
    MonthTerm(y, m);
    DaysToYearClosed(y);
    Epoch();
  }

  // and the other months.
  lemma FormulaLate(y: nat, m: nat, d: nat)
    requires ValidDate(y, m, d) && m > 2
    ensures Formula(y, m - 2, d) == DayNumber(y, m, d)
  {
    MonthTerm(y, m);
    DaysToYearClosed(y);
    LeapsStep(y);
    Epoch();
  }

  // What the 32-bit product of years and days loses.
  function Lost(year: nat): (lost: nat)
    ensures lost == 0 <==> year * 365 < TWO32
  {
    year * 365 - (year * 365) % TWO32
  }

  // Nothing else is lost.
  lemma WrappedFormula(year: nat, mon: nat, d: nat)
    requires year < TWO32 && 1 <= mon <= 12 && d <= 31
    ensures Days32(year, mon, d) == Formula(year, mon, d) - Lost(year)
  {
    LeapsBound(year);
    assert (367 * mon) % TWO32 == 367 * mon;
    var leaps := LeapsBefore(year) + 367 * mon / 12 + d;
    assert 0 <= leaps < TWO32;
  }

  lemma MktimeDays(y: nat, m: nat, d: nat, hour: int, min: int, sec: int, mon: nat, year: nat)
    requires ValidDate(y, m, d) && y < TWO32 && Shifted(y, m) == (mon, year)
    ensures Mktime(y, m, d, hour, min, sec) == 86400 * Days32(year, mon, d) + 3600 * hour + 60 * min + sec
  {
  }

  // Every date and time of day, across all month, leap-year, century and 400-year boundaries, is
  // counted right exactly when the product of years and days fits in 32 bits.
  lemma MktimeIsRight(y: nat, m: nat, d: nat, hour: int, min: int, sec: int)
    requires ValidDate(y, m, d) && y < TWO32
    ensures Mktime(y, m, d, hour, min, sec) == 86400 * DayNumber(y, m, d) + 3600 * hour + 60 * min + sec
            <==> (if m <= 2 then y - 1 else y) * 365 < TWO32
  {
    ShiftedMonth(y, m);
    var mon, year := if m <= 2 then m + 10 else m - 2, if m <= 2 then y - 1 else y;
    if m <= 2 { FormulaEarly(y, m, d); } else { FormulaLate(y, m, d); }
    WrappedFormula(year, mon, d);
    MktimeDays(y, m, d, hour, min, sec, mon, year);
    Compare(Mktime(y, m, d, hour, min, sec), Days32(year, mon, d), DayNumber(y, m, d), Lost(year), 3600 * hour + 60 * min + sec);
  }

  lemma Compare(t: int, days32: int, days: int, lost: int, rest: int)
    requires t == 86400 * days32 + rest && days32 == days - lost
    ensures t == 86400 * days + rest <==> lost == 0
  {
  }

  // ----- The day number counts one by one

  function NextDay(y: nat, m: nat, d: nat): (nat, nat, nat)
    requires ValidDate(y, m, d)
  {
    if d < MonthDays(y, m) then (y, m, d + 1)
    else if m < 12 then (y, m + 1, 1)
    else (y + 1, 1, 1)
  }

  lemma DayNumberCounts(y: nat, m: nat, d: nat)
    requires ValidDate(y, m, d)
    ensures DayNumber(1970, 1, 1) == 0
    ensures var (y', m', d') := NextDay(y, m, d);
            ValidDate(y', m', d') && DayNumber(y', m', d') == DayNumber(y, m, d) + 1
  {
    if m == 12 {
      MonthTerm(y, 12);
      assert 367 * 10 / 12 == 305;
    }
  }

  // So one more day is 86400 more seconds, also over the end of a month or a year.
  lemma MktimeNextDay(y: nat, m: nat, d: nat, hour: int, min: int, sec: int)
    requires ValidDate(y, m, d) && (y + 1) * 365 < TWO32
    ensures var (y', m', d') := NextDay(y, m, d);
            Mktime(y', m', d', hour, min, sec) == Mktime(y, m, d, hour, min, sec) + 86400
  {
    DayNumberCounts(y, m, d);
    var (y', m', d') := NextDay(y, m, d);
    MktimeIsRight(y, m, d, hour, min, sec);
    MktimeIsRight(y', m', d', hour, min, sec);
  }

  // Leap years, and the lengths of the months.
  lemma CalendarFacts()
    ensures Leap(2000) && Leap(2024) && !Leap(1900) && !Leap(2100) && !Leap(2023)
    ensures MonthDays(2023, 1) == 31 && MonthDays(2023, 2) == 28 && MonthDays(2024, 2) == 29 && MonthDays(2023, 3) == 31
    ensures MonthDays(2023, 4) == 30 && MonthDays(2023, 5) == 31 && MonthDays(2023, 6) == 30 && MonthDays(2023, 7) == 31
    ensures MonthDays(2023, 8) == 31 && MonthDays(2023, 9) == 30 && MonthDays(2023, 10) == 31 && MonthDays(2023, 11) == 30
    ensures MonthDays(2023, 12) == 31
  {
  }

  lemma KnownDate()
    ensures Mktime(2000, 3, 1, 0, 0, 0) == 951868800
  {
  }
}
