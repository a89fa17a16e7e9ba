// Days, years, months and dates of section 21.4.1 of ECMA-262, over unbounded integers.
//
// A day is counted from 1 January 1970. Years are defined by counting their days one by one, and
// the closed form of the standard is proved from that. Months are counted from 0, dates from 1.
module EcmaCalendar {
  const DAY_MS := 86400000

  function Day(t: int): int {
    t / DAY_MS
  }

  predicate Leap(y: int) {
    y % 4 == 0 && (y % 100 != 0 || y % 400 == 0)
  }

  function YearDays(leap: bool): int {
    if leap then 366 else 365
  }

  /** The first day of a year, counted from 1970 year by year. */
  function DayFromYear(y: int): int
    decreases if y < 1970 then 1970 - y else y - 1970
  {
    if y == 1970 then 0
    else if y > 1970 then DayFromYear(y - 1) + YearDays(Leap(y - 1))
    else DayFromYear(y + 1) - YearDays(Leap(y))
  }

  /** The closed form that the standard gives. */
  lemma {:induction false} DayFromYearFormula(y: int)
    ensures DayFromYear(y) == 365 * (y - 1970) + (y - 1969) / 4 - (y - 1901) / 100 + (y - 1601) / 400
    decreases if y < 1970 then 1970 - y else y - 1970
  {
    if y > 1970 {
      DayFromYearFormula(y - 1);
      FormulaGrows(y - 1);
    } else if y < 1970 {
      DayFromYearFormula(y + 1);
      FormulaGrows(y);
    }
  }

  lemma FormulaGrows(y: int)
    ensures (y - 1968) / 4 - (y - 1969) / 4 == if y % 4 == 0 then 1 else 0
    ensures (y - 1900) / 100 - (y - 1901) / 100 == if y % 100 == 0 then 1 else 0
    ensures (y - 1600) / 400 - (y - 1601) / 400 == if y % 400 == 0 then 1 else 0
    ensures y % 400 == 0 ==> y % 100 == 0
    ensures y % 100 == 0 ==> y % 4 == 0
  {
    Step400(y);
  }

  lemma Step400(y: int)
    ensures (y - 1600) / 400 - (y - 1601) / 400 == if y % 400 == 0 then 1 else 0
    ensures y % 400 == 0 ==> y % 100 == 0
  {
  }

  lemma {:induction false} YearsGrow(a: int, b: int)
    requires a <= b
    ensures DayFromYear(a) + 365 * (b - a) <= DayFromYear(b)
    decreases b - a
  {
    if a < b {
      YearsGrow(a, b - 1);
    }
  }

  function YearAtOrAfter(y: int, day: int): (r: int)
    requires DayFromYear(y) <= day
    ensures DayFromYear(r) <= day < DayFromYear(r + 1)
    decreases day - DayFromYear(y)
  {
    if day < DayFromYear(y + 1) then y else YearAtOrAfter(y + 1, day)
  }

  function YearAtOrBefore(y: int, day: int): (r: int)
    requires day < DayFromYear(y + 1)
    ensures DayFromYear(r) <= day < DayFromYear(r + 1)
    decreases DayFromYear(y + 1) - day
  {
    if DayFromYear(y) <= day then y else YearAtOrBefore(y - 1, day)
  }

  /** YearFromTime: the year whose days contain this one. */
  function YearFromDay(day: int): (y: int)
    ensures DayFromYear(y) <= day < DayFromYear(y + 1)
  {
    if DayFromYear(1970) <= day then YearAtOrAfter(1970, day) else YearAtOrBefore(1969, day)
  }

  lemma YearIsUnique(day: int, y: int)
    requires DayFromYear(y) <= day < DayFromYear(y + 1)
    ensures YearFromDay(day) == y
  {
    var r := YearFromDay(day);
    if r < y { YearsGrow(r + 1, y); }
    if y < r { YearsGrow(y + 1, r); }
  }

  /** Days of the year before a month, 0 for January. */
  function DaysBefore(month: int, leap: bool): int
    requires 0 <= month <= 12
  {
    if month < 2 then 31 * month else (153 * month - 304) / 5 + 59 + if leap then 1 else 0
  }

  /** The table of the standard. */
  lemma DaysBeforeTable(leap: bool)
    ensures var l := if leap then 1 else 0;
      && DaysBefore(0, leap) == 0 && DaysBefore(1, leap) == 31 && DaysBefore(2, leap) == 59 + l
           && DaysBefore(3, leap) == 90 + l
      && DaysBefore(4, leap) == 120 + l && DaysBefore(5, leap) == 151 + l && DaysBefore(6, leap) == 181 + l
           && DaysBefore(7, leap) == 212 + l
      && DaysBefore(8, leap) == 243 + l && DaysBefore(9, leap) == 273 + l && DaysBefore(10, leap) == 304 + l
      && DaysBefore(11, leap) == 334 + l && DaysBefore(12, leap) == 365 + l
  {
  }

  function DayWithinYear(day: int): (r: int)
    ensures 0 <= r < YearDays(Leap(YearFromDay(day)))
  {
    day - DayFromYear(YearFromDay(day))
  }

  /** The month, 0 for January, that holds a day of the year. */
  function MonthOf(d: int, leap: bool): (m: int)
    requires 0 <= d < YearDays(leap)
    ensures 0 <= m < 12 && DaysBefore(m, leap) <= d < DaysBefore(m + 1, leap)
  {
    var l := if leap then 1 else 0;
    if d < 31 then 0 else if d < 59 + l then 1 else (5 * (d - 59 - l) + 2) / 153 + 2
  }

  /** MonthFromTime */
  function MonthFromDay(day: int): (m: int)
    ensures 0 <= m < 12
  {
    MonthOf(DayWithinYear(day), Leap(YearFromDay(day)))
  }

  /** DateFromTime, 1 for the first day of the month. */
  function DateFromDay(day: int): (d: int)
    ensures 1 <= d <= 31
  {
    DayWithinYear(day) - DaysBefore(MonthFromDay(day), Leap(YearFromDay(day))) + 1
  }

  /** MakeDay: months outside 0..11 carry into the year. */
  function MakeDay(year: int, month: int, date: int): int {
    var y := year + month / 12;
    DayFromYear(y) + DaysBefore(month % 12, Leap(y)) + date - 1
  }

  /** Date.UTC with three arguments: MakeFullYear takes years 0 to 99 for 1900 to 1999. */
  function DateUTC(year: int, month: int, date: int): int {
    var y := if 0 <= year <= 99 then 1900 + year else year;
    MakeDay(y, month, date) * DAY_MS
  }

  /** Taking a day apart and making it again gives the same day. */
  lemma MakeDayRoundTrip(day: int)
    ensures MakeDay(YearFromDay(day), MonthFromDay(day), DateFromDay(day)) == day
  {
  }

  /** Making a day and taking it apart gives back its parts. */
  lemma PartsOfMadeDay(year: int, month: int, date: int)
    requires 0 <= month < 12 && 1 <= date <= DaysBefore(month + 1, Leap(year)) - DaysBefore(month, Leap(year))
    ensures YearFromDay(MakeDay(year, month, date)) == year
    ensures MonthFromDay(MakeDay(year, month, date)) == month
    ensures DateFromDay(MakeDay(year, month, date)) == date
  {
    var day, leap := MakeDay(year, month, date), Leap(year);
    var d := DaysBefore(month, leap) + date - 1;
    assert day == DayFromYear(year) + d;
    YearIsUnique(day, year);
  }

  /** Months count on through the years. */
  function MonthIndex(day: int): int {
    YearFromDay(day) * 12 + MonthFromDay(day)
  }

  /** The first of a month given by its index. */
  function FirstOfMonth(index: int): int {
    MakeDay(index / 12, index % 12, 1)
  }

  lemma FirstOfMonthParts(index: int)
    ensures YearFromDay(FirstOfMonth(index)) == index / 12 && MonthFromDay(FirstOfMonth(index)) == index % 12
    ensures DateFromDay(FirstOfMonth(index)) == 1 && MonthIndex(FirstOfMonth(index)) == index
  {
    PartsOfMadeDay(index / 12, index % 12, 1);
  }

  /** Days are ordered as their years, months and dates are. */
  lemma DaysOrderLikeParts(a: int, b: int)
    ensures a < b <==>
      || YearFromDay(a) < YearFromDay(b)
      || (YearFromDay(a) == YearFromDay(b) && MonthFromDay(a) < MonthFromDay(b))
      || (YearFromDay(a) == YearFromDay(b) && MonthFromDay(a) == MonthFromDay(b) && DateFromDay(a) < DateFromDay(b))
  {
    if YearFromDay(a) < YearFromDay(b) {
      LaterYearIsLater(a, b);
    } else if YearFromDay(b) < YearFromDay(a) {
      LaterYearIsLater(b, a);
    } else {
    }
  }

  lemma LaterYearIsLater(a: int, b: int)
    requires YearFromDay(a) < YearFromDay(b)
    ensures a < b
  {
    YearsGrow(YearFromDay(a) + 1, YearFromDay(b));
  }

  // ----- Date.UTC and the years 0 to 99 -----

  /** Date.UTC reads these years as years of the twentieth century. */
  predicate TwoDigitYear(y: int) {
    0 <= y <= 99
  }

  lemma LaterCenturyIsLater(year: int, month: int, date: int)
    requires 0 <= month < 12 && 1 <= date <= 31
    ensures MakeDay(year, month, date) < MakeDay(1900 + year, month, date)
  {
    YearsGrow(year, 1900 + year);
  }

  lemma DateUTCIff(year: int, month: int, date: int)
    requires 0 <= month < 12 && 1 <= date <= 31
    ensures DateUTC(year, month, date) == MakeDay(year, month, date) * DAY_MS <==> !TwoDigitYear(year)
  {
    if TwoDigitYear(year) { LaterCenturyIsLater(year, month, date); }
  }

  /** Date.UTC makes a day from its own parts exactly outside the years 0 to 99. */
  lemma DateUTCOfDayIff(day: int)
    ensures DateUTC(YearFromDay(day), MonthFromDay(day), DateFromDay(day)) == day * DAY_MS
      <==> !TwoDigitYear(YearFromDay(day))
  {
    DateUTCIff(YearFromDay(day), MonthFromDay(day), DateFromDay(day));
    MakeDayRoundTrip(day);
  }

  lemma SameFirst(i: int, j: int)
    ensures FirstOfMonth(i) == FirstOfMonth(j) <==> i == j
  {
    FirstOfMonthParts(i);
    FirstOfMonthParts(j);
  }

  /** Months carry into the years exactly when the year is not 0 to 99. */
  lemma DateUTCOfMonthIff(year: int, month: int)
    ensures DateUTC(year, month, 1) == FirstOfMonth(year * 12 + month) * DAY_MS <==> !TwoDigitYear(year)
  {
    var y := if TwoDigitYear(year) then 1900 + year else year;
    SameFirst(y * 12 + month, year * 12 + month);
  }
}
