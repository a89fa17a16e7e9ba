// Korean calendar days (UTC+9 without daylight saving) of instants in milliseconds.
module KstTime {
  import opened Wrappers
  import opened Strings
  import opened EcmaCalendar
  import opened DateKeys

  const KST_OFFSET_MS := 32400000
  const STORED_DATE_SHIFT_MS := 54000000
  const LOG_QUERY_MAX_WINDOW_DAYS := 730

  function KstDay(t: int): int {
    Day(t + KST_OFFSET_MS)
  }

  function KstYear(t: int): int {
    YearFromDay(KstDay(t))
  }

  /** The instant a Korean day begins at. */
  function DayStart(day: int): int {
    day * DAY_MS - KST_OFFSET_MS
  }

  /** The key of a day. */
  function DayKey(day: int): string {
    Key(YearFromDay(day), MonthFromDay(day) + 1, DateFromDay(day))
  }

  function FormatKstDateKey(t: int): string {
    DayKey(KstDay(t))
  }

  function GetKstStartOfDay(t: int): int {
    DateUTC(KstYear(t), MonthFromDay(KstDay(t)), DateFromDay(KstDay(t))) - KST_OFFSET_MS
  }

  function GetKstDaysAgoStart(days: int, base: int): int {
    GetKstStartOfDay(base) - days * DAY_MS
  }

  function GetKstMonthStart(t: int, monthOffset: int): int {
    DateUTC(KstYear(t), MonthFromDay(KstDay(t)) + monthOffset, 1) - KST_OFFSET_MS
  }

  /** Midnight in Korea, nine hours ahead of UTC, in milliseconds. */
  ghost function Midnight(day: int): int {
    day * 86400000 - 32400000
  }

  /** The Korean day runs from one midnight to the next. */
  lemma KoreanDayIff(t: int, day: int)
    ensures KstDay(t) == day <==> Midnight(day) <= t < Midnight(day + 1)
    ensures DayStart(day) == Midnight(day)
  {
  }

  // ----- starts of days and months -----

  lemma DayStartIsItsDay(day: int)
    ensures KstDay(DayStart(day)) == day
  {
  }

  /** The start of the day is right exactly outside the years 0 to 99. */
  lemma StartOfDayIff(t: int)
    ensures GetKstStartOfDay(t) == DayStart(KstDay(t)) <==> !TwoDigitYear(KstYear(t))
    ensures !TwoDigitYear(KstYear(t)) ==> GetKstStartOfDay(t) <= t < GetKstStartOfDay(t) + DAY_MS
  {
    DateUTCOfDayIff(KstDay(t));
    WithinItsDay(t);
  }

  lemma WithinItsDay(t: int)
    ensures DayStart(KstDay(t)) <= t < DayStart(KstDay(t)) + DAY_MS
  {
  }

  /** A month start is the first day of the month `monthOffset` months on, across any number of
      years in either direction, exactly when it is taken outside the years 0 to 99. */
  lemma MonthStartIff(t: int, monthOffset: int)
    ensures GetKstMonthStart(t, monthOffset) == DayStart(FirstOfMonth(MonthIndex(KstDay(t)) + monthOffset))
      <==> !TwoDigitYear(KstYear(t))
  {
    MonthStartOfIff(KstYear(t), MonthFromDay(KstDay(t)), monthOffset);
  }

  lemma MonthStartOfIff(year: int, month: int, monthOffset: int)
    ensures DateUTC(year, month + monthOffset, 1) - KST_OFFSET_MS
             == DayStart(FirstOfMonth(year * 12 + month + monthOffset))
      <==> !TwoDigitYear(year)
  {
    DateUTCOfMonthIff(year, month + monthOffset);
  }

  lemma MonthStartParts(t: int, monthOffset: int)
    requires !TwoDigitYear(KstYear(t))
    ensures MonthIndex(KstDay(GetKstMonthStart(t, monthOffset))) == MonthIndex(KstDay(t)) + monthOffset
    ensures DateFromDay(KstDay(GetKstMonthStart(t, monthOffset))) == 1
  {
    MonthStartIff(t, monthOffset);
    FirstDayParts(MonthIndex(KstDay(t)) + monthOffset);
  }

  lemma FirstDayParts(index: int)
    ensures MonthIndex(KstDay(DayStart(FirstOfMonth(index)))) == index
    ensures DateFromDay(KstDay(DayStart(FirstOfMonth(index)))) == 1
  {
    DayStartIsItsDay(FirstOfMonth(index));
    FirstOfMonthParts(index);
  }

  /** Going a months and then b months is going a + b months. */
  lemma MonthStartsCompose(t: int, a: int, b: int)
    requires !TwoDigitYear(KstYear(t)) && !TwoDigitYear(KstYear(GetKstMonthStart(t, a)))
    ensures GetKstMonthStart(GetKstMonthStart(t, a), b) == GetKstMonthStart(t, a + b)
  {
    MonthStartParts(t, a);
    MonthStartIff(GetKstMonthStart(t, a), b);
    MonthStartIff(t, a + b);
  }

  // ----- reading dates -----

  datatype Boundary = Start | End

  predicate TimezoneAware(s: string) {
    var n := |s|;
    || (n >= 1 && (s[n - 1] == 'Z' || s[n - 1] == 'z'))
    || (n >= 6 && s[n - 6] in "+-" && IsDigit(s[n - 5]) && IsDigit(s[n - 4]) && s[n - 3] == ':' && IsDigit(s[n - 2])
         && IsDigit(s[n - 1]))
    || (n >= 5 && s[n - 5] in "+-" && IsDigit(s[n - 4]) && IsDigit(s[n - 3]) && IsDigit(s[n - 2]) && IsDigit(s[n - 1]))
  }

  /** A time of a date written with the offset +09:00; None for elements outside the calendar. */
  function IsoKst(year: int, month: int, date: int, timeInDay: int): Option<int> {
    if 1 <= month <= 12 && 1 <= date <= DaysBefore(month, Leap(year)) - DaysBefore(month - 1, Leap(year))
    then Some(MakeDay(year, month - 1, date) * DAY_MS + timeInDay - KST_OFFSET_MS)
    else None
  }

  function TimeInDay(boundary: Boundary): int {
    if boundary.Start? then 0 else DAY_MS - 1
  }

  datatype BadRequest = BadRequest

  /** parseDateInputAsUtc. `parse` stands for the Date constructor on other strings, None for an
      invalid date; a date key with impossible elements is returned as an invalid date. */
  function ParseDateInputAsUtc(input: string, boundary: Boundary,
          parse: string -> Option<int>): Result<Option<int>, BadRequest> {
    var normalized := Trim(input);
    if IsDateKey(normalized) then
      Success(IsoKst(KeyYear(normalized), KeyMonth(normalized), KeyDate(normalized), TimeInDay(boundary)))
    else if !TimezoneAware(normalized) || parse(normalized).None? then Failure(BadRequest)
    else Success(parse(normalized))
  }

  lemma KeyHasNoTimezone(y: int, m: nat, d: nat)
    requires m < 100 && d < 100
    ensures !TimezoneAware(Key(y, m, d))
  {
    var s, k := Key(y, m, d), |Number(y)|;
    KeyShape(y, m, d);
    assert forall i :: 0 <= i < 6 ==> s[k + i] == s[k..][i];
  }

  /** A date key is read back exactly for years of four digits: as the start of its day, or as
      its last millisecond (that start is getKstStartOfDay, by StartOfDayIff). */
  lemma KeyComesBackIff(t: int, boundary: Boundary, parse: string -> Option<int>)
    ensures ParseDateInputAsUtc(FormatKstDateKey(t), boundary, parse)
         == if 1000 <= KstYear(t) <= 9999 then Success(Some(DayStart(KstDay(t)) + TimeInDay(boundary)))
            else Failure(BadRequest)
  {
    DayKeyComesBack(KstDay(t), boundary, parse);
  }

  lemma DayKeyComesBack(day: int, boundary: Boundary, parse: string -> Option<int>)
    ensures ParseDateInputAsUtc(DayKey(day), boundary, parse)
         == if 1000 <= YearFromDay(day) <= 9999 then Success(Some(DayStart(day) + TimeInDay(boundary)))
            else Failure(BadRequest)
  {
    IsoKstOfDay(day, TimeInDay(boundary));
    ParsedKey(YearFromDay(day), MonthFromDay(day) + 1, DateFromDay(day), boundary, parse,
        DayStart(day) + TimeInDay(boundary));
  }

  lemma ParsedKey(y: int, m: nat, d: nat, boundary: Boundary, parse: string -> Option<int>, t: int)
    requires m < 100 && d < 100 && IsoKst(y, m, d, TimeInDay(boundary)) == Some(t)
    ensures ParseDateInputAsUtc(Key(y, m, d), boundary, parse) == if 1000 <= y <= 9999 then Success(Some(t))
      else Failure(BadRequest)
  {
    KeyIsTrimmed(y, m, d);
    KeyRoundTrip(y, m, d);
    KeyHasNoTimezone(y, m, d);
  }

  lemma IsoKstOfParts(year: int, month: nat, date: int, timeInDay: int, day: int)
    requires month < 12 && 1 <= date <= DaysBefore(month + 1, Leap(year)) - DaysBefore(month, Leap(year))
    requires MakeDay(year, month, date) == day
    ensures IsoKst(year, month + 1, date, timeInDay) == Some(DayStart(day) + timeInDay)
  {
  }

  lemma IsoKstOfDay(day: int, timeInDay: int)
    ensures IsoKst(YearFromDay(day), MonthFromDay(day) + 1, DateFromDay(day), timeInDay)
      == Some(DayStart(day) + timeInDay)
  {
    MakeDayRoundTrip(day);
    DateIsInMonth(day);
    IsoKstOfParts(YearFromDay(day), MonthFromDay(day), DateFromDay(day), timeInDay, day);
  }

  lemma DateIsInMonth(day: int)
    ensures var (m, l) := (MonthFromDay(day), Leap(YearFromDay(day)));
            1 <= DateFromDay(day) <= DaysBefore(m + 1, l) - DaysBefore(m, l)
  {
  }

  /** Keys of four-digit years compare like the days of their instants. */
  lemma KeysOrderLikeDays(s: int, t: int)
    requires 1000 <= KstYear(s) <= 9999 && 1000 <= KstYear(t) <= 9999
    ensures Less(FormatKstDateKey(s), FormatKstDateKey(t)) <==> KstDay(s) < KstDay(t)
    ensures FormatKstDateKey(s) == FormatKstDateKey(t) <==> KstDay(s) == KstDay(t)
    ensures s <= t ==> KstDay(s) <= KstDay(t)
  {
    DayKeysOrder(KstDay(s), KstDay(t));
  }

  lemma DayKeysOrder(a: int, b: int)
    requires 1000 <= YearFromDay(a) <= 9999 && 1000 <= YearFromDay(b) <= 9999
    ensures Less(DayKey(a), DayKey(b)) <==> a < b
    ensures DayKey(a) == DayKey(b) <==> a == b
  {
    DayKeysLess(a, b);
    if DayKey(a) == DayKey(b) {
      SameKeySameDay(a, b);
    }
  }

  lemma DayKeysLess(a: int, b: int)
    requires 1000 <= YearFromDay(a) <= 9999 && 1000 <= YearFromDay(b) <= 9999
    ensures Less(DayKey(a), DayKey(b)) <==> a < b
  {
    KeysOrderLikeParts(YearFromDay(a), MonthFromDay(a) + 1, DateFromDay(a),
                       YearFromDay(b), MonthFromDay(b) + 1, DateFromDay(b));
    DaysOrderLikeParts(a, b);
  }

  lemma SameKeySameDay(a: int, b: int)
    requires 1000 <= YearFromDay(a) <= 9999 && 1000 <= YearFromDay(b) <= 9999
    requires Key(YearFromDay(a), MonthFromDay(a) + 1, DateFromDay(a))
      == Key(YearFromDay(b), MonthFromDay(b) + 1, DateFromDay(b))
    ensures a == b
  {
    KeysAreInjective(YearFromDay(a), MonthFromDay(a) + 1, DateFromDay(a), YearFromDay(b), MonthFromDay(b) + 1,
        DateFromDay(b));
    MakeDayRoundTrip(a);
    MakeDayRoundTrip(b);
  }

  // ----- dates of aggregated rows -----

  function StoredDate(t: int): int {
    t - STORED_DATE_SHIFT_MS
  }

  function BucketStart(stored: int): int {
    stored + STORED_DATE_SHIFT_MS
  }

  function FormatAggregatedStatDateKey(stored: int): string {
    FormatKstDateKey(BucketStart(stored))
  }

  /** A date column keeps the UTC day. */
  function UtcDay(t: int): int {
    Day(t) * DAY_MS
  }

  /** The shift lands on the UTC day that a date column would keep exactly for the start of a
      Korean day; then nothing is lost in the column and the bucket start brings it back. */
  lemma StoredDateIff(t: int)
    ensures StoredDate(t) == UtcDay(t) <==> t == DayStart(KstDay(t))
    ensures t == DayStart(KstDay(t))
      ==> UtcDay(StoredDate(t)) == StoredDate(t) && BucketStart(UtcDay(StoredDate(t))) == t
  {
    assert t == DayStart(KstDay(t)) <==> (t + KST_OFFSET_MS) % DAY_MS == 0;
    assert StoredDate(t) == UtcDay(t) <==> t % DAY_MS == STORED_DATE_SHIFT_MS;
  }

  lemma AggregatedKeyIsTheKey(t: int)
    ensures FormatAggregatedStatDateKey(StoredDate(t)) == FormatKstDateKey(t)
  {
  }

  /** Formatting a stored date without the shift gives the key of the day before. */
  lemma UnshiftedKeyIsTheDayBefore(day: int)
    ensures FormatKstDateKey(StoredDate(DayStart(day))) == FormatKstDateKey(DayStart(day - 1))
    ensures 1000 <= YearFromDay(day - 1) && YearFromDay(day) <= 9999
      ==> FormatKstDateKey(StoredDate(DayStart(day))) != FormatKstDateKey(DayStart(day))
  {
    DayStartIsItsDay(day);
    DayStartIsItsDay(day - 1);
    assert KstDay(StoredDate(DayStart(day))) == day - 1;
    if 1000 <= YearFromDay(day - 1) && YearFromDay(day) <= 9999 {
      DaysOrderLikeParts(day - 1, day);
      KeysOrderLikeDays(StoredDate(DayStart(day)), DayStart(day));
    }
  }

  // ----- the window of log queries -----

  datatype Range = Range(gte: Option<int>, lte: Option<Option<int>>)

  /** resolveLogQueryDateRange; an invalid date is not before the floor. */
  function ResolveLogQueryDateRange(startDate: Option<string>, endDate: Option<string>, now: int,
          parse: string -> Option<int>): Result<Range, BadRequest> {
    var floor := GetKstDaysAgoStart(LOG_QUERY_MAX_WINDOW_DAYS, now);
    var end := if Truthy(endDate) then ParseDateInputAsUtc(endDate.value, End, parse) else Success(None);
    if end.Failure? then Failure(BadRequest)
    else
      var lte := if Truthy(endDate) then Some(end.value) else None;
      if !Truthy(startDate) then Success(Range(Some(floor), lte))
      else
        var gte := ParseDateInputAsUtc(startDate.value, Start, parse);
        if gte.Failure? || (gte.value.Some? && gte.value.value < floor) then Failure(BadRequest)
        else Success(Range(gte.value, lte))
  }

  /** A date key whose month or day does not exist. */
  predicate ImpossibleDate(input: string) {
    var s := Trim(input);
    IsDateKey(s) && IsoKst(KeyYear(s), KeyMonth(s), KeyDate(s), TimeInDay(Start)).None?
  }

  /** An accepted range has a lower bound, no earlier than 730 Korean days back, exactly if its
      start is not a date key of an impossible date: an invalid date is not before the floor. */
  lemma RangeStaysInWindowIff(startDate: Option<string>, endDate: Option<string>, now: int,
          parse: string -> Option<int>)
    requires !TwoDigitYear(KstYear(now))
    requires ResolveLogQueryDateRange(startDate, endDate, now, parse).Success?
    ensures var gte := ResolveLogQueryDateRange(startDate, endDate, now, parse).value.gte;
            gte.Some? && KstDay(gte.value) >= KstDay(now) - LOG_QUERY_MAX_WINDOW_DAYS
            <==> !(Truthy(startDate) && ImpossibleDate(startDate.value))
  {
    StartOfDayIff(now);
  }

  /** Such a start is accepted at any time: the thirteenth month. */
  lemma ImpossibleStartIsAccepted(now: int, parse: string -> Option<int>)
    ensures ResolveLogQueryDateRange(Some("2024-13-01"), None, now, parse) == Success(Range(None, None))
  {
    var s := "2024-13-01";
    assert |s| == 10 && !IsWhite(s[0]) && !IsWhite(s[9]);
    assert TrimEnd(s) == s && TrimStart(s) == s;
    assert IsDateKey(s) && KeyMonth(s) == 13;
  }

  /** The key of an instant opens a range exactly if its day is within the window, and the range
      then begins with that whole day. */
  lemma KeyOpensRangeIff(t: int, now: int, parse: string -> Option<int>)
    requires 1000 <= KstYear(t) <= 9999 && !TwoDigitYear(KstYear(now))
    ensures ResolveLogQueryDateRange(Some(FormatKstDateKey(t)), None, now, parse)
         == if KstDay(t) >= KstDay(now) - LOG_QUERY_MAX_WINDOW_DAYS
            then Success(Range(Some(DayStart(KstDay(t))), None)) else Failure(BadRequest)
  {
    KeyIsRead(t, parse);
    RangeFrom(FormatKstDateKey(t), KstDay(t), now, parse);
  }

  /** The key of an instant as the end date closes the range with the last millisecond of its day. */
  lemma KeyClosesRange(t: int, now: int, parse: string -> Option<int>)
    ensures ResolveLogQueryDateRange(None, Some(FormatKstDateKey(t)), now, parse)
         == if 1000 <= KstYear(t) <= 9999
            then Success(Range(Some(GetKstDaysAgoStart(LOG_QUERY_MAX_WINDOW_DAYS, now)),
            Some(Some(DayStart(KstDay(t)) + DAY_MS - 1))))
            else Failure(BadRequest)
  {
    KeyComesBackIff(t, End, parse);
    KeyIsNotEmpty(t);
    RangeUpTo(FormatKstDateKey(t), KstYear(t), DayStart(KstDay(t)) + TimeInDay(End), now, parse);
  }

  lemma RangeUpTo(s: string, year: int, end: int, now: int, parse: string -> Option<int>)
    requires s != ""
    requires ParseDateInputAsUtc(s, End, parse) == if 1000 <= year <= 9999 then Success(Some(end))
      else Failure(BadRequest)
    ensures ResolveLogQueryDateRange(None, Some(s), now, parse)
         == if 1000 <= year <= 9999
            then Success(Range(Some(GetKstDaysAgoStart(LOG_QUERY_MAX_WINDOW_DAYS, now)), Some(Some(end))))
            else Failure(BadRequest)
  {
  }

  lemma KeyIsRead(t: int, parse: string -> Option<int>)
    requires 1000 <= KstYear(t) <= 9999
    ensures FormatKstDateKey(t) != ""
    ensures ParseDateInputAsUtc(FormatKstDateKey(t), Start, parse) == Success(Some(DayStart(KstDay(t))))
  {
    KeyComesBackIff(t, Start, parse);
    StartHasNoTime();
    KeyIsNotEmpty(t);
  }

  lemma StartHasNoTime()
    ensures TimeInDay(Start) == 0
  {
  }

  lemma RangeFrom(s: string, day: int, now: int, parse: string -> Option<int>)
    requires s != "" && ParseDateInputAsUtc(s, Start, parse) == Success(Some(DayStart(day)))
    requires !TwoDigitYear(KstYear(now))
    ensures ResolveLogQueryDateRange(Some(s), None, now, parse)
         == if day >= KstDay(now) - LOG_QUERY_MAX_WINDOW_DAYS then Success(Range(Some(DayStart(day)), None))
            else Failure(BadRequest)
  {
    StartOfDayIff(now);
    KeyIsAfterFloor(day, KstDay(now));
  }

  lemma KeyIsAfterFloor(day: int, today: int)
    ensures DayStart(day) >= DayStart(today) - LOG_QUERY_MAX_WINDOW_DAYS * DAY_MS
      <==> day >= today - LOG_QUERY_MAX_WINDOW_DAYS
  {
  }

  lemma KeyIsNotEmpty(t: int)
    ensures FormatKstDateKey(t) != ""
  {
    KeyShape(KstYear(t), MonthFromDay(KstDay(t)) + 1, DateFromDay(KstDay(t)));
  }

  // ----- what is read, in plain terms -----

  /** Z, or a sign with hours and minutes, with or without a colon. */
  ghost predicate IsOffset(t: string) {
    || t == "Z" || t == "z"
    || (|t| == 6 && t[0] in {'+', '-'} && t[3] == ':' && AllDigits([t[1], t[2], t[4], t[5]]))
    || (|t| == 5 && t[0] in {'+', '-'} && AllDigits(t[1..]))
  }

  ghost predicate EndsInOffset(s: string) {
    exists n :: 0 <= n <= |s| && IsOffset(s[n..])
  }

  lemma TimezoneAwareIff(s: string)
    ensures TimezoneAware(s) <==> EndsInOffset(s)
  {
    var n := |s|;
    if TimezoneAware(s) {
      if n >= 1 && s[n - 1] in {'Z', 'z'} {
        assert IsOffset(s[n - 1..]);
      } else if n >= 6 && s[n - 3] == ':' && s[n - 6] in {'+', '-'} && IsDigit(s[n - 5]) {
        assert s[n - 6..][3] == ':';
        assert IsOffset(s[n - 6..]);
      } else {
        assert s[n - 5..][1..] == [s[n - 4], s[n - 3], s[n - 2], s[n - 1]];
        assert IsOffset(s[n - 5..]);
      }
    }
    if k :| 0 <= k <= n && IsOffset(s[k..]) {
      OffsetMakesAware(s, k);
    }
  }

  lemma OffsetMakesAware(s: string, k: nat)
    requires k <= |s| && IsOffset(s[k..])
    ensures TimezoneAware(s)
  {
    var t := s[k..];
    if |t| == 6 {
      var digits := [t[1], t[2], t[4], t[5]];
      assert digits[0] in digits && digits[1] in digits && digits[2] in digits && digits[3] in digits;
    } else if |t| == 5 {
      var digits := t[1..];
      assert digits[0] in digits && digits[1] in digits && digits[2] in digits && digits[3] in digits;
    }
  }

  /** The parts of the key are those of the day. */
  ghost predicate Names(s: string, day: int)
    requires IsDateKey(s)
  {
    YearFromDay(day) == KeyYear(s) && MonthFromDay(day) + 1 == KeyMonth(s) && DateFromDay(day) == KeyDate(s)
  }

  ghost function BoundaryOf(day: int, boundary: Boundary): int {
    if boundary.Start? then Midnight(day) else Midnight(day + 1) - 1
  }

  /** A date key is read as the Korean midnight of the day it names, or as the last millisecond
      before the next one, and as an invalid date if it names none. */
  lemma ParseKeyMeans(input: string, boundary: Boundary, parse: string -> Option<int>)
    requires IsDateKey(Trim(input))
    ensures forall day :: Names(Trim(input), day) ==>
              ParseDateInputAsUtc(input, boundary, parse) == Success(Some(BoundaryOf(day, boundary)))
    ensures (forall day :: !Names(Trim(input), day)) ==> ParseDateInputAsUtc(input, boundary, parse) == Success(None)
  {
    var s := Trim(input);
    forall day | Names(s, day)
      ensures ParseDateInputAsUtc(input, boundary, parse) == Success(Some(BoundaryOf(day, boundary)))
    {
      NamedDayIs(s, day, boundary);
    }
    if forall day :: !Names(s, day) { NoDayNamed(s, TimeInDay(boundary)); }
  }

  /** Anything else has to end in an offset and to be a date. */
  lemma ParseOtherMeans(input: string, boundary: Boundary, parse: string -> Option<int>)
    requires !IsDateKey(Trim(input))
    ensures ParseDateInputAsUtc(input, boundary, parse)
         == if EndsInOffset(Trim(input)) && parse(Trim(input)).Some? then Success(parse(Trim(input)))
            else Failure(BadRequest)
  {
    TimezoneAwareIff(Trim(input));
  }

  lemma NamedDayIs(s: string, day: int, boundary: Boundary)
    requires IsDateKey(s) && Names(s, day)
    ensures IsoKst(KeyYear(s), KeyMonth(s), KeyDate(s), TimeInDay(boundary)) == Some(BoundaryOf(day, boundary))
  {
    IsoKstOfPartsOf(KeyYear(s), KeyMonth(s), KeyDate(s), day, TimeInDay(boundary));
  }

  lemma IsoKstOfPartsOf(year: int, month: int, date: int, day: int, timeInDay: int)
    requires year == YearFromDay(day) && month == MonthFromDay(day) + 1 && date == DateFromDay(day)
    ensures IsoKst(year, month, date, timeInDay) == Some(Midnight(day) + timeInDay)
  {
    IsoKstOfDay(day, timeInDay);
  }

  lemma NoDayNamed(s: string, timeInDay: int)
    requires IsDateKey(s) && forall day :: !Names(s, day)
    ensures IsoKst(KeyYear(s), KeyMonth(s), KeyDate(s), timeInDay) == None
  {
    var y, m, d := KeyYear(s), KeyMonth(s), KeyDate(s);
    if 1 <= m <= 12 && 1 <= d <= DaysBefore(m, Leap(y)) - DaysBefore(m - 1, Leap(y)) {
      PartsOfMadeDay(y, m - 1, d);
      assert Names(s, MakeDay(y, m - 1, d));
    }
  }

  ghost predicate Given(s: Option<string>) {
    exists text :: s == Some(text) && text != ""
  }

  /** A query is accepted if what is given can be read and the start, where it is a date, is no
      earlier than 730 days before today's midnight, which is also the start where none is given. */
  lemma RangeMeans(startDate: Option<string>, endDate: Option<string>, now: int, parse: string -> Option<int>)
    requires !TwoDigitYear(KstYear(now))
    ensures var r := ResolveLogQueryDateRange(startDate, endDate, now, parse);
            var floor := Midnight(KstDay(now) - 730);
            var end := if Given(endDate) then ParseDateInputAsUtc(endDate.value, End, parse) else Success(None);
            var start :=
              if Given(startDate) then ParseDateInputAsUtc(startDate.value, Start, parse) else Success(Some(floor));
            if end.Failure? || start.Failure? || (start.value.Some? && start.value.value < floor)
            then r == Failure(BadRequest)
            else r == Success(Range(start.value, if Given(endDate) then Some(end.value) else None))
  {
    StartOfDayIff(now);
    KoreanDayIff(now, KstDay(now) - 730);
  }
}
