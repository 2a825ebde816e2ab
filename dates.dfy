/** Calendar dates and the "today or later" test that decides which matches are kept.
    A JavaScript `Date` is modelled as a day number (days since 1970-01-01) plus the
    milliseconds elapsed since that day's midnight; "now" is always a parameter. */
module Dates {
  import opened Wrappers

  const MillisPerDay: int := 86_400_000

  type MillisOfDay = n: int | 0 <= n < MillisPerDay

  /** A moment: the calendar day and the time of day in milliseconds. */
  datatype Instant = Instant(day: int, millis: MillisOfDay)

  /** The number a JavaScript date compares by: milliseconds since the epoch. */
  function EpochMillis(t: Instant): int
  {
    t.day * MillisPerDay + t.millis
  }

  /** `date.setHours(0, 0, 0, 0)`: the same day at midnight. */
  function AtMidnight(t: Instant): (r: Instant)
    ensures r.day == t.day && r.millis == 0
    ensures EpochMillis(r) <= EpochMillis(t) < EpochMillis(r) + MillisPerDay
  {
    Instant(t.day, 0)
  }

  /** `getTodayAtMidnight`: the start of the current day. */
  function GetTodayAtMidnight(now: Instant): (r: Instant)
    ensures r.day == now.day && r.millis == 0
    ensures EpochMillis(r) <= EpochMillis(now) < EpochMillis(r) + MillisPerDay
  {
    AtMidnight(now)
  }

  predicate IsDigit(c: char)
  {
    '0' <= c <= '9'
  }

  predicate AllDigits(s: string)
  {
    forall i :: 0 <= i < |s| ==> IsDigit(s[i])
  }

  /** The decimal value of a string of digits. */
  function DecimalValue(s: string): (n: nat)
    requires AllDigits(s)
  {
    if s == [] then 0
    else DecimalValue(s[..|s| - 1]) * 10 + (s[|s| - 1] as int - '0' as int)
  }

  predicate IsLeapYear(y: int)
  {
    y % 4 == 0 && (y % 100 != 0 || y % 400 == 0)
  }

  function DaysInMonth(y: int, m: int): int
    requires 1 <= m <= 12
  {
    if m == 2 then (if IsLeapYear(y) then 29 else 28)
    else if m == 4 || m == 6 || m == 9 || m == 11 then 30
    else 31
  }

  /** The day number of a proleptic Gregorian calendar date (1970-01-01 is day 0). */
  function DaysFromCivil(y: int, m: int, d: int): int
    requires 1 <= m <= 12
  {
    var y' := if m <= 2 then y - 1 else y;
    var era := y' / 400;
    var yearOfEra := y' - era * 400;
    var shiftedMonth := if m > 2 then m - 3 else m + 9;
    var dayOfYear := (153 * shiftedMonth + 2) / 5 + d - 1;
    var dayOfEra := yearOfEra * 365 + yearOfEra / 4 - yearOfEra / 100 + dayOfYear;
    era * 146097 + dayOfEra - 719468
  }

  /** A day of the proleptic Gregorian calendar. */
  predicate ValidDate(y: int, m: int, d: int)
  {
    1 <= m <= 12 && 1 <= d <= DaysInMonth(y, m)
  }

  /** Calendar order: an earlier year, or the same year and an earlier month, or the same
      month and an earlier day. */
  predicate DateBefore(y1: int, m1: int, d1: int, y2: int, m2: int, d2: int)
  {
    y1 < y2 || (y1 == y2 && (m1 < m2 || (m1 == m2 && d1 < d2)))
  }

  /** Within a month, the day number grows by one per day. */
  lemma DaysWithinMonth(y: int, m: int, d: int)
    requires 1 <= m <= 12
    ensures DaysFromCivil(y, m, d) == DaysFromCivil(y, m, 1) + d - 1
  {
  }

  /** The days from the start of a 400-year era to 1 March of its `k`-th year. */
  function DaysBeforeYearOfEra(k: int): int
  {
    k * 365 + k / 4 - k / 100
  }

  /** 1 March of `y` in terms of its era and its year within the era. */
  lemma MarchFirst(y: int)
    ensures DaysFromCivil(y, 3, 1) == (y / 400) * 146097 + DaysBeforeYearOfEra(y - (y / 400) * 400) - 719468
  {
  }

  /** Within an era, the year ending in February of year `k` has a 29th of February exactly
      when `k` is a leap year. */
  lemma YearOfEraLength(k: int)
    requires 1 <= k < 400
    ensures DaysBeforeYearOfEra(k) - DaysBeforeYearOfEra(k - 1) == if IsLeapYear(k) then 366 else 365
  {
  }

  /** An era is 146097 days, and its last year ends with a 29th of February. */
  lemma EraLength()
    ensures DaysBeforeYearOfEra(399) + 366 == 146097
  {
  }

  /** Adding whole eras keeps a year's remainder by 4. */
  lemma EraShiftMod4(k: int, era: int)
    ensures (era * 400 + k) % 4 == k % 4
  {
    assert era * 400 + k == 4 * (era * 100 + k / 4) + k % 4;
  }

  /** Adding whole eras keeps a year's remainder by 100. */
  lemma EraShiftMod100(k: int, era: int)
    ensures (era * 400 + k) % 100 == k % 100
  {
    assert era * 400 + k == 100 * (era * 4 + k / 100) + k % 100;
  }

  /** Adding whole eras keeps a year's remainder by 400. */
  lemma EraShiftMod400(k: int, era: int)
    ensures (era * 400 + k) % 400 == k % 400
  {
    assert era * 400 + k == 400 * (era + k / 400) + k % 400;
  }

  /** Leap years repeat every 400 years. */
  lemma LeapYearPeriodic(k: int, era: int)
    ensures IsLeapYear(era * 400 + k) == IsLeapYear(k)
  {
    EraShiftMod4(k, era);
    EraShiftMod100(k, era);
    EraShiftMod400(k, era);
  }

  /** The year from 1 March of `y - 1` to 1 March of `y` has 366 days when it holds the
      29th of February of `y`, and 365 otherwise. */
  lemma MarchYearLength(y: int)
    ensures DaysFromCivil(y, 3, 1) - DaysFromCivil(y - 1, 3, 1) == if IsLeapYear(y) then 366 else 365
  {
    var era := (y - 1) / 400;
    var r := (y - 1) - era * 400;
    MarchFirst(y - 1);
    MarchFirst(y);
    if r == 399 {
      assert y / 400 == era + 1 && y - (y / 400) * 400 == 0;
      EraLength();
      LeapYearPeriodic(0, era + 1);
    } else {
      assert y / 400 == era && y - (y / 400) * 400 == r + 1;
      YearOfEraLength(r + 1);
      LeapYearPeriodic(r + 1, era);
    }
  }

  /** The first of a month follows the last day of the month before. */
  lemma NextMonthFollows(y: int, m: int)
    requires 1 <= m < 12
    ensures DaysFromCivil(y, m + 1, 1) == DaysFromCivil(y, m, DaysInMonth(y, m)) + 1
  {
    if m == 2 {
      assert DaysFromCivil(y, 2, DaysInMonth(y, 2)) == DaysFromCivil(y - 1, 3, 1) + 336 + DaysInMonth(y, 2);
      MarchYearLength(y);
    }
  }

  /** New Year's Day follows the 31st of December. */
  lemma NextYearFollows(y: int)
    ensures DaysFromCivil(y + 1, 1, 1) == DaysFromCivil(y, 12, 31) + 1
  {
  }

  /** Days later in the same month, or any day of a later month of the same year, come later. */
  lemma {:induction false} MonthsInOrder(y: int, m1: int, d1: int, m2: int, d2: int)
    requires ValidDate(y, m1, d1) && m1 < m2 <= 12 && 1 <= d2
    ensures DaysFromCivil(y, m1, d1) < DaysFromCivil(y, m2, d2)
    decreases m2 - m1
  {
    DaysWithinMonth(y, m2, d2);
    NextMonthFollows(y, m2 - 1);
    if m2 == m1 + 1 {
      DaysWithinMonth(y, m1, d1);
      DaysWithinMonth(y, m1, DaysInMonth(y, m1));
    } else {
      MonthsInOrder(y, m1, d1, m2 - 1, DaysInMonth(y, m2 - 1));
    }
  }

  /** Every day of a year lies between its 1st of January and its 31st of December. */
  lemma WithinYear(y: int, m: int, d: int)
    requires ValidDate(y, m, d)
    ensures DaysFromCivil(y, 1, 1) <= DaysFromCivil(y, m, d) <= DaysFromCivil(y, 12, 31)
  {
    DaysWithinMonth(y, m, d);
    if m > 1 {
      MonthsInOrder(y, 1, 1, m, d);
    }
    if m < 12 {
      MonthsInOrder(y, m, d, 12, 31);
    }
  }

  /** The 31st of December of a year comes before New Year's Day of every later year. */
  lemma {:induction false} YearEndBeforeLaterYear(y1: int, y2: int)
    requires y1 < y2
    ensures DaysFromCivil(y1, 12, 31) < DaysFromCivil(y2, 1, 1)
    decreases y2 - y1
  {
    NextYearFollows(y2 - 1);
    if y2 > y1 + 1 {
      YearEndBeforeLaterYear(y1, y2 - 1);
      WithinYear(y2 - 1, 1, 1);
    }
  }

  /** Any day of a later year comes later. */
  lemma YearsInOrder(y1: int, m1: int, d1: int, y2: int, m2: int, d2: int)
    requires ValidDate(y1, m1, d1) && ValidDate(y2, m2, d2) && y1 < y2
    ensures DaysFromCivil(y1, m1, d1) < DaysFromCivil(y2, m2, d2)
  {
    WithinYear(y1, m1, d1);
    WithinYear(y2, m2, d2);
    YearEndBeforeLaterYear(y1, y2);
  }

  /** An earlier calendar date has a smaller day number. */
  lemma BeforeMeansEarlier(y1: int, m1: int, d1: int, y2: int, m2: int, d2: int)
    requires ValidDate(y1, m1, d1) && ValidDate(y2, m2, d2)
    requires DateBefore(y1, m1, d1, y2, m2, d2)
    ensures DaysFromCivil(y1, m1, d1) < DaysFromCivil(y2, m2, d2)
  {
    if y1 < y2 {
      YearsInOrder(y1, m1, d1, y2, m2, d2);
    } else if m1 < m2 {
      MonthsInOrder(y1, m1, d1, m2, d2);
    } else {
      DaysWithinMonth(y1, m1, d1);
      DaysWithinMonth(y2, m2, d2);
    }
  }

  /** Day numbers follow the calendar: one valid date's number is below another's exactly
      when it is the earlier date, and the numbers are equal exactly for the same date. */
  lemma CalendarOrder(y1: int, m1: int, d1: int, y2: int, m2: int, d2: int)
    requires ValidDate(y1, m1, d1) && ValidDate(y2, m2, d2)
    ensures DaysFromCivil(y1, m1, d1) < DaysFromCivil(y2, m2, d2) <==> DateBefore(y1, m1, d1, y2, m2, d2)
    ensures DaysFromCivil(y1, m1, d1) == DaysFromCivil(y2, m2, d2) <==> (y1, m1, d1) == (y2, m2, d2)
  {
    if DateBefore(y1, m1, d1, y2, m2, d2) {
      BeforeMeansEarlier(y1, m1, d1, y2, m2, d2);
    } else if DateBefore(y2, m2, d2, y1, m1, d1) {
      BeforeMeansEarlier(y2, m2, d2, y1, m1, d1);
    }
  }

  /** The `YYYY-MM-DD` shape: ten characters, dashes at 4 and 7, digits elsewhere. */
  predicate IsDateText(s: string)
  {
    |s| == 10 && s[4] == '-' && s[7] == '-' && AllDigits(s[..4]) && AllDigits(s[5..7]) && AllDigits(s[8..])
  }

  function YearOf(s: string): nat
    requires IsDateText(s)
  {
    DecimalValue(s[..4])
  }

  function MonthOf(s: string): nat
    requires IsDateText(s)
  {
    DecimalValue(s[5..7])
  }

  function DayOf(s: string): nat
    requires IsDateText(s)
  {
    DecimalValue(s[8..])
  }

  /** `new Date(s)` for the `YYYY-MM-DD` strings a date input produces; any other string,
      the empty one included, is an invalid date. A valid one is midnight of the day it
      names, so `CalendarOrder` carries over to the parsed days. */
  function ParseDate(s: string): (r: Option<Instant>)
    ensures r.Some? <==> IsDateText(s) && ValidDate(YearOf(s), MonthOf(s), DayOf(s))
    ensures r.Some? ==> r.value == Instant(DaysFromCivil(YearOf(s), MonthOf(s), DayOf(s)), 0)
    ensures s == "" ==> r == None
  {
    if IsDateText(s) then
      var y, m, d := YearOf(s), MonthOf(s), DayOf(s);
      if 1 <= m <= 12 && 1 <= d <= DaysInMonth(y, m) then Some(Instant(DaysFromCivil(y, m, d), 0))
      else None
    else None
  }

  /** JavaScript's `<` on strings: the first differing character decides, and a proper
      prefix comes first. */
  predicate LexLess(a: string, b: string)
  {
    |b| > 0 && (|a| == 0 || a[0] < b[0] || (a[0] == b[0] && LexLess(a[1..], b[1..])))
  }

  /** Comparing two strings whose first parts have the same length compares the first
      parts, and the rest only when the first parts are equal. */
  lemma {:induction false} LexLessConcat(a1: string, b1: string, a2: string, b2: string)
    requires |a1| == |a2|
    ensures LexLess(a1 + b1, a2 + b2) <==> LexLess(a1, a2) || (a1 == a2 && LexLess(b1, b2))
  {
    if a1 == [] {
      assert a1 + b1 == b1 && a2 + b2 == b2 && !LexLess(a1, a2);
    } else {
      LexLessConcat(a1[1..], b1, a2[1..], b2);
      assert (a1 + b1)[0] == a1[0] && (a2 + b2)[0] == a2[0];
      assert (a1 + b1)[1..] == a1[1..] + b1 && (a2 + b2)[1..] == a2[1..] + b2;
      assert a1 == a2 <==> a1[0] == a2[0] && a1[1..] == a2[1..] by {
        assert a1 == [a1[0]] + a1[1..] && a2 == [a2[0]] + a2[1..];
      }
    }
  }

  /** For digit strings of one length, numeric order is string order. */
  lemma {:induction false} DigitsOrder(a: string, b: string)
    requires |a| == |b| && AllDigits(a) && AllDigits(b)
    ensures DecimalValue(a) < DecimalValue(b) <==> LexLess(a, b)
    ensures DecimalValue(a) == DecimalValue(b) <==> a == b
  {
    if a != [] {
      var n := |a| - 1;
      assert AllDigits(a[..n]) && AllDigits(b[..n]);
      DigitsOrder(a[..n], b[..n]);
      assert a == a[..n] + [a[n]] && b == b[..n] + [b[n]];
      LexLessConcat(a[..n], [a[n]], b[..n], [b[n]]);
      assert LexLess([a[n]], [b[n]]) <==> a[n] < b[n];
    }
  }

  /** Splits a date text at its year, its month and its day. */
  lemma DateTextParts(s: string)
    requires IsDateText(s)
    ensures s == s[..4] + ("-" + (s[5..7] + ("-" + s[8..])))
  {
  }

  /** Two accepted date strings: one names an earlier day exactly when it sorts first as a
      string, and the same day exactly when the strings are equal. */
  lemma ParsedDayOrder(s1: string, s2: string)
    requires ParseDate(s1).Some? && ParseDate(s2).Some?
    ensures ParseDate(s1).value.day < ParseDate(s2).value.day <==> LexLess(s1, s2)
    ensures ParseDate(s1).value.day == ParseDate(s2).value.day <==> s1 == s2
  {
    DateTextParts(s1);
    DateTextParts(s2);
    var rest1, rest2 := s1[5..7] + ("-" + s1[8..]), s2[5..7] + ("-" + s2[8..]);
    LexLessConcat(s1[..4], "-" + rest1, s2[..4], "-" + rest2);
    LexLessConcat("-", rest1, "-", rest2);
    LexLessConcat(s1[5..7], "-" + s1[8..], s2[5..7], "-" + s2[8..]);
    LexLessConcat("-", s1[8..], "-", s2[8..]);
    assert !LexLess("-", "-");
    DigitsOrder(s1[..4], s2[..4]);
    DigitsOrder(s1[5..7], s2[5..7]);
    DigitsOrder(s1[8..], s2[8..]);
    CalendarOrder(YearOf(s1), MonthOf(s1), DayOf(s1), YearOf(s2), MonthOf(s2), DayOf(s2));
  }

  /** `isFutureOrToday(matchDate)`: both dates truncated to midnight and compared; an invalid
      date compares false, so it is never kept. */
  function IsFutureOrToday(matchDate: string, now: Instant): (r: bool)
    ensures r <==> ParseDate(matchDate).Some? && ParseDate(matchDate).value.day >= now.day
  {
    match ParseDate(matchDate)
    case None => false
    case Some(t) => EpochMillis(AtMidnight(t)) >= EpochMillis(GetTodayAtMidnight(now))
  }

  /** The time of day at which the test runs never matters: only the current day does. */
  lemma TimeOfDayIgnored(matchDate: string, now: Instant, later: Instant)
    requires now.day == later.day
    ensures IsFutureOrToday(matchDate, now) == IsFutureOrToday(matchDate, later)
  {
  }

  /** A match dated today is kept at every time of day, and one dated yesterday never is. */
  lemma TodayKeptYesterdayNot(today: string, yesterday: string, now: Instant)
    requires ParseDate(today).Some? && ParseDate(today).value.day == now.day
    requires ParseDate(yesterday).Some? && ParseDate(yesterday).value.day == now.day - 1
    ensures IsFutureOrToday(today, now)
    ensures !IsFutureOrToday(yesterday, now)
  {
  }

  /** Keeping is closed upwards in string order: a well-formed date whose text sorts after
      the text of a kept date is kept too. */
  lemma LaterDateTextAlsoKept(kept: string, later: string, now: Instant)
    requires IsFutureOrToday(kept, now) && ParseDate(later).Some? && LexLess(kept, later)
    ensures IsFutureOrToday(later, now)
  {
    ParsedDayOrder(kept, later);
  }

  /** The epoch date parses to day 0. */
  lemma EpochParses()
    ensures ParseDate("1970-01-01") == Some(Instant(0, 0))
  {
    var s := "1970-01-01";
    assert s[..4] == "1970" && s[5..7] == "01" && s[8..] == "01";
    assert "1970"[..3] == "197" && "197"[..2] == "19" && "19"[..1] == "1" && "1"[..0] == "";
    assert DecimalValue("1970") == 1970;
    assert "01"[..1] == "0" && "0"[..0] == "";
    assert DecimalValue("01") == 1;
    assert DaysFromCivil(1970, 1, 1) == 0;
  }
}
