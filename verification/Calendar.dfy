/** The naive local calendar: valid dates, day numbers, and stepping back by periods. */
module Calendar {
  import opened Objects
  import opened Template

  datatype LocalTime = LocalTime(year: int, month: int, day: int, hour: int, minute: int, second: int)

  predicate Leap(year: int)
  {
    (year % 4 == 0 && year % 100 != 0) || year % 400 == 0
  }

  function DaysInMonth(year: int, month: int): (days: int)
    ensures 28 <= days <= 31
  {
    if month in {1, 3, 5, 7, 8, 10, 12} then 31
    else if month in {4, 6, 9, 11} then 30
    else if month == 2 then if Leap(year) then 29 else 28
    else 31
  }

  predicate ValidTime(t: LocalTime)
  {
    && 1 <= t.month <= 12
    && 1 <= t.day <= DaysInMonth(t.year, t.month)
    && 0 <= t.hour < 24 && 0 <= t.minute < 60 && 0 <= t.second < 60
  }

  /** The date if it exists, at the time of day of `at`. */
  function Naive(year: int, month: int, day: int, at: LocalTime): Option<LocalTime>
  {
    var t := LocalTime(year, month, day, at.hour, at.minute, at.second);
    if ValidTime(t) then Some(t) else None
  }

  function UnwrapOr(t: Option<LocalTime>, at: LocalTime): LocalTime
  {
    if t.Some? then t.value else at
  }

  // ----- Whole days and hours -----

  function PrevDay(t: LocalTime): LocalTime
  {
    if t.day > 1 then t.(day := t.day - 1)
    else if t.month > 1 then t.(month := t.month - 1, day := DaysInMonth(t.year, t.month - 1))
    else t.(year := t.year - 1, month := 12, day := 31)
  }

  function PrevHour(t: LocalTime): LocalTime
  {
    if t.hour > 0 then t.(hour := t.hour - 1) else PrevDay(t).(hour := 23)
  }

  function DaysBack(t: LocalTime, steps: nat): LocalTime
  {
    if steps == 0 then t else PrevDay(DaysBack(t, steps - 1))
  }

  function HoursBack(t: LocalTime, steps: nat): LocalTime
  {
    if steps == 0 then t else PrevHour(HoursBack(t, steps - 1))
  }

  function StepBack(g: Granularity, at: LocalTime, steps: nat): LocalTime
  {
    if steps == 0 then at
    else
      match g
      case Hour => HoursBack(at, steps)
      case Day => DaysBack(at, steps)
      case Month =>
        var months := at.year * 12 + (at.month - 1) - steps;
        var year, month := months / 12, months % 12 + 1;
        UnwrapOr(Naive(year, month, Min(at.day, DaysInMonth(year, month)), at), at)
      case Year =>
        var year := at.year - steps;
        UnwrapOr(Naive(year, at.month, Min(at.day, DaysInMonth(year, at.month)), at), at)
  }

  // ----- Period numbers -----

  /** Days before 1 January of `year` in the proleptic Gregorian calendar. */
  function YearStart(year: int): int
  {
    365 * (year - 1) + (year - 1) / 4 - (year - 1) / 100 + (year - 1) / 400
  }

  function DaysBefore(year: int, month: int): int
    decreases month
  {
    if month <= 1 then 0 else DaysBefore(year, month - 1) + DaysInMonth(year, month - 1)
  }

  function DayNumber(t: LocalTime): int
  {
    YearStart(t.year) + DaysBefore(t.year, t.month) + t.day
  }

  /** Consecutive numbering of the periods of each granularity. */
  function Period(g: Granularity, t: LocalTime): int
  {
    match g
    case Year => t.year
    case Month => t.year * 12 + (t.month - 1)
    case Day => DayNumber(t)
    case Hour => DayNumber(t) * 24 + t.hour
  }

  lemma YearStartStep(year: int)
    ensures YearStart(year + 1) == YearStart(year) + if Leap(year) then 366 else 365
  {
    assert year / 4 == (year - 1) / 4 + if year % 4 == 0 then 1 else 0;
    assert year / 100 == (year - 1) / 100 + if year % 100 == 0 then 1 else 0;
    assert year / 400 == (year - 1) / 400 + if year % 400 == 0 then 1 else 0;
  }

  lemma MonthsOfYear(year: int)
    ensures DaysBefore(year, 13) == if Leap(year) then 366 else 365
  {
    assert DaysBefore(year, 4) == if Leap(year) then 91 else 90;
    assert DaysBefore(year, 7) == DaysBefore(year, 4) + 91;
    assert DaysBefore(year, 10) == DaysBefore(year, 7) + 92;
    assert DaysBefore(year, 13) == DaysBefore(year, 10) + 92;
  }

  /** The months of a year add up to the distance between the starts of two years. */
  lemma YearLength(year: int)
    ensures YearStart(year + 1) == YearStart(year) + if Leap(year) then 366 else 365
    ensures DaysBefore(year, 13) == if Leap(year) then 366 else 365
  {
    hide *;
    YearStartStep(year);
    MonthsOfYear(year);
  }

  lemma YearStartGrows(a: int, b: int)
    requires a <= b
    ensures YearStart(a) <= YearStart(b)
  {
  }

  lemma {:induction false} DaysBeforeGrows(year: int, a: int, b: int)
    requires 1 <= a < b <= 13
    ensures DaysBefore(year, a) + DaysInMonth(year, a) <= DaysBefore(year, b)
    decreases b
  {
    if a < b - 1 {
      DaysBeforeGrows(year, a, b - 1);
    }
  }

  /** A day's number lies inside its own year and month. */
  lemma DayNumberBounds(t: LocalTime)
    requires ValidTime(t)
    ensures YearStart(t.year) < DayNumber(t) <= YearStart(t.year + 1)
  {
    YearLength(t.year);
    DaysBeforeGrows(t.year, t.month, 13);
    if t.month > 1 {
      DaysBeforeGrows(t.year, 1, t.month);
    }
  }

  lemma {:induction false} DayNumberInjective(t: LocalTime, u: LocalTime)
    requires ValidTime(t) && ValidTime(u) && DayNumber(t) == DayNumber(u)
    ensures t.year == u.year && t.month == u.month && t.day == u.day
  {
    hide YearStart, DaysBefore, DaysInMonth;
    DayNumberBounds(t);
    DayNumberBounds(u);
    if t.year < u.year {
      YearStartGrows(t.year + 1, u.year);
    } else if u.year < t.year {
      YearStartGrows(u.year + 1, t.year);
    } else if t.month < u.month {
      DaysBeforeGrows(t.year, t.month, u.month);
    } else if u.month < t.month {
      DaysBeforeGrows(t.year, u.month, t.month);
    }
  }

  lemma PrevDayNumber(t: LocalTime)
    requires ValidTime(t)
    ensures ValidTime(PrevDay(t)) && DayNumber(PrevDay(t)) == DayNumber(t) - 1
  {
    if t.day == 1 && t.month == 1 {
      YearLength(t.year - 1);
      assert DaysBefore(t.year - 1, 13) == DaysBefore(t.year - 1, 12) + 31;
    }
  }

  lemma {:induction false} DaysBackNumber(t: LocalTime, steps: nat)
    requires ValidTime(t)
    ensures ValidTime(DaysBack(t, steps)) && DayNumber(DaysBack(t, steps)) == DayNumber(t) - steps
  {
    if steps > 0 {
      DaysBackNumber(t, steps - 1);
      PrevDayNumber(DaysBack(t, steps - 1));
    }
  }

  lemma PrevHourNumber(t: LocalTime)
    requires ValidTime(t)
    ensures ValidTime(PrevHour(t)) && Period(Hour, PrevHour(t)) == Period(Hour, t) - 1
  {
    PrevDayNumber(t);
    assert DayNumber(PrevDay(t).(hour := 23)) == DayNumber(PrevDay(t));
  }

  lemma {:induction false} HoursBackNumber(t: LocalTime, steps: nat)
    requires ValidTime(t)
    ensures ValidTime(HoursBack(t, steps)) && Period(Hour, HoursBack(t, steps)) == Period(Hour, t) - steps
  {
    if steps > 0 {
      HoursBackNumber(t, steps - 1);
      PrevHourNumber(HoursBack(t, steps - 1));
    }
  }

  /**
   * Stepping back always lands on a valid date exactly that many periods
   * earlier: clamping the day never fails and never changes the month.
   */
  lemma StepBackPeriod(g: Granularity, at: LocalTime, steps: nat)
    requires ValidTime(at)
    ensures ValidTime(StepBack(g, at, steps))
    ensures Period(g, StepBack(g, at, steps)) == Period(g, at) - steps
  {
    if steps > 0 {
      match g
      case Hour => HoursBackNumber(at, steps);
      case Day => DaysBackNumber(at, steps);
      case Month =>
        var months := at.year * 12 + (at.month - 1) - steps;
        assert months == months / 12 * 12 + months % 12;
      case Year =>
    }
  }

  /** Times in the same period share every unit down to that granularity. */
  lemma {:induction false} PeriodDecides(g: Granularity, t: LocalTime, u: LocalTime)
    requires ValidTime(t) && ValidTime(u) && Period(g, t) == Period(g, u)
    ensures t.year == u.year
    ensures g != Year ==> t.month == u.month
    ensures g == Day || g == Hour ==> t.day == u.day
    ensures g == Hour ==> t.hour == u.hour
  {
    hide DayNumber, DaysInMonth;
    match g
    case Year =>
    case Month =>
    case Day => DayNumberInjective(t, u);
    case Hour =>
      assert DayNumber(t) == DayNumber(u);
      DayNumberInjective(t, u);
  }

  /** Conversely, sharing those units means being in the same period. */
  lemma UnitsDecidePeriod(g: Granularity, t: LocalTime, u: LocalTime)
    requires t.year == u.year
    requires g != Year ==> t.month == u.month
    requires g == Day || g == Hour ==> t.day == u.day
    requires g == Hour ==> t.hour == u.hour
    ensures Period(g, t) == Period(g, u)
  {
  }

  // ----- Checked against the usual formula -----

  /** The months from March on, five at a time, have 153 days. */
  lemma DaysBeforeInFives(year: int, month: int)
    requires 1 <= month <= 12
    ensures month <= 2 ==> DaysBefore(year, month) == 31 * (month - 1)
    ensures month > 2 ==> DaysBefore(year, month) == DaysBefore(year, 3) + (153 * (month - 3) + 2) / 5
    ensures DaysBefore(year, 3) == if Leap(year) then 60 else 59
  {
    assert DaysBefore(year, 3) == 31 + DaysInMonth(year, 2);
    assert DaysBefore(year, 6) == DaysBefore(year, 3) + 92;
    assert DaysBefore(year, 9) == DaysBefore(year, 6) + 92;
    assert DaysBefore(year, 12) == DaysBefore(year, 9) + 91;
  }

  /** Day numbers count from 1 January of year 1, by the formula over years that begin in March. */
  lemma DayNumberIsCivil(t: LocalTime)
    requires ValidTime(t)
    ensures var y := if t.month <= 2 then t.year - 1 else t.year;
            var m := (t.month + 9) % 12;
            DayNumber(t) == 365 * y + y / 4 - y / 100 + y / 400 + (153 * m + 2) / 5 + t.day - 306
  {
    hide DaysBefore, Leap, YearStart;
    DaysBeforeInFives(t.year, t.month);
    YearLength(t.year);
    assert YearStart(t.year + 1) == 365 * t.year + t.year / 4 - t.year / 100 + t.year / 400 by {
      YearStartIs(t.year + 1);
    }
    YearStartIs(t.year);
    assert t.month <= 2 ==> (t.month + 9) % 12 == t.month + 9;
    assert t.month > 2 ==> (t.month + 9) % 12 == t.month - 3;
  }

  lemma YearStartIs(year: int)
    ensures YearStart(year) == 365 * (year - 1) + (year - 1) / 4 - (year - 1) / 100 + (year - 1) / 400
  {
  }

  /** A step keeps the time of day down to its own unit, and the day of the month as far as the month reaches. */
  lemma StepBackKeepsRest(g: Granularity, at: LocalTime, steps: nat)
    requires ValidTime(at)
    ensures var back := StepBack(g, at, steps);
            && back.minute == at.minute && back.second == at.second && (g != Hour ==> back.hour == at.hour)
            && (g == Month || g == Year ==> back.day == Min(at.day, DaysInMonth(back.year, back.month)))
            && (g == Year ==> back.month == at.month)
  {
    if steps > 0 {
      match g
      case Hour => HoursBackKeep(at, steps);
      case Day => DaysBackKeep(at, steps);
      case Month =>
        var months := at.year * 12 + (at.month - 1) - steps;
        assert 0 <= months % 12 < 12;
      case Year =>
    }
  }

  lemma {:induction false} DaysBackKeep(t: LocalTime, steps: nat)
    ensures var back := DaysBack(t, steps); back.hour == t.hour && back.minute == t.minute && back.second == t.second
  {
    if steps > 0 {
      DaysBackKeep(t, steps - 1);
    }
  }

  lemma {:induction false} HoursBackKeep(t: LocalTime, steps: nat)
    ensures HoursBack(t, steps).minute == t.minute && HoursBack(t, steps).second == t.second
  {
    if steps > 0 {
      HoursBackKeep(t, steps - 1);
    }
  }
}
