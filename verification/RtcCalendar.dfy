/**
 * The calendar of the real-time clock: date-times of 2000..2099 numbered in hundredths of a
 * second, and the read-back check of a clock write built on that numbering. Fields are natural
 * numbers, of which the bytes of the source are a special case.
 */
module RtcCalendar {
  import opened Machine

  const PER_SECOND := 100
  const PER_MINUTE := 6000
  const PER_HOUR := 360000
  const PER_DAY := 8640000
  const CYCLE_DAYS := 36525
  const CYCLE := 315576000000 // CYCLE_DAYS * PER_DAY
  const TOLERANCE := 2

  datatype DateTime = DateTime(hundredth: nat, second: nat, minute: nat, hour: nat,
                               day: nat, weekday: nat, month: nat, year: nat)

  predicate IsLeapYear(year: nat) {
    year % 4 == 0
  }

  function DaysInMonth(month: nat, year: nat): nat {
    if month < 1 || month > 12 then 0
    else if month == 2 && IsLeapYear(year) then 29
    else [31, 28, 31, 30, 31, 30, 31, 31, 30, 31, 30, 31][month - 1]
  }

  /** Thirty days have April, June, September and November; February has 28, and 29 in every fourth year. */
  lemma MonthLengths(month: nat, year: nat)
    requires 1 <= month <= 12
    ensures DaysInMonth(month, year)
            == if month in {4, 6, 9, 11} then 30
               else if month != 2 then 31
               else if year in {0, 4, 8, 12, 16} || (year > 16 && year % 4 == 0) then 29 else 28
  {
  }

  predicate IsValidDateTime(t: DateTime) {
    && t.hundredth <= 99 && t.second <= 59 && t.minute <= 59 && t.hour <= 23 && t.weekday <= 6
    && t.year <= 99 && 1 <= t.day <= DaysInMonth(t.month, t.year)
  }

  // ---------------------------------------------------------------- numbering

  function DaysBeforeMonth(month: nat, year: nat): nat
    requires 1 <= month <= 12
  {
    [0, 31, 59, 90, 120, 151, 181, 212, 243, 273, 304, 334][month - 1]
    + if month > 2 && IsLeapYear(year) then 1 else 0
  }

  function DaysBeforeYear(year: nat): nat {
    year * 365 + (year + 3) / 4
  }

  function DayIndex(t: DateTime): nat
    requires IsValidDateTime(t)
  {
    DaysBeforeYear(t.year) + DaysBeforeMonth(t.month, t.year) + (t.day - 1)
  }

  function TimeOfDay(t: DateTime): nat {
    t.hour * PER_HOUR + t.minute * PER_MINUTE + t.second * PER_SECOND + t.hundredth
  }

  /** RTC_DateTimeToHundredths */
  function Hundredths(t: DateTime): nat
    requires IsValidDateTime(t)
  {
    DayIndex(t) * PER_DAY + TimeOfDay(t)
  }

  // ---------------------------------------------------------------- the calendar, step by step

  /** The first day of the century. */
  const EPOCH := DateTime(0, 0, 0, 0, 1, 0, 1, 0)

  predicate IsLastDay(t: DateTime) {
    t.day == 31 && t.month == 12 && t.year == 99
  }

  /** Midnight of the next day, by the rules of the calendar and not by the numbering. */
  function NextDay(t: DateTime): DateTime {
    var midnight := t.(hundredth := 0, second := 0, minute := 0, hour := 0);
    if t.day < DaysInMonth(t.month, t.year) then midnight.(day := t.day + 1)
    else if t.month < 12 then midnight.(day := 1, month := t.month + 1)
    else midnight.(day := 1, month := 1, year := t.year + 1)
  }

  lemma MonthsFollow(month: nat, year: nat)
    requires 1 <= month <= 12
    ensures month < 12 ==> DaysBeforeMonth(month + 1, year) == DaysBeforeMonth(month, year) + DaysInMonth(month, year)
    ensures DaysBeforeYear(year + 1) == DaysBeforeYear(year) + DaysBeforeMonth(12, year) + DaysInMonth(12, year)
  {
    YearLength(year);
  }

  lemma YearLength(year: nat)
    ensures DaysBeforeYear(year + 1) == DaysBeforeYear(year) + if IsLeapYear(year) then 366 else 365
  {
    var q := year / 4;
    assert year == 4 * q + year % 4;
  }

  /** The numbering counts days: the next calendar day has the next number. */
  lemma NextDayIsNumberedNext(t: DateTime)
    requires IsValidDateTime(t) && !IsLastDay(t)
    ensures IsValidDateTime(NextDay(t)) && DayIndex(NextDay(t)) == DayIndex(t) + 1
  {
    MonthsFollow(t.month, t.year);
  }

  /** The day that many days after the epoch. */
  function DateOf(days: nat): DateTime {
    if days == 0 then EPOCH else NextDay(DateOf(days - 1))
  }

  /** Midnight at the beginning of the day of that number. */
  predicate BeginsDay(t: DateTime, days: nat) {
    IsValidDateTime(t) && DayIndex(t) == days && TimeOfDay(t) == 0 && t.weekday == 0
  }

  lemma EpochIsFirst()
    ensures BeginsDay(EPOCH, 0)
  {
  }

  lemma NextBeginsNext(t: DateTime, days: nat)
    requires BeginsDay(t, days) && days + 1 < CYCLE_DAYS
    ensures BeginsDay(NextDay(t), days + 1)
  {
    hide NextDay, DaysInMonth;
    LastDayIsLast(t);
    NextDayIsNumberedNext(t);
    NextDayIsMidnight(t);
    hide IsValidDateTime, DayIndex, TimeOfDay;
  }

  lemma LastDayIsLast(t: DateTime)
    requires IsValidDateTime(t) && DayIndex(t) + 1 < CYCLE_DAYS
    ensures !IsLastDay(t)
  {
  }

  lemma NextDayIsMidnight(t: DateTime)
    ensures TimeOfDay(NextDay(t)) == 0 && NextDay(t).weekday == t.weekday
  {
    hide DaysInMonth;
  }

  lemma {:induction false} DateOfIsNumbered(days: nat)
    requires days < CYCLE_DAYS
    ensures BeginsDay(DateOf(days), days)
  {
    hide BeginsDay, NextDay;
    if days == 0 {
      EpochIsFirst();
    } else {
      DateOfIsNumbered(days - 1);
      NextBeginsNext(DateOf(days - 1), days - 1);
    }
  }

  /** The date-time that many hundredths after the epoch. */
  function AtInstant(n: nat): DateTime {
    AtTime(DateOf(n / PER_DAY), n % PER_DAY)
  }

  function AtTime(day: DateTime, rest: nat): DateTime {
    var inHour := rest % PER_HOUR;
    var inMinute := inHour % PER_MINUTE;
    day.(hour := rest / PER_HOUR, minute := inHour / PER_MINUTE,
    second := inMinute / PER_SECOND, hundredth := inMinute % PER_SECOND)
  }

  lemma AtTimeIsValid(day: DateTime, rest: nat)
    requires IsValidDateTime(day) && rest < PER_DAY
    ensures IsValidDateTime(AtTime(day, rest)) && TimeOfDay(AtTime(day, rest)) == rest
    ensures DayIndex(AtTime(day, rest)) == DayIndex(day)
  {
    hide DaysInMonth, DaysBeforeMonth, DaysBeforeYear;
  }

  // ---------------------------------------------------------------- order and bijection

  predicate EarlierDay(a: DateTime, b: DateTime) {
    || a.year < b.year
    || (a.year == b.year && (a.month < b.month || (a.month == b.month && a.day < b.day)))
  }

  predicate SameDay(a: DateTime, b: DateTime) {
    a.year == b.year && a.month == b.month && a.day == b.day
  }

  predicate EarlierTime(a: DateTime, b: DateTime) {
    || a.hour < b.hour
    || (&& a.hour == b.hour
        && (|| a.minute < b.minute
            || (&& a.minute == b.minute
                && (a.second < b.second || (a.second == b.second && a.hundredth < b.hundredth)))))
  }

  /** Calendar order, most significant field first; the weekday takes no part in it. */
  predicate Earlier(a: DateTime, b: DateTime) {
    EarlierDay(a, b) || (SameDay(a, b) && EarlierTime(a, b))
  }

  lemma {:induction false} YearsAreOrdered(a: nat, b: nat)
    requires a < b
    ensures DaysBeforeYear(a) + (if IsLeapYear(a) then 366 else 365) <= DaysBeforeYear(b)
  {
    YearLength(b - 1);
    if a < b - 1 {
      YearsAreOrdered(a, b - 1);
    }
  }

  lemma {:induction false} MonthsAreOrdered(a: nat, b: nat, year: nat)
    requires 1 <= a < b <= 12
    ensures DaysBeforeMonth(a, year) + DaysInMonth(a, year) <= DaysBeforeMonth(b, year)
  {
    MonthsFollow(b - 1, year);
    if a < b - 1 {
      MonthsAreOrdered(a, b - 1, year);
    }
  }

  lemma MonthFitsYear(month: nat, year: nat)
    requires 1 <= month <= 12
    ensures DaysBeforeMonth(month, year) + DaysInMonth(month, year) <= if IsLeapYear(year) then 366 else 365
  {
    if month < 12 {
      MonthsAreOrdered(month, 12, year);
    }
  }

  lemma EarlierDayIsSmaller(a: DateTime, b: DateTime)
    requires IsValidDateTime(a) && IsValidDateTime(b) && EarlierDay(a, b)
    ensures DayIndex(a) < DayIndex(b)
  {
    hide DaysBeforeMonth, DaysBeforeYear, DaysInMonth, IsLeapYear;
    ValidMonth(a);
    ValidMonth(b);
    if a.year < b.year {
      YearsAreOrdered(a.year, b.year);
      MonthFitsYear(a.month, a.year);
    } else if a.month < b.month {
      MonthsAreOrdered(a.month, b.month, a.year);
    }
  }

  lemma ValidMonth(t: DateTime)
    requires IsValidDateTime(t)
    ensures 1 <= t.month <= 12
  {
  }

  lemma TimeOfDayInRange(t: DateTime)
    requires IsValidDateTime(t)
    ensures TimeOfDay(t) < PER_DAY
  {
  }

  lemma EarlierIsSmaller(a: DateTime, b: DateTime)
    requires IsValidDateTime(a) && IsValidDateTime(b) && Earlier(a, b)
    ensures Hundredths(a) < Hundredths(b)
  {
    TimeOfDayInRange(a);
    TimeOfDayInRange(b);
    if EarlierDay(a, b) {
      EarlierDayIsSmaller(a, b);
    }
  }

  /** The numbering is strictly increasing: it orders date-times exactly as the calendar does. */
  lemma NumberingFollowsCalendar(a: DateTime, b: DateTime)
    requires IsValidDateTime(a) && IsValidDateTime(b)
    ensures Earlier(a, b) <==> Hundredths(a) < Hundredths(b)
    ensures Hundredths(a) == Hundredths(b) <==> a == b.(weekday := a.weekday)
  {
    if Earlier(a, b) {
      EarlierIsSmaller(a, b);
    } else if Earlier(b, a) {
      EarlierIsSmaller(b, a);
    }
  }

  lemma NumberingIsInRange(t: DateTime)
    requires IsValidDateTime(t)
    ensures Hundredths(t) < CYCLE
  {
    var last := DateTime(99, 59, 59, 23, 31, t.weekday, 12, 99);
    assert Hundredths(last) == CYCLE - 1;
    NumberingFollowsCalendar(last, t);
  }

  /** Every number of the century is the number of a date-time. */
  lemma EveryInstantIsNumbered(n: nat)
    requires n < CYCLE
    ensures IsValidDateTime(AtInstant(n)) && Hundredths(AtInstant(n)) == n
  {
    DateOfIsNumbered(n / PER_DAY);
    AtTimeIsValid(DateOf(n / PER_DAY), n % PER_DAY);
  }

  /** And numbering a date-time, then reading the number off the calendar, gives it back. */
  lemma NumberingIsInvertible(t: DateTime)
    requires IsValidDateTime(t)
    ensures AtInstant(Hundredths(t)) == t.(weekday := 0)
  {
    NumberingIsInRange(t);
    EveryInstantIsNumbered(Hundredths(t));
    NumberingFollowsCalendar(AtInstant(Hundredths(t)), t);
    DateOfIsNumbered(Hundredths(t) / PER_DAY);
  }

  // ---------------------------------------------------------------- the write check

  /** How far apart two instants of the century are, around its end if that is shorter. */
  function Distance(actual: nat, expected: nat): int {
    var distance := if actual > expected then actual - expected else expected - actual;
    if distance > CYCLE / 2 then CYCLE - distance else distance
  }

  /** RTC_DateTimeMatchesPendingWrite */
  predicate MatchesPendingWrite(requested: DateTime, actual: DateTime, calendarValid: bool, osf: bool,
                                now: u32, requestTick: u32)
    requires IsValidDateTime(requested) && (calendarValid ==> IsValidDateTime(actual))
  {
    if !calendarValid || osf then false
    else
      var elapsed := Sub32(now, requestTick) / 10;
      var expected := (Hundredths(requested) + elapsed) % CYCLE;
      var actualHundredths := Hundredths(actual);
      var elapsedDays := (TimeOfDay(requested) + elapsed) / PER_DAY;
      Distance(actualHundredths, expected) <= TOLERANCE
      && actual.weekday == (requested.weekday + elapsedDays) % 7
  }

  /** The number `actual` is that of the instant `instant + k`, up to whole centuries. */
  predicate Reads(actual: nat, instant: int, k: int) {
    actual == (instant + k) % CYCLE
  }

  lemma RemainderIsUnique(x: int, q: int, r: int)
    requires x == q * CYCLE + r && 0 <= r < CYCLE
    ensures x % CYCLE == r
  {
  }

  /** Moving an instant by up to two hundredths moves its remainder likewise, around the century. */
  lemma Nearby(instant: nat, k: int)
    requires -TOLERANCE <= k <= TOLERANCE
    ensures var moved := instant % CYCLE + k;
            (instant + k) % CYCLE
            == if moved < 0 then moved + CYCLE else if moved >= CYCLE then moved - CYCLE else moved
  {
    var q, moved := instant / CYCLE, instant % CYCLE + k;
    if moved < 0 {
      RemainderIsUnique(instant + k, q - 1, moved + CYCLE);
    } else if moved >= CYCLE {
      RemainderIsUnique(instant + k, q + 1, moved - CYCLE);
    } else {
      RemainderIsUnique(instant + k, q, moved);
    }
  }

  lemma CircularDistance(actual: nat, instant: nat)
    requires actual < CYCLE
    ensures Distance(actual, instant % CYCLE) <= TOLERANCE
            <==> exists k :: -TOLERANCE <= k <= TOLERANCE && Reads(actual, instant, k)
  {
    var gap := actual - instant % CYCLE;
    if Distance(actual, instant % CYCLE) <= TOLERANCE {
      var k := if gap > CYCLE / 2 then gap - CYCLE else if gap < -(CYCLE / 2) then gap + CYCLE else gap;
      Nearby(instant, k);
      assert Reads(actual, instant, k);
    }
    if k :| -TOLERANCE <= k <= TOLERANCE && Reads(actual, instant, k) {
      Nearby(instant, k);
    }
  }

  /** The weekday requested, advanced by the midnights between the request and the instant. */
  function WeekdayAt(requested: DateTime, instant: nat): nat
    requires IsValidDateTime(requested) && instant >= Hundredths(requested)
  {
    (requested.weekday + Midnights(Hundredths(requested), instant)) % 7
  }

  function Midnights(from: nat, until: nat): nat
    requires from <= until
  {
    DivideMonotone(from, until);
    until / PER_DAY - from / PER_DAY
  }

  lemma DivideMonotone(from: nat, until: nat)
    requires from <= until
    ensures from / PER_DAY <= until / PER_DAY
  {
  }

  /** Counting midnights from the time of day is counting them on the numbering. */
  lemma ElapsedDaysAreMidnights(t: DateTime, elapsed: nat)
    requires IsValidDateTime(t)
    ensures Midnights(Hundredths(t), Hundredths(t) + elapsed) == (TimeOfDay(t) + elapsed) / PER_DAY
  {
    TimeOfDayInRange(t);
    var days, time := DayIndex(t), TimeOfDay(t);
    hide DayIndex, TimeOfDay, IsValidDateTime;
    DivideWhole(days, time);
    DivideWhole(days, time + elapsed);
  }

  lemma DivideWhole(days: nat, rest: nat)
    ensures (days * PER_DAY + rest) / PER_DAY == days + rest / PER_DAY
  {
  }

  /**
   * A valid reading is accepted exactly if it lies within two hundredths of the requested time plus
   * the time since, modulo the century, and shows the requested weekday advanced by the midnights
   * passed; `t0` and `t` are the true times in milliseconds.
   */
  lemma WriteCheckIsExact(requested: DateTime, actual: DateTime, t0: nat, t: nat)
    requires IsValidDateTime(requested) && IsValidDateTime(actual) && t0 <= t < t0 + TWO_32
    ensures var due := Hundredths(requested) + (t - t0) / 10;
            MatchesPendingWrite(requested, actual, true, false, Wrap32(t), Wrap32(t0))
            <==> && (exists k :: -2 <= k <= 2 && Reads(Hundredths(actual), due, k))
                 && actual.weekday == WeekdayAt(requested, due)
  {
    hide IsValidDateTime, Hundredths, TimeOfDay, Wrap32, Sub32, Distance, Midnights, Reads;
    var elapsed := (t - t0) / 10;
    SubIsDistance(t, t0);
    NumberingIsInRange(actual);
    CircularDistance(Hundredths(actual), Hundredths(requested) + elapsed);
    ElapsedDaysAreMidnights(requested, elapsed);
  }

  /** An invalid calendar, or one whose oscillator has stopped, is never accepted. */
  lemma StoppedClockIsRefused(requested: DateTime, actual: DateTime, calendarValid: bool, osf: bool,
                              now: u32, requestTick: u32)
    requires IsValidDateTime(requested) && (calendarValid ==> IsValidDateTime(actual))
    ensures MatchesPendingWrite(requested, actual, calendarValid, osf, now, requestTick) ==> calendarValid && !osf
  {
    hide IsValidDateTime, Hundredths, TimeOfDay;
  }

  /** So what a running calendar shows after that long is accepted, also across the end of 2099. */
  lemma TrueReadingIsAccepted(requested: DateTime, t0: nat, t: nat)
    requires IsValidDateTime(requested) && t0 <= t < t0 + TWO_32
    ensures var due := Hundredths(requested) + (t - t0) / 10;
            var shown := AtInstant(due % CYCLE).(weekday := WeekdayAt(requested, due));
            && IsValidDateTime(shown)
            && MatchesPendingWrite(requested, shown, true, false, Wrap32(t), Wrap32(t0))
  {
    hide IsValidDateTime, Hundredths, Wrap32, AtInstant, Midnights, MatchesPendingWrite;
    var due := Hundredths(requested) + (t - t0) / 10;
    EveryInstantIsNumbered(due % CYCLE);
    WeekdayIsIrrelevant(AtInstant(due % CYCLE), WeekdayAt(requested, due));
    var shown := AtInstant(due % CYCLE).(weekday := WeekdayAt(requested, due));
    assert Reads(Hundredths(shown), due, 0);
    WriteCheckIsExact(requested, shown, t0, t);
  }

  /** The date-time and weekday a calendar set to `requested` shows at an instant, be it before. */
  function ShownAt(requested: DateTime, instant: int): (t: DateTime)
    requires IsValidDateTime(requested)
  {
    AtInstant(instant % CYCLE)
    .(weekday := (requested.weekday + (instant / PER_DAY - Hundredths(requested) / PER_DAY)) % 7)
  }

  /**
   * A calendar that is off by up to two hundredths, and shows the weekday of its own day, is accepted
   * exactly if no midnight lies between what it shows and what is due.
   */
  lemma NearMidnightMayBeRefused(requested: DateTime, t0: nat, t: nat, k: int)
    requires IsValidDateTime(requested) && t0 <= t < t0 + TWO_32 && -TOLERANCE <= k <= TOLERANCE
    ensures var due := Hundredths(requested) + (t - t0) / 10;
            var shown := ShownAt(requested, due + k);
            && IsValidDateTime(shown)
            && (MatchesPendingWrite(requested, shown, true, false, Wrap32(t), Wrap32(t0))
                <==> (due + k) / PER_DAY == due / PER_DAY)
  {
    hide IsValidDateTime, Hundredths, Wrap32, AtInstant, MatchesPendingWrite;
    var due := Hundredths(requested) + (t - t0) / 10;
    var shown := ShownAt(requested, due + k);
    EveryInstantIsNumbered((due + k) % CYCLE);
    WeekdayIsIrrelevant(AtInstant((due + k) % CYCLE), shown.weekday);
    assert Reads(Hundredths(shown), due, k);
    WriteCheckIsExact(requested, shown, t0, t);
    DaysNearby(due, k);
    SameWeekday(requested.weekday - Hundredths(requested) / PER_DAY, due / PER_DAY, (due + k) / PER_DAY);
  }

  lemma DaysNearby(due: nat, k: int)
    requires -TOLERANCE <= k <= TOLERANCE
    ensures due / PER_DAY - 1 <= (due + k) / PER_DAY <= due / PER_DAY + 1
  {
  }

  lemma SameWeekday(base: int, a: int, b: int)
    requires a - 1 <= b <= a + 1
    ensures (base + a) % 7 == (base + b) % 7 <==> a == b
  {
  }

  /** At the moment of the request it shows the request. */
  lemma ShownAtOnce(requested: DateTime)
    requires IsValidDateTime(requested)
    ensures ShownAt(requested, Hundredths(requested)) == requested
  {
    hide IsValidDateTime, Hundredths, AtInstant;
    NumberingIsInRange(requested);
    NumberingIsInvertible(requested);
    WeekdayInRange(requested);
    RemainderIsUnique(Hundredths(requested), 0, Hundredths(requested));
  }

  lemma WeekdayInRange(t: DateTime)
    requires IsValidDateTime(t)
    ensures t.weekday <= 6
  {
  }

  /** So the last hundredth of a day is refused if it is still shown ten milliseconds later. */
  lemma LastHundredthIsRefused(requested: DateTime, t0: nat)
    requires IsValidDateTime(requested) && (Hundredths(requested) + 1) % PER_DAY == 0
    ensures !MatchesPendingWrite(requested, requested, true, false, Wrap32(t0 + 10), Wrap32(t0))
  {
    hide IsValidDateTime, Hundredths, MatchesPendingWrite, ShownAt, Wrap32;
    ShownAtOnce(requested);
    NearMidnightMayBeRefused(requested, t0, t0 + 10, -1);
    MidnightBetween(Hundredths(requested));
  }

  lemma MidnightBetween(n: nat)
    requires (n + 1) % PER_DAY == 0
    ensures (n + 1) / PER_DAY != n / PER_DAY
  {
  }

  lemma WeekdayIsIrrelevant(t: DateTime, weekday: nat)
    requires IsValidDateTime(t) && weekday <= 6
    ensures IsValidDateTime(t.(weekday := weekday)) && Hundredths(t.(weekday := weekday)) == Hundredths(t)
  {
  }
}
