/** The calendar: seconds since 1970 taken apart into a date and a time, and put together again. */
module Calendar {
  import opened Words

  predicate IsLeapYear(y: nat) {
    if y % 100 == 0 then y % 400 == 0 else y % 4 == 0
  }

  const DAYS_OF_MONTH: seq<nat> := [31, 28, 31, 30, 31, 30, 31, 31, 30, 31, 30, 31]

  /** Months count from zero. */
  function DaysOfMonth(m: nat, y: nat): (d: nat)
    requires m < 12
    ensures 28 <= d <= 31
  {
    if m == 1 && IsLeapYear(y) then 29 else DAYS_OF_MONTH[m]
  }

  function DaysOfYear(y: nat): nat {
    if IsLeapYear(y) then 366 else 365
  }

  /** The days from the beginning of 1970 to the beginning of a year. */
  function DaysBeforeYear(y: nat): nat
    requires y >= 1970
  {
    if y == 1970 then 0 else DaysBeforeYear(y - 1) + DaysOfYear(y - 1)
  }

  function DaysBeforeMonth(m: nat, y: nat): nat
    requires m <= 12
  {
    if m == 0 then 0 else DaysBeforeMonth(m - 1, y) + DaysOfMonth(m - 1, y)
  }

  datatype Date = Date(year: nat, month: nat, day: nat)

  datatype Clock = Clock(hours: nat, minutes: nat, seconds: nat)

  predicate GoodDate(d: Date) {
    d.year >= 1970 && d.month < 12 && 1 <= d.day <= DaysOfMonth(d.month, d.year)
  }

  predicate GoodClock(c: Clock) {
    c.hours < 24 && c.minutes < 60 && c.seconds < 60
  }

  /** Dates from 1970 on, with months from 0, each with its days, and a leap day in every fourth year but for three
      in four centuries; times of day without leap seconds. */
  lemma WhatIsValid(d: Date, c: Clock)
    ensures var leap := (d.year % 4 == 0 && d.year % 100 != 0) || d.year % 400 == 0;
      GoodDate(d) <==>
        (d.year >= 1970 && d.month < 12 && 1 <= d.day
         && d.day <= [31, if leap then 29 else 28, 31, 30, 31, 30, 31, 31, 30, 31, 30, 31][d.month])
    ensures GoodClock(c) <==> c.hours <= 23 && c.minutes <= 59 && c.seconds <= 59
  {
  }

  function DayNumber(d: Date): nat
    requires GoodDate(d)
  {
    DaysBeforeYear(d.year) + DaysBeforeMonth(d.month, d.year) + (d.day - 1)
  }

  function Seconds(d: Date, c: Clock): nat
    requires GoodDate(d)
  {
    ((DayNumber(d) * 24 + c.hours) * 60 + c.minutes) * 60 + c.seconds
  }

  /** The first of January 1970 was a Thursday. */
  function WeekDay(day: nat): nat {
    (day + 4) % 7
  }

  // ---------- order ----------

  predicate Earlier(a: Date, b: Date) {
    a.year < b.year || (a.year == b.year && (a.month < b.month || (a.month == b.month && a.day < b.day)))
  }

  lemma YearOfTwelveMonths(y: nat)
    ensures DaysBeforeMonth(12, y) == DaysOfYear(y)
  {
    assert DaysBeforeMonth(1, y) == 31;
    assert DaysBeforeMonth(3, y) == DaysOfYear(y) - 275;
    assert DaysBeforeMonth(5, y) == DaysOfYear(y) - 214;
    assert DaysBeforeMonth(7, y) == DaysOfYear(y) - 153;
    assert DaysBeforeMonth(9, y) == DaysOfYear(y) - 92;
    assert DaysBeforeMonth(11, y) == DaysOfYear(y) - 31;
  }

  lemma {:induction false} MonthsInOrder(m: nat, n: nat, y: nat)
    requires m < n <= 12
    ensures DaysBeforeMonth(m, y) + DaysOfMonth(m, y) <= DaysBeforeMonth(n, y)
    decreases n
  {
    if m < n - 1 { MonthsInOrder(m, n - 1, y); }
  }

  lemma {:induction false} YearsInOrder(y: nat, z: nat)
    requires 1970 <= y < z
    ensures DaysBeforeYear(y) + DaysOfYear(y) <= DaysBeforeYear(z)
    decreases z
  {
    if y < z - 1 { YearsInOrder(y, z - 1); }
  }

  /** The day of the year. */
  lemma DayInYear(d: Date)
    requires GoodDate(d)
    ensures DaysBeforeMonth(d.month, d.year) + d.day <= DaysOfYear(d.year)
  {
    YearOfTwelveMonths(d.year);
    MonthsInOrder(d.month, 12, d.year);
  }

  lemma DaysInOrder(a: Date, b: Date)
    requires GoodDate(a) && GoodDate(b) && Earlier(a, b)
    ensures DayNumber(a) < DayNumber(b)
  {
    DayInYear(a);
    if a.year < b.year {
      YearsInOrder(a.year, b.year);
    } else if a.month < b.month {
      MonthsInOrder(a.month, b.month, a.year);
    }
  }

  /** Time goes forward: the seconds are strictly monotone in the order of dates and clock times. */
  lemma SecondsInOrder(a: Date, b: Date, c: Clock, d: Clock)
    requires GoodDate(a) && GoodDate(b) && GoodClock(c) && GoodClock(d)
    ensures Seconds(a, c) < Seconds(b, d) <==>
      Earlier(a, b) || (a == b && (c.hours < d.hours || (c.hours == d.hours &&
        (c.minutes < d.minutes || (c.minutes == d.minutes && c.seconds < d.seconds)))))
  {
    if Earlier(a, b) {
      DaysInOrder(a, b);
    } else if Earlier(b, a) {
      DaysInOrder(b, a);
    } else {
      assert a == b;
    }
  }

  /** Different dates and times have different seconds. */
  lemma SecondsAreUnique(a: Date, b: Date, c: Clock, d: Clock)
    requires GoodDate(a) && GoodDate(b) && GoodClock(c) && GoodClock(d) && Seconds(a, c) == Seconds(b, d)
    ensures a == b && c == d
  {
    SecondsInOrder(a, b, c, d);
    SecondsInOrder(b, a, d, c);
    assert !Earlier(a, b) && !Earlier(b, a);
  }

  // ---------- the formula of POSIX ----------

  lemma {:induction false} YearFormula(y: nat)
    requires y >= 1970
    ensures DaysBeforeYear(y) == (y - 1970) * 365 + (y - 1969) / 4 - (y - 1901) / 100 + (y - 1601) / 400
  {
    if y > 1970 {
      YearFormula(y - 1);
      YearStep(y - 1);
    }
  }

  lemma YearStep(y: nat)
    requires y >= 1970
    ensures (y - 1968) / 4 - (y - 1900) / 100 + (y - 1600) / 400
      == (y - 1969) / 4 - (y - 1901) / 100 + (y - 1601) / 400 + if IsLeapYear(y) then 1 else 0
  {
    LeapSteps(y);
  }

  lemma LeapSteps(y: nat)
    requires y >= 1970
    ensures (y - 1968) / 4 == (y - 1969) / 4 + if y % 4 == 0 then 1 else 0
    ensures (y - 1900) / 100 == (y - 1901) / 100 + if y % 100 == 0 then 1 else 0
    ensures (y - 1600) / 400 == (y - 1601) / 400 + if y % 400 == 0 then 1 else 0
    ensures (y % 400 == 0 ==> y % 100 == 0) && (y % 100 == 0 ==> y % 4 == 0)
  {
    Step4(y);
    Step100(y);
    Step400(y);
  }

  lemma Step4(y: nat)
    requires y >= 1970
    ensures (y - 1968) / 4 == (y - 1969) / 4 + if y % 4 == 0 then 1 else 0
  {
  }

  lemma Step100(y: nat)
    requires y >= 1970
    ensures (y - 1900) / 100 == (y - 1901) / 100 + if y % 100 == 0 then 1 else 0
    ensures y % 100 == 0 ==> y % 4 == 0
  {
  }

  lemma Step400(y: nat)
    requires y >= 1970
    ensures (y - 1600) / 400 == (y - 1601) / 400 + if y % 400 == 0 then 1 else 0
    ensures y % 400 == 0 ==> y % 100 == 0
  {
  }

  /** The seconds are those of POSIX.1-2017, Base Definitions, section 4.16, with the year counted from
      1900 and the day of the year from zero. */
  lemma PosixSeconds(d: Date, c: Clock)
    requires GoodDate(d)
    ensures var year, yday := d.year - 1900, DaysBeforeMonth(d.month, d.year) + d.day - 1;
      Seconds(d, c) == c.seconds + c.minutes * 60 + c.hours * 3600 + yday * 86400
        + (year - 70) * 31536000 + (year - 69) / 4 * 86400 - (year - 1) / 100 * 86400 + (year + 299) / 400 * 86400
  {
    YearFormula(d.year);
  }

  // ---------- the day of the week ----------

  /** The days before each month. */
  lemma {:induction false} MonthStarts(m: nat, y: nat)
    requires m < 12
    ensures DaysBeforeMonth(m, y)
      == [0, 31, 59, 90, 120, 151, 181, 212, 243, 273, 304, 334][m] + if m >= 2 && IsLeapYear(y) then 1 else 0
  {
    if m > 0 { MonthStarts(m - 1, y); }
  }

  lemma Multiple7(k: int, a: int)
    ensures (7 * k + a) % 7 == a % 7
  {
  }

  /** The leap days up to a year. */
  function LeapDays(y: nat): int {
    y / 4 - y / 100 + y / 400
  }

  lemma LeapDaysStep(y: nat)
    requires y >= 1970
    ensures LeapDays(y) == LeapDays(y - 1) + if IsLeapYear(y) then 1 else 0
    ensures (y - 1969) / 4 - (y - 1901) / 100 + (y - 1601) / 400 == LeapDays(y - 1) - 477
  {
    LeapSteps(y);
    assert (y - 1969) / 4 == (y - 1) / 4 - 492 && (y - 1901) / 100 == (y - 1) / 100 - 19 && (y - 1601) / 400 == (y - 1) / 400 - 4;
    assert (y - 1968) / 4 == y / 4 - 492 && (y - 1900) / 100 == y / 100 - 19 && (y - 1600) / 400 == y / 400 - 4;
  }

  /** How far the days before a month, counted from March, are behind whole weeks. */
  function Shift(m: nat): nat
    requires m < 12
  {
    [0, 3, 2, 5, 0, 3, 5, 1, 4, 6, 2, 4][m]
  }

  lemma MonthsAreWeeks(m: nat, y: nat) returns (k: int)
    requires m < 12
    ensures DaysBeforeMonth(m, y) - 2443
      == 7 * k + Shift(m) + (if m < 2 then 0 else 1 + if IsLeapYear(y) then 1 else 0)
  {
    MonthStarts(m, y);
    k := [-349, -345, -341, -337, -332, -328, -324, -319, -315, -311, -306, -302][m];
  }

  /** The year that begins in March. */
  function MarchYear(d: Date): nat
    requires d.year > 0
  {
    if d.month < 2 then d.year - 1 else d.year
  }

  lemma YearsAreWeeks(y: nat) returns (k: int)
    requires y >= 1970
    ensures DaysBeforeYear(y) == 7 * k + y - 2447 + LeapDays(y - 1)
  {
    YearFormula(y);
    LeapDaysStep(y);
    k := 52 * (y - 1970);
  }

  lemma DaysAreWeeks(d: Date) returns (k: int)
    requires GoodDate(d)
    ensures var y := MarchYear(d);
      DayNumber(d) + 4 == 7 * k + (y + LeapDays(y) + Shift(d.month) + d.day)
  {
    var a := YearsAreWeeks(d.year);
    var b := MonthsAreWeeks(d.month, d.year);
    LeapDaysStep(d.year);
    k := a + b;
  }

  /** The day of the week of the Gregorian calendar, with Sunday as 0: in terms of day, month and year alone, the
      year beginning in March. */
  lemma WeekDayIs(d: Date)
    requires GoodDate(d)
    ensures var y: nat := if d.month < 2 then d.year - 1 else d.year;
      WeekDay(DayNumber(d))
        == (y + y / 4 - y / 100 + y / 400 + [0, 3, 2, 5, 0, 3, 5, 1, 4, 6, 2, 4][d.month] + d.day) % 7
  {
    var k := DaysAreWeeks(d);
    Multiple7(k, MarchYear(d) + LeapDays(MarchYear(d)) + Shift(d.month) + d.day);
  }

  // ---------- the class ----------

  class Time {
    var seconds: nat
    var minutes: nat
    var hours: nat
    var monthDay: nat
    var month: nat
    /** The year counted from 1900. */
    var year: nat
    var weekDay: nat

    ghost predicate Valid()
      reads this
    {
      GoodDate(TheDate()) && GoodClock(TheClock()) && weekDay == WeekDay(DayNumber(TheDate()))
    }

    function TheDate(): Date
      reads this
    {
      Date(year + 1900, month, monthDay)
    }

    function TheClock(): Clock
      reads this
    {
      Clock(hours, minutes, seconds)
    }

    constructor ()
      ensures Valid() && Seconds(TheDate(), TheClock()) == 0
    {
      seconds, minutes, hours, monthDay, month, year, weekDay := 0, 0, 0, 1, 0, 70, 4;
    }

    /** Take the seconds since 1970 apart. */
    method Set(time: nat)
      modifies this
      ensures Valid() && Seconds(TheDate(), TheClock()) == time
    {
      var t: nat := time;
      seconds := t % 60;
      t := t / 60;
      minutes := t % 60;
      t := t / 60;
      hours := t % 24;
      t := t / 24;
      weekDay := (t + 4) % 7;
      SetDay(t);
    }

    /** Find the year and the month of a day. */
    method SetDay(day: nat)
      modifies this`year, this`month, this`monthDay
      ensures GoodDate(TheDate()) && DayNumber(TheDate()) == day
    {
      var t, y := day, 1970;
      while t >= DaysOfYear(y)
        invariant t >= 0 && y >= 1970 && day == DaysBeforeYear(y) + t
        decreases t
      {
        t := t - DaysOfYear(y);
        y := y + 1;
      }
      year := y - 1900;
      YearOfTwelveMonths(y);
      var m := 0;
      while t >= DaysOfMonth(m, y)
        invariant 0 <= m < 12 && t >= 0 && t + DaysBeforeMonth(m, y) < DaysBeforeMonth(12, y)
        invariant day == DaysBeforeYear(y) + DaysBeforeMonth(m, y) + t
        decreases t
      {
        assert m < 11;
        t := t - DaysOfMonth(m, y);
        m := m + 1;
      }
      month := m;
      monthDay := t + 1;
    }

    /** Put the seconds together; the result has 32 signed bits. */
    method Get() returns (result: int)
      requires Valid()
      ensures result == Signed32(Seconds(TheDate(), TheClock()))
    {
      var sum := 0;
      var y := 1970;
      while y < year + 1900
        invariant 1970 <= y <= year + 1900 && sum == DaysBeforeYear(y)
      {
        sum := sum + DaysOfYear(y);
        y := y + 1;
      }
      var m := 0;
      while m < month
        invariant m <= month && sum == DaysBeforeYear(year + 1900) + DaysBeforeMonth(m, year + 1900)
      {
        sum := sum + DaysOfMonth(m, year + 1900);
        m := m + 1;
      }
      sum := sum + (monthDay - 1);
      sum := sum * 24 + hours;
      sum := sum * 60 + minutes;
      sum := sum * 60 + seconds;
      result := Signed32(sum);
    }

    method SetTime(h: nat, m: nat, s: nat) returns (ok: bool)
      requires Valid()
      modifies this`hours, this`minutes, this`seconds
      ensures Valid() && ok == GoodClock(Clock(h, m, s))
      ensures TheClock() == if ok then Clock(h, m, s) else old(TheClock())
    {
      if s > 59 || m > 59 || h > 23 {
        return false;
      }
      seconds, minutes, hours := s, m, h;
      ok := true;
    }

    /** Months count from one here. The day of the week is found by counting down. */
    method SetDate(d: nat, m: nat, y: nat) returns (ok: bool)
      requires Valid()
      modifies this`monthDay, this`month, this`year, this`weekDay
      ensures Valid() && ok == (m >= 1 && GoodDate(Date(y, m - 1, d)))
      ensures TheDate() == if ok then Date(y, m - 1, d) else old(TheDate())
    {
      if y < 1970 || !(1 <= m <= 12) || !(1 <= d <= DaysOfMonth(m - 1, y)) {
        return false;
      }
      monthDay, month, year := d, m - 1, y - 1900;
      var total := CountDays(d, m, y);
      weekDay := (total + 4) % 7;
      ok := true;
    }

    /** Count the days from the beginning of 1970 on, backwards. */
    static method CountDays(d: nat, m: nat, y: nat) returns (total: nat)
      requires m >= 1 && GoodDate(Date(y, m - 1, d))
      ensures total == DayNumber(Date(y, m - 1, d))
    {
      total := d - 1;
      var i := m - 1;
      while i > 0
        invariant 0 <= i < m && total + DaysBeforeMonth(i, y) == DaysBeforeMonth(m - 1, y) + (d - 1)
      {
        total := total + DaysOfMonth(i - 1, y);
        i := i - 1;
      }
      var z := y - 1;
      while z >= 1970
        invariant 1969 <= z < y && total + DaysBeforeYear(z + 1) == DayNumber(Date(y, m - 1, d))
      {
        total := total + DaysOfYear(z);
        z := z - 1;
      }
    }
  }

  /** The seconds fit into 32 signed bits up to a quarter past three in the night of 19 January 2038, and
      not a second longer. */
  lemma Until2038(d: Date, c: Clock)
    requires GoodDate(d) && GoodClock(c)
    ensures var last, when := Date(2038, 0, 19), Clock(3, 14, 7);
      Signed32(Seconds(d, c)) == Seconds(d, c) <==> Seconds(d, c) <= Seconds(last, when)
  {
    LastDay();
    SignedIff(Seconds(d, c));
  }

  lemma LastDay()
    ensures DayNumber(Date(2038, 0, 19)) == 24855
  {
    YearFormula(2038);
    assert DaysBeforeMonth(0, 2038) == 0;
  }

  lemma SignedIff(n: nat)
    ensures Signed32(n) == n <==> n <= 0x7FFF_FFFF
  {
  }
}
