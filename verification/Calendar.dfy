/** Julian day numbers and the time of day, in 32-bit unsigned arithmetic. */
module Calendar {

  const TWO32 := 0x1_0000_0000

  type uint32 = x: int | 0 <= x < TWO32

  /** The low 32 bits. */
  function U32(x: int): uint32
  {
    if 0 <= x < TWO32 then x else x % TWO32
  }

  lemma SmallNumber(x: int)
    requires 0 <= x < TWO32
    ensures U32(x) == x
  {
  }

  datatype Date = Date(year: uint32, month: uint32, day: uint32)

  function MergeJulianDay(date: Date): uint32
  {
    var a := U32(14 - date.month) / 12;
    var y := U32(date.year + 4800 - a);
    var m := U32(date.month + 12 * a - 3);
    U32(date.day + U32(153 * m + 2) / 5 + 365 * y + y / 4 - y / 100 + y / 400 - 32045)
  }

  function SplitJulianDay(jd: uint32): Date
  {
    var a := U32(jd + 32044);
    var b := U32(4 * a + 3) / 146097;
    var c := U32(a - U32(146097 * b) / 4);
    var d := U32(4 * c + 3) / 1461;
    var e := U32(c - U32(1461 * d) / 4);
    var m := U32(5 * e + 2) / 153;
    Date(U32(100 * b + d - 4800 + m / 10), U32(m + 3 - 12 * (m / 10)), U32(e - U32(153 * m + 2) / 5 + 1))
  }

  // ----- the calendar

  predicate LeapYear(year: int)
  {
    year % 4 == 0 && (year % 100 != 0 || year % 400 == 0)
  }

  function DaysInMonth(year: int, month: int): int
  {
    if month == 2 then (if LeapYear(year) then 29 else 28)
    else if month == 4 || month == 6 || month == 9 || month == 11 then 30
    else 31
  }

  /** A date of the proleptic Gregorian calendar with a year of at most four digits. */
  predicate RealDate(date: Date)
  {
    date.year <= 9999 && 1 <= date.month <= 12 && 1 <= date.day <= DaysInMonth(date.year, date.month)
  }

  const FIRST := Date(0, 1, 1)
  const LAST := Date(9999, 12, 31)

  /** The following day of the calendar. */
  function Tomorrow(date: Date): Date
    requires RealDate(date)
  {
    if date.day < DaysInMonth(date.year, date.month) then Date(date.year, date.month, date.day + 1)
    else if date.month < 12 then Date(date.year, date.month + 1, 1)
    else Date(date.year + 1, 1, 1)
  }

  predicate Before(x: Date, y: Date)
  {
    || x.year < y.year
    || (x.year == y.year && (x.month < y.month || (x.month == y.month && x.day < y.day)))
  }

  // ----- years that start in March

  function MarchYear(date: Date): int
  {
    date.year + 4800 - if date.month <= 2 then 1 else 0
  }

  function MarchMonth(month: int): int
  {
    if month <= 2 then month + 9 else month - 3
  }

  /** Days of the year before month `m`, counted from March. */
  function DaysBeforeMonth(m: int): int
  {
    (153 * m + 2) / 5
  }

  function DaysBeforeYear(y: int): int
  {
    365 * y + y / 4 - y / 100 + y / 400
  }

  /** The sum of the days before the year, the days before the month and the day. */
  function DayNumber(date: Date): int
  {
    date.day + DaysBeforeMonth(MarchMonth(date.month)) + DaysBeforeYear(MarchYear(date)) - 32045
  }

  /** Nothing wraps around. */
  lemma MergeIsSum(date: Date)
    requires date.year <= 10000 && 1 <= date.month <= 12 && date.day <= 31
    ensures MergeJulianDay(date) == DayNumber(date)
  {
    var a := U32(14 - date.month) / 12;
    assert a == if date.month <= 2 then 1 else 0;
  }

  lemma DivisionStep(y: int, k: int)
    requires k == 4 || k == 100 || k == 400
    ensures y / k - (y - 1) / k == if y % k == 0 then 1 else 0
  {
    var q, r := y / k, y % k;
    assert y == k * q + r;
  }

  lemma MultiplesRepeat(year: int, k: int)
    requires k == 4 || k == 100 || k == 400
    ensures (year + 4800) % k == year % k
  {
    var q, r := year / k, year % k;
    assert year + 4800 == k * (q + 4800 / k) + r;
  }

  lemma LeapYearsRepeat(year: int)
    ensures LeapYear(year + 4800) == LeapYear(year)
    ensures year % 400 == 0 ==> year % 100 == 0
    ensures year % 100 == 0 ==> year % 4 == 0
  {
    MultiplesRepeat(year, 4);
    MultiplesRepeat(year, 100);
    MultiplesRepeat(year, 400);
    assert year == 400 * (year / 400) + year % 400;
    assert year == 100 * (year / 100) + year % 100;
  }

  /** The year that ends with February of `year`. */
  lemma YearLength(year: int)
    ensures DaysBeforeYear(year + 4800) - DaysBeforeYear(year + 4799) == if LeapYear(year) then 366 else 365
  {
    LeapYearsRepeat(year);
    LeapYearsRepeat(year + 4800);
    DivisionStep(year + 4800, 4);
    DivisionStep(year + 4800, 100);
    DivisionStep(year + 4800, 400);
  }

  /** The months that do not end a March year have the lengths the formula gives them. */
  lemma MonthLength(year: int, month: int)
    requires 1 <= month <= 12 && month != 2
    ensures var next := if month == 12 then 1 else month + 1;
            DaysBeforeMonth(MarchMonth(next)) - DaysBeforeMonth(MarchMonth(month)) == DaysInMonth(year, month)
  {
  }

  lemma DayNumberGrows(date: Date)
    requires RealDate(date)
    ensures DayNumber(Tomorrow(date)) == DayNumber(date) + 1
  {
    hide DaysBeforeYear;
    if date.day == DaysInMonth(date.year, date.month) {
      if date.month == 2 {
        YearLength(date.year);
      } else {
        MonthLength(date.year, date.month);
        assert MarchYear(Tomorrow(date)) == MarchYear(date);
      }
    }
  }

  lemma ConsecutiveDays(date: Date)
    requires RealDate(date)
    ensures MergeJulianDay(Tomorrow(date)) == MergeJulianDay(date) + 1
  {
    hide MergeJulianDay, DayNumber;
    MergeIsSum(date);
    MergeIsSum(Tomorrow(date));
    DayNumberGrows(date);
  }

  // ----- splitting inverts merging

  /** Centuries of 146097 / 4 days and years of 1461 / 4 days, both rounded down. */
  lemma CenturiesAndYears(y: int)
    requires y >= 0
    ensures DaysBeforeYear(y) == 146097 * (y / 100) / 4 + 1461 * (y % 100) / 4
  {
    var b, yy := y / 100, y % 100;
    assert y == 100 * b + yy;
    assert y / 4 == 25 * b + yy / 4;
    assert y / 400 == b / 4;
    assert 146097 * b / 4 == 36524 * b + b / 4;
    assert 1461 * yy / 4 == 365 * yy + yy / 4;
  }

  /** The day `e` of a March year exists: the 366th day only at the end of a leap year. */
  predicate DayOfYear(y: int, e: int)
  {
    0 <= e <= 365 && (e == 365 ==> LeapYear(y + 1))
  }

  lemma YearOfCentury(yy: int, e: int)
    requires 0 <= yy < 100 && 0 <= e <= 365 && (e == 365 ==> yy % 4 == 3)
    ensures (4 * (1461 * yy / 4 + e) + 3) / 1461 == yy
  {
    var p, r := yy / 4, yy % 4;
    assert yy == 4 * p + r;
    assert 1461 * yy / 4 == 1461 * p + 365 * r;
  }

  lemma CenturyOfDay(b: int, c: int)
    requires b >= 0 && 0 <= c <= 36524 && (c == 36524 ==> b % 4 == 3)
    ensures (4 * (146097 * b / 4 + c) + 3) / 146097 == b
  {
    var p, r := b / 4, b % 4;
    assert b == 4 * p + r;
    assert 146097 * b / 4 == 146097 * p + 36524 * r;
  }

  lemma DayOfCentury(y: int, e: int)
    requires y >= 0 && DayOfYear(y, e)
    ensures var yy, c := y % 100, 1461 * (y % 100) / 4 + e;
            && (e == 365 ==> yy % 4 == 3)
            && 0 <= c <= 36524 && (c == 36524 ==> y / 100 % 4 == 3)
  {
    var b, yy := y / 100, y % 100;
    assert y == 100 * b + yy;
    if e == 365 {
      assert (y + 1) % 4 == (yy + 1) % 4;
      if yy == 99 {
        assert (y + 1) % 100 == 0;
        assert (y + 1) / 100 == b + 1;
      }
    }
  }

  lemma MonthOfYear(month: int, day: int)
    requires 1 <= month <= 12 && 1 <= day <= (if month == 2 then 29 else DaysInMonth(0, month))
    ensures var m := MarchMonth(month);
            var e := DaysBeforeMonth(m) + day - 1;
            && (5 * e + 2) / 153 == m && 0 <= e <= 365 && (e == 365 ==> month == 2 && day == 29)
            && month == m + 3 - 12 * (m / 10) && m / 10 == (if month <= 2 then 1 else 0)
  {
  }

  /** The century, the year and the month that the formula finds, one after the other. */
  lemma SplitCentury(jd: uint32, b: int, c: int)
    requires 0 <= b <= 148 && 0 <= c <= 36524 && jd + 32044 == 146097 * b / 4 + c
    requires (4 * (146097 * b / 4 + c) + 3) / 146097 == b
    ensures SplitJulianDay(jd) == SplitYear(b, c)
  {
    hide U32;
    var a, q := jd + 32044, 146097 * b / 4;
    SmallNumber(a);
    SmallNumber(4 * a + 3);
    SmallNumber(146097 * b);
    SmallNumber(c);
    assert U32(4 * U32(a) + 3) / 146097 == b;
    assert SplitJulianDay(jd) == SplitYear(b, U32(a - U32(146097 * b) / 4));
  }

  function SplitYear(b: uint32, c: uint32): Date
  {
    var d := U32(4 * c + 3) / 1461;
    var e := U32(c - U32(1461 * d) / 4);
    var m := U32(5 * e + 2) / 153;
    Date(U32(100 * b + d - 4800 + m / 10), U32(m + 3 - 12 * (m / 10)), U32(e - U32(153 * m + 2) / 5 + 1))
  }

  lemma SplitYearAndMonth(b: uint32, yy: int, e: int, m: int)
    requires b <= 148 && 0 <= yy < 100 && 0 <= e <= 365 && 0 <= m <= 11 && 100 * b + yy - 4800 + m / 10 >= 0
    requires (4 * (1461 * yy / 4 + e) + 3) / 1461 == yy
    requires (5 * e + 2) / 153 == m && e >= DaysBeforeMonth(m)
    ensures var date := SplitYear(b, 1461 * yy / 4 + e);
            && date.year == 100 * b + yy - 4800 + m / 10 && date.month == m + 3 - 12 * (m / 10)
            && date.day == e - DaysBeforeMonth(m) + 1
  {
  }

  lemma SplitInvertsMerge(date: Date)
    requires RealDate(date)
    ensures SplitJulianDay(MergeJulianDay(date)) == date
  {
    hide MergeJulianDay, SplitJulianDay, SplitYear, DaysBeforeYear;
    var y, m := MarchYear(date), MarchMonth(date.month);
    var e := DaysBeforeMonth(m) + date.day - 1;
    MergeIsSum(date);
    MonthOfYear(date.month, date.day);
    LeapYearsRepeat(date.year);
    CenturiesAndYears(y);
    DayOfCentury(y, e);
    CenturyOfDay(y / 100, 1461 * (y % 100) / 4 + e);
    YearOfCentury(y % 100, e);
    SplitCentury(MergeJulianDay(date), y / 100, 1461 * (y % 100) / 4 + e);
    SplitYearAndMonth(y / 100, y % 100, e, m);
  }

  // ----- the day numbers of the calendar

  lemma {:induction false} DayNumbersOrderAsDates(x: Date, y: Date)
    requires RealDate(x) && RealDate(y)
    ensures Before(x, y) <==> MergeJulianDay(x) < MergeJulianDay(y)
  {
    hide MergeJulianDay;
    if Before(x, y) {
      EarlierIsSmaller(x, y);
    } else if Before(y, x) {
      EarlierIsSmaller(y, x);
    } else {
      assert x == y;
    }
  }

  lemma {:induction false} EarlierIsSmaller(x: Date, y: Date)
    requires RealDate(x) && RealDate(y) && Before(x, y)
    ensures MergeJulianDay(x) < MergeJulianDay(y)
    decreases 10000 - x.year, 13 - x.month, 32 - x.day
  {
    hide MergeJulianDay;
    ConsecutiveDays(x);
    if Tomorrow(x) != y {
      EarlierIsSmaller(Tomorrow(x), y);
    }
  }

  /** Every number between the first and the last date is the number of a date. */
  lemma {:induction false} EveryDayHasADate(jd: uint32)
    requires MergeJulianDay(FIRST) <= jd <= MergeJulianDay(LAST)
    ensures RealDate(SplitJulianDay(jd)) && MergeJulianDay(SplitJulianDay(jd)) == jd
  {
    hide MergeJulianDay, SplitJulianDay;
    if jd == MergeJulianDay(FIRST) {
      SplitInvertsMerge(FIRST);
    } else {
      EveryDayHasADate(jd - 1);
      var yesterday := SplitJulianDay(jd - 1);
      ConsecutiveDays(yesterday);
      if yesterday == LAST {
        assert false;
      }
      SplitInvertsMerge(Tomorrow(yesterday));
    }
  }

  // ----- the time of day

  const MS_PER_DAY := 24 * 60 * 60 * 1000

  datatype Time = Time(hour: uint32, minute: uint32, second: uint32, ms: uint32)

  predicate RealTime(time: Time)
  {
    time.hour < 24 && time.minute < 60 && time.second < 60 && time.ms < 1000
  }

  function MergeTime(time: Time): uint32
  {
    U32(time.ms + 1000 * time.second + 60 * 1000 * time.minute + 60 * 60 * 1000 * time.hour)
  }

  function SplitTime(value: uint32): Time
  {
    Time(value / 1000 / 60 / 60 % 24, value / 1000 / 60 % 60, value / 1000 % 60, value % 1000)
  }

  lemma SplitInvertsMergeTime(time: Time)
    requires RealTime(time)
    ensures MergeTime(time) < MS_PER_DAY && SplitTime(MergeTime(time)) == time
  {
    var value := MergeTime(time);
    var seconds := time.second + 60 * time.minute + 3600 * time.hour;
    assert value / 1000 == seconds;
    assert seconds / 60 == time.minute + 60 * time.hour;
  }

  lemma MergeInvertsSplitTime(value: uint32)
    requires value < MS_PER_DAY
    ensures RealTime(SplitTime(value)) && MergeTime(SplitTime(value)) == value
  {
    var seconds := value / 1000;
    var minutes := seconds / 60;
    assert value == 1000 * seconds + value % 1000;
    assert seconds == 60 * minutes + seconds % 60;
    assert minutes == 60 * (minutes / 60) + minutes % 60;
  }

  // ----- the numbers of the times

  predicate Sooner(s: Time, t: Time)
  {
    || s.hour < t.hour
    || (s.hour == t.hour && (s.minute < t.minute || (s.minute == t.minute
        && (s.second < t.second || (s.second == t.second && s.ms < t.ms)))))
  }

  const MIDNIGHT := Time(0, 0, 0, 0)
  const LAST_MS := Time(23, 59, 59, 999)

  /** One millisecond later on the clock. */
  function NextTime(time: Time): Time
    requires RealTime(time) && time != LAST_MS
  {
    if time.ms < 999 then time.(ms := time.ms + 1)
    else if time.second < 59 then Time(time.hour, time.minute, time.second + 1, 0)
    else if time.minute < 59 then Time(time.hour, time.minute + 1, 0, 0)
    else Time(time.hour + 1, 0, 0, 0)
  }

  lemma MergeTimeIsSum(time: Time)
    requires RealTime(time)
    ensures MergeTime(time) == ((time.hour * 60 + time.minute) * 60 + time.second) * 1000 + time.ms
  {
    SmallNumber(((time.hour * 60 + time.minute) * 60 + time.second) * 1000 + time.ms);
  }

  /** Midnight has the number 0, and every further millisecond the next number, up to the last of the day. */
  lemma ConsecutiveTimes(time: Time)
    requires RealTime(time)
    ensures MergeTime(MIDNIGHT) == 0 && MergeTime(LAST_MS) == MS_PER_DAY - 1
    ensures time != LAST_MS ==> RealTime(NextTime(time)) && MergeTime(NextTime(time)) == MergeTime(time) + 1
  {
    hide MergeTime;
    MergeTimeIsSum(MIDNIGHT);
    MergeTimeIsSum(LAST_MS);
    MergeTimeIsSum(time);
    if time != LAST_MS {
      MergeTimeIsSum(NextTime(time));
    }
  }

  /** Times are ordered as their numbers, both ways. */
  lemma TimeNumbersOrderAsTimes(s: Time, t: Time)
    requires RealTime(s) && RealTime(t)
    ensures Sooner(s, t) <==> MergeTime(s) < MergeTime(t)
  {
    hide MergeTime;
    MergeTimeIsSum(s);
    MergeTimeIsSum(t);
  }

  // ----- known days

  /** The day numbers are Julian day numbers: the first day of the Gregorian calendar, the first of March
      after a century that was no leap year, and two epochs. */
  lemma KnownDays()
    ensures MergeJulianDay(Date(1582, 10, 15)) == 2_299_161
    ensures MergeJulianDay(Date(1900, 3, 1)) == 2_415_080
    ensures MergeJulianDay(Date(1970, 1, 1)) == 2_440_588
    ensures MergeJulianDay(Date(2000, 1, 1)) == 2_451_545
  {
    hide MergeJulianDay;
    MergeIsSum(Date(1582, 10, 15));
    MergeIsSum(Date(1900, 3, 1));
    MergeIsSum(Date(1970, 1, 1));
    MergeIsSum(Date(2000, 1, 1));
  }
}
