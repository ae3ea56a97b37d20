/** Dates and timestamps as text. */
module DateText {
  import opened Wrappers
  import opened Calendar
  import opened DecimalText

  // ----- reading numbers

  /** Reads digits until the separator, which is skipped, or until the end where that is allowed. */
  function NumberUpTo(text: string, i: nat, limit: nat, acc: uint32, separator: Option<char>, mayEnd: bool)
    : (r: Option<(uint32, nat)>)
    requires i <= limit <= |text|
    ensures r.Some? ==> i <= r.value.1 <= limit
    decreases limit - i
  {
    if i == limit then (if mayEnd then Some((acc, i)) else None)
    else if separator == Some(text[i]) then Some((acc, i + 1))
    else if IsDigit(text[i]) then
      NumberUpTo(text, i + 1, limit, U32(10 * acc + DigitValue(text[i])), separator, mayEnd)
    else None
  }

  method ReadNumber(text: string, from: nat, limit: nat, separator: Option<char>, mayEnd: bool)
    returns (r: Option<(uint32, nat)>)
    requires from <= limit <= |text|
    ensures r == NumberUpTo(text, from, limit, 0, separator, mayEnd)
  {
    var iter: nat, number: uint32 := from, 0;
    while true
      invariant from <= iter <= limit
      invariant NumberUpTo(text, from, limit, 0, separator, mayEnd)
             == NumberUpTo(text, iter, limit, number, separator, mayEnd)
      decreases limit - iter
    {
      if iter == limit {
        return if mayEnd then Some((number, iter)) else None;
      }
      var c := text[iter];
      iter := iter + 1;
      if separator == Some(c) {
        return Some((number, iter));
      }
      if IsDigit(c) {
        number := U32(10 * number + DigitValue(c));
      } else {
        return None;
      }
    }
  }

  lemma U32Shift(x: nat, d: nat)
    requires d < 10
    ensures U32(10 * U32(x) + d) == U32(10 * x + d)
  {
    var q, w := x / TWO32, x % TWO32;
    assert x == q * TWO32 + w && U32(x) == w;
    assert 10 * x + d == 10 * q * TWO32 + (10 * w + d);
    U32Turns(10 * w + d, 10 * q);
  }

  lemma {:induction false} U32Turns(x: nat, turns: nat)
    ensures U32(x + turns * TWO32) == U32(x)
  {
    if turns > 0 {
      U32Turns(x, turns - 1);
      assert x + turns * TWO32 == (x + (turns - 1) * TWO32) + TWO32;
    }
  }

  /** Digits are accumulated to the low 32 bits of the number they denote. */
  lemma {:induction false} ReadsPrefix(text: string, i: nat, k: nat, limit: nat, separator: Option<char>, mayEnd: bool)
    requires i + k <= limit <= |text| && AllDigits(text[i..i + k])
    requires separator.Some? ==> !IsDigit(separator.value)
    ensures NumberUpTo(text, i, limit, 0, separator, mayEnd)
         == NumberUpTo(text, i + k, limit, U32(Value(text[i..i + k])), separator, mayEnd)
  {
    hide Value, U32;
    if k > 0 {
      var last := i + (k - 1);
      assert i + k == last + 1;
      ValueOfNextDigit(text, i, last);
      U32Shift(Value(text[i..last]), DigitValue(text[last]));
      ReadsPrefix(text, i, k - 1, limit, separator, mayEnd);
    } else {
      NoDigits(text, i);
    }
  }

  lemma NoDigits(text: string, i: nat)
    requires i <= |text|
    ensures text[i..i] == [] && U32(Value(text[i..i])) == 0
  {
  }

  /** A run of digits, up to its separator or the end of the text. */
  lemma ReadsRun(text: string, i: nat, digits: string, limit: nat, separator: Option<char>, mayEnd: bool)
    requires i + |digits| <= limit <= |text| && text[i..i + |digits|] == digits && AllDigits(digits)
    requires separator.Some? ==> !IsDigit(separator.value)
    requires if i + |digits| == limit then mayEnd else separator == Some(text[i + |digits|])
    ensures NumberUpTo(text, i, limit, 0, separator, mayEnd)
         == Some((U32(Value(digits)), i + |digits| + if i + |digits| == limit then 0 else 1))
  {
    hide Value, U32;
    ReadsPrefix(text, i, |digits|, limit, separator, mayEnd);
  }

  /** What was read is such a run. */
  lemma {:induction false} ReadIsRun(
    text: string, i: nat, limit: nat, acc: uint32, separator: Option<char>, mayEnd: bool)
    returns (end: nat)
    requires i <= limit <= |text| && NumberUpTo(text, i, limit, acc, separator, mayEnd).Some?
    ensures i <= end <= limit && AllDigits(text[i..end])
    ensures if end == limit then mayEnd else separator == Some(text[end])
    ensures NumberUpTo(text, i, limit, acc, separator, mayEnd).value.1 == if end == limit then end else end + 1
    decreases limit - i
  {
    if i == limit || separator == Some(text[i]) {
      end := i;
    } else {
      var next := U32(10 * acc + DigitValue(text[i]));
      end := ReadIsRun(text, i + 1, limit, next, separator, mayEnd);
      assert text[i..end] == [text[i]] + text[i + 1..end];
    }
  }

  // ----- dates

  function PrintDate(raw: int): string
  {
    DateString(SplitJulianDay(U32(raw)))
  }

  function DateString(date: Date): string
  {
    Padded(date.year, 4) + "-" + Padded(date.month, 2) + "-" + Padded(date.day, 2)
  }

  predicate InDateRange(date: Date)
  {
    date.year <= 9999 && 1 <= date.month <= 12 && 1 <= date.day <= 31
  }

  /** Year, month and day of a text; the day ends at `separator` or at the end. */
  function DateFields(text: string, from: nat, limit: nat, separator: Option<char>): (r: Option<(Date, nat)>)
    requires from <= limit <= |text|
    ensures r.Some? ==> r.value.1 <= limit
  {
    var year := NumberUpTo(text, from, limit, 0, Some('-'), false);
    if year.None? then None else
    var month := NumberUpTo(text, year.value.1, limit, 0, Some('-'), false);
    if month.None? then None else
    var day := NumberUpTo(text, month.value.1, limit, 0, separator, true);
    if day.None? then None else Some((Date(year.value.0, month.value.0, day.value.0), day.value.1))
  }

  function ParseDate(text: string): Option<uint32>
  {
    var iter := SkipSpaces(text, 0);
    var fields := DateFields(text, iter, DropSpaces(text, iter, |text|), None);
    if fields.Some? && InDateRange(fields.value.0) then Some(MergeJulianDay(fields.value.0)) else None
  }

  method CastStringToDateValue(text: string) returns (r: Option<uint32>)
    ensures r == ParseDate(text)
  {
    hide NumberUpTo, SkipSpaces, DropSpaces, MergeJulianDay;
    var iter, limit := Trim(text);
    var year := ReadNumber(text, iter, limit, Some('-'), false);
    if year.None? { return None; }
    var month := ReadNumber(text, year.value.1, limit, Some('-'), false);
    if month.None? { return None; }
    var day := ReadNumber(text, month.value.1, limit, None, true);
    if day.None? { return None; }
    var date := Date(year.value.0, month.value.0, day.value.0);
    if date.year > 9999 || date.month < 1 || date.month > 12 || date.day < 1 || date.day > 31 {
      return None;
    }
    return Some(MergeJulianDay(date));
  }

  // ----- the dates that are accepted

  /** Three runs of digits, of any length, also empty. */
  function DateForm(year: string, month: string, day: string): string
  {
    year + "-" + month + "-" + day
  }

  predicate DateDigits(year: string, month: string, day: string)
  {
    AllDigits(year) && AllDigits(month) && AllDigits(day)
  }

  /** The numbers as a 32-bit accumulator holds them. */
  function DateOf(year: string, month: string, day: string): Date
    requires DateDigits(year, month, day)
  {
    Date(U32(Value(year)), U32(Value(month)), U32(Value(day)))
  }

  /** Where the fields are in the text. */
  lemma DateFormParts(text: string, before: string, year: string, month: string, day: string, rest: string)
    requires text == before + DateForm(year, month, day) + rest
    ensures var m := |before| + |year| + 1;
            var d := m + |month| + 1;
            && d + |day| <= |text|
            && text[|before|..|before| + |year|] == year && text[m - 1] == '-'
            && text[m..m + |month|] == month && text[d - 1] == '-'
            && text[d..d + |day|] == day
            && (rest != [] ==> d + |day| < |text| && text[d + |day|] == rest[0])
            && |before| + |DateForm(year, month, day)| == d + |day|
  {
    var tail := day + rest;
    var middle := month + "-" + tail;
    var m, d := before + year + "-", before + year + "-" + month + "-";
    Nested(before, year, month, day, rest);
    NextField(text, before, year, '-', middle);
    NextField(text, m, month, '-', tail);
    LastField(text, d, day, rest);
  }

  lemma Nested(before: string, year: string, month: string, day: string, rest: string)
    ensures before + DateForm(year, month, day) + rest == before + (year + "-" + (month + "-" + (day + rest)))
  {
  }

  /** Cuts a field and its separator off the front of what is left of a text. */
  lemma NextField(text: string, before: string, field: string, separator: char, rest: string)
    requires text == before + (field + [separator] + rest)
    ensures var end := |before| + |field|;
            && text[|before|..end] == field && text[end] == separator
            && text == (before + field + [separator]) + rest
  {
  }

  lemma LastField(text: string, before: string, field: string, rest: string)
    requires text == before + (field + rest)
    ensures var end := |before| + |field|;
            && text[|before|..end] == field && |text| == end + |rest| && (rest != [] ==> text[end] == rest[0])
  {
  }

  lemma ReadsDateForm(text: string, before: string, year: string, month: string, day: string, rest: string,
                      limit: nat, separator: Option<char>)
    requires text == before + DateForm(year, month, day) + rest && DateDigits(year, month, day)
    requires separator.Some? ==> !IsDigit(separator.value)
    requires |before| + |DateForm(year, month, day)| <= limit <= |text|
    requires limit > |before| + |DateForm(year, month, day)| ==> rest != [] && separator == Some(rest[0])
    ensures var end := |before| + |DateForm(year, month, day)|;
            DateFields(text, |before|, limit, separator)
              == Some((DateOf(year, month, day), end + if end == limit then 0 else 1))
  {
    hide NumberUpTo, Value, U32, DateForm;
    DateFormParts(text, before, year, month, day, rest);
    var m := |before| + |year| + 1;
    var d := m + |month| + 1;
    ReadsRun(text, |before|, year, limit, Some('-'), false);
    ReadsRun(text, m, month, limit, Some('-'), false);
    ReadsRun(text, d, day, limit, separator, true);
  }

  /** What was read has that form. */
  lemma DateFieldsShape(text: string, from: nat, limit: nat, separator: Option<char>)
    returns (year: string, month: string, day: string)
    requires from <= limit <= |text| && DateFields(text, from, limit, separator).Some?
    ensures DateDigits(year, month, day)
    ensures var end := from + |DateForm(year, month, day)|;
            && end <= limit && text[from..end] == DateForm(year, month, day)
            && (end < limit ==> separator == Some(text[end]))
            && DateFields(text, from, limit, separator).value.1 == if end == limit then end else end + 1
  {
    hide NumberUpTo;
    var y := NumberUpTo(text, from, limit, 0, Some('-'), false);
    var m := NumberUpTo(text, y.value.1, limit, 0, Some('-'), false);
    var yEnd := ReadIsRun(text, from, limit, 0, Some('-'), false);
    var mEnd := ReadIsRun(text, y.value.1, limit, 0, Some('-'), false);
    var dEnd := ReadIsRun(text, m.value.1, limit, 0, separator, true);
    year, month, day := text[from..yEnd], text[yEnd + 1..mEnd], text[mEnd + 1..dEnd];
    Joined(text, from, yEnd, mEnd, dEnd, "-");
  }

  lemma Joined(text: string, a: nat, b: nat, c: nat, d: nat, separator: string)
    requires a <= b < c < d <= |text|
    requires |separator| == 1 && text[b] == separator[0] && text[c] == separator[0]
    ensures text[a..d] == text[a..b] + separator + text[b + 1..c] + separator + text[c + 1..d]
  {
  }

  datatype DateParts = DateParts(before: string, year: string, month: string, day: string, after: string)

  /** The fields of a date between spaces. */
  predicate IsDateText(text: string, p: DateParts)
  {
    && AllSpaces(p.before) && AllSpaces(p.after) && DateDigits(p.year, p.month, p.day)
    && text == p.before + DateForm(p.year, p.month, p.day) + p.after
  }

  lemma ParsesDateText(text: string, p: DateParts)
    requires IsDateText(text, p)
    ensures var date := DateOf(p.year, p.month, p.day);
            ParseDate(text) == if InDateRange(date) then Some(MergeJulianDay(date)) else None
  {
    hide NumberUpTo, DateFields, Value, U32, MergeJulianDay;
    var form := DateForm(p.year, p.month, p.day);
    DateFormIsTight(p.year, p.month, p.day);
    TrimFinds(p.before, form, p.after);
    ReadsDateForm(text, p.before, p.year, p.month, p.day, p.after, |p.before| + |form|, None);
  }

  lemma DateFormIsTight(year: string, month: string, day: string)
    requires DateDigits(year, month, day)
    ensures DateForm(year, month, day) != [] && Tight(DateForm(year, month, day))
    ensures DateForm(year, month, day)[0] != ' '
  {
    var form := DateForm(year, month, day);
    assert form[0] == if year == [] then '-' else year[0];
    assert form[|form| - 1] == if day == [] then '-' else day[|day| - 1];
  }

  /** A date text whose numbers, as 32-bit accumulators hold them, are in range. */
  predicate IsAcceptedDate(text: string, p: DateParts)
  {
    IsDateText(text, p) && InDateRange(DateOf(p.year, p.month, p.day))
  }

  /** The parser accepts exactly these texts; ParsesDateText says what it returns. */
  lemma AcceptedDates(text: string)
    ensures ParseDate(text).Some? <==> exists p :: IsAcceptedDate(text, p)
  {
    hide ParseDate, DateOf, DateForm, DateDigits;
    if ParseDate(text).Some? {
      var p := DateShape(text);
      ParsesDateText(text, p);
      assert IsAcceptedDate(text, p);
    }
    if p :| IsAcceptedDate(text, p) {
      ParsesDateText(text, p);
    }
  }

  lemma DateShape(text: string) returns (p: DateParts)
    requires ParseDate(text).Some?
    ensures IsDateText(text, p)
  {
    hide NumberUpTo, DateFields, DateForm, U32, MergeJulianDay, Value, SkipSpaces, DropSpaces, AllSpaces;
    TrimCuts(text);
    var iter := SkipSpaces(text, 0);
    var limit := DropSpaces(text, iter, |text|);
    Cut(text, iter, limit);
    var year, month, day := DateFieldsShape(text, iter, limit, None);
    p := DateParts(text[..iter], year, month, day, text[limit..]);
  }

  function PrintedParts(date: Date): DateParts
  {
    DateParts([], Padded(date.year, 4), Padded(date.month, 2), Padded(date.day, 2), [])
  }

  lemma PrintedIsForm(date: Date)
    ensures IsDateText(DateString(date), PrintedParts(date))
    ensures DateOf(Padded(date.year, 4), Padded(date.month, 2), Padded(date.day, 2)) == date
  {
    hide Padded, Value;
    ValuePadded(date.year, 4);
    ValuePadded(date.month, 2);
    ValuePadded(date.day, 2);
    assert DateString(date) == [] + DateString(date) + [];
  }

  lemma ParsePrinted(date: Date)
    ensures ParseDate(DateString(date)) == if InDateRange(date) then Some(MergeJulianDay(date)) else None
  {
    hide DateString, ParseDate, MergeJulianDay, IsDateText;
    PrintedIsForm(date);
    ParsesDateText(DateString(date), PrintedParts(date));
  }

  lemma DateStringIsInjective(x: Date, y: Date)
    requires DateString(x) == DateString(y)
    ensures x == y
  {
    hide DateString, DateFields, DateForm, DateOf;
    ReadsDateString(x);
    ReadsDateString(y);
  }

  lemma ReadsDateString(date: Date)
    ensures DateFields(DateString(date), 0, |DateString(date)|, None) == Some((date, |DateString(date)|))
  {
    hide Padded, DateFields, DateOf;
    var year, month, day := Padded(date.year, 4), Padded(date.month, 2), Padded(date.day, 2);
    PrintedIsForm(date);
    ReadsDateForm(DateString(date), [], year, month, day, [], |DateString(date)|, None);
  }

  /** Parsing a printed date returns the raw value. */
  lemma DateRoundTrip(raw: uint32)
    requires MergeJulianDay(FIRST) <= raw <= MergeJulianDay(LAST)
    ensures ParseDate(PrintDate(raw)) == Some(raw)
  {
    hide MergeJulianDay, SplitJulianDay, DateString, ParseDate;
    EveryDayHasADate(raw);
    ParsePrinted(SplitJulianDay(raw));
  }

  /** An accepted text prints back unchanged if and only if it is the printed form of a real date. */
  lemma PrintsBackIffRealDate(text: string)
    requires ParseDate(text).Some?
    ensures PrintDate(ParseDate(text).value) == text <==> exists date :: RealDate(date) && text == DateString(date)
  {
    hide MergeJulianDay, SplitJulianDay, DateString, NumberUpTo;
    var raw := ParseDate(text).value;
    AcceptedInRange(text);
    EveryDayHasADate(raw);
    if PrintDate(raw) == text {
      assert RealDate(SplitJulianDay(raw)) && text == DateString(SplitJulianDay(raw));
    }
    if date :| RealDate(date) && text == DateString(date) {
      ParsePrinted(date);
      SplitInvertsMerge(date);
    }
  }

  lemma AcceptedInRange(text: string)
    requires ParseDate(text).Some?
    ensures MergeJulianDay(FIRST) <= ParseDate(text).value <= MergeJulianDay(LAST)
  {
    hide MergeJulianDay, NumberUpTo, DateFields;
    var iter := SkipSpaces(text, 0);
    var fields := DateFields(text, iter, DropSpaces(text, iter, |text|), None);
    MergeInDateRange(fields.value.0);
  }

  lemma MergeInDateRange(date: Date)
    requires InDateRange(date)
    ensures MergeJulianDay(FIRST) <= MergeJulianDay(date) <= MergeJulianDay(LAST)
  {
    hide MergeJulianDay, DaysBeforeYear, LeapYear;
    var start := Date(date.year, date.month, 1);
    MergeIsSum(date);
    MergeIsSum(start);
    DayNumbersOrderAsDates(FIRST, start);
    if date.month == 12 {
      DayNumbersOrderAsDates(date, LAST);
    } else {
      var later := Date(date.year, date.month + 1, 3);
      MergeIsSum(later);
      DayNumbersOrderAsDates(later, LAST);
      if date.month == 2 {
        YearLength(date.year);
      } else {
        MonthLength(date.year, date.month);
      }
    }
  }

  lemma ParsesOneDigitFields(year: string)
    requires AllDigits(year) && U32(Value(year)) <= 9999
    ensures ParseDate(year + "-1-1") == Some(MergeJulianDay(Date(U32(Value(year)), 1, 1)))
  {
    hide MergeJulianDay, ParseDate, U32;
    var text := year + "-1-1";
    assert text == [] + DateForm(year, "1", "1") + [];
    ParsesDateText(text, DateParts([], year, "1", "1", []));
    assert Value("1") == 1 by { ValueDecimal(1); }
    assert U32(1) == 1 by { SmallNumber(1); }
  }

  /** The first of January without leading zeros is accepted and prints differently. */
  lemma ShortDatePrintsLonger()
    ensures ParseDate("2020-1-1") == Some(MergeJulianDay(Date(2020, 1, 1)))
    ensures PrintDate(ParseDate("2020-1-1").value) != "2020-1-1"
  {
    hide MergeJulianDay, ParseDate, U32;
    assert Decimal(2020) == "2020";
    ValueDecimal(2020);
    SmallNumber(2020);
    ParsesOneDigitFields("2020");
    assert "2020" + "-1-1" == "2020-1-1";
    PrintedDatesAreLong(SplitJulianDay(ParseDate("2020-1-1").value));
    SmallNumber(ParseDate("2020-1-1").value);
  }

  lemma PrintedDatesAreLong(date: Date)
    ensures |DateString(date)| >= 10
  {
  }

  /** The 31st of February is accepted as the second or third of March. */
  lemma FebruaryIsAcceptedTo31(year: uint32)
    requires year <= 9999
    ensures ParseDate(DateString(Date(year, 2, 31))).Some?
    ensures PrintDate(ParseDate(DateString(Date(year, 2, 31))).value)
         == DateString(Date(year, 3, if LeapYear(year) then 2 else 3))
  {
    hide MergeJulianDay, SplitJulianDay, DateString, ParseDate;
    var date, march := Date(year, 2, 31), Date(year, 3, if LeapYear(year) then 2 else 3);
    ParsePrinted(date);
    MergeIsSum(date);
    MergeIsSum(march);
    YearLength(year);
    assert MergeJulianDay(date) == MergeJulianDay(march);
    SplitInvertsMerge(march);
  }

  /** A year of ten digits is accepted as its low 32 bits. */
  lemma LargeYearIsAccepted()
    ensures ParseDate(Decimal(4_294_969_316) + "-1-1") == Some(MergeJulianDay(Date(2020, 1, 1)))
  {
    hide MergeJulianDay, ParseDate, Decimal;
    assert U32(4_294_969_316) == 2020;
    ValueDecimal(4_294_969_316);
    ParsesOneDigitFields(Decimal(4_294_969_316));
  }

  /** What is printed, character by character. */
  lemma DateStringIs(date: Date)
    requires InDateRange(date)
    ensures var (y, m, d) := (date.year, date.month, date.day);
            DateString(date) == [Digit(y / 1000), Digit(y / 100 % 10), Digit(y / 10 % 10), Digit(y % 10), '-',
                                 Digit(m / 10), Digit(m % 10), '-', Digit(d / 10), Digit(d % 10)]
  {
    hide Padded;
    FourDigits(date.year);
    TwoDigits(date.month);
    TwoDigits(date.day);
  }

  // ----- timestamps: milliseconds since the first Julian day, in 64 bits

  function TimestampString(date: Date, time: Time): string
  {
    DateString(date) + " " + TimeString(time)
  }

  function TimeString(time: Time): string
  {
    Padded(time.hour, 0) + ":" + Padded(time.minute, 2) + ":" + Padded(time.second, 2)
      + if time.ms != 0 then "." + Padded(time.ms, 3) else ""
  }

  function PrintTimestamp(raw: nat): string
  {
    TimestampString(SplitJulianDay(U32(raw / MS_PER_DAY)), SplitTime(raw % MS_PER_DAY))
  }

  function TimeFields(text: string, from: nat, limit: nat): Option<Time>
    requires from <= limit <= |text|
  {
    var hour := NumberUpTo(text, from, limit, 0, Some(':'), false);
    if hour.None? then None else
    var minute := NumberUpTo(text, hour.value.1, limit, 0, Some(':'), false);
    if minute.None? then None else
    var second := NumberUpTo(text, minute.value.1, limit, 0, Some('.'), true);
    if second.None? then None else
    var ms := NumberUpTo(text, second.value.1, limit, 0, None, true);
    if ms.None? then None else Some(Time(hour.value.0, minute.value.0, second.value.0, ms.value.0))
  }

  function Timestamp(date: Date, time: Time): nat
  {
    MergeJulianDay(date) * MS_PER_DAY + MergeTime(time)
  }

  /** The hour has no leading zero, and milliseconds are printed only if there are any. */
  lemma TimeStringIs(time: Time)
    requires RealTime(time)
    ensures var (m, s, ms) := (time.minute, time.second, time.ms);
            TimeString(time)
              == (if time.hour < 10 then [Digit(time.hour)] else [Digit(time.hour / 10), Digit(time.hour % 10)])
              + [':', Digit(m / 10), Digit(m % 10), ':', Digit(s / 10), Digit(s % 10)]
              + if ms == 0 then [] else ['.', Digit(ms / 100), Digit(ms / 10 % 10), Digit(ms % 10)]
  {
    hide Padded;
    NoPadding(time.hour);
    TwoDigits(time.minute);
    TwoDigits(time.second);
    ThreeDigits(time.ms);
  }

  /** Timestamps are ordered by date and time. */
  lemma TimestampsOrder(x: Date, s: Time, y: Date, t: Time)
    requires RealDate(x) && RealTime(s) && RealDate(y) && RealTime(t)
    ensures Timestamp(x, s) < Timestamp(y, t) <==> Before(x, y) || (x == y && Sooner(s, t))
  {
    hide MergeJulianDay, MergeTime;
    SplitInvertsMergeTime(s);
    SplitInvertsMergeTime(t);
    TimeNumbersOrderAsTimes(s, t);
    DayNumbersOrderAsDates(x, y);
    DayNumbersOrderAsDates(y, x);
    PairsOrder(MergeJulianDay(x), MergeTime(s), MergeJulianDay(y), MergeTime(t));
  }

  lemma PairsOrder(a: nat, s: nat, b: nat, t: nat)
    requires s < MS_PER_DAY && t < MS_PER_DAY
    ensures a * MS_PER_DAY + s < b * MS_PER_DAY + t <==> a < b || (a == b && s < t)
  {
  }

  /** And the first millisecond of a day follows the last of the day before. */
  lemma MidnightFollows(date: Date)
    requires RealDate(date)
    ensures Timestamp(Tomorrow(date), MIDNIGHT) == Timestamp(date, LAST_MS) + 1
  {
    hide MergeJulianDay, MergeTime;
    ConsecutiveDays(date);
    ConsecutiveTimes(MIDNIGHT);
  }

  function ParseTimestamp(text: string): Option<nat>
  {
    var iter := SkipSpaces(text, 0);
    var limit := DropSpaces(text, iter, |text|);
    var date := DateFields(text, iter, limit, Some(' '));
    if date.None? || !InDateRange(date.value.0) then None else
    var time := TimeFields(text, date.value.1, limit);
    if time.None? || !RealTime(time.value) then None else Some(Timestamp(date.value.0, time.value))
  }

  method CastStringToTimestampValue(text: string) returns (r: Option<nat>)
    ensures r == ParseTimestamp(text)
  {
    hide NumberUpTo, SkipSpaces, DropSpaces, MergeJulianDay, MergeTime;
    var iter, limit := Trim(text);
    var year := ReadNumber(text, iter, limit, Some('-'), false);
    if year.None? { return None; }
    var month := ReadNumber(text, year.value.1, limit, Some('-'), false);
    if month.None? { return None; }
    var day := ReadNumber(text, month.value.1, limit, Some(' '), true);
    if day.None? { return None; }
    var date := Date(year.value.0, month.value.0, day.value.0);
    if date.year > 9999 || date.month < 1 || date.month > 12 || date.day < 1 || date.day > 31 {
      return None;
    }
    var julian := MergeJulianDay(date);
    var hour := ReadNumber(text, day.value.1, limit, Some(':'), false);
    if hour.None? { return None; }
    var minute := ReadNumber(text, hour.value.1, limit, Some(':'), false);
    if minute.None? { return None; }
    var second := ReadNumber(text, minute.value.1, limit, Some('.'), true);
    if second.None? { return None; }
    var ms := ReadNumber(text, second.value.1, limit, None, true);
    if ms.None? { return None; }
    var time := Time(hour.value.0, minute.value.0, second.value.0, ms.value.0);
    if time.hour >= 24 || time.minute >= 60 || time.second >= 60 || time.ms >= 1000 {
      return None;
    }
    return Some(julian * MS_PER_DAY + MergeTime(time));
  }

  // ----- the timestamps that are accepted

  /** Hours, minutes and seconds, and milliseconds behind a point. */
  function TimeForm(hour: string, minute: string, second: string, dotted: bool, ms: string): string
  {
    hour + ":" + minute + ":" + second + if dotted then "." + ms else ""
  }

  predicate TimeDigits(hour: string, minute: string, second: string, dotted: bool, ms: string)
  {
    AllDigits(hour) && AllDigits(minute) && AllDigits(second) && AllDigits(ms) && (!dotted ==> ms == "")
  }

  function TimeOf(hour: string, minute: string, second: string, dotted: bool, ms: string): Time
    requires TimeDigits(hour, minute, second, dotted, ms)
  {
    Time(U32(Value(hour)), U32(Value(minute)), U32(Value(second)), U32(Value(ms)))
  }

  /** Where the fields are in the text. */
  lemma TimeFormParts(text: string, before: string, hour: string, minute: string, second: string,
                      dotted: bool, ms: string, after: string)
    requires text == before + TimeForm(hour, minute, second, dotted, ms) + after && (!dotted ==> ms == "")
    ensures var m := |before| + |hour| + 1;
            var s := m + |minute| + 1;
            var end := s + |second|;
            && end <= |text|
            && text[|before|..|before| + |hour|] == hour && text[m - 1] == ':'
            && text[m..m + |minute|] == minute && text[s - 1] == ':'
            && text[s..end] == second
            && (dotted ==> end + 1 + |ms| <= |text| && text[end] == '.' && text[end + 1..end + 1 + |ms|] == ms)
            && |before| + |TimeForm(hour, minute, second, dotted, ms)| == end + if dotted then 1 + |ms| else 0
  {
    var tail := (if dotted then "." + ms else "") + after;
    var m, s := before + hour + ":", before + hour + ":" + minute + ":";
    NestedTime(before, hour, minute, second, if dotted then "." + ms else "", after);
    NextField(text, before, hour, ':', minute + ":" + (second + tail));
    NextField(text, m, minute, ':', second + tail);
    LastField(text, s, second, tail);
    if dotted {
      PointAndMs(text, s + second, ms, after);
    }
  }

  lemma NestedTime(before: string, hour: string, minute: string, second: string, tail: string, after: string)
    ensures before + (hour + ":" + minute + ":" + second + tail) + after
         == before + (hour + ":" + (minute + ":" + (second + (tail + after))))
  {
  }

  lemma PointAndMs(text: string, before: string, ms: string, after: string)
    requires text == before + ("." + ms + after)
    ensures var end := |before|;
            end + 1 + |ms| <= |text| && text[end] == '.' && text[end + 1..end + 1 + |ms|] == ms
  {
  }

  lemma ReadsTimeForm(text: string, before: string, hour: string, minute: string, second: string,
                      dotted: bool, ms: string, after: string, limit: nat)
    requires TimeDigits(hour, minute, second, dotted, ms)
    requires text == before + TimeForm(hour, minute, second, dotted, ms) + after
    requires limit == |before| + |TimeForm(hour, minute, second, dotted, ms)|
    ensures TimeFields(text, |before|, limit) == Some(TimeOf(hour, minute, second, dotted, ms))
  {
    hide NumberUpTo, Value, U32, TimeForm;
    TimeFormParts(text, before, hour, minute, second, dotted, ms, after);
    var m := |before| + |hour| + 1;
    var s := m + |minute| + 1;
    var end := s + |second|;
    ReadsRun(text, |before|, hour, limit, Some(':'), false);
    ReadsRun(text, m, minute, limit, Some(':'), false);
    ReadsRun(text, s, second, limit, Some('.'), true);
    ReadsRun(text, if dotted then end + 1 else end, ms, limit, None, true);
  }

  lemma TimeFieldsShape(text: string, from: nat, limit: nat)
    returns (hour: string, minute: string, second: string, dotted: bool, ms: string)
    requires from <= limit <= |text| && TimeFields(text, from, limit).Some?
    ensures TimeDigits(hour, minute, second, dotted, ms)
    ensures text[from..limit] == TimeForm(hour, minute, second, dotted, ms)
  {
    hide NumberUpTo;
    var h := NumberUpTo(text, from, limit, 0, Some(':'), false);
    var m := NumberUpTo(text, h.value.1, limit, 0, Some(':'), false);
    var s := NumberUpTo(text, m.value.1, limit, 0, Some('.'), true);
    var hEnd := ReadIsRun(text, from, limit, 0, Some(':'), false);
    var mEnd := ReadIsRun(text, h.value.1, limit, 0, Some(':'), false);
    var sEnd := ReadIsRun(text, m.value.1, limit, 0, Some('.'), true);
    var msEnd := ReadIsRun(text, s.value.1, limit, 0, None, true);
    hour, minute, second := text[from..hEnd], text[hEnd + 1..mEnd], text[mEnd + 1..sEnd];
    dotted := sEnd < limit;
    ms := if dotted then text[sEnd + 1..limit] else "";
    Joined(text, from, hEnd, mEnd, sEnd, ":");
    assert text[from..limit] == text[from..sEnd] + text[sEnd..limit];
    assert dotted ==> text[sEnd..limit] == "." + ms;
  }

  datatype StampParts = StampParts(
    before: string, year: string, month: string, day: string,
    hour: string, minute: string, second: string, dotted: bool, ms: string, after: string)

  /** A date, one space and a time, between spaces. */
  predicate IsStampText(text: string, p: StampParts)
  {
    && AllSpaces(p.before) && AllSpaces(p.after)
    && DateDigits(p.year, p.month, p.day) && TimeDigits(p.hour, p.minute, p.second, p.dotted, p.ms)
    && text == p.before + (DateForm(p.year, p.month, p.day) + " "
                           + TimeForm(p.hour, p.minute, p.second, p.dotted, p.ms)) + p.after
  }

  function StampDate(p: StampParts): Date
    requires DateDigits(p.year, p.month, p.day)
  {
    DateOf(p.year, p.month, p.day)
  }

  function StampTime(p: StampParts): Time
    requires TimeDigits(p.hour, p.minute, p.second, p.dotted, p.ms)
  {
    TimeOf(p.hour, p.minute, p.second, p.dotted, p.ms)
  }

  lemma ParsesStampText(text: string, p: StampParts)
    requires IsStampText(text, p)
    ensures ParseTimestamp(text) == if InDateRange(StampDate(p)) && RealTime(StampTime(p))
                                    then Some(Timestamp(StampDate(p), StampTime(p))) else None
  {
    hide NumberUpTo, DateFields, TimeFields, DateOf, TimeOf, DateForm, TimeForm, Timestamp;
    var date, time := DateForm(p.year, p.month, p.day), TimeForm(p.hour, p.minute, p.second, p.dotted, p.ms);
    var middle := date + " " + time;
    var limit := |p.before| + |middle|;
    StampIsTight(p);
    TrimFinds(p.before, middle, p.after);
    Halves(p.before, date, time, p.after);
    ReadsDateForm(text, p.before, p.year, p.month, p.day, " " + time + p.after, limit, Some(' '));
    ReadsTimeForm(text, p.before + date + " ", p.hour, p.minute, p.second, p.dotted, p.ms, p.after, limit);
  }

  lemma Halves(before: string, date: string, time: string, after: string)
    ensures var text := before + (date + " " + time) + after;
            text == before + date + (" " + time + after) && text == (before + date + " ") + time + after
  {
  }

  lemma StampIsTight(p: StampParts)
    requires DateDigits(p.year, p.month, p.day) && TimeDigits(p.hour, p.minute, p.second, p.dotted, p.ms)
    ensures var middle := DateForm(p.year, p.month, p.day) + " " + TimeForm(p.hour, p.minute, p.second, p.dotted, p.ms);
            middle != [] && Tight(middle)
  {
    DateFormIsTight(p.year, p.month, p.day);
    var date, time := DateForm(p.year, p.month, p.day), TimeForm(p.hour, p.minute, p.second, p.dotted, p.ms);
    TimeFormEnds(p.hour, p.minute, p.second, p.dotted, p.ms);
    assert (date + " " + time)[0] == date[0];
    assert (date + " " + time)[|date + " " + time| - 1] == time[|time| - 1];
  }

  lemma TimeFormEnds(hour: string, minute: string, second: string, dotted: bool, ms: string)
    requires TimeDigits(hour, minute, second, dotted, ms)
    ensures var time := TimeForm(hour, minute, second, dotted, ms);
            time != [] && time[|time| - 1] != ' '
  {
    var time := TimeForm(hour, minute, second, dotted, ms);
    var last := if dotted then "." + ms else ":" + second;
    assert time[|time| - 1] == last[|last| - 1];
  }

  /** Such a text whose numbers, as 32-bit accumulators hold them, are in range. */
  predicate IsAcceptedStamp(text: string, p: StampParts)
  {
    IsStampText(text, p) && InDateRange(StampDate(p)) && RealTime(StampTime(p))
  }

  /** The parser accepts exactly these texts; ParsesStampText says what it returns. */
  lemma AcceptedTimestamps(text: string)
    ensures ParseTimestamp(text).Some? <==> exists p :: IsAcceptedStamp(text, p)
  {
    hide ParseTimestamp, DateOf, TimeOf, DateForm, TimeForm;
    if ParseTimestamp(text).Some? {
      var p := StampShape(text);
      ParsesStampText(text, p);
      assert IsAcceptedStamp(text, p);
    }
    if p :| IsAcceptedStamp(text, p) {
      ParsesStampText(text, p);
    }
  }

  lemma NoTimeAtEnd(text: string, limit: nat)
    requires limit <= |text|
    ensures TimeFields(text, limit, limit).None?
  {
  }

  lemma StampShape(text: string) returns (p: StampParts)
    requires ParseTimestamp(text).Some?
    ensures IsStampText(text, p)
  {
    hide NumberUpTo, DateFields, TimeFields, DateForm, TimeForm, Timestamp, SkipSpaces, DropSpaces,
         AllSpaces, DateDigits, TimeDigits, InDateRange, RealTime;
    TrimCuts(text);
    var iter := SkipSpaces(text, 0);
    var limit := DropSpaces(text, iter, |text|);
    Cut(text, iter, limit);
    var year, month, day := DateFieldsShape(text, iter, limit, Some(' '));
    var end := iter + |DateForm(year, month, day)|;
    NoTimeAtEnd(text, limit);
    var hour, minute, second, dotted, ms := TimeFieldsShape(text, end + 1, limit);
    p := StampParts(text[..iter], year, month, day, hour, minute, second, dotted, ms, text[limit..]);
    Spaced(text, iter, end, limit);
  }

  lemma Spaced(text: string, a: nat, b: nat, c: nat)
    requires a <= b < c <= |text| && text[b] == ' '
    ensures text[a..c] == text[a..b] + " " + text[b + 1..c]
  {
  }

  lemma ParsePrintedTimestamp(date: Date, time: Time)
    requires InDateRange(date) && RealTime(time)
    ensures ParseTimestamp(TimestampString(date, time)) == Some(Timestamp(date, time))
  {
    hide ParseTimestamp, Padded, DateForm, DateString, TimeString, TimeForm, Timestamp, IsDateText, DateOf, TimeOf;
    var dotted, ms := time.ms != 0, if time.ms != 0 then Padded(time.ms, 3) else "";
    var p := StampParts([], Padded(date.year, 4), Padded(date.month, 2), Padded(date.day, 2),
                        Padded(time.hour, 0), Padded(time.minute, 2), Padded(time.second, 2), dotted, ms, []);
    var text := TimestampString(date, time);
    PrintedDateIsForm(date);
    PrintedTimeIsForm(time);
    assert text == [] + text + [];
    ParsesStampText(text, p);
  }

  lemma PrintedDateIsForm(date: Date)
    ensures DateString(date) == DateForm(Padded(date.year, 4), Padded(date.month, 2), Padded(date.day, 2))
    ensures DateOf(Padded(date.year, 4), Padded(date.month, 2), Padded(date.day, 2)) == date
  {
    PrintedIsForm(date);
  }

  lemma PrintedTimeIsForm(time: Time)
    ensures var dotted, ms := time.ms != 0, if time.ms != 0 then Padded(time.ms, 3) else "";
            var hour, minute, second := Padded(time.hour, 0), Padded(time.minute, 2), Padded(time.second, 2);
            && TimeString(time) == TimeForm(hour, minute, second, dotted, ms)
            && TimeOf(hour, minute, second, dotted, ms) == time
  {
    hide Padded, Value;
    ValuePadded(time.hour, 0);
    ValuePadded(time.minute, 2);
    ValuePadded(time.second, 2);
    ValuePadded(time.ms, 3);
    ValueZeros("");
  }

  /** Parsing a printed timestamp returns the raw value. */
  lemma TimestampRoundTrip(raw: nat)
    requires MergeJulianDay(FIRST) * MS_PER_DAY <= raw < (MergeJulianDay(LAST) + 1) * MS_PER_DAY
    ensures ParseTimestamp(PrintTimestamp(raw)) == Some(raw)
  {
    hide MergeJulianDay, SplitJulianDay, SplitTime, MergeTime, ParseTimestamp, TimestampString;
    var day := raw / MS_PER_DAY;
    assert MergeJulianDay(FIRST) <= day <= MergeJulianDay(LAST);
    EveryDayHasADate(day);
    MergeInvertsSplitTime(raw % MS_PER_DAY);
    ParsePrintedTimestamp(SplitJulianDay(day), SplitTime(raw % MS_PER_DAY));
  }
}
