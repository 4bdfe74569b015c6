/** Two places where the handler's code does not do what its names and
    documentation say, each shown on an input, with a corrected definition
    and the property it was meant to have.

    Week bounds: `getBeginningDateOfWeek` steps back by the full
    day-of-week code (Sunday = 1 ... Saturday = 7), so it lands on the
    Saturday before the day, and a Saturday is never inside the week the
    two bounds describe. The corrected week runs from the Sunday on or
    before the day to the Saturday on or after it.

    Day-first patterns: `spritDate` always cuts the stripped digits as
    year 4, month 2, day 2; under "dd.MM.yyyy" or "dd/MM/yyyy" it reads
    day and month as the year and the year as month and day. The corrected
    operations take the fields from the date the text parses to. */
module Findings {
  import opened Outcomes
  import opened Decimal
  import opened Gregorian
  import opened DateFormat
  import opened CalendarInfoEnum
  import opened FormatInfoEnum
  import opened CalendarHandler
  import opened HandlerProperties

  // ---------------------------------------------------------------------
  // Week bounds, as written

  /** The week start of any day lies before it, so no day is its own week
      start, and a Saturday lies after its own week end. */
  lemma WeekStartNeverTheDay(d: Date)
    requires Valid(d)
    ensures WeekStart(d) != d
    ensures WeekdayCode(d) == 7 ==> DayNumber(WeekEnd(d)) < DayNumber(d)
  {
    var b := WeekStart(d);
    WeekdayAfterDays(d, -WeekdayCode(d));
    WeekdayAfterDays(b, 6);
  }

  /** Saturday 2019-02-16: the week is 2019-02-09 to 2019-02-15. */
  lemma WeekOfFebruarySixteenth(d: Date)
    requires d.year == 2019 && d.month == 2 && d.day == 16
    ensures Valid(d)
    ensures WeekStart(d) == Date(2019, 2, 9) && WeekEnd(d) == Date(2019, 2, 15)
  {
    assert DaysBeforeYear(2019) == 737059;
    assert DayNumber(d) == 737105;
    var b := WeekStart(d);
    DayNumberInjective(b, Date(2019, 2, 9));
    DayNumberInjective(WeekEnd(d), Date(2019, 2, 15));
  }

  // ---------------------------------------------------------------------
  // Week bounds, corrected

  /** The Sunday on or before the day. */
  function SundayWeekStart(d: Date): (b: Date)
    requires Valid(d)
    ensures Valid(b) && WeekdayCode(b) == 1
    ensures DayNumber(d) - 6 <= DayNumber(b) <= DayNumber(d)
  {
    WeekdayAfterDays(d, 1 - WeekdayCode(d));
    AddDays(d, 1 - WeekdayCode(d))
  }

  /** The Saturday on or after the day. */
  function SaturdayWeekEnd(d: Date): (e: Date)
    requires Valid(d)
    ensures Valid(e) && WeekdayCode(e) == 7
    ensures DayNumber(d) <= DayNumber(e) <= DayNumber(d) + 6
  {
    var b := SundayWeekStart(d);
    DaysIntoSundayWeek(b, 6);
    AddDays(b, 6)
  }

  /** The k-th day after a Sunday, for k below 7, has code k + 1. */
  lemma DaysIntoSundayWeek(b: Date, k: int)
    requires Valid(b) && WeekdayCode(b) == 1 && 0 <= k <= 6
    ensures WeekdayCode(AddDays(b, k)) == k + 1
  {
    CodeWithinWeek(DayNumber(b), DayNumber(AddDays(b, k)), k);
  }

  /** Every day of a corrected week has that week's start: the start of a
      start is itself, and the week is the seven days from it. */
  lemma SundayWeekIsStable(d: Date, x: Date)
    requires Valid(d) && Valid(x)
    requires DayNumber(SundayWeekStart(d)) <= DayNumber(x) <= DayNumber(SaturdayWeekEnd(d))
    ensures SundayWeekStart(x) == SundayWeekStart(d)
    ensures DayNumber(SaturdayWeekEnd(d)) == DayNumber(SundayWeekStart(d)) + 6
  {
    var b := SundayWeekStart(d);
    var k := DayNumber(x) - DayNumber(b);
    assert 0 <= k <= 6;
    assert AddDays(b, k) == x by {
      DayNumberInjective(AddDays(b, k), x);
    }
    DaysIntoSundayWeek(b, k);
    var s := SundayWeekStart(x);
    assert DayNumber(s) == DayNumber(x) - k;
    DayNumberInjective(s, b);
  }

  /** The corrected week of 2019-02-16 runs from 2019-02-10 to the day
      itself. */
  lemma SundayWeekOfFebruarySixteenth(d: Date)
    requires d.year == 2019 && d.month == 2 && d.day == 16
    ensures Valid(d)
    ensures SundayWeekStart(d) == Date(2019, 2, 10) && SaturdayWeekEnd(d) == d
  {
    assert DaysBeforeYear(2019) == 737059;
    assert DayNumber(d) == 737105;
    DayNumberInjective(SundayWeekStart(d), Date(2019, 2, 10));
    DayNumberInjective(SaturdayWeekEnd(d), d);
  }

  // ---------------------------------------------------------------------
  // Day-first patterns, as written

  /** Day, separator, month, the same separator, four-digit year. */
  predicate DayFirst(layout: seq<Token>) {
    |layout| == 5 && layout[0] == Day2 && layout[1].Sep? && layout[2] == Month2
    && layout[3] == layout[1] && layout[4] == Year4
  }

  /** A day-first layout carries a four-digit year, so every domain date
      survives format and parse. */
  lemma DayFirstReadable(layout: seq<Token>, centuryStart: int, d: Date)
    requires DayFirst(layout) && InDomain(d)
    ensures Readable(layout, centuryStart, d)
  {
    assert layout == [Day2, layout[1], Month2, layout[1], Year4];
  }

  /** The field digits of a day-first layout: day, month, year. */
  lemma DayFirstFieldText(layout: seq<Token>, d: Date)
    requires DayFirst(layout) && InDomain(d)
    ensures FieldText(layout, d) == Digits(d.day, 2) + Digits(d.month, 2) + Digits(d.year, 4)
  {
    RenderWidth(Year4, d);
    RenderWidth(Month2, d);
    RenderWidth(Day2, d);
    var last := layout[4..];
    assert FieldText(last, d) == Digits(d.year, 4) + FieldText(last[1..], d);
    assert last[1..] == [];
    assert layout[1..][1..][1..][1..] == last;
    assert FieldText(layout[2..], d) == Digits(d.month, 2) + Digits(d.year, 4);
  }

  /** What the year-first cut reads from day-first digits: day and month
      as the year, the century as the month, the last two year digits as
      the day. */
  lemma MisreadSlices(d: Date, century: int, yy: int)
    requires InDomain(d) && d.year == century * 100 + yy && 0 <= yy < 100
    ensures var m := Slices(Digits(d.day, 2) + Digits(d.month, 2) + Digits(d.year, 4));
      && Value(m["yyyy"]) == d.day * 100 + d.month
      && Value(m["MM"]) == century && Value(m["dd"]) == yy
  {
    var da := Digits(d.day, 2);
    var mo := Digits(d.month, 2);
    var y := Digits(d.year, 4);
    var m := Slices(da + mo + y);
    assert m["yyyy"] == da + mo && m["MM"] == y[..2] && m["dd"] == y[2..];
    DayMonthValue(d);
    YearHalves(d.year, century, yy);
  }

  /** Day and month digits read together as one number. */
  lemma DayMonthValue(d: Date)
    requires Valid(d)
    ensures Value(Digits(d.day, 2) + Digits(d.month, 2)) == d.day * 100 + d.month
  {
    assert Pow10(2) == 100;
    ValueOfDigits(d.day, 2);
    ValueOfDigits(d.month, 2);
    ValueAppend(Digits(d.day, 2), Digits(d.month, 2));
  }

  /** The two halves of a four-digit year read as its century and its last
      two digits. */
  lemma YearHalves(year: nat, century: int, yy: int)
    requires year < 10000 && year == century * 100 + yy && 0 <= yy < 100
    ensures var y := Digits(year, 4);
      Value(y[..2]) == century && Value(y[2..]) == yy
  {
    var y := Digits(year, 4);
    assert Pow10(2) == 100 && Pow10(4) == 10000;
    ValueOfDigits(year, 4);
    assert y == y[..2] + y[2..];
    ValueAppend(y[..2], y[2..]);
  }

  /** Under a day-first pattern the split of a rendered date holds day and
      month under the year key, the century under the month key and the
      last two year digits under the day key. */
  lemma DayFirstSplit(cfg: Config, d: Date, century: int, yy: int)
    requires ValidConfig(cfg) && DayFirst(Layout(cfg)) && InDomain(d)
    requires d.year == century * 100 + yy && 0 <= yy < 100
    ensures var m := SplitDate(cfg, Some(Format(Layout(cfg), d)));
      && m != map[]
      && Value(m["yyyy"]) == d.day * 100 + d.month
      && Value(m["MM"]) == century && Value(m["dd"]) == yy
  {
    var l := Layout(cfg);
    var text := Some(Format(l, d));
    var _ := ConfigLayout(cfg);
    ToDateOfRendering(cfg, d);
    EffectiveText(cfg, text);
    var digits := Digits(d.day, 2) + Digits(d.month, 2) + Digits(d.year, 4);
    DayFirstFieldText(l, d);
    assert TrimSymbolFrom(text.value) == digits;
    assert SplitDate(cfg, text) == Slices(digits);
    MisreadSlices(d, century, yy);
  }

  /** The calendar set up from a day-first split. */
  lemma MisreadCalendar(cfg: Config, d: Date, century: int, yy: int)
    requires ValidConfig(cfg) && DayFirst(Layout(cfg)) && InDomain(d)
    requires d.year == century * 100 + yy && 0 <= yy < 100
    requires var m := SplitDate(cfg, Some(Format(Layout(cfg), d)));
      && m != map[]
      && Value(m["yyyy"]) == d.day * 100 + d.month
      && Value(m["MM"]) == century && Value(m["dd"]) == yy
    ensures CalendarAt(cfg, Some(Format(Layout(cfg), d)))
              == Some(LenientDate(d.day * 100 + d.month, century - 1, yy))
  {
    CalendarOfFields(cfg, Some(Format(Layout(cfg), d)), d.day * 100 + d.month, century, yy);
  }

  /** Under a day-first pattern the calendar the operations set up from a
      rendered date is the lenient reading of the misread fields: day and
      month as the year, the century less one as the zero-based month, the
      last two year digits as the day. */
  lemma DayFirstCalendar(cfg: Config, d: Date, century: int, yy: int)
    requires ValidConfig(cfg) && DayFirst(Layout(cfg)) && InDomain(d)
    requires d.year == century * 100 + yy && 0 <= yy < 100
    ensures CalendarAt(cfg, Some(Format(Layout(cfg), d)))
              == Some(LenientDate(d.day * 100 + d.month, century - 1, yy))
  {
    DayFirstSplit(cfg, d, century, yy);
    MisreadCalendar(cfg, d, century, yy);
  }

  /** The three table patterns that put the day first. */
  lemma DayFirstPatterns(cfg: Config, e: DateFormatInfo)
    requires cfg.pattern == e.Format()
    requires e == Finland || e == France || e == Thailand
    ensures ValidConfig(cfg) && DayFirst(Layout(cfg))
  {
    PatternConfig(cfg, e);
    DayFirstLayouts(e);
  }

  lemma DayFirstLayouts(e: DateFormatInfo)
    requires e == Finland || e == France || e == Thailand
    ensures DayFirst(PatternLayout(e))
  {
  }

  /** A zero-based month of 12..23 rolls over into the next year. */
  lemma LenientNextYear(year: int, month0: int, day: int)
    requires 12 <= month0 < 24 && 1 <= day <= DaysInMonth(year + 1, month0 - 11)
    ensures LenientDate(year, month0, day) == Date(year + 1, month0 - 11, day)
  {
    MonthRoll(month0, 1);
    DaysIntoMonth(year + 1, month0 - 11, day);
  }

  /** 2019-02-16 under a day-first pattern ("16.02.2019" or "16/02/2019")
      sets the calendar to 1603-08-19, so its month is reported as August. */
  lemma DayFirstFebruarySixteenth(cfg: Config, d: Date)
    requires ValidConfig(cfg) && DayFirst(Layout(cfg))
    requires d.year == 2019 && d.month == 2 && d.day == 16
    ensures Valid(d)
    ensures CalendarAt(cfg, Some(Format(Layout(cfg), d))) == Some(Date(1603, 8, 19))
    ensures GetMonthInfoByDate(cfg, Some(Format(Layout(cfg), d))).Ok?
    ensures GetMonthInfoByDate(cfg, Some(Format(Layout(cfg), d))).value.Code() == 7
  {
    DayFirstFebruaryCalendar(cfg, d);
  }

  lemma DayFirstFebruaryCalendar(cfg: Config, d: Date)
    requires ValidConfig(cfg) && DayFirst(Layout(cfg))
    requires d.year == 2019 && d.month == 2 && d.day == 16
    ensures Valid(d)
    ensures CalendarAt(cfg, Some(Format(Layout(cfg), d))) == Some(Date(1603, 8, 19))
  {
    assert Valid(d);
    DayFirstCalendar(cfg, d, 20, 19);
    LenientNextYear(1602, 19, 19);
  }

  // ---------------------------------------------------------------------
  // Day-first patterns, corrected

  /** The fields taken from the parsed date itself. */
  function CorrectedCalendarAt(cfg: Config, date: JavaString): (r: Option<Date>)
    requires ValidConfig(cfg)
    ensures r.Some? <==> IsEffectiveDate(cfg, date)
    ensures r.Some? ==> InDomain(r.value) && Format(Layout(cfg), r.value) == date.value
  {
    ToDate(cfg, date)
  }

  /** Under every table pattern the corrected fields of a rendered readable
      date are that date. */
  lemma CorrectedCalendarOfRendering(cfg: Config, d: Date)
    requires ValidConfig(cfg) && Readable(Layout(cfg), cfg.centuryStart, d)
    ensures CorrectedCalendarAt(cfg, Some(Format(Layout(cfg), d))) == Some(d)
  {
    ToDateOfRendering(cfg, d);
  }

  /** `getMonthInfoByDate` on the corrected fields. */
  function CorrectedMonthInfo(cfg: Config, date: JavaString): (r: Result<MonthInfo>)
    requires ValidConfig(cfg)
    ensures r.Ok? <==> IsEffectiveDate(cfg, date)
    ensures r.Err? ==> r.error == IllegalArgument
    ensures r.Ok? ==> r.value.Code() == CorrectedCalendarAt(cfg, date).value.month - 1
  {
    match CorrectedCalendarAt(cfg, date)
    case None => MonthLookup(-1)
    case Some(d) => MonthLookup(d.month - 1)
  }

  /** `getBeginningDateOfWeek` with both corrections. */
  function CorrectedBeginningDateOfWeek(cfg: Config, date: JavaString): (r: string)
    requires ValidConfig(cfg)
    ensures CorrectedCalendarAt(cfg, date).None? ==> r == ""
    ensures CorrectedCalendarAt(cfg, date).Some? ==>
      r == Format(Layout(cfg), SundayWeekStart(CorrectedCalendarAt(cfg, date).value))
  {
    match CorrectedCalendarAt(cfg, date)
    case None => ""
    case Some(d) => Format(Layout(cfg), SundayWeekStart(d))
  }

  /** `getEndDateOfWeek` with both corrections. */
  function CorrectedEndDateOfWeek(cfg: Config, date: JavaString): (r: string)
    requires ValidConfig(cfg)
    ensures CorrectedCalendarAt(cfg, date).None? ==> r == ""
    ensures CorrectedCalendarAt(cfg, date).Some? ==>
      r == Format(Layout(cfg), SaturdayWeekEnd(CorrectedCalendarAt(cfg, date).value))
  {
    match CorrectedCalendarAt(cfg, date)
    case None => ""
    case Some(d) => Format(Layout(cfg), SaturdayWeekEnd(d))
  }

  /** 2019-02-16 under a day-first pattern is in February once
      corrected. */
  lemma CorrectedFebruarySixteenth(cfg: Config, d: Date)
    requires ValidConfig(cfg) && DayFirst(Layout(cfg))
    requires d.year == 2019 && d.month == 2 && d.day == 16
    ensures Valid(d)
    ensures CorrectedMonthInfo(cfg, Some(Format(Layout(cfg), d))).Ok?
    ensures CorrectedMonthInfo(cfg, Some(Format(Layout(cfg), d))).value.Code() == 1
  {
    assert Valid(d);
    DayFirstReadable(Layout(cfg), cfg.centuryStart, d);
    CorrectedCalendarOfRendering(cfg, d);
  }
}
