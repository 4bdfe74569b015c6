/** What the handler's operations amount to, stated across operations: the
    texts it accepts are exactly the renderings of readable dates, and for a
    year-first pattern every operation works on the very date the text
    names; two-digit-year patterns make every operation built on the split
    fail. */
module HandlerProperties {
  import opened Outcomes
  import opened Decimal
  import opened Gregorian
  import opened DateFormat
  import opened CalendarInfoEnum
  import opened FormatInfoEnum
  import opened CalendarHandler

  /** A table pattern renders every domain date as at least six characters. */
  lemma RenderingNotEmpty(cfg: Config, d: Date)
    requires ValidConfig(cfg) && InDomain(d)
    ensures |Format(Layout(cfg), d)| >= 6
  {
    var _ := ConfigLayout(cfg);
    StripFormat(Layout(cfg), d);
  }

  /** An accepted text is the rendering of the readable date it parses to. */
  lemma EffectiveIsRendering(cfg: Config, text: string)
    requires ValidConfig(cfg) && IsEffectiveDate(cfg, Some(text))
    ensures var d := Parse(Layout(cfg), text, cfg.centuryStart).value;
      Readable(Layout(cfg), cfg.centuryStart, d) && Format(Layout(cfg), d) == text
  {
    var _ := ConfigLayout(cfg);
    ParseIsReadable(Layout(cfg), text, cfg.centuryStart);
  }

  /** The rendering of a readable date is accepted. */
  lemma RenderingIsEffective(cfg: Config, d: Date)
    requires ValidConfig(cfg) && Readable(Layout(cfg), cfg.centuryStart, d)
    ensures IsEffectiveDate(cfg, Some(Format(Layout(cfg), d)))
    ensures Parse(Layout(cfg), Format(Layout(cfg), d), cfg.centuryStart) == Some(d)
  {
    var l := Layout(cfg);
    var _ := ConfigLayout(cfg);
    FormatThenParse(l, cfg.centuryStart, d, "");
    assert Format(l, d) + "" == Format(l, d);
    RenderingNotEmpty(cfg, d);
  }

  /** `isEffectiveDate` accepts a text exactly when it is the rendering of
      a date the active pattern can carry through format and parse. */
  lemma EffectiveIffRendering(cfg: Config, text: string)
    requires ValidConfig(cfg)
    ensures IsEffectiveDate(cfg, Some(text)) <==>
              exists d :: Readable(Layout(cfg), cfg.centuryStart, d) && Format(Layout(cfg), d) == text
  {
    var l := Layout(cfg);
    var cs := cfg.centuryStart;
    if IsEffectiveDate(cfg, Some(text)) {
      EffectiveIsRendering(cfg, text);
    }
    if exists d :: Readable(l, cs, d) && Format(l, d) == text {
      var d :| Readable(l, cs, d) && Format(l, d) == text;
      RenderingIsEffective(cfg, d);
    }
  }

  /** `toDate` of a readable date's rendering is that date. */
  lemma ToDateOfRendering(cfg: Config, d: Date)
    requires ValidConfig(cfg) && Readable(Layout(cfg), cfg.centuryStart, d)
    ensures ToDate(cfg, Some(Format(Layout(cfg), d))) == Some(d)
  {
    RenderingIsEffective(cfg, d);
  }

  /** The field digits of a year-first layout: year, month, day. */
  lemma YearFirstFieldText(layout: seq<Token>, d: Date)
    requires YearFirst(layout) && InDomain(d)
    ensures FieldText(layout, d) == Digits(d.year, 4) + Digits(d.month, 2) + Digits(d.day, 2)
  {
    RenderWidth(Year4, d);
    RenderWidth(Month2, d);
    RenderWidth(Day2, d);
    var y := Digits(d.year, 4);
    var m := Digits(d.month, 2);
    var dd := Digits(d.day, 2);
    var last := layout[|layout| - 1..];
    assert FieldText(last, d) == dd + FieldText(last[1..], d);
    assert last[1..] == [];
    if |layout| == 5 {
      assert layout[1..][1..][1..][1..] == last;
      assert FieldText(layout[3..], d) == FieldText(last, d);
      assert FieldText(layout[2..], d) == m + dd;
      assert FieldText(layout[1..], d) == m + dd;
    } else {
      assert layout[1..][1..] == last;
      assert FieldText(layout[1..], d) == m + dd;
    }
    assert FieldText(layout, d) == y + (m + dd);
  }

  /** Reading back each slice of the year-first digits gives the field. */
  lemma SlicesOfDigits(d: Date)
    requires InDomain(d)
    ensures var m := Slices(Digits(d.year, 4) + Digits(d.month, 2) + Digits(d.day, 2));
      && Value(m["yyyy"]) == d.year && Value(m["MM"]) == d.month && Value(m["dd"]) == d.day
  {
    var y := Digits(d.year, 4);
    var mo := Digits(d.month, 2);
    var da := Digits(d.day, 2);
    var m := Slices(y + mo + da);
    assert m["yyyy"] == y && m["MM"] == mo && m["dd"] == da;
    assert Pow10(2) == 100 && Pow10(4) == 10000;
    ValueOfDigits(d.year, 4);
    ValueOfDigits(d.month, 2);
    ValueOfDigits(d.day, 2);
  }

  /** Under a year-first pattern the split of a rendered date holds that
      date's year, month and day. */
  lemma YearFirstSplit(cfg: Config, d: Date)
    requires ValidConfig(cfg) && YearFirst(Layout(cfg)) && InDomain(d)
    ensures var m := SplitDate(cfg, Some(Format(Layout(cfg), d)));
      && m != map[]
      && Value(m["yyyy"]) == d.year && Value(m["MM"]) == d.month && Value(m["dd"]) == d.day
  {
    var l := Layout(cfg);
    var text := Some(Format(l, d));
    var _ := ConfigLayout(cfg);
    ToDateOfRendering(cfg, d);
    EffectiveText(cfg, text);
    YearFirstFieldText(l, d);
    SlicesOfDigits(d);
  }

  /** Under a year-first pattern the calendar every operation sets up from
      a rendered date is that date. */
  lemma YearFirstCalendar(cfg: Config, d: Date)
    requires ValidConfig(cfg) && YearFirst(Layout(cfg)) && InDomain(d)
    ensures CalendarAt(cfg, Some(Format(Layout(cfg), d))) == Some(d)
  {
    YearFirstSplit(cfg, d);
    CalendarOfFields(cfg, Some(Format(Layout(cfg), d)), d.year, d.month, d.day);
  }

  /** Under a year-first pattern the weekday lookup of a rendered date
      gives that date's weekday. */
  lemma YearFirstWeekday(cfg: Config, d: Date)
    requires ValidConfig(cfg) && YearFirst(Layout(cfg)) && InDomain(d)
    ensures GetDayOfWeekInfoByDate(cfg, Some(Format(Layout(cfg), d))) == Ok(WeekValues[WeekdayCode(d) - 1])
  {
    YearFirstCalendar(cfg, d);
    WeekOfCalendar(cfg, Some(Format(Layout(cfg), d)));
  }

  /** Under a year-first pattern the month lookup of a rendered date gives
      that date's month. */
  lemma YearFirstMonth(cfg: Config, d: Date)
    requires ValidConfig(cfg) && YearFirst(Layout(cfg)) && InDomain(d)
    ensures GetMonthInfoByDate(cfg, Some(Format(Layout(cfg), d))) == Ok(MonthValues[d.month - 1])
  {
    YearFirstCalendar(cfg, d);
    MonthOfCalendar(cfg, Some(Format(Layout(cfg), d)));
  }

  /** Under a year-first pattern the month bounds of a rendered date are
      1 and the length of that date's month. */
  lemma YearFirstMonthBounds(cfg: Config, d: Date)
    requires ValidConfig(cfg) && YearFirst(Layout(cfg)) && InDomain(d)
    ensures GetFirstDayOfMonth(cfg, Some(Format(Layout(cfg), d))) == 1
    ensures GetLastDayOfMonth(cfg, Some(Format(Layout(cfg), d))) == DaysInMonth(d.year, d.month)
  {
    YearFirstCalendar(cfg, d);
  }

  /** Under a year-first pattern the adjustment and the week bounds of a
      rendered date are the renderings of that date's adjustment and week
      bounds. */
  lemma YearFirstShifts(cfg: Config, d: Date, amountYear: int, amountMonth: int, amountDay: int)
    requires ValidConfig(cfg) && YearFirst(Layout(cfg)) && InDomain(d)
    ensures AdjustDate(cfg, Some(Format(Layout(cfg), d)), amountYear, amountMonth, amountDay)
              == Format(Layout(cfg), Adjusted(d, amountYear, amountMonth, amountDay))
    ensures GetBeginningDateOfWeek(cfg, Some(Format(Layout(cfg), d))) == Format(Layout(cfg), WeekStart(d))
    ensures GetEndDateOfWeek(cfg, Some(Format(Layout(cfg), d))) == Format(Layout(cfg), WeekEnd(d))
  {
    YearFirstCalendar(cfg, d);
  }

  /** A two-digit-year pattern strips every effective text to six
      characters, so the split is always empty and every operation built on
      it fails, though `isEffectiveDate` and `toDate` still accept the text. */
  lemma TwoDigitYearFails(cfg: Config, date: JavaString, amountYear: int, amountMonth: int, amountDay: int)
    requires ValidConfig(cfg) && Year2 in Layout(cfg)
    ensures SplitDate(cfg, date) == map[]
    ensures GetDayOfWeekInfoByDate(cfg, date) == Err(IllegalArgument)
    ensures GetMonthInfoByDate(cfg, date) == Err(IllegalArgument)
    ensures AdjustDate(cfg, date, amountYear, amountMonth, amountDay) == ""
    ensures GetFirstDayOfMonth(cfg, date) == -1 && GetLastDayOfMonth(cfg, date) == -1
    ensures GetBeginningDateOfWeek(cfg, date) == "" && GetEndDateOfWeek(cfg, date) == ""
  {
    TwoDigitYearSplit(cfg, date);
  }

  /** The split under a two-digit-year pattern is empty for every text. */
  lemma TwoDigitYearSplit(cfg: Config, date: JavaString)
    requires ValidConfig(cfg) && Year2 in Layout(cfg)
    ensures SplitDate(cfg, date) == map[] && CalendarAt(cfg, date).None?
  {
    var e := ConfigLayout(cfg);
    if IsEffectiveDate(cfg, date) {
      EffectiveText(cfg, date);
    }
  }
}
