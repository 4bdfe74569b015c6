/** The handler's documented examples, under the initial pattern
    "yyyyMMdd" and under "yyyy.MM.dd", whatever the two-digit-year window.
    Each example takes its text as a parameter fixed by its precondition. */
module HandlerExamples {
  import opened Outcomes
  import opened Decimal
  import opened Gregorian
  import opened DateFormat
  import opened CalendarInfoEnum
  import opened FormatInfoEnum
  import opened CalendarHandler
  import opened HandlerProperties

  /** The initial configuration reads "yyyyMMdd" as year, month, day. */
  lemma DefaultLayout(cfg: Config, centuryStart: int)
    requires cfg == NewHandler(centuryStart)
    ensures ValidConfig(cfg) && Layout(cfg) == [Year4, Month2, Day2]
  {
    PatternConfig(cfg, Default);
    DefaultPattern();
  }

  /** The default constant's layout, proved apart from the handler's
      configuration facts, which make it expensive to prove in place. */
  lemma DefaultPattern()
    ensures PatternLayout(Default) == [Year4, Month2, Day2]
  {
  }

  /** "yyyy.MM.dd" is accepted by `setDateFormat` and read as year, month,
      day separated by dots. */
  lemma CommaLayout(cfg: Config)
    ensures SetDateFormat(cfg, Some("yyyy.MM.dd")).Ok?
    ensures Layout(SetDateFormat(cfg, Some("yyyy.MM.dd")).value) == [Year4, Sep('.'), Month2, Sep('.'), Day2]
  {
    assert DateFormatValues[1].Format() == "yyyy.MM.dd";
    PatternConfig(SetDateFormat(cfg, Some("yyyy.MM.dd")).value, DateFormatInfo.Comma);
  }

  /** A domain date renders field by field: the first token's text, then
      the rest of the layout's. */
  lemma FormatFirst(t: Token, rest: seq<Token>, d: Date)
    requires InDomain(d)
    ensures Format([t] + rest, d) == Render(t, d) + Format(rest, d)
  {
    assert ([t] + rest)[1..] == rest;
  }

  /** The three fields of a year-first layout render as their padded
      values. */
  lemma YearFirstRenders(d: Date)
    requires InDomain(d)
    ensures Render(Year4, d) == Digits(d.year, 4)
    ensures Render(Month2, d) == Digits(d.month, 2)
    ensures Render(Day2, d) == Digits(d.day, 2)
  {
    RenderWidth(Year4, d);
    RenderWidth(Month2, d);
    RenderWidth(Day2, d);
  }

  lemma DigitsOfExamples()
    ensures Digits(2019, 4) == "2019" && Digits(2020, 4) == "2020"
    ensures Digits(1, 2) == "01" && Digits(2, 2) == "02" && Digits(4, 2) == "04"
    ensures Digits(10, 2) == "10" && Digits(16, 2) == "16" && Digits(17, 2) == "17"
  {
    YearDigits();
    SmallDigits();
    TeenDigits();
  }

  lemma YearDigits()
    ensures Digits(2019, 4) == "2019" && Digits(2020, 4) == "2020"
  {
    assert Digits(20, 2) == "20" by {
      assert Digits(2, 1) == "2";
    }
    assert Digits(2019, 4) == "2019" by {
      assert Digits(201, 3) == "201";
    }
    assert Digits(2020, 4) == "2020" by {
      assert Digits(202, 3) == "202";
    }
  }

  lemma SmallDigits()
    ensures Digits(1, 2) == "01" && Digits(2, 2) == "02" && Digits(4, 2) == "04"
  {
  }

  lemma TeenDigits()
    ensures Digits(10, 2) == "10" && Digits(16, 2) == "16" && Digits(17, 2) == "17"
  {
  }

  /** Under "yyyyMMdd" a domain date renders as its padded fields run
      together. */
  lemma JoinedRendering(d: Date)
    requires InDomain(d)
    ensures Format([Year4, Month2, Day2], d) == Digits(d.year, 4) + Digits(d.month, 2) + Digits(d.day, 2)
  {
    YearFirstRenders(d);
    FormatFirst(Day2, [], d);
    FormatFirst(Month2, [Day2], d);
    FormatFirst(Year4, [Month2, Day2], d);
  }

  /** Under "yyyy<c>MM<c>dd" a domain date renders as its padded fields
      joined by the separator. */
  lemma SeparatedRendering(d: Date, c: char)
    requires InDomain(d)
    ensures Format([Year4, Sep(c), Month2, Sep(c), Day2], d)
              == Digits(d.year, 4) + [c] + Digits(d.month, 2) + [c] + Digits(d.day, 2)
  {
    YearFirstRenders(d);
    var dd := Format([Day2], d);
    FormatFirst(Day2, [], d);
    var m := Format([Month2, Sep(c), Day2], d);
    FormatFirst(Sep(c), [Day2], d);
    FormatFirst(Month2, [Sep(c), Day2], d);
    assert m == Digits(d.month, 2) + ([c] + dd);
    FormatFirst(Sep(c), [Month2, Sep(c), Day2], d);
    FormatFirst(Year4, [Sep(c), Month2, Sep(c), Day2], d);
    assert Format([Year4, Sep(c), Month2, Sep(c), Day2], d) == Digits(d.year, 4) + ([c] + m);
  }

  /** A text a "yyyyMMdd" configuration accepts is eight digits whose
      slices name a real day. */
  lemma JoinedEffective(cfg: Config, text: string)
    requires ValidConfig(cfg) && Layout(cfg) == [Year4, Month2, Day2]
    requires IsEffectiveDate(cfg, Some(text))
    ensures |text| == 8 && AllDigits(text)
    ensures AllDigits(text[..4]) && AllDigits(text[4..6]) && AllDigits(text[6..])
    ensures Valid(Date(Value(text[..4]), Value(text[4..6]), Value(text[6..])))
  {
    EffectiveIsRendering(cfg, text);
    var d := Parse(Layout(cfg), text, cfg.centuryStart).value;
    JoinedRendering(d);
    JoinedValues(d, text);
  }

  /** The slices of a date's joined digits read back as its fields. */
  lemma JoinedValues(d: Date, text: string)
    requires InDomain(d) && text == Digits(d.year, 4) + Digits(d.month, 2) + Digits(d.day, 2)
    ensures |text| == 8 && AllDigits(text)
    ensures AllDigits(text[..4]) && AllDigits(text[4..6]) && AllDigits(text[6..])
    ensures Value(text[..4]) == d.year && Value(text[4..6]) == d.month && Value(text[6..]) == d.day
  {
    assert text[..4] == Digits(d.year, 4) && text[4..6] == Digits(d.month, 2) && text[6..] == Digits(d.day, 2);
    assert Pow10(2) == 100 && Pow10(4) == 10000;
    ValueOfDigits(d.year, 4);
    ValueOfDigits(d.month, 2);
    ValueOfDigits(d.day, 2);
  }

  /** "20190230" names no day, so a "yyyyMMdd" configuration rejects it. */
  lemma RejectsFebruaryThirtieth(cfg: Config, text: string)
    requires ValidConfig(cfg) && Layout(cfg) == [Year4, Month2, Day2]
    requires text == "20190230"
    ensures !IsEffectiveDate(cfg, Some(text))
  {
    FebruaryThirtiethSlices(text);
    if IsEffectiveDate(cfg, Some(text)) {
      JoinedEffective(cfg, text);
      assert false;
    }
  }

  lemma FebruaryThirtiethSlices(text: string)
    requires text == "20190230"
    ensures !Valid(Date(Value(text[..4]), Value(text[4..6]), Value(text[6..])))
  {
    assert text[4..6] == "02" && text[6..] == "30";
    assert Value("02") == 2 && Value("30") == 30;
  }

  /** 2019-02-16 was a Saturday. */
  lemma SaturdayFebruarySixteenth(d: Date)
    requires d.year == 2019 && d.month == 2 && d.day == 16
    ensures Valid(d) && WeekdayCode(d) == 7
  {
    assert DaysBeforeYear(2019) == 737059;
    assert DayNumber(d) == 737105;
  }

  /** 2019-02-16 under "yyyyMMdd": a Saturday in February, whose month
      runs from 1 to 28. */
  lemma FebruarySixteenth(cfg: Config, d: Date)
    requires ValidConfig(cfg) && YearFirst(Layout(cfg))
    requires d.year == 2019 && d.month == 2 && d.day == 16
    ensures Valid(d)
    ensures GetDayOfWeekInfoByDate(cfg, Some(Format(Layout(cfg), d))) == Ok(Saturday)
    ensures GetMonthInfoByDate(cfg, Some(Format(Layout(cfg), d))) == Ok(February)
    ensures GetFirstDayOfMonth(cfg, Some(Format(Layout(cfg), d))) == 1
    ensures GetLastDayOfMonth(cfg, Some(Format(Layout(cfg), d))) == 28
  {
    SaturdayFebruarySixteenth(d);
    YearFirstCalendar(cfg, d);
    var w := GetDayOfWeekInfoByDate(cfg, Some(Format(Layout(cfg), d))).value;
    var m := GetMonthInfoByDate(cfg, Some(Format(Layout(cfg), d))).value;
    WeekTable();
    MonthTable();
    assert WeekValues[w.Code() - 1] == w;
    assert MonthValues[m.Code()] == m;
  }

  /** ... which "yyyyMMdd" renders as "20190216". */
  lemma FebruarySixteenthText(d: Date)
    requires d.year == 2019 && d.month == 2 && d.day == 16
    ensures Valid(d) && Format([Year4, Month2, Day2], d) == "20190216"
  {
    JoinedRendering(d);
    DigitsOfExamples();
  }

  /** One year and two months after 2019-02-16 is 2020-04-16. */
  lemma AdjustedFebruarySixteenth(d: Date, e: Date)
    requires d.year == 2019 && d.month == 2 && d.day == 16
    requires e.year == 2020 && e.month == 4 && e.day == 16
    ensures Valid(d) && Adjusted(d, 1, 2, 0) == e
  {
    var byYear := AddYears(d, 1);
    assert byYear == Date(2020, 2, 16);
    assert MonthIndex(byYear) + 2 == 2020 * 12 + 3;
    assert AddMonths(byYear, 2) == e;
  }

  /** The same through `adjustDate` under any year-first pattern. */
  lemma AdjustFebruarySixteenth(cfg: Config, d: Date, e: Date)
    requires ValidConfig(cfg) && YearFirst(Layout(cfg))
    requires d.year == 2019 && d.month == 2 && d.day == 16
    requires e.year == 2020 && e.month == 4 && e.day == 16
    ensures Valid(d) && Valid(e)
    ensures AdjustDate(cfg, Some(Format(Layout(cfg), d)), 1, 2, 0) == Format(Layout(cfg), e)
  {
    AdjustedFebruarySixteenth(d, e);
    YearFirstCalendar(cfg, d);
  }

  /** Years are added before months: one year and one month after
      2020-02-29 is 2021-03-28, since the year step pins the day to the
      28th, while a single move of thirteen months keeps the 29th. */
  lemma LeapDayYearThenMonth(d: Date, e: Date)
    requires d.year == 2020 && d.month == 2 && d.day == 29
    requires e.year == 2021 && e.month == 3 && e.day == 28
    ensures Valid(d) && Adjusted(d, 1, 1, 0) == e
    ensures AddMonths(d, 13) == e.(day := 29)
  {
    var byYear := AddYears(d, 1);
    assert byYear == Date(2021, 2, 28);
    assert MonthIndex(byYear) + 1 == 2021 * 12 + 2;
    assert AddMonths(byYear, 1) == e;
    assert MonthIndex(d) + 13 == 2021 * 12 + 2;
  }

  /** The same through `adjustDate` under any year-first pattern. */
  lemma AdjustLeapDay(cfg: Config, d: Date, e: Date)
    requires ValidConfig(cfg) && YearFirst(Layout(cfg))
    requires d.year == 2020 && d.month == 2 && d.day == 29
    requires e.year == 2021 && e.month == 3 && e.day == 28
    ensures Valid(d) && Valid(e)
    ensures AdjustDate(cfg, Some(Format(Layout(cfg), d)), 1, 1, 0) == Format(Layout(cfg), e)
  {
    LeapDayYearThenMonth(d, e);
    YearFirstCalendar(cfg, d);
  }

  /** ... which "yyyyMMdd" renders as "20200416". */
  lemma AprilSixteenthText(e: Date)
    requires e.year == 2020 && e.month == 4 && e.day == 16
    ensures Valid(e) && Format([Year4, Month2, Day2], e) == "20200416"
  {
    JoinedRendering(e);
    DigitsOfExamples();
  }

  /** January 2019 has 31 days, through any year-first pattern. */
  lemma JanuaryLength(cfg: Config, d: Date)
    requires ValidConfig(cfg) && YearFirst(Layout(cfg))
    requires d.year == 2019 && d.month == 1 && d.day == 17
    ensures Valid(d) && GetLastDayOfMonth(cfg, Some(Format(Layout(cfg), d))) == 31
  {
    MonthOfDays(d, 31);
    YearFirstLastDay(cfg, d, 31);
  }

  /** February 2020 has 29 days, through any year-first pattern. */
  lemma LeapFebruaryLength(cfg: Config, d: Date)
    requires ValidConfig(cfg) && YearFirst(Layout(cfg))
    requires d.year == 2020 && d.month == 2 && d.day == 10
    ensures Valid(d) && GetLastDayOfMonth(cfg, Some(Format(Layout(cfg), d))) == 29
  {
    MonthOfDays(d, 29);
    YearFirstLastDay(cfg, d, 29);
  }

  lemma MonthOfDays(d: Date, n: int)
    requires (d.year == 2019 && d.month == 1 && d.day == 17 && n == 31)
          || (d.year == 2020 && d.month == 2 && d.day == 10 && n == 29)
    ensures InDomain(d) && DaysInMonth(d.year, d.month) == n
  {
  }

  lemma YearFirstLastDay(cfg: Config, d: Date, n: int)
    requires ValidConfig(cfg) && YearFirst(Layout(cfg)) && InDomain(d)
    requires DaysInMonth(d.year, d.month) == n
    ensures GetLastDayOfMonth(cfg, Some(Format(Layout(cfg), d))) == n
  {
    YearFirstMonthBounds(cfg, d);
  }

  /** "yyyy.MM.dd" renders 2019-01-17 as "2019.01.17". */
  lemma JanuarySeventeenthText(d: Date)
    requires d.year == 2019 && d.month == 1 && d.day == 17
    ensures Valid(d) && Format([Year4, Sep('.'), Month2, Sep('.'), Day2], d) == "2019.01.17"
  {
    var l := [Year4, Sep('.'), Month2, Sep('.'), Day2];
    assert Format(l, d) == Digits(d.year, 4) + "." + Digits(d.month, 2) + "." + Digits(d.day, 2) by {
      SeparatedRendering(d, '.');
    }
    assert Digits(d.year, 4) == "2019" && Digits(d.month, 2) == "01" && Digits(d.day, 2) == "17" by {
      DigitsOfExamples();
    }
    DottedText("2019", "01", "17");
  }

  /** The dotted joining of the three groups, proved apart from the
      rendering facts, which make it expensive to prove in place. */
  lemma DottedText(y: string, m: string, dd: string)
    requires y == "2019" && m == "01" && dd == "17"
    ensures y + "." + m + "." + dd == "2019.01.17"
  {
  }

  /** "dd/MM/yy" is read as day, month and two-digit year separated by
      slashes. */
  lemma SlashedTwoDigitLayout(cfg: Config)
    requires cfg.pattern == "dd/MM/yy"
    ensures ValidConfig(cfg) && Layout(cfg) == [Day2, Sep('/'), Month2, Sep('/'), Year2]
  {
    EnglandPattern();
    PatternConfig(cfg, England);
  }

  /** The England constant's pattern and layout, proved apart from the
      handler's configuration facts. */
  lemma EnglandPattern()
    ensures England.Format() == "dd/MM/yy"
    ensures PatternLayout(England) == [Day2, Sep('/'), Month2, Sep('/'), Year2]
  {
  }

  /** Under "dd<c>MM<c>yy" a domain date renders as its padded day and
      month and the last two digits of its year, joined by the separator. */
  lemma DayFirstTwoDigitRendering(d: Date, c: char)
    requires InDomain(d)
    ensures Format([Day2, Sep(c), Month2, Sep(c), Year2], d)
              == Digits(d.day, 2) + [c] + Digits(d.month, 2) + [c] + Digits(d.year % 100, 2)
  {
    RenderWidth(Day2, d);
    RenderWidth(Month2, d);
    RenderWidth(Year2, d);
    var y := Format([Year2], d);
    FormatFirst(Year2, [], d);
    var m := Format([Month2, Sep(c), Year2], d);
    FormatFirst(Sep(c), [Year2], d);
    FormatFirst(Month2, [Sep(c), Year2], d);
    assert m == Digits(d.month, 2) + ([c] + y);
    FormatFirst(Sep(c), [Month2, Sep(c), Year2], d);
    FormatFirst(Day2, [Sep(c), Month2, Sep(c), Year2], d);
    assert Format([Day2, Sep(c), Month2, Sep(c), Year2], d) == Digits(d.day, 2) + ([c] + m);
  }

  /** 2019-02-16 renders as "16/02/19" under "dd/MM/yy". */
  lemma FebruarySixteenthTwoDigitText(d: Date)
    requires d.year == 2019 && d.month == 2 && d.day == 16
    ensures InDomain(d) && Format([Day2, Sep('/'), Month2, Sep('/'), Year2], d) == "16/02/19"
  {
    assert InDomain(d) by {
      assert DaysInMonth(2019, 2) == 28;
    }
    DayFirstTwoDigitRendering(d, '/');
    TwoDigitGroups(d);
    SlashedText(Digits(d.day, 2), Digits(d.month, 2), Digits(d.year % 100, 2));
  }

  /** The three groups of 2019-02-16 under "dd/MM/yy". */
  lemma TwoDigitGroups(d: Date)
    requires d.year == 2019 && d.month == 2 && d.day == 16
    ensures Digits(d.day, 2) == "16" && Digits(d.month, 2) == "02" && Digits(d.year % 100, 2) == "19"
  {
    DigitsOfExamples();
    NineteenDigits();
  }

  lemma NineteenDigits()
    ensures Digits(19, 2) == "19"
  {
  }

  /** The slashed joining of the three groups, proved apart from the
      rendering facts. */
  lemma SlashedText(dd: string, m: string, y: string)
    requires dd == "16" && m == "02" && y == "19"
    ensures dd + "/" + m + "/" + y == "16/02/19"
  {
  }

  /** Under "dd/MM/yy", with 2019 inside the century window, "16/02/19" is
      accepted and read as 2019-02-16, yet every split-based operation on
      it fails: the split finds no eight-character text. */
  lemma TwoDigitYearExample(cfg: Config, d: Date)
    requires cfg.pattern == "dd/MM/yy" && cfg.centuryStart <= 2019 < cfg.centuryStart + 100
    requires d.year == 2019 && d.month == 2 && d.day == 16
    ensures IsEffectiveDate(cfg, Some("16/02/19"))
    ensures ToDate(cfg, Some("16/02/19")) == Some(d)
    ensures GetDayOfWeekInfoByDate(cfg, Some("16/02/19")) == Err(IllegalArgument)
    ensures GetMonthInfoByDate(cfg, Some("16/02/19")) == Err(IllegalArgument)
    ensures GetFirstDayOfMonth(cfg, Some("16/02/19")) == -1
  {
    SlashedTwoDigitLayout(cfg);
    FebruarySixteenthTwoDigitText(d);
    ToDateOfRendering(cfg, d);
    TwoDigitYearFails(cfg, Some("16/02/19"), 0, 0, 0);
  }
}
