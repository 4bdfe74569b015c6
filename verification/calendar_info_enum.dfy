/** The calendar tables: days of the week and months, each a closed
    enumeration with a code (the JDK calendar's field value), a Japanese
    and an English name, and a display order. */
module CalendarInfoEnum {
  import opened Outcomes
  import opened ICalendarInfoEnum
  import Lookup

  /** Days of the week, codes following the JDK's Calendar.SUNDAY (1)
      through Calendar.SATURDAY (7). */
  datatype WeekInfo = Sunday | Monday | Tuesday | Wednesday | Thursday | Friday | Saturday
  {
    function Code(): int {
      match this
      case Sunday => 1
      case Monday => 2
      case Tuesday => 3
      case Wednesday => 4
      case Thursday => 5
      case Friday => 6
      case Saturday => 7
    }

    function JapaneseName(): string {
      match this
      case Sunday => "\U{65E5}\U{66DC}\U{65E5}"
      case Monday => "\U{6708}\U{66DC}\U{65E5}"
      case Tuesday => "\U{706B}\U{66DC}\U{65E5}"
      case Wednesday => "\U{6C34}\U{66DC}\U{65E5}"
      case Thursday => "\U{6728}\U{66DC}\U{65E5}"
      case Friday => "\U{91D1}\U{66DC}\U{65E5}"
      case Saturday => "\U{571F}\U{66DC}\U{65E5}"
    }

    function EnglishName(): string {
      match this
      case Sunday => "Sunday"
      case Monday => "Monday"
      case Tuesday => "Tuesday"
      case Wednesday => "Wednesday"
      case Thursday => "Thursday"
      case Friday => "Friday"
      case Saturday => "Saturday"
    }

    function Order(): int {
      match this
      case Sunday => 1
      case Monday => 2
      case Tuesday => 3
      case Wednesday => 4
      case Thursday => 5
      case Friday => 6
      case Saturday => 7
    }

    /** The per-constant `isWeekend` override. */
    predicate IsWeekend() {
      match this
      case Sunday => true
      case Saturday => true
      case _ => false
    }
  }

  /** `WeekInfo.values()`, in declaration order. */
  const WeekValues: seq<WeekInfo> :=
    [Sunday, Monday, Tuesday, Wednesday, Thursday, Friday, Saturday]

  const WeekType: CalendarEnum<WeekInfo> :=
    CalendarEnum(WeekValues, (e: WeekInfo) => e.Code(), (e: WeekInfo) => e.JapaneseName(),
                 (e: WeekInfo) => e.EnglishName(), (e: WeekInfo) => e.Order())

  /** Months, codes following the JDK's zero-based Calendar.JANUARY (0)
      through Calendar.DECEMBER (11), plus Calendar.UNDECIMBER (12), the
      thirteenth month some lunar calendars need. */
  datatype MonthInfo =
    | January | February | March | April | May | June
    | July | August | September | October | November | December
    | Undecimber
  {
    function Code(): int {
      match this
      case January => 0
      case February => 1
      case March => 2
      case April => 3
      case May => 4
      case June => 5
      case July => 6
      case August => 7
      case September => 8
      case October => 9
      case November => 10
      case December => 11
      case Undecimber => 12
    }

    function JapaneseName(): string {
      match this
      case January => "1\U{6708}"
      case February => "2\U{6708}"
      case March => "3\U{6708}"
      case April => "4\U{6708}"
      case May => "5\U{6708}"
      case June => "6\U{6708}"
      case July => "7\U{6708}"
      case August => "8\U{6708}"
      case September => "9\U{6708}"
      case October => "10\U{6708}"
      case November => "11\U{6708}"
      case December => "12\U{6708}"
      case Undecimber => "13\U{6708}"
    }

    function EnglishName(): string {
      match this
      case January => "January"
      case February => "February"
      case March => "March"
      case April => "April"
      case May => "May"
      case June => "June"
      case July => "July"
      case August => "August"
      case September => "September"
      case October => "October"
      case November => "November"
      case December => "December"
      case Undecimber => "Undecimber"
    }

    /** Display order; Undecimber's is Calendar.UNDECIMBER + 1. */
    function Order(): int {
      match this
      case January => 1
      case February => 2
      case March => 3
      case April => 4
      case May => 5
      case June => 6
      case July => 7
      case August => 8
      case September => 9
      case October => 10
      case November => 11
      case December => 12
      case Undecimber => 12 + 1
    }
  }

  /** `MonthInfo.values()`, in declaration order. */
  const MonthValues: seq<MonthInfo> :=
    [January, February, March, April, May, June,
     July, August, September, October, November, December, Undecimber]

  const MonthType: CalendarEnum<MonthInfo> :=
    CalendarEnum(MonthValues, (e: MonthInfo) => e.Code(), (e: MonthInfo) => e.JapaneseName(),
                 (e: MonthInfo) => e.EnglishName(), (e: MonthInfo) => e.Order())

  /** The week table lists every day once, Sunday first: the constant at
      position i has code and order i + 1. */
  lemma WeekTable()
    ensures |WeekValues| == 7
    ensures forall e: WeekInfo :: WeekValues[e.Code() - 1] == e
    ensures forall i :: 0 <= i < 7 ==> WeekValues[i].Code() == i + 1 && WeekValues[i].Order() == WeekValues[i].Code()
    ensures Lookup.UniqueKeys(WeekValues, WeekType.code)
  {
    forall e: WeekInfo ensures WeekValues[e.Code() - 1] == e {
      match e
      case Sunday =>
      case Monday =>
      case Tuesday =>
      case Wednesday =>
      case Thursday =>
      case Friday =>
      case Saturday =>
    }
    WeekCodes();
    WeekKeysUnique();
  }

  lemma WeekCodes()
    ensures |WeekValues| == 7
    ensures forall i :: 0 <= i < 7 ==> WeekValues[i].Code() == i + 1 && WeekValues[i].Order() == WeekValues[i].Code()
  {
  }

  lemma WeekKeysUnique()
    ensures Lookup.UniqueKeys(WeekValues, WeekType.code)
  {
    WeekCodes();
    forall i, j | 0 <= i < j < |WeekValues| ensures WeekType.code(WeekValues[i]) != WeekType.code(WeekValues[j]) {
      assert WeekType.code(WeekValues[i]) == i + 1;
    }
  }

  /** Exactly Sunday and Saturday, the first and last codes, are weekend days. */
  lemma WeekendDays(e: WeekInfo)
    ensures e.IsWeekend() <==> e == Sunday || e == Saturday
    ensures e.IsWeekend() <==> e.Code() == 1 || e.Code() == 7
  {
  }

  /** The month table lists every month once, January first: the constant
      at position i has code i (the calendar month number minus one) and
      order i + 1, so orders run 1..13 strictly increasing. */
  lemma MonthTable()
    ensures |MonthValues| == 13
    ensures forall e: MonthInfo :: MonthValues[e.Code()] == e
    ensures forall i :: 0 <= i < 13 ==> MonthValues[i].Code() == i && MonthValues[i].Order() == i + 1
    ensures Undecimber.Code() == 12 && Undecimber.Order() == 13
    ensures Lookup.UniqueKeys(MonthValues, MonthType.code)
  {
    forall e: MonthInfo ensures MonthValues[e.Code()] == e {
      match e
      case January =>
      case February =>
      case March =>
      case April =>
      case May =>
      case June =>
      case July =>
      case August =>
      case September =>
      case October =>
      case November =>
      case December =>
      case Undecimber =>
    }
    MonthCodes();
    MonthKeysUnique();
  }

  lemma MonthCodes()
    ensures |MonthValues| == 13
    ensures forall i :: 0 <= i < 13 ==> MonthValues[i].Code() == i && MonthValues[i].Order() == i + 1
  {
  }

  lemma MonthKeysUnique()
    ensures Lookup.UniqueKeys(MonthValues, MonthType.code)
  {
    MonthCodes();
    forall i, j | 0 <= i < j < |MonthValues| ensures MonthType.code(MonthValues[i]) != MonthType.code(MonthValues[j]) {
      assert MonthType.code(MonthValues[i]) == i;
    }
  }

  /** Each month sits at its code's place in the table. */
  lemma MonthAtCode(m: MonthInfo)
    ensures 0 <= m.Code() < |MonthValues| && MonthValues[m.Code()] == m
  {
    MonthTable();
  }

  /** Each day sits one before its code's place in the table. */
  lemma WeekAtCode(w: WeekInfo)
    ensures 1 <= w.Code() <= |WeekValues| && WeekValues[w.Code() - 1] == w
  {
    WeekTable();
  }

  /** The month at position `code` has that code. */
  lemma MonthCodeAt(code: int)
    requires 0 <= code < 13
    ensures MonthValues[code].Code() == code
    ensures MonthValues[code] == Undecimber <==> code == 12
  {
    MonthTable();
  }

  /** The day at position `code - 1` has that code. */
  lemma WeekCodeAt(code: int)
    requires 1 <= code <= 7
    ensures WeekValues[code - 1].Code() == code
  {
    WeekTable();
  }

  /** Looking a day up by its code finds it, and so does the code map. */
  lemma WeekByCodeRoundTrip(w: WeekInfo)
    ensures GetByCode(WeekType, w.Code()) == Ok(w)
    ensures GetMap(WeekType).Ok? && GetMap(WeekType).value[w.Code()] == w
  {
    WeekTable();
    assert WeekType.code(WeekValues[w.Code() - 1]) == w.Code();
    ByCodeRoundTrip(WeekType, w.Code() - 1);
  }

  /** Looking a month up by its code finds it, and so does the code map. */
  lemma MonthByCodeRoundTrip(m: MonthInfo)
    ensures GetByCode(MonthType, m.Code()) == Ok(m)
    ensures GetMap(MonthType).Ok? && GetMap(MonthType).value[m.Code()] == m
  {
    MonthTable();
    assert MonthType.code(MonthValues[m.Code()]) == m.Code();
    ByCodeRoundTrip(MonthType, m.Code());
  }

  /** The code lookup succeeds exactly for codes 1..7 (days) and 0..12 (months). */
  lemma CalendarCodeRange(code: int)
    ensures HasCode(WeekType, code) <==> 1 <= code <= 7
    ensures HasCode(MonthType, code) <==> 0 <= code <= 12
  {
    WeekTable();
    MonthTable();
    if 1 <= code <= 7 {
      assert WeekType.code(WeekValues[code - 1]) == code;
    }
    if 0 <= code <= 12 {
      assert MonthType.code(MonthValues[code]) == code;
    }
  }

  /** No two days share an English name. */
  lemma WeekEnglishNamesUnique()
    ensures Lookup.UniqueKeys(WeekValues, WeekType.englishName)
  {
    WeekTable();
    assert forall i, j :: 0 <= i < j < 7 ==> WeekValues[i].EnglishName() != WeekValues[j].EnglishName();
  }

  /** No two days share a Japanese name. */
  lemma WeekJapaneseNamesUnique()
    ensures Lookup.UniqueKeys(WeekValues, WeekType.japaneseName)
  {
    WeekTable();
    assert forall i, j :: 0 <= i < j < 7 ==> WeekValues[i].JapaneseName() != WeekValues[j].JapaneseName();
  }

  /** Names are pairwise distinct, so each name lookup finds its own
      day. */
  lemma WeekByNameRoundTrip(w: WeekInfo)
    ensures GetByEnglishName(WeekType, Some(w.EnglishName())) == Ok(w)
    ensures GetByJapaneseName(WeekType, Some(w.JapaneseName())) == Ok(w)
    ensures HasName(WeekType, Some(w.EnglishName())) && HasName(WeekType, Some(w.JapaneseName()))
  {
    WeekTable();
    WeekEnglishNamesUnique();
    WeekJapaneseNamesUnique();
    ByEnglishNameRoundTrip(WeekType, w.Code() - 1);
    ByJapaneseNameRoundTrip(WeekType, w.Code() - 1);
  }

  /** No two months share an English name. */
  lemma MonthEnglishNamesUnique()
    ensures Lookup.UniqueKeys(MonthValues, MonthType.englishName)
  {
    MonthTable();
    assert forall i, j :: 0 <= i < j < 13 ==> MonthValues[i].EnglishName() != MonthValues[j].EnglishName();
  }

  /** No two months share a Japanese name. */
  lemma MonthJapaneseNamesUnique()
    ensures Lookup.UniqueKeys(MonthValues, MonthType.japaneseName)
  {
    MonthTable();
    assert forall i, j :: 0 <= i < j < 13 ==> MonthValues[i].JapaneseName() != MonthValues[j].JapaneseName();
  }

  /** Names are pairwise distinct, so each name lookup finds its own
      month. */
  lemma MonthByNameRoundTrip(m: MonthInfo)
    ensures GetByEnglishName(MonthType, Some(m.EnglishName())) == Ok(m)
    ensures GetByJapaneseName(MonthType, Some(m.JapaneseName())) == Ok(m)
    ensures HasName(MonthType, Some(m.EnglishName())) && HasName(MonthType, Some(m.JapaneseName()))
  {
    MonthTable();
    MonthEnglishNamesUnique();
    MonthJapaneseNamesUnique();
    ByEnglishNameRoundTrip(MonthType, m.Code());
    ByJapaneseNameRoundTrip(MonthType, m.Code());
  }

  /** The ordered day list is the declaration order, which already sorts by order. */
  lemma WeekOrderedList()
    ensures GetOrderedList(WeekType) == WeekValues
  {
    WeekTable();
    assert Lookup.SortedBy(WeekValues, WeekType.order) by {
      assert forall i :: 0 <= i < 7 ==> WeekType.order(WeekValues[i]) == i + 1;
    }
    Lookup.SortSortedIsIdentity(WeekValues, WeekType.order);
  }

  /** The ordered month list is the declaration order, which already sorts by order. */
  lemma MonthOrderedList()
    ensures GetOrderedList(MonthType) == MonthValues
  {
    MonthTable();
    assert Lookup.SortedBy(MonthValues, MonthType.order) by {
      assert forall i :: 0 <= i < 13 ==> MonthType.order(MonthValues[i]) == i + 1;
    }
    Lookup.SortSortedIsIdentity(MonthValues, MonthType.order);
  }
  /** A day-of-week code 1..7 finds the constant at position code - 1. */
  lemma WeekByCode(code: int)
    requires 1 <= code <= 7
    ensures GetByCode(WeekType, code) == Ok(WeekValues[code - 1])
  {
    WeekTable();
    WeekByCodeRoundTrip(WeekValues[code - 1]);
  }

  /** A month code 0..12 finds the constant at position code. */
  lemma MonthByCode(code: int)
    requires 0 <= code <= 12
    ensures GetByCode(MonthType, code) == Ok(MonthValues[code])
  {
    MonthTable();
    MonthByCodeRoundTrip(MonthValues[code]);
  }
}
