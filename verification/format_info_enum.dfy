/** The format tables: the separator symbols, the accepted date patterns
    and the field tokens, each a closed enumeration with a code, a format
    string and a display order. */
module FormatInfoEnum {
  import opened Outcomes
  import opened IFormatInfoEnum
  import Lookup

  /** The separators a date pattern may contain. */
  datatype SymbolInfo = Slash | Comma | Hyphen | Space
  {
    function Code(): int {
      match this
      case Slash => 1
      case Comma => 2
      case Hyphen => 3
      case Space => 4
    }

    /** The single character the constant stands for. */
    function Symbol(): char {
      match this
      case Slash => '/'
      case Comma => '.'
      case Hyphen => '-'
      case Space => ' '
    }

    function Format(): string {
      [Symbol()]
    }

    function Order(): int {
      Code()
    }
  }

  /** `SymbolInfo.values()`, in declaration order. */
  const SymbolValues: seq<SymbolInfo> := [SymbolInfo.Slash, SymbolInfo.Comma, SymbolInfo.Hyphen, SymbolInfo.Space]

  const SymbolType: FormatEnum<SymbolInfo> :=
    FormatEnum(SymbolValues, (e: SymbolInfo) => e.Code(), (e: SymbolInfo) => e.Format(), (e: SymbolInfo) => e.Order())

  /** `c` is one of the separator symbols. */
  predicate IsSymbol(c: char) {
    HasFormat(SymbolType, Some([c]))
  }

  /** The accepted date patterns. Several locales share a pattern string. */
  datatype DateFormatInfo =
    | Slash | Comma | Hyphen | Space
    | Default   // spelt DEFALUT in the library
    | America | Canada | England | Finland | France | Thailand
    | Germany | Denmark | Sweden | Italy | Norway | Spain
  {
    function Code(): int {
      match this
      case Slash => 1
      case Comma => 2
      case Hyphen => 3
      case Space => 4
      case Default => 5
      case America => 6
      case Canada => 7
      case England => 8
      case Finland => 9
      case France => 10
      case Thailand => 11
      case Germany => 12
      case Denmark => 13
      case Sweden => 14
      case Italy => 15
      case Norway => 16
      case Spain => 17
    }

    function Format(): string {
      match this
      case Slash => "yyyy/MM/dd"
      case Comma => "yyyy.MM.dd"
      case Hyphen => "yyyy-MM-dd"
      case Space => "yyyy MM dd"
      case Default => "yyyyMMdd"
      case America => "MM-dd-yy"
      case Canada => "dd/MM/yy"
      case England => "dd/MM/yy"
      case Finland => "dd.MM.yyyy"
      case France => "dd/MM/yyyy"
      case Thailand => "dd/MM/yyyy"
      case Germany => "yyyy-MM-dd"
      case Denmark => "yyyy-MM-dd"
      case Sweden => "yyyy-MM-dd"
      case Italy => "dd/MM/yy"
      case Norway => "dd-MM-yy"
      case Spain => "dd-MM-yy"
    }

    function Order(): int {
      Code()
    }
  }

  /** `DateFormatInfo.values()`, in declaration order. */
  const DateFormatValues: seq<DateFormatInfo> :=
    [DateFormatInfo.Slash, DateFormatInfo.Comma, DateFormatInfo.Hyphen, DateFormatInfo.Space,
     Default, America, Canada, England, Finland, France, Thailand,
     Germany, Denmark, Sweden, Italy, Norway, Spain]

  const DateFormatType: FormatEnum<DateFormatInfo> :=
    FormatEnum(DateFormatValues, (e: DateFormatInfo) => e.Code(), (e: DateFormatInfo) => e.Format(),
               (e: DateFormatInfo) => e.Order())

  /** The field tokens a date pattern is made of. */
  datatype FormatInfo = Yyyy | Yy | MM | Dd
  {
    function Code(): int {
      match this
      case Yyyy => 1
      case Yy => 2
      case MM => 3
      case Dd => 4
    }

    function Format(): string {
      match this
      case Yyyy => "yyyy"
      case Yy => "yy"
      case MM => "MM"
      case Dd => "dd"
    }

    function Order(): int {
      Code()
    }
  }

  /** `FormatInfo.values()`, in declaration order. */
  const FormatValues: seq<FormatInfo> := [Yyyy, Yy, MM, Dd]

  const FormatType: FormatEnum<FormatInfo> :=
    FormatEnum(FormatValues, (e: FormatInfo) => e.Code(), (e: FormatInfo) => e.Format(), (e: FormatInfo) => e.Order())

  /** The symbol table is exactly "/", ".", "-", " ", with codes and
      orders 1..4 in declaration order. */
  lemma SymbolTable()
    ensures |SymbolValues| == 4
    ensures forall e: SymbolInfo :: SymbolValues[e.Code() - 1] == e
    ensures forall i :: 0 <= i < 4 ==> SymbolValues[i].Code() == i + 1 && SymbolValues[i].Order() == i + 1
    ensures SymbolValues[0].Format() == "/" && SymbolValues[1].Format() == "."
    ensures SymbolValues[2].Format() == "-" && SymbolValues[3].Format() == " "
    ensures Lookup.UniqueKeys(SymbolValues, SymbolType.code)
  {
    forall e: SymbolInfo ensures SymbolValues[e.Code() - 1] == e {
      match e
      case Slash =>
      case Comma =>
      case Hyphen =>
      case Space =>
    }
  }

  /** A character is a separator symbol exactly when it is one of the four. */
  lemma SymbolMembers(c: char)
    ensures IsSymbol(c) <==> c == '/' || c == '.' || c == '-' || c == ' '
  {
    SymbolTable();
    if c == '/' || c == '.' || c == '-' || c == ' ' {
      var i := if c == '/' then 0 else if c == '.' then 1 else if c == '-' then 2 else 3;
      assert SymbolType.format(SymbolValues[i]) == [c];
    }
    if IsSymbol(c) {
      var i :| 0 <= i < |SymbolValues| && SymbolType.format(SymbolValues[i]) == [c];
      assert [c][0] == SymbolValues[i].Symbol();
    }
  }

  /** The pattern table has 17 constants, each at the position given by
      its code. */
  lemma DateFormatPositions()
    ensures |DateFormatValues| == 17
    ensures forall e: DateFormatInfo :: DateFormatValues[e.Code() - 1] == e
  {
    forall e: DateFormatInfo ensures DateFormatValues[e.Code() - 1] == e {
      match e
      case Slash =>
      case Comma =>
      case Hyphen =>
      case Space =>
      case Default =>
      case America =>
      case Canada =>
      case England =>
      case Finland =>
      case France =>
      case Thailand =>
      case Germany =>
      case Denmark =>
      case Sweden =>
      case Italy =>
      case Norway =>
      case Spain =>
    }
  }

  /** Codes run 1..17 in declaration order, each order equal to its code;
      the default pattern is "yyyyMMdd" with code 5. */
  lemma DateFormatTable()
    ensures |DateFormatValues| == 17
    ensures forall i :: 0 <= i < 17 ==> DateFormatValues[i].Code() == i + 1 && DateFormatValues[i].Order() == i + 1
    ensures Lookup.UniqueKeys(DateFormatValues, DateFormatType.code)
    ensures Default.Format() == "yyyyMMdd" && Default.Code() == 5
  {
    DateFormatCodes();
    DateFormatKeysUnique();
  }

  lemma DateFormatCodes()
    ensures |DateFormatValues| == 17
    ensures forall i :: 0 <= i < 17 ==> DateFormatValues[i].Code() == i + 1 && DateFormatValues[i].Order() == i + 1
  {
  }

  lemma DateFormatKeysUnique()
    ensures Lookup.UniqueKeys(DateFormatValues, DateFormatType.code)
  {
    DateFormatCodes();
    forall i, j | 0 <= i < j < |DateFormatValues|
      ensures DateFormatType.code(DateFormatValues[i]) != DateFormatType.code(DateFormatValues[j])
    {
      assert DateFormatType.code(DateFormatValues[i]) == i + 1;
    }
  }

  /** Pattern strings are not unique: four groups of constants share one. */
  lemma SharedPatterns()
    ensures DateFormatInfo.Hyphen.Format() == Germany.Format() == Denmark.Format() == Sweden.Format() == "yyyy-MM-dd"
    ensures Canada.Format() == England.Format() == Italy.Format() == "dd/MM/yy"
    ensures France.Format() == Thailand.Format() == "dd/MM/yyyy"
    ensures Norway.Format() == Spain.Format() == "dd-MM-yy"
    ensures !Lookup.UniqueKeys(DateFormatValues, DateFormatType.format)
  {
    assert DateFormatType.format(DateFormatValues[2]) == DateFormatType.format(DateFormatValues[11]);
  }

  /** `getByFormat` takes the first constant in declaration order, so a
      shared pattern yields the earliest of its group: HYPHEN, not GERMANY,
      DENMARK or SWEDEN, for "yyyy-MM-dd". */
  lemma ByFormatFirstOfGroup()
    ensures GetByFormat(DateFormatType, Some("yyyy-MM-dd")) == Ok(DateFormatInfo.Hyphen)
  {
    assert DateFormatValues[2] == DateFormatInfo.Hyphen;
    forall j | 0 <= j < 2 ensures DateFormatValues[j].Format() != "yyyy-MM-dd" {
      assert DateFormatValues[j].Format()[4] != '-';
    }
    FirstWithFormat(2);
  }

  /** The first constant spelling "dd/MM/yy" is CANADA. */
  lemma ByFormatFirstCanada()
    ensures GetByFormat(DateFormatType, Some("dd/MM/yy")) == Ok(Canada)
  {
    assert DateFormatValues[6] == Canada;
    forall j | 0 <= j < 6 ensures DateFormatValues[j].Format() != "dd/MM/yy" {
      var f := DateFormatValues[j].Format();
      if |f| == 8 {
        assert f[2] != '/' || f[0] != 'd';
      }
    }
    FirstWithFormat(6);
  }

  /** The first constant spelling "dd/MM/yyyy" is FRANCE. */
  lemma ByFormatFirstFrance()
    ensures GetByFormat(DateFormatType, Some("dd/MM/yyyy")) == Ok(France)
  {
    assert DateFormatValues[9] == France;
    forall j | 0 <= j < 9 ensures DateFormatValues[j].Format() != "dd/MM/yyyy" {
      var f := DateFormatValues[j].Format();
      if |f| == 10 {
        assert f[2] != '/' || f[0] != 'd';
      }
    }
    FirstWithFormat(9);
  }

  /** The first constant spelling "dd-MM-yy" is NORWAY. */
  lemma ByFormatFirstNorway()
    ensures GetByFormat(DateFormatType, Some("dd-MM-yy")) == Ok(Norway)
  {
    assert DateFormatValues[15] == Norway;
    forall j | 0 <= j < 15 ensures DateFormatValues[j].Format() != "dd-MM-yy" {
      var f := DateFormatValues[j].Format();
      if |f| == 8 {
        assert f[2] != '-' || f[0] != 'd';
      }
    }
    FirstWithFormat(15);
  }

  /** When no earlier constant spells the pattern of the constant at `k`,
      `getByFormat` of that pattern is the constant at `k`. */
  lemma FirstWithFormat(k: nat)
    requires k < |DateFormatValues|
    requires forall j :: 0 <= j < k ==> DateFormatValues[j].Format() != DateFormatValues[k].Format()
    ensures GetByFormat(DateFormatType, Some(DateFormatValues[k].Format())) == Ok(DateFormatValues[k])
  {
    assert forall j :: 0 <= j < k ==> DateFormatType.format(DateFormatValues[j]) != DateFormatType.format(DateFormatValues[k]);
    ByFormatFirst(DateFormatType, k);
  }

  /** Every character of every pattern is a field letter (y, M, d) or a
      separator symbol. */
  lemma PatternCharacters(e: DateFormatInfo, i: nat)
    requires i < |e.Format()|
    ensures e.Format()[i] in "yMd" || IsSymbol(e.Format()[i])
  {
    SymbolMembers(e.Format()[i]);
  }

  /** The field-token table is "yyyy", "yy", "MM", "dd" with codes and
      orders 1..4 in declaration order. */
  lemma FormatTable()
    ensures |FormatValues| == 4
    ensures forall e: FormatInfo :: FormatValues[e.Code() - 1] == e
    ensures forall i :: 0 <= i < 4 ==> FormatValues[i].Code() == i + 1 && FormatValues[i].Order() == i + 1
    ensures FormatValues[0].Format() == "yyyy" && FormatValues[1].Format() == "yy"
    ensures FormatValues[2].Format() == "MM" && FormatValues[3].Format() == "dd"
    ensures Lookup.UniqueKeys(FormatValues, FormatType.code)
  {
    forall e: FormatInfo ensures FormatValues[e.Code() - 1] == e {
      match e
      case Yyyy =>
      case Yy =>
      case MM =>
      case Dd =>
    }
  }

  /** Each SymbolInfo constant is found again by its own code, and the code
      map holds it under that code. */
  lemma SymbolByCodeRoundTrip(s: SymbolInfo)
    ensures GetByCode(SymbolType, s.Code()) == Ok(s)
    ensures GetMap(SymbolType).Ok? && GetMap(SymbolType).value[s.Code()] == s
  {
    SymbolTable();
    assert SymbolType.code(SymbolValues[s.Code() - 1]) == s.Code();
    ByCodeRoundTrip(SymbolType, s.Code() - 1);
  }

  /** The ordered SymbolInfo list is the declaration order, which already sorts by order. */
  lemma SymbolOrderedList()
    ensures GetOrderedList(SymbolType) == SymbolValues
  {
    SymbolTable();
    assert Lookup.SortedBy(SymbolValues, SymbolType.order) by {
      assert forall i :: 0 <= i < 4 ==> SymbolType.order(SymbolValues[i]) == i + 1;
    }
    Lookup.SortSortedIsIdentity(SymbolValues, SymbolType.order);
  }

  /** Each DateFormatInfo constant is found again by its own code, and the code
      map holds it under that code. */
  lemma DateFormatByCodeRoundTrip(d: DateFormatInfo)
    ensures GetByCode(DateFormatType, d.Code()) == Ok(d)
    ensures GetMap(DateFormatType).Ok? && GetMap(DateFormatType).value[d.Code()] == d
  {
    DateFormatPositions();
    DateFormatTable();
    assert DateFormatType.code(DateFormatValues[d.Code() - 1]) == d.Code();
    ByCodeRoundTrip(DateFormatType, d.Code() - 1);
  }

  /** The ordered DateFormatInfo list is the declaration order, which already sorts by order. */
  lemma DateFormatOrderedList()
    ensures GetOrderedList(DateFormatType) == DateFormatValues
  {
    DateFormatTable();
    assert Lookup.SortedBy(DateFormatValues, DateFormatType.order) by {
      assert forall i :: 0 <= i < 17 ==> DateFormatType.order(DateFormatValues[i]) == i + 1;
    }
    Lookup.SortSortedIsIdentity(DateFormatValues, DateFormatType.order);
  }

  /** Each FormatInfo constant is found again by its own code, and the code
      map holds it under that code. */
  lemma FormatByCodeRoundTrip(f: FormatInfo)
    ensures GetByCode(FormatType, f.Code()) == Ok(f)
    ensures GetMap(FormatType).Ok? && GetMap(FormatType).value[f.Code()] == f
  {
    FormatTable();
    assert FormatType.code(FormatValues[f.Code() - 1]) == f.Code();
    ByCodeRoundTrip(FormatType, f.Code() - 1);
  }

  /** The ordered FormatInfo list is the declaration order, which already sorts by order. */
  lemma FormatOrderedList()
    ensures GetOrderedList(FormatType) == FormatValues
  {
    FormatTable();
    assert Lookup.SortedBy(FormatValues, FormatType.order) by {
      assert forall i :: 0 <= i < 4 ==> FormatType.order(FormatValues[i]) == i + 1;
    }
    Lookup.SortSortedIsIdentity(FormatValues, FormatType.order);
  }

}
