/** The date handler. The singleton's shared formatter becomes an explicit
    configuration value (active pattern, leniency flag, two-digit-year
    window) passed to every operation; each operation validates its text
    by a parse/format round trip, strips the separators, slices the digits
    as year, month and day, and works on a lenient Gregorian calendar. */
module CalendarHandler {
  import opened Outcomes
  import opened Decimal
  import opened Gregorian
  import opened DateFormat
  import StringChecker
  import CI = ICalendarInfoEnum
  import FI = IFormatInfoEnum
  import opened CalendarInfoEnum
  import opened FormatInfoEnum

  /** The state of the shared formatter: its pattern, its leniency flag,
      and the first year of its two-digit-year window. */
  datatype Config = Config(pattern: string, lenient: bool, centuryStart: int)

  /** The pattern is one of the table's patterns: true of the initial
      configuration and kept by every change of pattern. */
  predicate ValidConfig(cfg: Config) {
    FI.HasFormat(DateFormatType, Some(cfg.pattern))
  }

  /** The layout the active pattern stands for: that of the first table
      constant spelling it (constants sharing a pattern share a layout). */
  function Layout(cfg: Config): seq<Token> {
    match FI.GetByFormat(DateFormatType, Some(cfg.pattern))
    case Ok(e) => PatternLayout(e)
    case Err(_) => []
  }

  /** The constructor: the default pattern, strict. The window start is
      what the formatter derives from the clock at creation. */
  function NewHandler(centuryStart: int): (cfg: Config)
    ensures ValidConfig(cfg)
    ensures cfg.pattern == "yyyyMMdd" && !cfg.lenient && cfg.centuryStart == centuryStart
  {
    assert DateFormatType.format(DateFormatValues[4]) == "yyyyMMdd";
    Config(Default.Format(), false, centuryStart)
  }

  /** `setLenient`: only the flag changes. */
  function SetLenient(cfg: Config, isLenient: bool): (r: Config)
    ensures r.lenient == isLenient
    ensures r.pattern == cfg.pattern && r.centuryStart == cfg.centuryStart
    ensures ValidConfig(cfg) ==> ValidConfig(r)
  {
    cfg.(lenient := isLenient)
  }

  /** `setDateFormat`: null, empty or a pattern outside the table is an
      IllegalArgumentException and the configuration stays as it was;
      otherwise the pattern becomes the active one. */
  function SetDateFormat(cfg: Config, format: JavaString): (r: Result<Config>)
    ensures r.Ok? <==> format.Some? && exists i :: 0 <= i < |DateFormatValues| && DateFormatValues[i].Format() == format.value
    ensures r.Err? ==> r.error == IllegalArgument
    ensures r.Ok? ==> r.value == cfg.(pattern := format.value) && ValidConfig(r.value)
  {
    if !StringChecker.IsEffectiveString(format) then
      NoEmptyPattern(format);
      Err(IllegalArgument)
    else if !FI.HasFormat(DateFormatType, format) then Err(IllegalArgument)
    else Ok(cfg.(pattern := format.value))
  }

  /** No table constant has an empty pattern. */
  lemma NoEmptyPattern(format: JavaString)
    requires !StringChecker.IsEffectiveString(format)
    ensures format.Some? ==> forall i :: 0 <= i < |DateFormatValues| ==> DateFormatValues[i].Format() != format.value
  {
    if format.Some? {
      forall i | 0 <= i < |DateFormatValues| ensures DateFormatValues[i].Format() != format.value {
        assert |DateFormatValues[i].Format()| > 0;
      }
    }
  }

  /** `isEffectiveDate(String)`: the text is non-empty, parses strictly, and
      formatting the parsed date reproduces it character for character. */
  function IsEffectiveDate(cfg: Config, date: JavaString): (r: bool)
    ensures r ==> StringChecker.IsEffectiveString(date)
    ensures r ==> Parse(Layout(cfg), date.value, cfg.centuryStart).Some?
  {
    if !StringChecker.IsEffectiveString(date) then false
    else
      match Parse(Layout(cfg), date.value, cfg.centuryStart)
      case None => false
      case Some(d) => Format(Layout(cfg), d) == date.value
  }

  /** `toDate`: the parsed date of an effective text, none otherwise. */
  function ToDate(cfg: Config, date: JavaString): (r: Option<Date>)
    ensures r.Some? <==> IsEffectiveDate(cfg, date)
    ensures r.Some? ==> InDomain(r.value) && Format(Layout(cfg), r.value) == date.value
  {
    if IsEffectiveDate(cfg, date) then Parse(Layout(cfg), date.value, cfg.centuryStart) else None
  }

  // ---------------------------------------------------------------------
  // Separator stripping

  /** `String.replace(target, "")` for a one-character target: every
      occurrence removed. */
  function RemoveChar(s: string, c: char): (r: string)
    ensures c !in r
    ensures |r| <= |s|
    ensures c !in s ==> r == s
  {
    if s == [] then [] else (if s[0] == c then [] else [s[0]]) + RemoveChar(s[1..], c)
  }

  function RemoveEach(s: string, symbols: seq<SymbolInfo>): string
    decreases |symbols|
  {
    if symbols == [] then s else RemoveEach(RemoveChar(s, symbols[0].Symbol()), symbols[1..])
  }

  /** A character of the symbol table ("/", ".", "-", " "). */
  predicate IsSeparator(c: char) {
    c == '/' || c == '.' || c == '-' || c == ' '
  }

  /** The separators are exactly the characters `hasFormat` finds in the
      symbol table. */
  lemma SeparatorIsSymbol(c: char)
    ensures IsSeparator(c) <==> IsSymbol(c)
  {
    SymbolMembers(c);
  }

  /** The text with its separator characters dropped and every other
      character kept, in order. */
  function StripSymbols(s: string): (r: string)
    ensures |r| <= |s|
    ensures forall i :: 0 <= i < |r| ==> !IsSeparator(r[i])
    ensures (forall i :: 0 <= i < |s| ==> !IsSeparator(s[i])) ==> r == s
  {
    if s == [] then [] else (if IsSeparator(s[0]) then [] else [s[0]]) + StripSymbols(s[1..])
  }

  /** `trimSymbolFrom`: each separator of the symbol table removed in turn.
      The result is the text without separators, other characters in
      order; a text without separators is left as it is. */
  function TrimSymbolFrom(s: string): (r: string)
    ensures r == StripSymbols(s)
    ensures forall i :: 0 <= i < |r| ==> !IsSeparator(r[i])
    ensures (forall i :: 0 <= i < |s| ==> !IsSeparator(s[i])) ==> r == s
    ensures StripSymbols(r) == r
  {
    RemoveEachIsStrip(s);
    RemoveEach(s, SymbolValues)
  }

  lemma {:induction false} RemoveCharAppend(a: string, b: string, c: char)
    ensures RemoveChar(a + b, c) == RemoveChar(a, c) + RemoveChar(b, c)
    decreases |a|
  {
    if a != [] {
      assert (a + b)[1..] == a[1..] + b;
      RemoveCharAppend(a[1..], b, c);
    } else {
      assert a + b == b;
    }
  }

  lemma {:induction false} RemoveEachAppend(a: string, b: string, symbols: seq<SymbolInfo>)
    ensures RemoveEach(a + b, symbols) == RemoveEach(a, symbols) + RemoveEach(b, symbols)
    decreases |symbols|
  {
    if symbols != [] {
      var c := symbols[0].Symbol();
      RemoveCharAppend(a, b, c);
      RemoveEachAppend(RemoveChar(a, c), RemoveChar(b, c), symbols[1..]);
    }
  }

  lemma RemoveEachOne(x: char)
    ensures RemoveEach([x], SymbolValues) == if IsSeparator(x) then [] else [x]
  {
    var s1 := RemoveChar([x], '/');
    var s2 := RemoveChar(s1, '.');
    var s3 := RemoveChar(s2, '-');
    var s4 := RemoveChar(s3, ' ');
    assert RemoveEach([x], SymbolValues) == RemoveEach(s1, SymbolValues[1..]);
    assert RemoveEach(s1, SymbolValues[1..]) == RemoveEach(s2, SymbolValues[2..]);
    assert RemoveEach(s2, SymbolValues[2..]) == RemoveEach(s3, SymbolValues[3..]);
    assert RemoveEach(s3, SymbolValues[3..]) == s4;
  }

  lemma {:induction false} RemoveEachIsStrip(s: string)
    ensures RemoveEach(s, SymbolValues) == StripSymbols(s)
    decreases |s|
  {
    if s != [] {
      assert s == [s[0]] + s[1..];
      RemoveEachAppend([s[0]], s[1..], SymbolValues);
      RemoveEachOne(s[0]);
      RemoveEachIsStrip(s[1..]);
    }
  }

  lemma {:induction false} StripAppend(a: string, b: string)
    ensures StripSymbols(a + b) == StripSymbols(a) + StripSymbols(b)
    decreases |a|
  {
    if a != [] {
      var head := if IsSeparator(a[0]) then [] else [a[0]];
      assert (a + b)[0] == a[0];
      assert (a + b)[1..] == a[1..] + b;
      assert StripSymbols(a + b) == head + StripSymbols(a[1..] + b);
      StripAppend(a[1..], b);
      assert StripSymbols(a) == head + StripSymbols(a[1..]);
    } else {
      assert a + b == b;
    }
  }

  /** Digits are not separators. */
  lemma StripDigits(s: string)
    requires AllDigits(s)
    ensures StripSymbols(s) == s
  {
    assert forall i :: 0 <= i < |s| ==> !IsSeparator(s[i]);
  }

  // ---------------------------------------------------------------------
  // The table's patterns

  /** The layout of each table pattern. */
  function PatternLayout(e: DateFormatInfo): seq<Token> {
    match e
    case Slash => [Year4, Sep('/'), Month2, Sep('/'), Day2]
    case Comma => [Year4, Sep('.'), Month2, Sep('.'), Day2]
    case Hyphen | Germany | Denmark | Sweden => [Year4, Sep('-'), Month2, Sep('-'), Day2]
    case Space => [Year4, Sep(' '), Month2, Sep(' '), Day2]
    case Default => [Year4, Month2, Day2]
    case America => [Month2, Sep('-'), Day2, Sep('-'), Year2]
    case Canada | England | Italy => [Day2, Sep('/'), Month2, Sep('/'), Year2]
    case Finland => [Day2, Sep('.'), Month2, Sep('.'), Year4]
    case France | Thailand => [Day2, Sep('/'), Month2, Sep('/'), Year4]
    case Norway | Spain => [Day2, Sep('-'), Month2, Sep('-'), Year2]
  }

  predicate SeparatorsAreSymbols(layout: seq<Token>) {
    forall i :: 0 <= i < |layout| && layout[i].Sep? ==> IsSeparator(layout[i].c)
  }

  /** Four-digit year first, then month, then day, with or without one
      repeated separator. */
  predicate YearFirst(layout: seq<Token>) {
    layout == [Year4, Month2, Day2]
    || (|layout| == 5 && layout[0] == Year4 && layout[1].Sep? && layout[2] == Month2
        && layout[3] == layout[1] && layout[4] == Day2)
  }

  /** The number of digits the fields of a layout render to. */
  function FieldWidth(layout: seq<Token>): nat {
    if layout == [] then 0
    else (if layout[0].Sep? then 0 else Width(layout[0])) + FieldWidth(layout[1..])
  }

  lemma {:induction false} SpellAppend(a: seq<Token>, b: seq<Token>)
    ensures Spell(a + b) == Spell(a) + Spell(b)
    decreases |a|
  {
    if a != [] {
      assert (a + b)[1..] == a[1..] + b;
      SpellAppend(a[1..], b);
    } else {
      assert a + b == b;
    }
  }

  lemma SpellOne(t: Token)
    ensures Spell([t]) == Spelling(t)
  {
    assert [t][1..] == [];
  }

  /** Three fields joined by one repeated separator spell as the three
      spellings so joined. */
  lemma SpellSeparated(x: Token, c: char, y: Token, z: Token)
    ensures Spell([x, Sep(c), y, Sep(c), z]) == Spelling(x) + [c] + Spelling(y) + [c] + Spelling(z)
  {
    assert [x, Sep(c), y, Sep(c), z] == [x] + [Sep(c)] + [y] + [Sep(c)] + [z];
    SpellAppend([x] + [Sep(c)] + [y] + [Sep(c)], [z]);
    SpellAppend([x] + [Sep(c)] + [y], [Sep(c)]);
    SpellAppend([x] + [Sep(c)], [y]);
    SpellAppend([x], [Sep(c)]);
    SpellOne(x);
    SpellOne(Sep(c));
    SpellOne(y);
    SpellOne(z);
  }

  /** Three fields with no separator spell as the three spellings run
      together. */
  lemma SpellJoined(x: Token, y: Token, z: Token)
    ensures Spell([x, y, z]) == Spelling(x) + Spelling(y) + Spelling(z)
  {
    assert [x, y, z] == [x] + [y] + [z];
    SpellAppend([x] + [y], [z]);
    SpellAppend([x], [y]);
    SpellOne(x);
    SpellOne(y);
    SpellOne(z);
  }

  /** The orders the table puts its three fields in: year-month-day,
      American month-day-short-year, and day-month with a short or a full
      year. */
  predicate TableOrder(x: Token, y: Token, z: Token) {
    (x == Year4 && y == Month2 && z == Day2)
    || (x == Month2 && y == Day2 && z == Year2)
    || (x == Day2 && y == Month2 && (z == Year2 || z == Year4))
  }

  /** Every table layout but the default one is three fields in a table
      order with one table symbol repeated between them. */
  lemma PatternShape(e: DateFormatInfo) returns (x: Token, c: char, y: Token, z: Token)
    requires e != Default
    ensures PatternLayout(e) == [x, Sep(c), y, Sep(c), z]
    ensures TableOrder(x, y, z) && IsSeparator(c)
  {
    match e
    case Slash => x, c, y, z := Year4, '/', Month2, Day2;
    case Comma => x, c, y, z := Year4, '.', Month2, Day2;
    case Hyphen => x, c, y, z := Year4, '-', Month2, Day2;
    case Germany => x, c, y, z := Year4, '-', Month2, Day2;
    case Denmark => x, c, y, z := Year4, '-', Month2, Day2;
    case Sweden => x, c, y, z := Year4, '-', Month2, Day2;
    case Space => x, c, y, z := Year4, ' ', Month2, Day2;
    case America => x, c, y, z := Month2, '-', Day2, Year2;
    case Canada => x, c, y, z := Day2, '/', Month2, Year2;
    case England => x, c, y, z := Day2, '/', Month2, Year2;
    case Italy => x, c, y, z := Day2, '/', Month2, Year2;
    case Finland => x, c, y, z := Day2, '.', Month2, Year4;
    case France => x, c, y, z := Day2, '/', Month2, Year4;
    case Thailand => x, c, y, z := Day2, '/', Month2, Year4;
    case Norway => x, c, y, z := Day2, '-', Month2, Year2;
    case Spain => x, c, y, z := Day2, '-', Month2, Year2;
  }

  /** A separated three-field layout in a table order is canonical, well
      formed, separated by table symbols, and renders 8 digits with a
      four-digit year and 6 with a two-digit one. */
  lemma SeparatedFacts(x: Token, c: char, y: Token, z: Token)
    requires TableOrder(x, y, z) && IsSeparator(c)
    ensures var l := [x, Sep(c), y, Sep(c), z];
      Canonical(l) && WellFormed(l) && SeparatorsAreSymbols(l)
      && FieldWidth(l) == (if Year4 in l then 8 else 6)
      && (YearFirst(l) <==> x == Year4)
  {
    SeparatedSymbols(x, c, y, z);
    SeparatedFields(x, c, y, z);
    SeparatedWidth(x, c, y, z);
  }

  lemma SeparatedSymbols(x: Token, c: char, y: Token, z: Token)
    requires TableOrder(x, y, z) && IsSeparator(c)
    ensures Canonical([x, Sep(c), y, Sep(c), z]) && SeparatorsAreSymbols([x, Sep(c), y, Sep(c), z])
  {
  }

  lemma SeparatedFields(x: Token, c: char, y: Token, z: Token)
    requires TableOrder(x, y, z)
    ensures var l := [x, Sep(c), y, Sep(c), z];
      WellFormed(l) && (Year4 in l <==> z == Year4 || x == Year4) && (YearFirst(l) <==> x == Year4)
  {
  }

  /** The digits a separated three-field layout renders to are those of
      its three fields. */
  lemma SeparatedWidth(x: Token, c: char, y: Token, z: Token)
    requires !x.Sep? && !y.Sep? && !z.Sep?
    ensures FieldWidth([x, Sep(c), y, Sep(c), z]) == Width(x) + Width(y) + Width(z)
  {
    var l := [x, Sep(c), y, Sep(c), z];
    assert FieldWidth(l[4..]) == Width(z) by {
      assert l[4..][1..] == [];
    }
    assert FieldWidth(l[2..]) == Width(y) + Width(z) by {
      assert l[2..][1..] == [Sep(c)] + l[4..];
    }
    assert l[1..][1..] == l[2..];
  }

  /** The default layout has the same properties. */
  lemma JoinedFacts()
    ensures var l := [Year4, Month2, Day2];
      Canonical(l) && WellFormed(l) && SeparatorsAreSymbols(l)
      && FieldWidth(l) == 8 && YearFirst(l)
  {
    var l := [Year4, Month2, Day2];
    assert FieldWidth(l[2..]) == 2 by {
      assert l[2..][1..] == [];
    }
    assert FieldWidth(l[1..]) == 4 by {
      assert l[1..][1..] == l[2..];
    }
  }

  /** Every table constant's layout is canonical: its separators are table
      symbols and its two-digit year, if any, comes last. */
  lemma PatternCanonical(e: DateFormatInfo)
    ensures Canonical(PatternLayout(e))
  {
    MemberShape(e);
  }

  /** Every table constant's layout spells its pattern. */
  lemma PatternSpelled(e: DateFormatInfo)
    ensures Spell(PatternLayout(e)) == e.Format()
  {
    if e == Default {
      SpellJoined(Year4, Month2, Day2);
    } else {
      var x, c, y, z := PatternShape(e);
      SpellSeparated(x, c, y, z);
      if x == Year4 {
        YearFirstSpelled(e);
      } else if z == Year4 {
        DayFirstSpelled(e);
      } else {
        ShortYearSpelled(e);
      }
    }
  }

  lemma YearFirstSpelled(e: DateFormatInfo)
    requires e != Default && PatternLayout(e)[0] == Year4
    ensures e.Format() == "yyyy" + [PatternLayout(e)[1].c] + "MM" + [PatternLayout(e)[1].c] + "dd"
  {
  }

  lemma DayFirstSpelled(e: DateFormatInfo)
    requires e != Default && PatternLayout(e)[0] != Year4 && PatternLayout(e)[4] == Year4
    ensures e.Format() == "dd" + [PatternLayout(e)[1].c] + "MM" + [PatternLayout(e)[1].c] + "yyyy"
  {
  }

  lemma ShortYearSpelled(e: DateFormatInfo)
    requires e != Default && PatternLayout(e)[0] != Year4 && PatternLayout(e)[4] != Year4
    ensures var l := PatternLayout(e);
      e.Format() == Spelling(l[0]) + [l[1].c] + Spelling(l[2]) + [l[1].c] + "yy"
  {
  }

  /** `applyPattern` reads every table constant's pattern as the layout
      given for it. */
  lemma PatternRead(e: DateFormatInfo)
    ensures LayoutOf(e.Format()) == PatternLayout(e)
  {
    PatternCanonical(e);
    PatternSpelled(e);
    TokenizeSpell(PatternLayout(e));
  }

  /** Setting any table constant's pattern activates that constant's
      layout, whichever constant sharing the pattern the lookup finds. */
  lemma PatternConfig(cfg: Config, e: DateFormatInfo)
    requires cfg.pattern == e.Format()
    ensures ValidConfig(cfg) && Layout(cfg) == PatternLayout(e)
  {
    DateFormatPositions();
    assert DateFormatType.format(DateFormatValues[e.Code() - 1]) == cfg.pattern;
    var found := ConfigLayout(cfg);
    PatternRead(found);
    PatternRead(e);
  }

  /** Every table layout is canonical, well formed, and has only table
      symbols as separators. */
  lemma MemberShape(e: DateFormatInfo)
    ensures Canonical(PatternLayout(e))
    ensures WellFormed(PatternLayout(e))
    ensures SeparatorsAreSymbols(PatternLayout(e))
  {
    if e == Default {
      JoinedFacts();
    } else {
      var x, c, y, z := PatternShape(e);
      SeparatedFacts(x, c, y, z);
    }
  }

  /** A table layout renders 8 digits with a four-digit year and 6 with a
      two-digit one; the year-first layouts are those starting with the
      year. */
  lemma MemberWidth(e: DateFormatInfo)
    ensures FieldWidth(PatternLayout(e)) == if Year4 in PatternLayout(e) then 8 else 6
    ensures YearFirst(PatternLayout(e)) <==> Year4 == PatternLayout(e)[0]
  {
    if e == Default {
      JoinedFacts();
    } else {
      var x, c, y, z := PatternShape(e);
      SeparatedFacts(x, c, y, z);
    }
  }

  /** A valid configuration's layout is a table pattern's layout. */
  lemma ConfigLayout(cfg: Config) returns (e: DateFormatInfo)
    requires ValidConfig(cfg)
    ensures cfg.pattern == e.Format() && Layout(cfg) == PatternLayout(e)
    ensures WellFormed(Layout(cfg)) && SeparatorsAreSymbols(Layout(cfg))
    ensures FieldWidth(Layout(cfg)) == if Year4 in Layout(cfg) then 8 else 6
  {
    e := FI.GetByFormat(DateFormatType, Some(cfg.pattern)).value;
    MemberShape(e);
    MemberWidth(e);
  }

  /** The digits of a rendered date, separators left out. */
  function FieldText(layout: seq<Token>, d: Date): (r: string)
    requires Valid(d)
    ensures AllDigits(r)
    ensures InDomain(d) ==> |r| == FieldWidth(layout)
  {
    if layout == [] then ""
    else
      RenderWidth(layout[0], d);
      (if layout[0].Sep? then "" else Render(layout[0], d)) + FieldText(layout[1..], d)
  }

  lemma {:induction false} StripFormat(layout: seq<Token>, d: Date)
    requires Valid(d)
    requires SeparatorsAreSymbols(layout)
    ensures StripSymbols(Format(layout, d)) == FieldText(layout, d)
    decreases |layout|
  {
    if layout != [] {
      var t := layout[0];
      assert SeparatorsAreSymbols(layout[1..]) by {
        forall i | 0 <= i < |layout[1..]| && layout[1..][i].Sep? ensures IsSeparator(layout[1..][i].c) {
          assert layout[1..][i] == layout[i + 1];
        }
      }
      StripAppend(Render(t, d), Format(layout[1..], d));
      StripFormat(layout[1..], d);
      if t.Sep? {
        assert IsSeparator(layout[0].c);
        assert Render(t, d) == [t.c];
        assert StripSymbols([t.c]) == [];
      } else {
        StripDigits(Render(t, d));
      }
    }
  }

  /** An effective text is the rendering of its parsed date, and stripping
      it leaves exactly the digits of that date's fields. */
  lemma EffectiveText(cfg: Config, date: JavaString)
    requires ValidConfig(cfg)
    requires IsEffectiveDate(cfg, date)
    ensures date.value == Format(Layout(cfg), ToDate(cfg, date).value)
    ensures TrimSymbolFrom(date.value) == FieldText(Layout(cfg), ToDate(cfg, date).value)
    ensures AllDigits(TrimSymbolFrom(date.value))
    ensures |TrimSymbolFrom(date.value)| == if Year4 in Layout(cfg) then 8 else 6
  {
    var e := ConfigLayout(cfg);
    StripFormat(Layout(cfg), ToDate(cfg, date).value);
  }

  // ---------------------------------------------------------------------
  // The operations

  /** The three keyed slices of an eight-character field text: the first
      four characters under the year key, then two under the month key and
      two under the day key. */
  function Slices(t: string): (r: map<string, string>)
    requires |t| == 8
    ensures r.Keys == {"yyyy", "MM", "dd"}
    ensures "yyyy" in r && "MM" in r && "dd" in r
    ensures r["yyyy"] + r["MM"] + r["dd"] == t
    ensures |r["yyyy"]| == 4 && |r["MM"]| == 2 && |r["dd"]| == 2
    ensures AllDigits(t) ==> AllDigits(r["yyyy"]) && AllDigits(r["MM"]) && AllDigits(r["dd"])
  {
    assert t[..4] + t[4..6] + t[6..8] == t;
    map["yyyy" := t[..4], "MM" := t[4..6], "dd" := t[6..8]]
  }

  /** `spritDate`: empty for a text that is not effective or does not strip
      to 8 characters; otherwise the stripped digits cut 4/2/2 under the
      keys "yyyy", "MM", "dd". */
  function SplitDate(cfg: Config, date: JavaString): (r: map<string, string>)
    requires ValidConfig(cfg)
    ensures r != map[] <==> IsEffectiveDate(cfg, date) && |TrimSymbolFrom(date.value)| == 8
    ensures r != map[] ==> r == Slices(TrimSymbolFrom(date.value))
    ensures r != map[] ==> AllDigits(TrimSymbolFrom(date.value))
    ensures DigitSplit(r)
  {
    if !IsEffectiveDate(cfg, date) then map[]
    else
      var trimmed := TrimSymbolFrom(date.value);
      if |trimmed| == 8 then
        EffectiveText(cfg, date);
        var m := Slices(trimmed);
        assert "yyyy" in m;
        m
      else map[]
  }

  /** What `spritDate` returns: nothing, or digit slices under the three
      keys. */
  predicate DigitSplit(m: map<string, string>) {
    m == map[]
    || ("yyyy" in m && "MM" in m && "dd" in m
        && AllDigits(m["yyyy"]) && AllDigits(m["MM"]) && AllDigits(m["dd"]))
  }

  /** The lenient calendar after `clear()` and `set(year, month - 1, day)`
      with the split fields read as integers; none when the map is empty. */
  function CalendarAt(cfg: Config, date: JavaString): (r: Option<Date>)
    requires ValidConfig(cfg)
    ensures r.Some? <==> SplitDate(cfg, date) != map[]
    ensures r.Some? ==> Valid(r.value)
  {
    CalendarOfSplit(SplitDate(cfg, date))
  }

  function CalendarOfSplit(m: map<string, string>): (r: Option<Date>)
    requires DigitSplit(m)
    ensures r.Some? <==> m != map[]
    ensures r.Some? ==> Valid(r.value)
  {
    if m == map[] then None
    else Some(LenientDate(Value(m["yyyy"]), Value(m["MM"]) - 1, Value(m["dd"])))
  }

  /** The calendar set up from a split is the lenient reading of its
      three values. */
  lemma CalendarOfFields(cfg: Config, date: JavaString, y: int, mo: int, dd: int)
    requires ValidConfig(cfg) && SplitDate(cfg, date) != map[]
    requires var m := SplitDate(cfg, date);
      Value(m["yyyy"]) == y && Value(m["MM"]) == mo && Value(m["dd"]) == dd
    ensures CalendarAt(cfg, date) == Some(LenientDate(y, mo - 1, dd))
  {
    var m := SplitDate(cfg, date);
    assert CalendarAt(cfg, date) == CalendarOfSplit(m);
    SplitCalendar(m, y, mo - 1, dd);
  }

  lemma SplitCalendar(m: map<string, string>, y: int, month0: int, dd: int)
    requires DigitSplit(m) && m != map[]
    requires Value(m["yyyy"]) == y && Value(m["MM"]) - 1 == month0 && Value(m["dd"]) == dd
    ensures CalendarOfSplit(m) == Some(LenientDate(y, month0, dd))
  {
    SplitFields(m);
  }

  lemma SplitFields(m: map<string, string>)
    requires DigitSplit(m) && m != map[]
    ensures CalendarOfSplit(m) == Some(LenientDate(Value(m["yyyy"]), Value(m["MM"]) - 1, Value(m["dd"])))
  {
  }

  /** `getDayOfWeekInfoByDate`: the constant whose code is the calendar's
      day of the week; when the map is empty the code stays -1 and the
      lookup throws IllegalArgumentException. */
  function GetDayOfWeekInfoByDate(cfg: Config, date: JavaString): (r: Result<WeekInfo>)
    requires ValidConfig(cfg)
    ensures r.Ok? <==> CalendarAt(cfg, date).Some?
    ensures r.Err? ==> r.error == IllegalArgument
    ensures r.Ok? ==> r.value.Code() == WeekdayCode(CalendarAt(cfg, date).value)
  {
    match CalendarAt(cfg, date)
    case None => WeekLookup(-1)
    case Some(d) => WeekLookup(WeekdayCode(d))
  }

  /** `WeekInfo.getByCode` as the two lookups use it: a code of 1..7 finds
      the constant at position code - 1, any other code throws. */
  function WeekLookup(code: int): (r: Result<WeekInfo>)
    ensures r.Ok? <==> 1 <= code <= 7
    ensures r.Err? ==> r.error == IllegalArgument
    ensures r.Ok? ==> r.value == WeekValues[code - 1] && r.value.Code() == code
  {
    if 1 <= code <= 7 then WeekByCode(code); WeekCodeAt(code); CI.GetByCode(WeekType, code)
    else CalendarCodeRange(code); CI.GetByCode(WeekType, code)
  }

  /** `getMonthInfoByDate`: the constant whose code is the calendar's
      zero-based month, so never Undecimber; an empty map throws. */
  function GetMonthInfoByDate(cfg: Config, date: JavaString): (r: Result<MonthInfo>)
    requires ValidConfig(cfg)
    ensures r.Ok? <==> CalendarAt(cfg, date).Some?
    ensures r.Err? ==> r.error == IllegalArgument
    ensures r.Ok? ==> r.value.Code() == CalendarAt(cfg, date).value.month - 1
    ensures r.Ok? ==> r.value != Undecimber
  {
    match CalendarAt(cfg, date)
    case None => MonthLookup(-1)
    case Some(d) => MonthLookup(d.month - 1)
  }

  /** `MonthInfo.getByCode` as `getMonthInfoByDate` uses it: a code of 0..12
      finds the constant at position code, any other code throws. */
  function MonthLookup(code: int): (r: Result<MonthInfo>)
    ensures r.Ok? <==> 0 <= code <= 12
    ensures r.Err? ==> r.error == IllegalArgument
    ensures r.Ok? ==> r.value == MonthValues[code] && r.value.Code() == code
    ensures r.Ok? ==> (r.value == Undecimber <==> code == 12)
  {
    if 0 <= code <= 12 then MonthByCode(code); MonthCodeAt(code); CI.GetByCode(MonthType, code)
    else CalendarCodeRange(code); CI.GetByCode(MonthType, code)
  }

  /** A calendar that was set up finds the week constant at its weekday's
      place in the table. */
  lemma WeekOfCalendar(cfg: Config, date: JavaString)
    requires ValidConfig(cfg) && CalendarAt(cfg, date).Some?
    ensures GetDayOfWeekInfoByDate(cfg, date) == Ok(WeekValues[WeekdayCode(CalendarAt(cfg, date).value) - 1])
  {
    WeekAtCode(GetDayOfWeekInfoByDate(cfg, date).value);
  }

  /** A calendar that was set up finds the month constant at its month's
      place in the table. */
  lemma MonthOfCalendar(cfg: Config, date: JavaString)
    requires ValidConfig(cfg) && CalendarAt(cfg, date).Some?
    ensures GetMonthInfoByDate(cfg, date) == Ok(MonthValues[CalendarAt(cfg, date).value.month - 1])
  {
    var r := GetMonthInfoByDate(cfg, date);
    var m := r.value;
    MonthAtCode(m);
    assert r == Ok(m);
  }

  /** The field arithmetic of `adjustDate`: years added first, pinning the
      day to the new month's length; then months, pinning again; then an
      exact shift by days. A valid date is fixed by its day count, so the
      ensures determine the result. */
  function Adjusted(d: Date, amountYear: int, amountMonth: int, amountDay: int): (e: Date)
    requires Valid(d)
    ensures Valid(e)
    ensures var y := d.year + amountYear;
      var a := Date(y, d.month, if d.day <= DaysInMonth(y, d.month) then d.day else DaysInMonth(y, d.month));
      exists b ::
        && Valid(b) && MonthIndex(b) == MonthIndex(a) + amountMonth
        && b.day == (if a.day <= DaysInMonth(b.year, b.month) then a.day else DaysInMonth(b.year, b.month))
        && DayNumber(e) == DayNumber(b) + amountDay
  {
    var byMonth := AddMonths(AddYears(d, amountYear), amountMonth);
    AddDays(byMonth, amountDay)
  }

  /** `adjustDate`: the adjusted calendar rendered in the active pattern;
      "" when the map is empty. */
  function AdjustDate(cfg: Config, date: JavaString, amountYear: int, amountMonth: int, amountDay: int): (r: string)
    requires ValidConfig(cfg)
    ensures CalendarAt(cfg, date).None? ==> r == ""
    ensures CalendarAt(cfg, date).Some? ==>
      r == Format(Layout(cfg), Adjusted(CalendarAt(cfg, date).value, amountYear, amountMonth, amountDay))
  {
    match CalendarAt(cfg, date)
    case None => ""
    case Some(d) => Format(Layout(cfg), Adjusted(d, amountYear, amountMonth, amountDay))
  }

  /** `getFirstDayOfMonth`: the smallest day the calendar's month has, or
      -1 when the map is empty. */
  function GetFirstDayOfMonth(cfg: Config, date: JavaString): (r: int)
    requires ValidConfig(cfg)
    ensures r == -1 <==> CalendarAt(cfg, date).None?
    ensures r != -1 ==>
      var d := CalendarAt(cfg, date).value;
      Valid(Date(d.year, d.month, r)) && !Valid(Date(d.year, d.month, r - 1))
  {
    match CalendarAt(cfg, date)
    case None => -1
    case Some(_) => 1
  }

  /** `getLastDayOfMonth`: the largest day the calendar's month has, or -1
      when the map is empty. */
  function GetLastDayOfMonth(cfg: Config, date: JavaString): (r: int)
    requires ValidConfig(cfg)
    ensures r == -1 <==> CalendarAt(cfg, date).None?
    ensures r != -1 ==>
      var d := CalendarAt(cfg, date).value;
      Valid(Date(d.year, d.month, r)) && !Valid(Date(d.year, d.month, r + 1))
  {
    match CalendarAt(cfg, date)
    case None => -1
    case Some(d) => DaysInMonth(d.year, d.month)
  }

  /** The calendar moved back by its own day-of-week code: always the
      Saturday one to seven days earlier. */
  function WeekStart(d: Date): (b: Date)
    requires Valid(d)
    ensures Valid(b) && WeekdayCode(b) == 7
    ensures DayNumber(d) - 7 <= DayNumber(b) < DayNumber(d)
  {
    var dayOfWeek := WeekdayCode(d);
    WeekdayAfterDays(d, -dayOfWeek);
    AddDays(d, -dayOfWeek)
  }

  lemma SixDaysAfterSaturday(b: Date)
    requires Valid(b) && WeekdayCode(b) == 7
    ensures WeekdayCode(AddDays(b, 6)) == 6
  {
    WeekdayAfterDays(b, 6);
    assert 12 % 7 == 5;
  }

  /** Six days after that start: always the Friday between the day before
      and five days after the given day. */
  function WeekEnd(d: Date): (e: Date)
    requires Valid(d)
    ensures Valid(e) && WeekdayCode(e) == 6
    ensures DayNumber(d) - 1 <= DayNumber(e) <= DayNumber(d) + 5
  {
    var b := WeekStart(d);
    SixDaysAfterSaturday(b);
    AddDays(b, 6)
  }

  /** `getBeginningDateOfWeek`: the calendar's week start rendered in the
      active pattern; "" when the map is empty. */
  function GetBeginningDateOfWeek(cfg: Config, date: JavaString): (r: string)
    requires ValidConfig(cfg)
    ensures CalendarAt(cfg, date).None? ==> r == ""
    ensures CalendarAt(cfg, date).Some? ==> r == Format(Layout(cfg), WeekStart(CalendarAt(cfg, date).value))
  {
    match CalendarAt(cfg, date)
    case None => ""
    case Some(d) => Format(Layout(cfg), WeekStart(d))
  }

  /** `getEndDateOfWeek`: the calendar's week end rendered in the active
      pattern; "" when the map is empty. */
  function GetEndDateOfWeek(cfg: Config, date: JavaString): (r: string)
    requires ValidConfig(cfg)
    ensures CalendarAt(cfg, date).None? ==> r == ""
    ensures CalendarAt(cfg, date).Some? ==> r == Format(Layout(cfg), WeekEnd(CalendarAt(cfg, date).value))
  {
    match CalendarAt(cfg, date)
    case None => ""
    case Some(d) => Format(Layout(cfg), WeekEnd(d))
  }
}
