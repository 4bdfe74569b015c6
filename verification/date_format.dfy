/** The part of `SimpleDateFormat` the handler relies on, for the patterns
    of the format table. A pattern is read as a layout of numeric fields
    and literal separators; formatting renders a date through the layout,
    and strict parsing reads the fields back, fixed width, and rejects
    a day that does not exist. */
module DateFormat {
  import opened Outcomes
  import opened Decimal
  import opened Gregorian

  /** "yyyy", "yy", "MM", "dd", or a literal character. */
  datatype Token = Year4 | Year2 | Month2 | Day2 | Sep(c: char)

  predicate IsPatternLetter(c: char) {
    'a' <= c <= 'z' || 'A' <= c <= 'Z'
  }

  function Spelling(t: Token): string {
    match t
    case Year4 => "yyyy"
    case Year2 => "yy"
    case Month2 => "MM"
    case Day2 => "dd"
    case Sep(c) => [c]
  }

  /** The pattern text a layout stands for. */
  function Spell(layout: seq<Token>): string {
    if layout == [] then "" else Spelling(layout[0]) + Spell(layout[1..])
  }

  function Prepend(t: Token, rest: Option<seq<Token>>): (r: Option<seq<Token>>)
    ensures r.Some? <==> rest.Some?
    ensures r.Some? ==> r.value == [t] + rest.value
  {
    match rest
    case None => None
    case Some(l) => Some([t] + l)
  }

  /** The token a pattern starts with: a run of four `y` is a four-digit
      year, two `y` a two-digit year, `MM` a month, `dd` a day; any other
      letter or a quote is outside this model; any other character is a
      literal. */
  function NextToken(p: string): (r: Option<Token>)
    requires p != []
    ensures r.Some? ==> |Spelling(r.value)| <= |p| && p[..|Spelling(r.value)|] == Spelling(r.value)
    ensures r.Some? && r.value.Sep? ==> !IsPatternLetter(r.value.c) && r.value.c != '\''
  {
    if |p| >= 4 && p[..4] == "yyyy" then Some(Year4)
    else if |p| >= 2 && p[..2] == "yy" then Some(Year2)
    else if |p| >= 2 && p[..2] == "MM" then Some(Month2)
    else if |p| >= 2 && p[..2] == "dd" then Some(Day2)
    else if IsPatternLetter(p[0]) || p[0] == '\'' then None
    else Some(Sep(p[0]))
  }

  /** `applyPattern`, for patterns made of the four field tokens and
      literals. */
  function Tokenize(p: string): (r: Option<seq<Token>>)
    ensures r.Some? ==> Spell(r.value) == p
    ensures r.Some? ==> forall i :: 0 <= i < |r.value| && r.value[i].Sep? ==>
                          !IsPatternLetter(r.value[i].c) && r.value[i].c != '\''
    decreases |p|
  {
    if p == [] then Some([])
    else
      match NextToken(p)
      case None => None
      case Some(t) =>
        var n := |Spelling(t)|;
        assert p == Spelling(t) + p[n..];
        Prepend(t, Tokenize(p[n..]))
  }

  /** A layout `applyPattern` reads back as itself: literals are not
      letters or quotes, and a two-digit year is not followed by another
      year field (the two would read as one four-digit year). */
  predicate Canonical(layout: seq<Token>) {
    (forall i :: 0 <= i < |layout| && layout[i].Sep? ==> !IsPatternLetter(layout[i].c) && layout[i].c != '\'')
    && (forall i :: 0 <= i < |layout| - 1 && layout[i] == Year2 ==> layout[i + 1] != Year2 && layout[i + 1] != Year4)
  }

  lemma NextOfSpell(layout: seq<Token>)
    requires Canonical(layout) && layout != []
    ensures NextToken(Spell(layout)) == Some(layout[0])
  {
    var t := layout[0];
    var rest := Spell(layout[1..]);
    assert Spell(layout) == Spelling(t) + rest;
    if t == Year2 && rest != [] {
      var u := layout[1];
      assert rest == Spelling(u) + Spell(layout[2..]);
      assert rest[0] == Spelling(u)[0];
      assert u != Year2 && u != Year4;
    }
    NextOfPrefix(t, rest);
  }

  /** A token's spelling followed by text that does not extend a two-digit
      year reads back as that token. */
  lemma NextOfPrefix(t: Token, rest: string)
    requires t.Sep? ==> !IsPatternLetter(t.c) && t.c != '\''
    requires t == Year2 ==> rest == [] || rest[0] != 'y'
    ensures NextToken(Spelling(t) + rest) == Some(t)
  {
    var p := Spelling(t) + rest;
    match t
    case Year4 =>
      assert p[..4] == "yyyy";
    case Year2 =>
      assert p[..2] == "yy";
      if |p| >= 4 {
        assert p[2] == rest[0];
        assert p[..4] != "yyyy";
      }
    case Month2 =>
      assert p[..2] == "MM";
      assert p[0] == 'M';
    case Day2 =>
      assert p[..2] == "dd";
      assert p[0] == 'd';
    case Sep(c) =>
      assert p[0] == c;
  }

  lemma {:induction false} TokenizeSpell(layout: seq<Token>)
    requires Canonical(layout)
    ensures Tokenize(Spell(layout)) == Some(layout)
    decreases |layout|
  {
    if layout != [] {
      var t := layout[0];
      var rest := Spell(layout[1..]);
      var p := Spell(layout);
      assert p == Spelling(t) + rest;
      assert p[|Spelling(t)|..] == rest;
      assert Canonical(layout[1..]);
      TokenizeSpell(layout[1..]);
      NextOfSpell(layout);
      assert layout == [t] + layout[1..];
    }
  }

  /** The layout of a pattern; empty when the pattern is outside the model. */
  function LayoutOf(p: string): seq<Token> {
    match Tokenize(p)
    case Some(l) => l
    case None => []
  }

  /** A layout with a month, a day and one kind of year field. */
  predicate WellFormed(layout: seq<Token>) {
    Month2 in layout && Day2 in layout && (Year4 in layout <==> Year2 !in layout)
  }

  /** The dates this model formats and parses: real days of the years
      1583..9999, after the Julian cutover and with four-digit years. */
  predicate InDomain(d: Date) {
    Valid(d) && 1583 <= d.year <= 9999
  }

  /** The year of the era, as "y" fields print it (1 BC is year 1). */
  function YearOfEra(y: int): (r: nat)
    ensures y >= 1 ==> r == y
  {
    if y >= 1 then y else 1 - y
  }

  /** One token of a date: numeric fields zero-padded to their pattern
      width, "yy" cut to the last two digits. */
  function Render(t: Token, d: Date): (r: string)
    requires Valid(d)
    ensures AllDigits(r) || t.Sep?
  {
    match t
    case Year4 => Padded(YearOfEra(d.year), 4)
    case Year2 => Digits(YearOfEra(d.year) % 100, 2)
    case Month2 => Padded(d.month, 2)
    case Day2 => Padded(d.day, 2)
    case Sep(c) => [c]
  }

  /** `format`: the date rendered through the layout. */
  function Format(layout: seq<Token>, d: Date): (r: string)
    requires Valid(d)
    ensures InDomain(d) ==> |r| == TotalWidth(layout)
  {
    if layout == [] then ""
    else
      RenderWidth(layout[0], d);
      Render(layout[0], d) + Format(layout[1..], d)
  }

  function Width(t: Token): nat {
    match t
    case Year4 => 4
    case Sep(_) => 1
    case _ => 2
  }

  function TotalWidth(layout: seq<Token>): nat {
    if layout == [] then 0 else Width(layout[0]) + TotalWidth(layout[1..])
  }

  /** Inside the domain every field renders at exactly its pattern width. */
  lemma RenderWidth(t: Token, d: Date)
    requires Valid(d)
    ensures InDomain(d) ==> Render(t, d) == if t.Sep? then [t.c] else Digits(FieldValue(t, d), Width(t))
  {
    if InDomain(d) {
      match t
      case Year4 => PaddedFits(d.year, 4);
      case Month2 => PaddedFits(d.month, 2);
      case Day2 => PaddedFits(d.day, 2);
      case _ =>
    }
  }

  /** The number a field token of a domain date holds. */
  function FieldValue(t: Token, d: Date): nat
    requires InDomain(d)
  {
    match t
    case Year4 => d.year
    case Year2 => d.year % 100
    case Month2 => d.month
    case Day2 => d.day
    case Sep(_) => 0
  }

  /** The calendar fields while parsing; `clear()` leaves 1970-01-01. */
  datatype Fields = Fields(year: int, month: int, day: int)

  const Cleared: Fields := Fields(1970, 1, 1)

  /** The year a two-digit year `v` denotes: the one in the hundred-year
      window starting at `centuryStart` with the same last two digits. */
  function WindowYear(v: int, centuryStart: int): (r: int)
    ensures centuryStart <= r < centuryStart + 100
    ensures r % 100 == v % 100
  {
    centuryStart + (v - centuryStart) % 100
  }

  function Assign(t: Token, v: int, centuryStart: int, f: Fields): Fields {
    match t
    case Year4 => f.(year := v)
    case Year2 => f.(year := WindowYear(v, centuryStart))
    case Month2 => f.(month := v)
    case Day2 => f.(day := v)
    case Sep(_) => f
  }

  /** Reads the text token by token: a field takes exactly its width in
      digits, a literal must match; text left after the last token is
      ignored, as `DateFormat.parse(String)` does. */
  function ParseFields(layout: seq<Token>, s: string, centuryStart: int, f: Fields): Option<Fields>
    decreases |layout|
  {
    if layout == [] then Some(f)
    else
      var t := layout[0];
      var w := Width(t);
      if |s| < w then None
      else if t.Sep? then
        if s[0] == t.c then ParseFields(layout[1..], s[1..], centuryStart, f) else None
      else if AllDigits(s[..w]) then
        ParseFields(layout[1..], s[w..], centuryStart, Assign(t, Value(s[..w]), centuryStart, f))
      else None
  }

  /** Strict `parse`: the fields must name a real day, which must lie in
      the domain. */
  function Parse(layout: seq<Token>, s: string, centuryStart: int): (r: Option<Date>)
    ensures r.Some? ==> InDomain(r.value)
  {
    match ParseFields(layout, s, centuryStart, Cleared)
    case None => None
    case Some(f) =>
      var d := Date(f.year, f.month, f.day);
      if InDomain(d) then Some(d) else None
  }

  /** The dates a layout can carry through format and parse: domain dates,
      and for a two-digit year only those inside the century window. */
  predicate Readable(layout: seq<Token>, centuryStart: int, d: Date) {
    InDomain(d) && (Year2 in layout ==> centuryStart <= d.year < centuryStart + 100)
  }

  /** The fields parsing a rendered date leaves behind. */
  function Filled(layout: seq<Token>, d: Date, centuryStart: int, f: Fields): Fields
    requires InDomain(d)
    decreases |layout|
  {
    if layout == [] then f
    else Filled(layout[1..], d, centuryStart, Assign(layout[0], FieldValue(layout[0], d), centuryStart, f))
  }

  /** A rendering followed by more text starts with its first token's text. */
  lemma FirstTokenText(layout: seq<Token>, d: Date, rest: string)
    requires InDomain(d) && layout != []
    ensures var s := Format(layout, d) + rest;
      |s| >= Width(layout[0]) && s[..Width(layout[0])] == Render(layout[0], d)
      && s[Width(layout[0])..] == Format(layout[1..], d) + rest
  {
    var t := layout[0];
    var head := Render(t, d);
    var body := Format(layout[1..], d);
    RenderWidth(t, d);
    assert |head| == Width(t);
    assert Format(layout, d) == head + body;
    assert (head + body) + rest == head + (body + rest);
    PrefixSlices(head, body + rest, Width(t));
  }

  lemma PrefixSlices(a: string, b: string, w: nat)
    requires |a| == w
    ensures |a + b| >= w && (a + b)[..w] == a && (a + b)[w..] == b
  {
  }

  /** Parsing a text that starts with a token's rendering consumes that
      rendering and records the token's field. */
  lemma ParseToken(layout: seq<Token>, d: Date, s: string, centuryStart: int, f: Fields)
    requires InDomain(d) && layout != []
    requires |s| >= Width(layout[0]) && s[..Width(layout[0])] == Render(layout[0], d)
    ensures ParseFields(layout, s, centuryStart, f)
              == ParseFields(layout[1..], s[Width(layout[0])..], centuryStart,
                             Assign(layout[0], FieldValue(layout[0], d), centuryStart, f))
  {
    var t := layout[0];
    var w := Width(t);
    RenderWidth(t, d);
    if !t.Sep? {
      assert FieldValue(t, d) < Pow10(w) by {
        assert Pow10(2) == 100;
        assert Pow10(4) == 10000;
      }
      ValueOfDigits(FieldValue(t, d), w);
    }
  }

  /** Parsing a rendering consumes its first token's text and records that
      token's field, leaving the rest of the rendering to the next token. */
  lemma ParseFirstToken(layout: seq<Token>, d: Date, centuryStart: int, f: Fields, rest: string)
    requires InDomain(d) && layout != []
    ensures ParseFields(layout, Format(layout, d) + rest, centuryStart, f)
              == ParseFields(layout[1..], Format(layout[1..], d) + rest, centuryStart,
                             Assign(layout[0], FieldValue(layout[0], d), centuryStart, f))
  {
    FirstTokenText(layout, d, rest);
    ParseToken(layout, d, Format(layout, d) + rest, centuryStart, f);
  }

  lemma {:induction false} ParseRendered(layout: seq<Token>, d: Date, centuryStart: int, f: Fields, rest: string)
    requires InDomain(d)
    ensures ParseFields(layout, Format(layout, d) + rest, centuryStart, f) == Some(Filled(layout, d, centuryStart, f))
    decreases |layout|
  {
    if layout != [] {
      ParseFirstToken(layout, d, centuryStart, f, rest);
      ParseRendered(layout[1..], d, centuryStart, Assign(layout[0], FieldValue(layout[0], d), centuryStart, f), rest);
    }
  }

  lemma {:induction false} FilledFields(layout: seq<Token>, d: Date, centuryStart: int, f: Fields)
    requires InDomain(d)
    ensures Filled(layout, d, centuryStart, f).month == if Month2 in layout then d.month else f.month
    ensures Filled(layout, d, centuryStart, f).day == if Day2 in layout then d.day else f.day
    ensures Year2 !in layout ==>
              Filled(layout, d, centuryStart, f).year == if Year4 in layout then d.year else f.year
    ensures Year4 !in layout ==>
              Filled(layout, d, centuryStart, f).year == if Year2 in layout then WindowYear(d.year % 100, centuryStart) else f.year
    decreases |layout|
  {
    if layout != [] {
      assert layout == [layout[0]] + layout[1..];
      FilledFields(layout[1..], d, centuryStart, Assign(layout[0], FieldValue(layout[0], d), centuryStart, f));
    }
  }

  lemma WindowKeepsYear(y: int, centuryStart: int)
    requires centuryStart <= y < centuryStart + 100
    ensures WindowYear(y % 100, centuryStart) == y
  {
  }

  /** Round trip: a readable date survives format then strict parse, and
      text after the rendering is ignored. */
  lemma FormatThenParse(layout: seq<Token>, centuryStart: int, d: Date, rest: string)
    requires WellFormed(layout)
    requires Readable(layout, centuryStart, d)
    ensures Parse(layout, Format(layout, d) + rest, centuryStart) == Some(d)
  {
    ParseRendered(layout, d, centuryStart, Cleared, rest);
    FilledFields(layout, d, centuryStart, Cleared);
    if Year2 in layout {
      WindowKeepsYear(d.year, centuryStart);
    }
  }

  lemma {:induction false} ParsedYear(layout: seq<Token>, s: string, centuryStart: int, f: Fields)
    requires Year4 !in layout
    requires ParseFields(layout, s, centuryStart, f).Some?
    ensures var g := ParseFields(layout, s, centuryStart, f).value;
            if Year2 in layout then centuryStart <= g.year < centuryStart + 100 else g.year == f.year
    decreases |layout|
  {
    if layout != [] {
      assert layout == [layout[0]] + layout[1..];
      var t := layout[0];
      var w := Width(t);
      if t.Sep? {
        ParsedYear(layout[1..], s[1..], centuryStart, f);
      } else {
        ParsedYear(layout[1..], s[w..], centuryStart, Assign(t, Value(s[..w]), centuryStart, f));
      }
    }
  }

  /** Whatever strict parse returns is readable through the layout. */
  lemma ParseIsReadable(layout: seq<Token>, s: string, centuryStart: int)
    requires WellFormed(layout)
    requires Parse(layout, s, centuryStart).Some?
    ensures Readable(layout, centuryStart, Parse(layout, s, centuryStart).value)
  {
    if Year2 in layout {
      ParsedYear(layout, s, centuryStart, Cleared);
    }
  }

  /** Two readable dates with the same rendering are the same date. */
  lemma FormatInjective(layout: seq<Token>, centuryStart: int, a: Date, b: Date)
    requires WellFormed(layout)
    requires Readable(layout, centuryStart, a) && Readable(layout, centuryStart, b)
    requires Format(layout, a) == Format(layout, b)
    ensures a == b
  {
    FormatThenParse(layout, centuryStart, a, "");
    FormatThenParse(layout, centuryStart, b, "");
    assert Format(layout, a) + "" == Format(layout, a);
    assert Format(layout, b) + "" == Format(layout, b);
  }
}
