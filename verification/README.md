# CalendarHandler date utility, modelled in Dafny

The library is a small Java date toolkit with four parts:

- a string-keyed date handler, `CalendarHandler`;
- four constant tables: week days, months, separator symbols and date patterns;
- two generic lookup interfaces over those tables;
- the non-empty-string guard `StringChecker.isEffectiveString`.

The handler keeps one shared `SimpleDateFormat` and one shared lenient `Calendar`. Every operation follows the same steps:

1. It validates the text with a parse-then-format round trip.
2. It strips the separator characters.
3. It cuts the remaining digits as year `[0,4)`, month `[4,6)` and day `[6,8)`.
4. It sets the calendar to those fields and reads a weekday or a month, adds years, months and days, or asks for the month's bounds.

This project is a functional model of that code. The Java library calls it depends on are replaced by explicit definitions.

| file | module | models |
|---|---|---|
| `outcomes.dfy` | `Outcomes` | `Option`, `Result`, the two exceptions the code throws, and a nullable `String` as `Option<string>` |
| `string_checker.dfy` | `StringChecker` | `isEffectiveString` |
| `lookup.dfy` | `Lookup` | what the interfaces are built from: the for-each loop of the `has…` methods, `filter().findFirst()`, `sorted(comparing(getOrder))` and `Collectors.toMap` |
| `calendar_info_lookup.dfy` | `ICalendarInfoEnum` | `hasCode`, `hasName`, `getByCode`, `getByJapaneseName`, `getByEnglishName`, `getOrderedList`, `getMap`, generic over a table record |
| `format_info_lookup.dfy` | `IFormatInfoEnum` | `hasCode`, `hasFormat`, `getByCode`, `getByFormat`, `getOrderedList`, `getMap` |
| `calendar_info_enum.dfy` | `CalendarInfoEnum` | `WeekInfo` (with `isWeekend`) and `MonthInfo` (with `Undecimber`) |
| `format_info_enum.dfy` | `FormatInfoEnum` | `SymbolInfo`, `DateFormatInfo` (17 patterns, several shared) and `FormatInfo` |
| `decimal.dfy` | `Decimal` | zero-padded decimal rendering and `Integer.parseInt` on digit strings |
| `gregorian.dfy` | `Gregorian` | the proleptic Gregorian calendar standing in for the calendar `Calendar.getInstance()` returns under a Gregorian default locale (see below) |
| `date_format.dfy` | `DateFormat` | `SimpleDateFormat` for the table's patterns: tokenising a pattern, formatting, and strict fixed-width parsing with a two-digit-year window |
| `calendar_handler.dfy` | `CalendarHandler` | the handler's operations over an explicit configuration |
| `handler_properties.dfy` | `HandlerProperties` | properties that span operations: what the round trip accepts, and what every operation computes under year-first patterns, and which fail under two-digit-year patterns |
| `handler_examples.dfy` | `HandlerExamples` | the handler's documented examples |
| `findings.dfy` | `Findings` | two places where the code does not do what it evidently means, with corrected definitions |

### The shared calendar

The handler takes its calendar from `Calendar.getInstance()` and its formatter from `new SimpleDateFormat(pattern)`, both under the default locale. The model takes that locale to give a Gregorian calendar and ASCII digits (see "## Left out"). The calendar is replaced by four pieces:

- a day count, `DayNumber`, with day 0 at 0001-01-01;
- the weekday computed from that count, Sunday = 1 … Saturday = 7, as `Calendar.DAY_OF_WEEK` numbers them;
- `LenientDate(year, month0, day)`, which is `clear()` followed by `set(year, month0, day)` on a lenient calendar: an out-of-range month rolls into the year and an out-of-range day rolls over by days;
- `AddYears`, `AddMonths` and `AddDays`, the three `add` calls. Adding years or months pins the day of month to the new month's length. Adding days is an exact shift.

### The shared formatter

The shared formatter becomes an explicit `Config(pattern, lenient, centuryStart)`:

- setters return a new configuration;
- an exception is an `Err`;
- `centuryStart` is the first year of the two-digit-year window. The formatter derives its window from the clock when it is created; the model keeps only the year (see "## Left out").

The model parses the years 1583..9999. That keeps accepted texts clear of the Julian cutover and keeps `yyyy` at exactly four digits. An adjustment can still move a date out of that range; see "## Left out".

### The main results

- `isEffectiveDate` accepts a text exactly when it is the rendering of a date the pattern can carry through a format and a parse (`HandlerProperties.EffectiveIffRendering`).
- Under every year-first pattern, each operation works on the very date the text names (`HandlerProperties.YearFirst*`).
- Under every two-digit-year pattern, every split-based operation (weekday, month, `adjustDate`, month bounds, week bounds) returns its failure value (`HandlerProperties.TwoDigitYearFails`). `isEffectiveDate` and `toDate` still accept such texts.

## Model

| member | source | states |
|---|---|---|
| `StringChecker.IsEffectiveString` | src/com/utilkit/java/common/StringChecker.java:51-54 | a string is effective exactly when it is neither null nor the empty string; blanks are not trimmed |
| `StringChecker.DependsOnlyOnLength` | src/com/utilkit/java/common/StringChecker.java:51-54 | the verdict depends only on nullness and length: references with equal nullness and equal length get the same answer |
| `StringChecker.Examples` | src/com/utilkit/java/common/StringChecker.java:53 | null and "" are rejected, and a single blank is accepted because nothing is trimmed |
| `ICalendarInfoEnum.EqualsByCode` | src/com/utilkit/java/CalendarHandler/ICalendarInfoEnum.java:125-127 | `equalsByCode`: a constant equals a code exactly when it carries that code; `hasCode` and `getByCode` are built on it |
| `ICalendarInfoEnum.HasCode` | src/com/utilkit/java/CalendarHandler/ICalendarInfoEnum.java:180-190 | true exactly when some constant carries the code |
| `ICalendarInfoEnum.HasName` | src/com/utilkit/java/CalendarHandler/ICalendarInfoEnum.java:205-216 | true exactly when the argument is not null and some constant's Japanese or English name equals it; a null name equals no name |
| `ICalendarInfoEnum.GetByCode` | src/com/utilkit/java/CalendarHandler/ICalendarInfoEnum.java:232-238 | succeeds exactly when `hasCode` holds, returning the first constant in declaration order with that code; otherwise IllegalArgumentException |
| `ICalendarInfoEnum.GetByJapaneseName` | src/com/utilkit/java/CalendarHandler/ICalendarInfoEnum.java:254-260 | the first constant with that Japanese name; IllegalArgumentException when none has it, and so for a null name |
| `ICalendarInfoEnum.GetByEnglishName` | src/com/utilkit/java/CalendarHandler/ICalendarInfoEnum.java:276-282 | the first constant with that English name; IllegalArgumentException when none has it, and so for a null name |
| `ICalendarInfoEnum.GetOrderedList` | src/com/utilkit/java/CalendarHandler/ICalendarInfoEnum.java:141-147 | a permutation of the constants, sorted by non-decreasing order |
| `ICalendarInfoEnum.GetMap` | src/com/utilkit/java/CalendarHandler/ICalendarInfoEnum.java:161-165 | with unique codes, the map's keys are exactly the codes and each code maps to its constant; a repeated code is an IllegalStateException |
| `ICalendarInfoEnum.ByCodeRoundTrip` | src/com/utilkit/java/CalendarHandler/ICalendarInfoEnum.java:232-238 | with unique codes, looking a constant up by its own code gives it back, and the code map agrees |
| `ICalendarInfoEnum.ByEnglishNameRoundTrip` | src/com/utilkit/java/CalendarHandler/ICalendarInfoEnum.java:276-282 | with unique English names, the lookup by a constant's own English name gives it back and `hasName` holds |
| `ICalendarInfoEnum.ByJapaneseNameRoundTrip` | src/com/utilkit/java/CalendarHandler/ICalendarInfoEnum.java:254-260 | with unique Japanese names, the lookup by a constant's own Japanese name gives it back and `hasName` holds |
| `IFormatInfoEnum.EqualsByCode` | src/com/utilkit/java/CalendarHandler/IFormatInfoEnum.java:112-114 | `equalsByCode`: a constant equals a code exactly when it carries that code; `hasCode` and `getByCode` are built on it |
| `IFormatInfoEnum.HasCode` | src/com/utilkit/java/CalendarHandler/IFormatInfoEnum.java:167-177 | true exactly when some constant carries the code |
| `IFormatInfoEnum.HasFormat` | src/com/utilkit/java/CalendarHandler/IFormatInfoEnum.java:192-202 | true exactly when the argument is not null and some constant's pattern equals it |
| `IFormatInfoEnum.GetByCode` | src/com/utilkit/java/CalendarHandler/IFormatInfoEnum.java:218-224 | succeeds exactly when `hasCode` holds, returning the first constant with that code; otherwise IllegalArgumentException |
| `IFormatInfoEnum.GetByFormat` | src/com/utilkit/java/CalendarHandler/IFormatInfoEnum.java:240-246 | succeeds exactly when `hasFormat` holds, returning the first constant in declaration order with that pattern; otherwise, a null format included, IllegalArgumentException |
| `IFormatInfoEnum.GetOrderedList` | src/com/utilkit/java/CalendarHandler/IFormatInfoEnum.java:128-134 | a permutation of the constants, sorted by non-decreasing order |
| `IFormatInfoEnum.GetMap` | src/com/utilkit/java/CalendarHandler/IFormatInfoEnum.java:148-152 | with unique codes, the keys are exactly the codes and each maps to its constant; a repeated code is an IllegalStateException |
| `IFormatInfoEnum.ByCodeRoundTrip` | src/com/utilkit/java/CalendarHandler/IFormatInfoEnum.java:218-224 | with unique codes, the lookup by a constant's own code gives it back, and the code map agrees |
| `CalendarInfoEnum.WeekTable` | src/com/utilkit/java/CalendarHandler/CalendarInfoEnum.java:81-230 | seven week days; position i holds code i + 1 (Sunday = 1 … Saturday = 7); each order equals its code; codes are unique |
| `CalendarInfoEnum.WeekendDays` | src/com/utilkit/java/CalendarHandler/CalendarInfoEnum.java:81-230 | `isWeekend` holds exactly for Sunday and Saturday, that is, for codes 1 and 7 |
| `CalendarInfoEnum.MonthTable` | src/com/utilkit/java/CalendarHandler/CalendarInfoEnum.java:341-692 | thirteen months; position i holds code i (January = 0) and order i + 1; Undecimber has code 12 and order 13; codes are unique |
| `CalendarInfoEnum.CalendarCodeRange` | src/com/utilkit/java/CalendarHandler/CalendarInfoEnum.java:81-692 | some week day carries a code exactly for 1..7, and some month exactly for 0..12 |
| `CalendarInfoEnum.WeekByCodeRoundTrip` | src/com/utilkit/java/CalendarHandler/CalendarInfoEnum.java:81-230 | every week day is found again by its code and is the code map's entry for it |
| `CalendarInfoEnum.MonthByCodeRoundTrip` | src/com/utilkit/java/CalendarHandler/CalendarInfoEnum.java:341-692 | every month is found again by its code and is the code map's entry for it |
| `CalendarInfoEnum.WeekByNameRoundTrip` | src/com/utilkit/java/CalendarHandler/CalendarInfoEnum.java:81-230 | every week day is found again by its English and by its Japanese name |
| `CalendarInfoEnum.MonthByNameRoundTrip` | src/com/utilkit/java/CalendarHandler/CalendarInfoEnum.java:341-692 | every month is found again by its English and by its Japanese name |
| `CalendarInfoEnum.WeekOrderedList` | src/com/utilkit/java/CalendarHandler/CalendarInfoEnum.java:81-230 | the week days ordered by `getOrder` are Sunday..Saturday |
| `CalendarInfoEnum.MonthOrderedList` | src/com/utilkit/java/CalendarHandler/CalendarInfoEnum.java:341-692 | the months ordered by `getOrder` are January..Undecimber |
| `FormatInfoEnum.SymbolTable` | src/com/utilkit/java/CalendarHandler/FormatInfoEnum.java:72-117 | four symbols "/", ".", "-", " " with codes and orders 1..4, codes unique |
| `FormatInfoEnum.SymbolMembers` | src/com/utilkit/java/CalendarHandler/FormatInfoEnum.java:72-117 | `hasFormat` on the symbol table finds a one-character text exactly for "/", ".", "-" and " " |
| `FormatInfoEnum.DateFormatTable` | src/com/utilkit/java/CalendarHandler/FormatInfoEnum.java:200-660 | seventeen patterns with unique codes 1..17 and order equal to code; DEFALUT is "yyyyMMdd" with code 5 |
| `FormatInfoEnum.SharedPatterns` | src/com/utilkit/java/CalendarHandler/FormatInfoEnum.java:256-660 | "yyyy-MM-dd", "dd/MM/yy", "dd/MM/yyyy" and "dd-MM-yy" are each shared by several constants, so patterns are not unique |
| `FormatInfoEnum.ByFormatFirstOfGroup` | src/com/utilkit/java/CalendarHandler/FormatInfoEnum.java:256-573 | `getByFormat("yyyy-MM-dd")` is HYPHEN, not GERMANY, DENMARK or SWEDEN |
| `FormatInfoEnum.ByFormatFirstCanada` | src/com/utilkit/java/CalendarHandler/FormatInfoEnum.java:370-602 | `getByFormat("dd/MM/yy")` is CANADA |
| `FormatInfoEnum.ByFormatFirstFrance` | src/com/utilkit/java/CalendarHandler/FormatInfoEnum.java:457-486 | `getByFormat("dd/MM/yyyy")` is FRANCE |
| `FormatInfoEnum.ByFormatFirstNorway` | src/com/utilkit/java/CalendarHandler/FormatInfoEnum.java:631-660 | `getByFormat("dd-MM-yy")` is NORWAY |
| `FormatInfoEnum.PatternCharacters` | src/com/utilkit/java/CalendarHandler/FormatInfoEnum.java:200-660 | every character of every date pattern is a field letter y, M or d, or one of the table's symbols |
| `FormatInfoEnum.FormatTable` | src/com/utilkit/java/CalendarHandler/FormatInfoEnum.java:729-774 | the field tokens are "yyyy", "yy", "MM", "dd" with codes and orders 1..4 |
| `FormatInfoEnum.SymbolByCodeRoundTrip` | src/com/utilkit/java/CalendarHandler/FormatInfoEnum.java:72-117 | every symbol is found again by its code and is the code map's entry for it |
| `FormatInfoEnum.DateFormatByCodeRoundTrip` | src/com/utilkit/java/CalendarHandler/FormatInfoEnum.java:200-660 | every date pattern constant is found again by its code and is the code map's entry for it |
| `FormatInfoEnum.FormatByCodeRoundTrip` | src/com/utilkit/java/CalendarHandler/FormatInfoEnum.java:729-774 | every field token is found again by its code and is the code map's entry for it |
| `FormatInfoEnum.SymbolOrderedList` | src/com/utilkit/java/CalendarHandler/FormatInfoEnum.java:72-117 | the symbols ordered by `getOrder` are in declaration order |
| `FormatInfoEnum.DateFormatOrderedList` | src/com/utilkit/java/CalendarHandler/FormatInfoEnum.java:200-660 | the date patterns ordered by `getOrder` are in declaration order |
| `FormatInfoEnum.FormatOrderedList` | src/com/utilkit/java/CalendarHandler/FormatInfoEnum.java:729-774 | the field tokens ordered by `getOrder` are in declaration order |
| `Gregorian.DaysInMonth` | src/com/utilkit/java/CalendarHandler/CalendarHandler.java:454 | a month has 28..31 days, and February has 29 exactly in a leap year |
| `Gregorian.DayNumber` | src/com/utilkit/java/CalendarHandler/CalendarHandler.java:360 | the day count `add(DAY_OF_MONTH)` moves along: each date of a year numbers within that year's span of 365 or 366 days from its first day; `NextDay` and `PrevDay` step it by one, and `DayNumberInjective` makes it one-to-one |
| `Gregorian.NextDay` | src/com/utilkit/java/CalendarHandler/CalendarHandler.java:360 | the next day is a real date whose day count is one more |
| `Gregorian.PrevDay` | src/com/utilkit/java/CalendarHandler/CalendarHandler.java:360 | the previous day is a real date whose day count is one less |
| `Gregorian.AddDays` | src/com/utilkit/java/CalendarHandler/CalendarHandler.java:360 | adding n days gives a real date whose day count is n more |
| `Gregorian.AddMonths` | src/com/utilkit/java/CalendarHandler/CalendarHandler.java:359 | adding n months moves the month index by n and keeps the day, or pins it to the new month's last day |
| `Gregorian.AddYears` | src/com/utilkit/java/CalendarHandler/CalendarHandler.java:358 | adding n years keeps the month and keeps the day, or pins it to the month's last day (29 February to 28) |
| `Gregorian.LenientDate` | src/com/utilkit/java/CalendarHandler/CalendarHandler.java:258-259 | `set(year, month0, day)` on a cleared lenient calendar is a real date: the first of the month reached by rolling the zero-based month into the year (floor division), moved on by `day - 1` days, so an out-of-range day rolls forward or back; with in-range fields it is the given date itself |
| `Gregorian.WeekdayCode` | src/com/utilkit/java/CalendarHandler/CalendarHandler.java:261 | `get(DAY_OF_WEEK)` is a code from 1 (Sunday) to 7 (Saturday) |
| `Gregorian.WeekdayOfNextDay` | src/com/utilkit/java/CalendarHandler/CalendarHandler.java:261 | consecutive days have consecutive codes, Saturday (7) followed by Sunday (1) |
| `Gregorian.WeekdayAfterDays` | src/com/utilkit/java/CalendarHandler/CalendarHandler.java:261 | the weekday moves with the day count: n days later the weekday code is advanced by n modulo 7 |
| `Gregorian.DayNumberInjective` | src/com/utilkit/java/CalendarHandler/CalendarHandler.java:258-261 | two real dates with the same day count are the same date |
| `Decimal.Value` | src/com/utilkit/java/CalendarHandler/CalendarHandler.java:254-256 | `Integer.parseInt` of a digit string, leading zeros allowed, is below ten to the string's length |
| `Decimal.ValueOfDigits` | src/com/utilkit/java/CalendarHandler/CalendarHandler.java:254-256 | reading back a number rendered with enough zero-padded digits gives the number |
| `Decimal.DigitsOfValue` | src/com/utilkit/java/CalendarHandler/CalendarHandler.java:254-256 | rendering a digit string's value at the string's length gives the string back, leading zeros included |
| `DateFormat.TokenizeSpell` | src/com/utilkit/java/CalendarHandler/CalendarHandler.java:667 | applying the pattern spelt by a layout reads that layout back |
| `DateFormat.Tokenize` | src/com/utilkit/java/CalendarHandler/CalendarHandler.java:667 | `applyPattern`: the tokens of an accepted pattern spell it back exactly, and no literal token is a pattern letter or a quote |
| `DateFormat.Format` | src/com/utilkit/java/CalendarHandler/CalendarHandler.java:362 | `format` of a date of the years 1583..9999 has exactly the layout's width: four characters per `yyyy`, two per `yy`, `MM` and `dd`, one per separator; `FormatThenParse` makes it the inverse of `Parse` |
| `DateFormat.Parse` | src/com/utilkit/java/CalendarHandler/CalendarHandler.java:589 | a successful strict parse is a real date of the years 1583..9999 |
| `DateFormat.FormatThenParse` | src/com/utilkit/java/CalendarHandler/CalendarHandler.java:589-591 | parsing the rendering of a date the pattern can carry, with anything after it, gives the date back |
| `DateFormat.ParseIsReadable` | src/com/utilkit/java/CalendarHandler/CalendarHandler.java:589 | every parsed date is one the pattern can carry, with a two-digit year inside the window |
| `DateFormat.FormatInjective` | src/com/utilkit/java/CalendarHandler/CalendarHandler.java:591 | two carried dates with the same rendering are the same date |
| `DateFormat.WindowYear` | src/com/utilkit/java/CalendarHandler/CalendarHandler.java:589 | a two-digit year is placed in the hundred-year window with the same last two digits |
| `CalendarHandler.NewHandler` | src/com/utilkit/java/CalendarHandler/CalendarHandler.java:91-109 | the initial pattern is "yyyyMMdd", a table pattern, and parsing is strict |
| `CalendarHandler.SetLenient` | src/com/utilkit/java/CalendarHandler/CalendarHandler.java:214-217 | only the leniency flag changes |
| `CalendarHandler.SetDateFormat` | src/com/utilkit/java/CalendarHandler/CalendarHandler.java:657-668 | succeeds exactly for a non-null pattern of the table and then changes only the pattern; null, empty or foreign patterns are IllegalArgumentException |
| `CalendarHandler.NoEmptyPattern` | src/com/utilkit/java/CalendarHandler/CalendarHandler.java:659-661 | no table pattern is empty, so the non-empty guard rejects nothing that the membership test would accept |
| `CalendarHandler.IsEffectiveDate` | src/com/utilkit/java/CalendarHandler/CalendarHandler.java:582-599 | an accepted text is non-null, non-empty and parses under the active pattern |
| `CalendarHandler.ToDate` | src/com/utilkit/java/CalendarHandler/CalendarHandler.java:708-721 | a date comes back exactly for an accepted text, and its rendering is that text |
| `CalendarHandler.RemoveChar` | src/com/utilkit/java/CalendarHandler/CalendarHandler.java:782 | `replace(symbol, "")` leaves no occurrence of the symbol and changes nothing when there is none |
| `CalendarHandler.TrimSymbolFrom` | src/com/utilkit/java/CalendarHandler/CalendarHandler.java:775-789 | removing each table symbol in turn equals dropping every separator while keeping the other characters in order; the result has no separators and trimming it again changes nothing |
| `CalendarHandler.StripAppend` | src/com/utilkit/java/CalendarHandler/CalendarHandler.java:775-789 | stripping works character by character: the strip of a concatenation is the concatenation of the strips |
| `CalendarHandler.RemoveEachOne` | src/com/utilkit/java/CalendarHandler/CalendarHandler.java:778-783 | the symbol loop deletes a single character exactly when it is a separator |
| `CalendarHandler.SeparatorIsSymbol` | src/com/utilkit/java/CalendarHandler/CalendarHandler.java:778-783 | the separators the handler strips are exactly the symbol table's characters |
| `CalendarHandler.PatternSpelled` | src/com/utilkit/java/CalendarHandler/FormatInfoEnum.java:200-660 | each constant's layout spells its pattern string |
| `CalendarHandler.PatternRead` | src/com/utilkit/java/CalendarHandler/CalendarHandler.java:667 | applying each table pattern reads back that constant's layout |
| `CalendarHandler.ConfigLayout` | src/com/utilkit/java/CalendarHandler/CalendarHandler.java:657-668 | an active pattern is some constant's pattern; its layout has a month, a day and one kind of year, only table separators, and 8 field digits with a four-digit year or 6 with a two-digit one |
| `CalendarHandler.EffectiveText` | src/com/utilkit/java/CalendarHandler/CalendarHandler.java:750-752 | an accepted text is the rendering of its date, and trimmed it is that date's field digits, 8 or 6 of them |
| `CalendarHandler.Slices` | src/com/utilkit/java/CalendarHandler/CalendarHandler.java:752-756 | the three slices have widths 4, 2 and 2 and concatenate back to the trimmed text |
| `CalendarHandler.SplitDate` | src/com/utilkit/java/CalendarHandler/CalendarHandler.java:742-759 | the map is non-empty exactly for an accepted text that trims to 8 characters, and then holds its 4/2/2 digit slices |
| `CalendarHandler.CalendarAt` | src/com/utilkit/java/CalendarHandler/CalendarHandler.java:250-259 | there is a calendar exactly when the split is non-empty, and it is a real date |
| `CalendarHandler.CalendarOfFields` | src/com/utilkit/java/CalendarHandler/CalendarHandler.java:254-259 | the calendar is the lenient date set from the three parsed slices with the month made zero-based |
| `CalendarHandler.GetDayOfWeekInfoByDate` | src/com/utilkit/java/CalendarHandler/CalendarHandler.java:247-265 | a week day exactly when there is a calendar, whose code is the calendar's weekday; otherwise IllegalArgumentException |
| `CalendarHandler.WeekOfCalendar` | src/com/utilkit/java/CalendarHandler/CalendarHandler.java:247-265 | the week day returned is the table entry at the calendar's weekday |
| `CalendarHandler.WeekLookup` | src/com/utilkit/java/CalendarHandler/CalendarHandler.java:264 | `getByCode(WeekInfo, code)` succeeds exactly for 1..7, giving the week day with that code |
| `CalendarHandler.GetMonthInfoByDate` | src/com/utilkit/java/CalendarHandler/CalendarHandler.java:295-313 | a month exactly when there is a calendar, whose code is the calendar's month minus one and which is never Undecimber; otherwise IllegalArgumentException |
| `CalendarHandler.MonthOfCalendar` | src/com/utilkit/java/CalendarHandler/CalendarHandler.java:295-313 | the month returned is the table entry at the calendar's zero-based month |
| `CalendarHandler.MonthLookup` | src/com/utilkit/java/CalendarHandler/CalendarHandler.java:312 | `getByCode(MonthInfo, code)` succeeds exactly for 0..12, giving the month with that code, Undecimber only for 12 |
| `CalendarHandler.Adjusted` | src/com/utilkit/java/CalendarHandler/CalendarHandler.java:355-360 | the years are added first, keeping the month and pinning the day to the new month's length; then the month index moves by the months, pinning the day again; then the day count moves by exactly the days. A valid date is fixed by its day count, so this determines the result |
| `CalendarHandler.AdjustDate` | src/com/utilkit/java/CalendarHandler/CalendarHandler.java:344-366 | "" without a calendar; otherwise the rendering, in the active pattern, of `Adjusted` of the calendar: years, then months, then days, with the day pinned after each of the first two |
| `CalendarHandler.GetFirstDayOfMonth` | src/com/utilkit/java/CalendarHandler/CalendarHandler.java:394-412 | -1 exactly when there is no calendar; otherwise the smallest valid day of the calendar's month |
| `CalendarHandler.GetLastDayOfMonth` | src/com/utilkit/java/CalendarHandler/CalendarHandler.java:440-458 | -1 exactly when there is no calendar; otherwise the largest valid day of the calendar's month |
| `CalendarHandler.WeekStart` | src/com/utilkit/java/CalendarHandler/CalendarHandler.java:500-501 | stepping back by the weekday code lands on a Saturday 1 to 7 days earlier |
| `CalendarHandler.WeekEnd` | src/com/utilkit/java/CalendarHandler/CalendarHandler.java:549-551 | six days after that Saturday is a Friday, between the day before and five days after the date |
| `CalendarHandler.GetBeginningDateOfWeek` | src/com/utilkit/java/CalendarHandler/CalendarHandler.java:486-507 | "" without a calendar; otherwise the rendering of that Saturday |
| `CalendarHandler.GetEndDateOfWeek` | src/com/utilkit/java/CalendarHandler/CalendarHandler.java:535-557 | "" without a calendar; otherwise the rendering of that Friday |
| `HandlerProperties.EffectiveIffRendering` | src/com/utilkit/java/CalendarHandler/CalendarHandler.java:582-599 | a text is accepted exactly when it is the rendering of a date the active pattern can carry through format and parse |
| `HandlerProperties.EffectiveIsRendering` | src/com/utilkit/java/CalendarHandler/CalendarHandler.java:588-593 | an accepted text is the rendering of the carried date it parses to |
| `HandlerProperties.RenderingIsEffective` | src/com/utilkit/java/CalendarHandler/CalendarHandler.java:584-598 | the rendering of a carried date is accepted and parses back to that date |
| `HandlerProperties.ToDateOfRendering` | src/com/utilkit/java/CalendarHandler/CalendarHandler.java:708-721 | `toDate` of a carried date's rendering is that date |
| `HandlerProperties.YearFirstSplit` | src/com/utilkit/java/CalendarHandler/CalendarHandler.java:742-759 | under a year-first pattern the split of a rendered date reads as its year, month and day |
| `HandlerProperties.YearFirstCalendar` | src/com/utilkit/java/CalendarHandler/CalendarHandler.java:250-259 | under a year-first pattern the calendar set up from a rendered date is that date |
| `HandlerProperties.YearFirstWeekday` | src/com/utilkit/java/CalendarHandler/CalendarHandler.java:247-265 | under a year-first pattern the week day of a rendered date is that date's weekday |
| `HandlerProperties.YearFirstMonth` | src/com/utilkit/java/CalendarHandler/CalendarHandler.java:295-313 | under a year-first pattern the month of a rendered date is that date's month |
| `HandlerProperties.YearFirstMonthBounds` | src/com/utilkit/java/CalendarHandler/CalendarHandler.java:394-458 | under a year-first pattern the first day is 1 and the last day is the length of the date's month |
| `HandlerProperties.YearFirstShifts` | src/com/utilkit/java/CalendarHandler/CalendarHandler.java:344-557 | under a year-first pattern the adjustment and the week bounds of a rendered date are the renderings of that date's adjustment and week bounds |
| `HandlerProperties.TwoDigitYearFails` | src/com/utilkit/java/CalendarHandler/CalendarHandler.java:752 | under a two-digit-year pattern every accepted text trims to six characters, so the split is empty and every split-based operation (weekday, month, `adjustDate`, month bounds, week bounds) returns its failure value |
| `HandlerExamples.DefaultLayout` | src/com/utilkit/java/CalendarHandler/CalendarHandler.java:91 | the initial configuration reads "yyyyMMdd" as year, month, day with no separators |
| `HandlerExamples.CommaLayout` | src/com/utilkit/java/CalendarHandler/CalendarHandler.java:657-668 | "yyyy.MM.dd" is accepted and read as year, ".", month, ".", day |
| `HandlerExamples.SaturdayFebruarySixteenth` | src/com/utilkit/java/CalendarHandler/CalendarHandler.java:228-229 | 2019-02-16 is a Saturday |
| `HandlerExamples.FebruarySixteenth` | src/com/utilkit/java/CalendarHandler/CalendarHandler.java:276-277 | under a year-first pattern 2019-02-16 gives Saturday, February, first day 1 and last day 28 |
| `HandlerExamples.FebruarySixteenthText` | src/com/utilkit/java/CalendarHandler/CalendarHandler.java:568-569 | "yyyyMMdd" renders 2019-02-16 as "20190216" |
| `HandlerExamples.AdjustFebruarySixteenth` | src/com/utilkit/java/CalendarHandler/CalendarHandler.java:324-325 | under a year-first pattern, one year and two months after 2019-02-16 renders as 2020-04-16 |
| `HandlerExamples.AprilSixteenthText` | src/com/utilkit/java/CalendarHandler/CalendarHandler.java:325 | "yyyyMMdd" renders 2020-04-16 as "20200416" |
| `HandlerExamples.LeapDayYearThenMonth` | src/com/utilkit/java/CalendarHandler/CalendarHandler.java:358-359 | one year and one month after 2020-02-29 is 2021-03-28, while one move of thirteen months gives 2021-03-29: the year step pins the day first |
| `HandlerExamples.AdjustLeapDay` | src/com/utilkit/java/CalendarHandler/CalendarHandler.java:344-366 | under any year-first pattern, `adjustDate` of 2020-02-29 by one year and one month renders 2021-03-28 |
| `HandlerExamples.JanuaryLength` | src/com/utilkit/java/CalendarHandler/CalendarHandler.java:427-429 | under a year-first pattern the last day of January 2019 is 31 |
| `HandlerExamples.LeapFebruaryLength` | src/com/utilkit/java/CalendarHandler/CalendarHandler.java:454 | under a year-first pattern the last day of February 2020 is 29 |
| `HandlerExamples.JanuarySeventeenthText` | src/com/utilkit/java/CalendarHandler/CalendarHandler.java:572-573 | "yyyy.MM.dd" renders 2019-01-17 as "2019.01.17" |
| `HandlerExamples.JoinedEffective` | src/com/utilkit/java/CalendarHandler/CalendarHandler.java:582-599 | a text "yyyyMMdd" accepts is eight digits whose slices name a real date |
| `HandlerExamples.RejectsFebruaryThirtieth` | src/com/utilkit/java/CalendarHandler/CalendarHandler.java:582-599 | "20190230" is rejected under "yyyyMMdd" |
| `HandlerExamples.TwoDigitYearExample` | src/com/utilkit/java/CalendarHandler/CalendarHandler.java:708-758 | under "dd/MM/yy" with 2019 in the window, "16/02/19" is accepted and `toDate` reads it as 2019-02-16, while the weekday, the month and the first day of the month fail on it |
| `Findings.WeekStartNeverTheDay` | src/com/utilkit/java/CalendarHandler/CalendarHandler.java:500-501 | the computed week start is never the day itself, and a Saturday's computed week ends before it |
| `Findings.WeekOfFebruarySixteenth` | src/com/utilkit/java/CalendarHandler/CalendarHandler.java:486-557 | for Saturday 2019-02-16 the computed week is 2019-02-09 to 2019-02-15 |
| `Findings.SundayWeekStart` | src/com/utilkit/java/CalendarHandler/CalendarHandler.java:486-507 | the corrected start is the Sunday on or before the day, at most six days earlier |
| `Findings.SaturdayWeekEnd` | src/com/utilkit/java/CalendarHandler/CalendarHandler.java:535-557 | the corrected end is the Saturday on or after the day, at most six days later |
| `Findings.SundayWeekIsStable` | src/com/utilkit/java/CalendarHandler/CalendarHandler.java:486-557 | every day of a corrected week has the same start, and the week is seven days long |
| `Findings.SundayWeekOfFebruarySixteenth` | src/com/utilkit/java/CalendarHandler/CalendarHandler.java:486-557 | the corrected week of 2019-02-16 runs from 2019-02-10 to that Saturday |
| `Findings.CorrectedBeginningDateOfWeek` | src/com/utilkit/java/CalendarHandler/CalendarHandler.java:486-507 | "" for a rejected text; otherwise the rendering of the Sunday starting the date's week |
| `Findings.CorrectedEndDateOfWeek` | src/com/utilkit/java/CalendarHandler/CalendarHandler.java:535-557 | "" for a rejected text; otherwise the rendering of the Saturday ending the date's week |
| `Findings.DayFirstPatterns` | src/com/utilkit/java/CalendarHandler/FormatInfoEnum.java:428-486 | FINLAND, FRANCE and THAILAND are table patterns laid out day, month, four-digit year |
| `Findings.DayFirstSplit` | src/com/utilkit/java/CalendarHandler/CalendarHandler.java:752-756 | under a day-first pattern the year slice reads day × 100 + month, the month slice the century and the day slice the last two year digits |
| `Findings.DayFirstCalendar` | src/com/utilkit/java/CalendarHandler/CalendarHandler.java:250-259 | under a day-first pattern the calendar is set from those misread fields |
| `Findings.LenientNextYear` | src/com/utilkit/java/CalendarHandler/CalendarHandler.java:259 | a zero-based month of 12..23 rolls over into the next year |
| `Findings.DayFirstFebruarySixteenth` | src/com/utilkit/java/CalendarHandler/CalendarHandler.java:295-313 | under a day-first pattern 2019-02-16 sets the calendar to 1603-08-19 and reports August |
| `Findings.CorrectedCalendarAt` | src/com/utilkit/java/CalendarHandler/CalendarHandler.java:742-759 | the corrected fields come from the parsed date: present exactly for accepted texts, and the text is their rendering |
| `Findings.CorrectedCalendarOfRendering` | src/com/utilkit/java/CalendarHandler/CalendarHandler.java:742-759 | under every table pattern the corrected fields of a rendered date are that date |
| `Findings.CorrectedMonthInfo` | src/com/utilkit/java/CalendarHandler/CalendarHandler.java:295-313 | a month exactly for accepted texts, with code equal to the text's month minus one |
| `Findings.CorrectedFebruarySixteenth` | src/com/utilkit/java/CalendarHandler/CalendarHandler.java:295-313 | under a day-first pattern 2019-02-16 is reported as February once the fields are corrected |

## Left out

- `getSystemDate` reads the wall clock and is not modelled.
- The default locale is assumed to give a Gregorian calendar from `Calendar.getInstance()` (CalendarHandler.java:80) and ASCII digits from `new SimpleDateFormat(pattern)` (CalendarHandler.java:91). Other locales are not modelled. Under th_TH the calendar is a `BuddhistCalendar` and "yyyyMMdd" renders 2019-02-16 as "25620216"; under ja_JP_JP it is a `JapaneseImperialCalendar` with era years. Under either, the results differ from the model's.
- The two-digit-year window depends on the clock when the formatter is created. It is a configuration field, `centuryStart`.
- `DateFormat.WindowYear` places a two-digit year in whole years `centuryStart`..`centuryStart + 99`. `SimpleDateFormat` starts its window at the instant the formatter was created, less 80 years: a date whose two digits are those of the start year, and which falls before that instant within the start year, is moved 100 years on. For a handler created on 2026-10-10 with "dd/MM/yy", `toDate("01/01/46")` is 2046-01-01 in the library and 1946-01-01 in the model (`centuryStart` 1946). `isEffectiveDate` answers the same either way, because both renderings are "01/01/46".
- The singleton `getInstance`, its `InstanceHolder`, and its thread-safety are replaced by passing an explicit `Config`. Concurrency is not modelled.
- `getInstance(String)` is `SetDateFormat` applied to the singleton and has no separate model.
- `toString(Date)` and `isEffectiveDate(Date)` work on `java.util.Date` instants and time zones. Neither is modelled. `toDate` returns an optional date record instead of an instant.
- The Java `assert` statements in `toString`, `toDate` and `trimSymbolFrom` are disabled by default and are not modelled.
- Leniency is recorded by `SetLenient` but has no effect: `DateFormat.Parse` is always strict. This does not change `isEffectiveDate`. A lenient parse that a strict parse would reject normalises the fields, so formatting the result cannot reproduce the text. The calendar the operations use is lenient in both the source and the model.
- `DateFormat.Parse` reads every field at its exact pattern width and rejects years outside 1583..9999. `SimpleDateFormat` also reads shorter or longer numbers, years before 1583 on the Julian calendar, and years above 9999 under every separated pattern, where no numeric field directly follows the year. The width difference is invisible behind the round trip for years of four digits, because the rendering has exactly the pattern widths. The year limits are real restrictions: texts naming years before 1583 are rejected here but accepted by the library, and so are five-digit years under a separated pattern: "10000-01-01" under "yyyy-MM-dd" formats back to itself in the library and is rejected here.
- `Gregorian.LenientDate` uses the proleptic Gregorian calendar for every year. `GregorianCalendar` switches to the Julian calendar before 1582-10-15. The model differs from the library wherever a calendar date falls before that day: the misread day-first dates whose day is below 16, which give misread years below 1583, and the adjusted dates below.
- `CalendarHandler.Adjusted` takes unbounded integers. Java `int` overflow of the amounts and calendar years beyond `GregorianCalendar`'s range are not modelled.
- `CalendarHandler.Adjusted` does not model the Julian calendar that `GregorianCalendar` uses before 1582-10-15. An adjustment from a date of 1583..9999 can land before that day, and there the model's result differs from the library's. `adjustDate("20000229", -500, 0, 0)` pins the day in 1500, a leap year in the Julian calendar only: the library gives "15000229", the model "15000228". `adjustDate("15830101", 0, 0, -100)` gives "15820913" in the library and the proleptic "15820923" in the model.
- `Integer.parseInt` is modelled only on digit strings, which are the only strings the split can produce.
- The Japanese names are mojibake in the source. Here they are distinct constants written as the intended kanji.
- Some documentation examples are not encoded:
  - one claims 2019-02-17 is a Saturday; it is a Sunday;
  - one `adjustDate` example is a malformed call with an inconsistent result;
  - the `setLenient` description is inverted;
  - the week-bound examples have no content.
- `ICalendarInfoEnum.GetOrderedList` and `IFormatInfoEnum.GetOrderedList` state a sorted permutation, not the stability of Java's sort. Every table has distinct orders, so the two agree on every table (`CalendarInfoEnum.WeekOrderedList` and its siblings).

## Findings

| source | as written | input that shows it | evidently intended | confidence | as-written member | corrected member |
|---|---|---|---|---|---|---|
| src/com/utilkit/java/CalendarHandler/CalendarHandler.java:486-557 | The week start steps back by the weekday code (Sunday = 1 … Saturday = 7), which always lands on the previous Saturday. Each week therefore runs Saturday to Friday, and a Saturday is not inside its own week. | "20190216", a Saturday: begins "20190209", ends "20190215" | the Sunday on or before the date, and the Saturday six days later (step back code − 1 days) | not executed | `Findings.WeekStartNeverTheDay`, `Findings.WeekOfFebruarySixteenth` | `Findings.SundayWeekStart`, `Findings.SaturdayWeekEnd`, `Findings.SundayWeekIsStable`, `Findings.CorrectedBeginningDateOfWeek`, `Findings.CorrectedEndDateOfWeek` |
| src/com/utilkit/java/CalendarHandler/CalendarHandler.java:742-759 | The split always cuts the trimmed digits as year `[0,4)`, month `[4,6)`, day `[6,8)`. The day-first eight-digit patterns FINLAND, FRANCE and THAILAND trim to day, month, year, so every operation reads day×100+month as the year. | "16.02.2019" under "dd.MM.yyyy" sets the calendar to 1603-08-19, and `getMonthInfoByDate` reports August | the fields of the date the text names, 2019-02-16, reported as February | not executed | `Findings.DayFirstCalendar`, `Findings.DayFirstFebruarySixteenth` | `Findings.CorrectedCalendarAt`, `Findings.CorrectedMonthInfo`, `Findings.CorrectedFebruarySixteenth` |
