/** The lookup operations shared by the calendar enumerations (week days
    and months). A Java `Class<E>` argument becomes a `CalendarEnum<E>`:
    the constants in declaration order plus the four accessors every
    constant provides (code, Japanese name, English name, order). */
module ICalendarInfoEnum {
  import opened Outcomes
  import Lookup

  datatype CalendarEnum<!E> = CalendarEnum(
    constants: seq<E>,
    code: E -> int,
    japaneseName: E -> string,
    englishName: E -> string,
    order: E -> int)

  /** `equalsByCode`: the constant carries the given code. */
  predicate EqualsByCode<E>(t: CalendarEnum<E>, e: E, code: int) {
    code == t.code(e)
  }

  /** `hasCode`: some constant carries the code. */
  function HasCode<E>(t: CalendarEnum<E>, code: int): (r: bool)
    ensures r <==> exists i :: 0 <= i < |t.constants| && t.code(t.constants[i]) == code
  {
    Lookup.Any(t.constants, e => EqualsByCode(t, e, code))
  }

  /** `hasName`: some constant's Japanese or English name is the argument;
      a null argument equals no name. */
  function HasName<E>(t: CalendarEnum<E>, name: JavaString): (r: bool)
    ensures r <==> (name.Some? &&
      exists i :: 0 <= i < |t.constants| &&
        (t.japaneseName(t.constants[i]) == name.value || t.englishName(t.constants[i]) == name.value))
  {
    Lookup.Any(t.constants, e => Some(t.japaneseName(e)) == name || Some(t.englishName(e)) == name)
  }

  /** `getByCode`: the first constant in declaration order carrying the
      code; IllegalArgumentException when there is none. */
  function GetByCode<E>(t: CalendarEnum<E>, code: int): (r: Result<E>)
    ensures r.Ok? <==> HasCode(t, code)
    ensures r.Err? ==> r.error == IllegalArgument
    ensures r.Ok? ==>
      exists i :: 0 <= i < |t.constants| && t.constants[i] == r.value
        && t.code(r.value) == code
        && forall j :: 0 <= j < i ==> t.code(t.constants[j]) != code
  {
    var p := e => EqualsByCode(t, e, code);
    match Lookup.FindFirst(t.constants, p)
    case Some(e) => Ok(e)
    case None => Err(IllegalArgument)
  }

  /** `getByJapaneseName`: the first constant with that Japanese name;
      IllegalArgumentException when there is none, or the name is null. */
  function GetByJapaneseName<E>(t: CalendarEnum<E>, name: JavaString): (r: Result<E>)
    ensures r.Ok? <==> name.Some? && exists i :: 0 <= i < |t.constants| && t.japaneseName(t.constants[i]) == name.value
    ensures r.Err? ==> r.error == IllegalArgument
    ensures r.Ok? ==>
      exists i :: 0 <= i < |t.constants| && t.constants[i] == r.value
        && t.japaneseName(r.value) == name.value
        && forall j :: 0 <= j < i ==> t.japaneseName(t.constants[j]) != name.value
  {
    var p := e => Some(t.japaneseName(e)) == name;
    match Lookup.FindFirst(t.constants, p)
    case Some(e) => Ok(e)
    case None => Err(IllegalArgument)
  }

  /** `getByEnglishName`: the first constant with that English name;
      IllegalArgumentException when there is none, or the name is null. */
  function GetByEnglishName<E>(t: CalendarEnum<E>, name: JavaString): (r: Result<E>)
    ensures r.Ok? <==> name.Some? && exists i :: 0 <= i < |t.constants| && t.englishName(t.constants[i]) == name.value
    ensures r.Err? ==> r.error == IllegalArgument
    ensures r.Ok? ==>
      exists i :: 0 <= i < |t.constants| && t.constants[i] == r.value
        && t.englishName(r.value) == name.value
        && forall j :: 0 <= j < i ==> t.englishName(t.constants[j]) != name.value
  {
    var p := e => Some(t.englishName(e)) == name;
    match Lookup.FindFirst(t.constants, p)
    case Some(e) => Ok(e)
    case None => Err(IllegalArgument)
  }

  /** `getOrderedList`: every constant exactly once, by non-decreasing order. */
  function GetOrderedList<E>(t: CalendarEnum<E>): (r: seq<E>)
    ensures multiset(r) == multiset(t.constants)
    ensures forall i, j :: 0 <= i < j < |r| ==> t.order(r[i]) <= t.order(r[j])
  {
    Lookup.SortByOrder(t.constants, t.order)
  }

  /** `getMap`: each code mapped to its constant; duplicate codes make the
      collector throw IllegalStateException. */
  function GetMap<E>(t: CalendarEnum<E>): (r: Result<map<int, E>>)
    ensures r.Ok? <==> forall i, j :: 0 <= i < j < |t.constants| ==>
      t.code(t.constants[i]) != t.code(t.constants[j])
    ensures r.Err? ==> r.error == IllegalState
    ensures r.Ok? ==> r.value.Keys == set i | 0 <= i < |t.constants| :: t.code(t.constants[i])
    ensures r.Ok? ==> forall i :: 0 <= i < |t.constants| ==> r.value[t.code(t.constants[i])] == t.constants[i]
  {
    Lookup.ToCodeMap(t.constants, t.code)
  }

  /** With unique codes, looking a constant up by its own code gives it
      back, and agrees with the code map. */
  lemma ByCodeRoundTrip<E>(t: CalendarEnum<E>, k: nat)
    requires k < |t.constants|
    requires Lookup.UniqueKeys(t.constants, t.code)
    ensures GetByCode(t, t.code(t.constants[k])) == Ok(t.constants[k])
    ensures GetMap(t).Ok? && GetMap(t).value[t.code(t.constants[k])] == t.constants[k]
  {
    var c := t.code(t.constants[k]);
    assert HasCode(t, c);
    var i :| 0 <= i < |t.constants| && t.constants[i] == GetByCode(t, c).value
      && t.code(t.constants[i]) == c
      && forall j :: 0 <= j < i ==> t.code(t.constants[j]) != c;
    Lookup.FirstOfUniqueKey(t.constants, t.code, k, i);
  }

  /** With unique English names, looking a constant up by its own English
      name gives it back. */
  lemma ByEnglishNameRoundTrip<E>(t: CalendarEnum<E>, k: nat)
    requires k < |t.constants|
    requires Lookup.UniqueKeys(t.constants, t.englishName)
    ensures GetByEnglishName(t, Some(t.englishName(t.constants[k]))) == Ok(t.constants[k])
    ensures HasName(t, Some(t.englishName(t.constants[k])))
  {
    var n := t.englishName(t.constants[k]);
    var i :| 0 <= i < |t.constants| && t.constants[i] == GetByEnglishName(t, Some(n)).value
      && t.englishName(t.constants[i]) == n
      && forall j :: 0 <= j < i ==> t.englishName(t.constants[j]) != n;
    Lookup.FirstOfUniqueKey(t.constants, t.englishName, k, i);
  }

  /** With unique Japanese names, looking a constant up by its own Japanese
      name gives it back. */
  lemma ByJapaneseNameRoundTrip<E>(t: CalendarEnum<E>, k: nat)
    requires k < |t.constants|
    requires Lookup.UniqueKeys(t.constants, t.japaneseName)
    ensures GetByJapaneseName(t, Some(t.japaneseName(t.constants[k]))) == Ok(t.constants[k])
    ensures HasName(t, Some(t.japaneseName(t.constants[k])))
  {
    var n := t.japaneseName(t.constants[k]);
    var i :| 0 <= i < |t.constants| && t.constants[i] == GetByJapaneseName(t, Some(n)).value
      && t.japaneseName(t.constants[i]) == n
      && forall j :: 0 <= j < i ==> t.japaneseName(t.constants[j]) != n;
    Lookup.FirstOfUniqueKey(t.constants, t.japaneseName, k, i);
  }
}
