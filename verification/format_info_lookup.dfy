/** The lookup operations shared by the format enumerations (separator
    symbols, date patterns, field tokens). A Java `Class<E>` argument
    becomes a `FormatEnum<E>`: the constants in declaration order plus the
    three accessors every constant provides (code, format, order). */
module IFormatInfoEnum {
  import opened Outcomes
  import Lookup

  datatype FormatEnum<!E> = FormatEnum(
    constants: seq<E>,
    code: E -> int,
    format: E -> string,
    order: E -> int)

  /** `equalsByCode`: the constant carries the given code. */
  predicate EqualsByCode<E>(t: FormatEnum<E>, e: E, code: int) {
    code == t.code(e)
  }

  /** `hasCode`: some constant carries the code. */
  function HasCode<E>(t: FormatEnum<E>, code: int): (r: bool)
    ensures r <==> exists i :: 0 <= i < |t.constants| && t.code(t.constants[i]) == code
  {
    Lookup.Any(t.constants, e => EqualsByCode(t, e, code))
  }

  /** `hasFormat`: some constant's format string equals the argument; a
      null argument equals no format. */
  function HasFormat<E>(t: FormatEnum<E>, format: JavaString): (r: bool)
    ensures r <==> format.Some? && exists i :: 0 <= i < |t.constants| && t.format(t.constants[i]) == format.value
  {
    Lookup.Any(t.constants, e => Some(t.format(e)) == format)
  }

  /** `getByCode`: the first constant in declaration order carrying the
      code; IllegalArgumentException when there is none. */
  function GetByCode<E>(t: FormatEnum<E>, code: int): (r: Result<E>)
    ensures r.Ok? <==> HasCode(t, code)
    ensures r.Err? ==> r.error == IllegalArgument
    ensures r.Ok? ==>
      exists i :: 0 <= i < |t.constants| && t.constants[i] == r.value
        && t.code(r.value) == code
        && forall j :: 0 <= j < i ==> t.code(t.constants[j]) != code
  {
    var p := e => EqualsByCode(t, e, code);
    match Lookup.FindFirst(t.constants, p)
    case Some(e) => Ok(e)
    case None => Err(IllegalArgument)
  }

  /** `getByFormat`: the first constant in declaration order whose format
      is the argument; IllegalArgumentException when there is none, or the
      format is null. */
  function GetByFormat<E>(t: FormatEnum<E>, format: JavaString): (r: Result<E>)
    ensures r.Ok? <==> HasFormat(t, format)
    ensures r.Err? ==> r.error == IllegalArgument
    ensures r.Ok? ==>
      exists i :: 0 <= i < |t.constants| && t.constants[i] == r.value
        && t.format(r.value) == format.value
        && forall j :: 0 <= j < i ==> t.format(t.constants[j]) != format.value
  {
    var p := e => Some(t.format(e)) == format;
    match Lookup.FindFirst(t.constants, p)
    case Some(e) => Ok(e)
    case None => Err(IllegalArgument)
  }

  /** `getOrderedList`: every constant exactly once, by non-decreasing order. */
  function GetOrderedList<E>(t: FormatEnum<E>): (r: seq<E>)
    ensures multiset(r) == multiset(t.constants)
    ensures forall i, j :: 0 <= i < j < |r| ==> t.order(r[i]) <= t.order(r[j])
  {
    Lookup.SortByOrder(t.constants, t.order)
  }

  /** `getMap`: each code mapped to its constant; duplicate codes make the
      collector throw IllegalStateException. */
  function GetMap<E>(t: FormatEnum<E>): (r: Result<map<int, E>>)
    ensures r.Ok? <==> forall i, j :: 0 <= i < j < |t.constants| ==>
      t.code(t.constants[i]) != t.code(t.constants[j])
    ensures r.Err? ==> r.error == IllegalState
    ensures r.Ok? ==> r.value.Keys == set i | 0 <= i < |t.constants| :: t.code(t.constants[i])
    ensures r.Ok? ==> forall i :: 0 <= i < |t.constants| ==> r.value[t.code(t.constants[i])] == t.constants[i]
  {
    Lookup.ToCodeMap(t.constants, t.code)
  }

  /** With unique codes, looking a constant up by its own code gives it
      back, and agrees with the code map. */
  lemma ByCodeRoundTrip<E>(t: FormatEnum<E>, k: nat)
    requires k < |t.constants|
    requires Lookup.UniqueKeys(t.constants, t.code)
    ensures GetByCode(t, t.code(t.constants[k])) == Ok(t.constants[k])
    ensures GetMap(t).Ok? && GetMap(t).value[t.code(t.constants[k])] == t.constants[k]
  {
    var c := t.code(t.constants[k]);
    assert HasCode(t, c);
    var i :| 0 <= i < |t.constants| && t.constants[i] == GetByCode(t, c).value
      && t.code(t.constants[i]) == c
      && forall j :: 0 <= j < i ==> t.code(t.constants[j]) != c;
    Lookup.FirstOfUniqueKey(t.constants, t.code, k, i);
  }

  /** A constant that no earlier constant shares its format with is what
      `getByFormat` finds for that format, even when later constants
      share it. */
  lemma ByFormatFirst<E>(t: FormatEnum<E>, k: nat)
    requires k < |t.constants|
    requires forall j :: 0 <= j < k ==> t.format(t.constants[j]) != t.format(t.constants[k])
    ensures GetByFormat(t, Some(t.format(t.constants[k]))) == Ok(t.constants[k])
  {
    var f := t.format(t.constants[k]);
    var r := GetByFormat(t, Some(f));
    var i :| 0 <= i < |t.constants| && t.constants[i] == r.value
      && t.format(r.value) == f
      && forall j :: 0 <= j < i ==> t.format(t.constants[j]) != f;
    if i < k {
      assert t.format(t.constants[i]) != f;
    } else if k < i {
      assert false;
    }
  }
}
