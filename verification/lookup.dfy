/** Generic operations over the constants of a closed enumeration, in
    declaration order: a linear scan that reports whether some constant
    matches, a scan that returns the first match, a stable sort by a
    display order, and a code-to-constant map. Both lookup interfaces of
    the library are built from these. */
module Lookup {
  import opened Outcomes

  /** Some element of `xs` satisfies `p`. */
  ghost predicate Exists<T>(xs: seq<T>, p: T -> bool) {
    exists i :: 0 <= i < |xs| && p(xs[i])
  }

  /** `i` is the position of the first element of `xs` satisfying `p`. */
  ghost predicate IsFirstMatch<T>(xs: seq<T>, p: T -> bool, i: int) {
    && 0 <= i < |xs|
    && p(xs[i])
    && forall j :: 0 <= j < i ==> !p(xs[j])
  }

  /** The for-each loop that returns true at the first hit and false after
      the last element. */
  function Any<T>(xs: seq<T>, p: T -> bool): (r: bool)
    ensures r <==> Exists(xs, p)
  {
    if |xs| == 0 then false
    else if p(xs[0]) then true
    else
      var rest := Any(xs[1..], p);
      assert Exists(xs, p) ==> Exists(xs[1..], p) by {
        if Exists(xs, p) {
          var i :| 0 <= i < |xs| && p(xs[i]);
          assert i != 0;
          assert xs[1..][i - 1] == xs[i];
        }
      }
      assert Exists(xs[1..], p) ==> Exists(xs, p) by {
        if Exists(xs[1..], p) {
          var i :| 0 <= i < |xs[1..]| && p(xs[1..][i]);
          assert xs[i + 1] == xs[1..][i];
        }
      }
      rest
  }

  /** `filter(p).findFirst()`: the first match in declaration order, or
      `None` when nothing matches. */
  function FindFirst<T>(xs: seq<T>, p: T -> bool): (r: Option<T>)
    ensures r.None? <==> !Exists(xs, p)
    ensures r.Some? ==> exists i :: IsFirstMatch(xs, p, i) && xs[i] == r.value
  {
    if |xs| == 0 then None
    else if p(xs[0]) then
      assert IsFirstMatch(xs, p, 0);
      Some(xs[0])
    else
      var rest := FindFirst(xs[1..], p);
      assert Exists(xs, p) ==> Exists(xs[1..], p) by {
        if Exists(xs, p) {
          var i :| 0 <= i < |xs| && p(xs[i]);
          assert i != 0;
          assert xs[1..][i - 1] == xs[i];
        }
      }
      assert Exists(xs[1..], p) ==> Exists(xs, p) by {
        if Exists(xs[1..], p) {
          var i :| 0 <= i < |xs[1..]| && p(xs[1..][i]);
          assert xs[i + 1] == xs[1..][i];
        }
      }
      assert rest.Some? ==> exists i :: IsFirstMatch(xs, p, i) && xs[i] == rest.value by {
        if rest.Some? {
          var i :| IsFirstMatch(xs[1..], p, i) && xs[1..][i] == rest.value;
          assert IsFirstMatch(xs, p, i + 1) by {
            forall j | 0 <= j < i + 1 ensures !p(xs[j]) {
              if j > 0 { assert xs[j] == xs[1..][j - 1]; }
            }
          }
        }
      }
      rest
  }

  /** Elements appear in non-decreasing `order`. */
  ghost predicate SortedBy<T>(xs: seq<T>, order: T -> int) {
    forall i, j :: 0 <= i < j < |xs| ==> order(xs[i]) <= order(xs[j])
  }

  /** Inserts `x` into the sorted `xs` in front of the first element whose
      order is not smaller. */
  function Insert<T>(x: T, xs: seq<T>, order: T -> int): (r: seq<T>)
    requires SortedBy(xs, order)
    ensures SortedBy(r, order)
    ensures multiset(r) == multiset(xs) + multiset{x}
    ensures |r| == |xs| + 1
    ensures r[0] == x || (0 < |xs| && r[0] == xs[0])
  {
    if |xs| == 0 || order(x) <= order(xs[0]) then
      [x] + xs
    else
      var rest := Insert(x, xs[1..], order);
      assert xs == [xs[0]] + xs[1..];
      assert order(xs[0]) <= order(rest[0]);
      [xs[0]] + rest
  }

  /** `sorted(Comparator.comparing(order))`: a stable sort (each element
      goes in front of the equal ones that followed it), so constants with
      equal order keep their declaration order. */
  function SortByOrder<T>(xs: seq<T>, order: T -> int): (r: seq<T>)
    ensures SortedBy(r, order)
    ensures multiset(r) == multiset(xs)
  {
    if |xs| == 0 then []
    else
      assert xs == [xs[0]] + xs[1..];
      Insert(xs[0], SortByOrder(xs[1..], order), order)
  }

  /** Sorting a list that is already in order leaves it as it is. */
  lemma {:induction false} SortSortedIsIdentity<T>(xs: seq<T>, order: T -> int)
    requires SortedBy(xs, order)
    ensures SortByOrder(xs, order) == xs
  {
    if |xs| > 0 {
      assert SortedBy(xs[1..], order) by {
        forall i, j | 0 <= i < j < |xs[1..]|
          ensures order(xs[1..][i]) <= order(xs[1..][j])
        {
          assert xs[1..][i] == xs[i + 1] && xs[1..][j] == xs[j + 1];
        }
      }
      SortSortedIsIdentity(xs[1..], order);
      assert Insert(xs[0], xs[1..], order) == [xs[0]] + xs[1..];
      assert xs == [xs[0]] + xs[1..];
    }
  }

  /** No two elements share a key. */
  ghost predicate UniqueKeys<T, K>(xs: seq<T>, key: T -> K) {
    forall i, j :: 0 <= i < j < |xs| ==> key(xs[i]) != key(xs[j])
  }

  /** When keys are unique, the first position carrying the key of `xs[k]`
      is `k` itself. */
  lemma FirstOfUniqueKey<T, K>(xs: seq<T>, key: T -> K, k: int, i: int)
    requires UniqueKeys(xs, key)
    requires 0 <= k < |xs| && 0 <= i < |xs|
    requires key(xs[i]) == key(xs[k])
    requires forall j :: 0 <= j < i ==> key(xs[j]) != key(xs[k])
    ensures i == k
  {
    if i != k {
      assert false;
    }
  }

  /** No two elements share a code. */
  ghost predicate UniqueCodes<T>(xs: seq<T>, code: T -> int) {
    forall i, j :: 0 <= i < j < |xs| ==> code(xs[i]) != code(xs[j])
  }

  /** `Collectors.toMap(code, identity)`: the map from each element's code
      to the element; a repeated code makes the collector throw
      IllegalStateException. */
  function ToCodeMap<T>(xs: seq<T>, code: T -> int): (r: Result<map<int, T>>)
    ensures r.Ok? <==> UniqueCodes(xs, code)
    ensures r.Err? ==> r.error == IllegalState
    ensures r.Ok? ==> r.value.Keys == set i | 0 <= i < |xs| :: code(xs[i])
    ensures r.Ok? ==> forall i :: 0 <= i < |xs| ==> r.value[code(xs[i])] == xs[i]
  {
    if |xs| == 0 then Ok(map[])
    else
      var rest := ToCodeMap(xs[1..], code);
      assert UniqueCodes(xs, code) ==> UniqueCodes(xs[1..], code) by {
        if UniqueCodes(xs, code) {
          forall i, j | 0 <= i < j < |xs[1..]|
            ensures code(xs[1..][i]) != code(xs[1..][j])
          {
            assert xs[1..][i] == xs[i + 1] && xs[1..][j] == xs[j + 1];
          }
        }
      }
      var keys := set i | 0 <= i < |xs| :: code(xs[i]);
      var restKeys := set i | 0 <= i < |xs[1..]| :: code(xs[1..][i]);
      if rest.Err? then
        rest
      else if code(xs[0]) in rest.value then
        var k :| 0 <= k < |xs[1..]| && code(xs[1..][k]) == code(xs[0]);
        assert code(xs[k + 1]) == code(xs[0]);
        Err(IllegalState)
      else
        assert UniqueCodes(xs, code) by {
          forall i, j | 0 <= i < j < |xs| ensures code(xs[i]) != code(xs[j]) {
            assert xs[j] == xs[1..][j - 1];
            if i > 0 { assert xs[i] == xs[1..][i - 1]; }
          }
        }
        assert keys == restKeys + {code(xs[0])} by {
          forall k | k in keys ensures k in restKeys + {code(xs[0])} {
            var i :| 0 <= i < |xs| && code(xs[i]) == k;
            if i > 0 { assert xs[i] == xs[1..][i - 1]; }
          }
          forall k | k in restKeys ensures k in keys {
            var i :| 0 <= i < |xs[1..]| && code(xs[1..][i]) == k;
            assert xs[i + 1] == xs[1..][i];
          }
        }
        var m := rest.value[code(xs[0]) := xs[0]];
        assert forall i :: 0 <= i < |xs| ==> m[code(xs[i])] == xs[i] by {
          forall i | 0 <= i < |xs| ensures m[code(xs[i])] == xs[i] {
            if i > 0 { assert xs[i] == xs[1..][i - 1]; }
          }
        }
        Ok(m)
  }
}
