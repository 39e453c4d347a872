/**
 * Dropdown population: `values.sort()` with no comparator orders the option
 * values by their string forms, compared code unit by code unit.
 */
module Dropdown {

  /** Lexicographic order on strings: a prefix comes first, otherwise the first differing character decides. */
  predicate StrLe(a: string, b: string)
  {
    |a| == 0 || (|b| > 0 && (a[0] < b[0] || (a[0] == b[0] && StrLe(a[1..], b[1..]))))
  }

  lemma {:induction false} StrLeReflexive(a: string)
    ensures StrLe(a, a)
  {
    if |a| > 0 {
      StrLeReflexive(a[1..]);
    }
  }

  lemma {:induction false} StrLeTotal(a: string, b: string)
    ensures StrLe(a, b) || StrLe(b, a)
  {
    if |a| > 0 && |b| > 0 && a[0] == b[0] {
      StrLeTotal(a[1..], b[1..]);
    }
  }

  lemma {:induction false} StrLeTransitive(a: string, b: string, c: string)
    requires StrLe(a, b) && StrLe(b, c)
    ensures StrLe(a, c)
  {
    if |a| > 0 && a[0] == b[0] && b[0] == c[0] {
      StrLeTransitive(a[1..], b[1..], c[1..]);
    }
  }

  lemma {:induction false} StrLeAntisymmetric(a: string, b: string)
    requires StrLe(a, b) && StrLe(b, a)
    ensures a == b
  {
    if |a| > 0 {
      StrLeAntisymmetric(a[1..], b[1..]);
      assert a == [a[0]] + a[1..] && b == [b[0]] + b[1..];
    }
  }

  function Digit(d: nat): char
    requires d < 10
  {
    ('0' as int + d) as char
  }

  function NatToString(n: nat): (s: string)
    ensures |s| > 0
    ensures forall i :: 0 <= i < |s| ==> '0' <= s[i] <= '9'
  {
    if n < 10 then [Digit(n)] else NatToString(n / 10) + [Digit(n % 10)]
  }

  /** Different naturals have different decimal forms. */
  lemma {:induction false} NatToStringInjective(a: nat, b: nat)
    requires NatToString(a) == NatToString(b)
    ensures a == b
  {
    var s := NatToString(a);
    if a >= 10 && b >= 10 {
      var p, q := NatToString(a / 10), NatToString(b / 10);
      assert s == p + [Digit(a % 10)] && s == q + [Digit(b % 10)];
      assert p == s[..|s| - 1] == q;
      NatToStringInjective(a / 10, b / 10);
    }
  }

  /**
   * String(n) for an integer-valued number with |n| < 1e21 (beyond that
   * JavaScript switches to exponent form): its decimal digits, after a minus
   * sign when negative. The string starts with '-' exactly for negative numbers.
   */
  function IntToString(n: int): (s: string)
    ensures |s| > 0 && (s[0] == '-' <==> n < 0)
  {
    if n < 0 then "-" + NatToString(-n) else NatToString(n)
  }

  /** Different integers have different string forms. */
  lemma IntToStringInjective(a: int, b: int)
    requires IntToString(a) == IntToString(b)
    ensures a == b
  {
    if a < 0 && b < 0 {
      assert NatToString(-a) == IntToString(a)[1..];
      NatToStringInjective(-a, -b);
    } else if a >= 0 && b >= 0 {
      NatToStringInjective(a, b);
    }
  }

  /** The string form of a value that is already a string is the value itself. */
  function StringOf(s: string): string
  {
    s
  }

  /** The values are in ascending order of their string forms. */
  predicate SortedByKey<T>(s: seq<T>, key: T -> string)
  {
    forall i, j :: 0 <= i < j < |s| ==> StrLe(key(s[i]), key(s[j]))
  }

  /** The position, at or after `from`, of a value whose string form is least. */
  method MinByKey<T>(a: array<T>, key: T -> string, from: nat) returns (m: nat)
    requires from < a.Length
    ensures from <= m < a.Length
    ensures forall l :: from <= l < a.Length ==> StrLe(key(a[m]), key(a[l]))
  {
    m := from;
    StrLeReflexive(key(a[m]));
    var j := from + 1;
    while j < a.Length
      invariant from <= m < j <= a.Length
      invariant forall l :: from <= l < j ==> StrLe(key(a[m]), key(a[l]))
    {
      if !StrLe(key(a[m]), key(a[j])) {
        StrLeTotal(key(a[m]), key(a[j]));
        forall l | from <= l < j
          ensures StrLe(key(a[j]), key(a[l]))
        {
          StrLeTransitive(key(a[j]), key(a[m]), key(a[l]));
        }
        StrLeReflexive(key(a[j]));
        m := j;
      }
      j := j + 1;
    }
  }

  /**
   * populateDropdown's `values.sort()`: sorts the option values in place,
   * ascending by string form; the array keeps the same values.
   */
  method PopulateDropdown<T>(values: array<T>, key: T -> string)
    modifies values
    ensures SortedByKey(values[..], key)
    ensures multiset(values[..]) == multiset(old(values[..]))
  {
    var i := 0;
    while i < values.Length
      invariant 0 <= i <= values.Length
      invariant forall k, l :: 0 <= k < l < i ==> StrLe(key(values[k]), key(values[l]))
      invariant forall k, l :: 0 <= k < i <= l < values.Length ==> StrLe(key(values[k]), key(values[l]))
      invariant multiset(values[..]) == multiset(old(values[..]))
    {
      var m := MinByKey(values, key, i);
      values[i], values[m] := values[m], values[i];
      i := i + 1;
    }
  }

  /**
   * The sorted order does not depend on the sorting algorithm: two sorted
   * arrangements of the same values are equal when no two different values
   * share a string form.
   */
  lemma {:induction false} SortedArrangementUnique<T>(a: seq<T>, b: seq<T>, key: T -> string)
    requires multiset(a) == multiset(b)
    requires SortedByKey(a, key) && SortedByKey(b, key)
    requires forall x, y :: x in a && y in a && key(x) == key(y) ==> x == y
    ensures a == b
  {
    if |a| > 0 {
      SameFirst(a, b, key);
      DropFirst(a);
      DropFirst(b);
      var a', b' := a[1..], b[1..];
      assert SortedByKey(a', key) && SortedByKey(b', key);
      assert forall x :: x in a' ==> x in a;
      SortedArrangementUnique(a', b', key);
      assert a == [a[0]] + a' && b == [b[0]] + b';
    } else {
      assert |b| == |multiset(b)| == 0;
    }
  }

  /** Two sorted arrangements of the same values start with the same value. */
  lemma SameFirst<T>(a: seq<T>, b: seq<T>, key: T -> string)
    requires |a| > 0 && multiset(a) == multiset(b)
    requires SortedByKey(a, key) && SortedByKey(b, key)
    requires forall x, y :: x in a && y in a && key(x) == key(y) ==> x == y
    ensures a[0] == b[0]
  {
    assert a[0] in multiset(b) && b[0] in multiset(a);
    var i :| 0 <= i < |b| && b[i] == a[0];
    var j :| 0 <= j < |a| && a[j] == b[0];
    StrLeReflexive(key(a[0]));
    StrLeReflexive(key(b[0]));
    assert StrLe(key(b[0]), key(a[0]));
    assert StrLe(key(a[0]), key(b[0]));
    StrLeAntisymmetric(key(a[0]), key(b[0]));
  }

  lemma DropFirst<T>(a: seq<T>)
    requires |a| > 0
    ensures multiset(a[1..]) == multiset(a) - multiset{a[0]}
  {
    assert a == [a[0]] + a[1..];
  }

  /** A fresh array holding the elements of s, as the spread `[...set]` creates one. */
  method ToArray<T>(s: seq<T>) returns (a: array<T>)
    ensures fresh(a) && a[..] == s
  {
    a := new T[|s|](i requires 0 <= i < |s| => s[i]);
  }

  /**
   * Months sort as strings: in any sorted option list holding both 2 and 10,
   * "10" comes before "2", so month 10 is offered before month 2.
   */
  lemma TenBeforeTwo(months: seq<int>, i: nat, j: nat)
    requires SortedByKey(months, IntToString)
    requires i < |months| && j < |months| && months[i] == 2 && months[j] == 10
    ensures j < i
  {
    assert IntToString(2) == "2" && IntToString(10) == "10";
  }
}
