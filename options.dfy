/**
 * Filter population: the distinct values of each dimension, as
 * `[...new Set(data.map(item => item.FIELD))]` collects them.
 */
module Options {
  import opened Records

  predicate NoDuplicates<T(==)>(s: seq<T>)
  {
    forall i, j :: 0 <= i < j < |s| ==> s[i] != s[j]
  }

  /** The index at which x first occurs in xs. */
  function FirstIndex<T(==)>(xs: seq<T>, x: T): (k: nat)
    requires x in xs
    ensures k < |xs| && xs[k] == x
    ensures forall i :: 0 <= i < k ==> xs[i] != x
  {
    if x in xs[..|xs| - 1] then FirstIndex(xs[..|xs| - 1], x) else |xs| - 1
  }

  /**
   * `[...new Set(xs)]`: a Set keeps the first insertion of each value and
   * iterates in insertion order, so each value appears once, at the place of
   * its first occurrence in xs.
   */
  function Distinct<T(==, !new)>(xs: seq<T>): (r: seq<T>)
    ensures forall x :: x in r <==> x in xs
  {
    if |xs| == 0 then []
    else
      var init, last := xs[..|xs| - 1], xs[|xs| - 1];
      var d := Distinct(init);
      assert forall x :: x in xs <==> x in init || x == last by {
        assert xs == init + [last];
      }
      if last in d then d else d + [last]
  }

  /** Each value occurs once in the distinct list. */
  lemma {:induction false} DistinctHasNoDuplicates<T(!new)>(xs: seq<T>)
    ensures NoDuplicates(Distinct(xs))
  {
    if |xs| > 0 {
      DistinctHasNoDuplicates(xs[..|xs| - 1]);
    }
  }

  /** The distinct values come in the order of their first occurrences in xs. */
  lemma {:induction false} DistinctKeepsFirstOccurrenceOrder<T(!new)>(xs: seq<T>)
    ensures forall i, j :: 0 <= i < j < |Distinct(xs)| ==>
      FirstIndex(xs, Distinct(xs)[i]) < FirstIndex(xs, Distinct(xs)[j])
  {
    if |xs| > 0 {
      var init, last := xs[..|xs| - 1], xs[|xs| - 1];
      DistinctKeepsFirstOccurrenceOrder(init);
      var d := Distinct(init);
      forall x | x in d
        ensures FirstIndex(xs, x) == FirstIndex(init, x) < |init|
      {
      }
      if last !in d {
        assert FirstIndex(xs, last) == |init|;
      }
    }
  }

  /** data.map(item => item.YEAR) */
  function Years(data: seq<Record>): (vs: seq<int>)
    ensures forall y :: y in vs <==> exists r :: r in data && r.year == y
  {
    var vs := seq(|data|, i requires 0 <= i < |data| => data[i].year);
    assert forall r :: r in data ==> r.year in vs by {
      forall r | r in data ensures r.year in vs {
        var i :| 0 <= i < |data| && data[i] == r;
        assert vs[i] == r.year;
      }
    }
    assert forall y :: y in vs ==> exists r :: r in data && r.year == y by {
      forall y | y in vs ensures exists r :: r in data && r.year == y {
        var i :| 0 <= i < |data| && vs[i] == y;
        assert data[i] in data;
      }
    }
    vs
  }

  /** data.map(item => item.MONTH) */
  function Months(data: seq<Record>): (vs: seq<int>)
    ensures forall m :: m in vs <==> exists r :: r in data && r.month == m
  {
    var vs := seq(|data|, i requires 0 <= i < |data| => data[i].month);
    assert forall r :: r in data ==> r.month in vs by {
      forall r | r in data ensures r.month in vs {
        var i :| 0 <= i < |data| && data[i] == r;
        assert vs[i] == r.month;
      }
    }
    assert forall m :: m in vs ==> exists r :: r in data && r.month == m by {
      forall m | m in vs ensures exists r :: r in data && r.month == m {
        var i :| 0 <= i < |data| && vs[i] == m;
        assert data[i] in data;
      }
    }
    vs
  }

  /** data.map(item => item.City) */
  function Cities(data: seq<Record>): (vs: seq<string>)
    ensures forall s :: s in vs <==> exists r :: r in data && r.city == s
  {
    var vs := seq(|data|, i requires 0 <= i < |data| => data[i].city);
    assert forall r :: r in data ==> r.city in vs by {
      forall r | r in data ensures r.city in vs {
        var i :| 0 <= i < |data| && data[i] == r;
        assert vs[i] == r.city;
      }
    }
    assert forall s :: s in vs ==> exists r :: r in data && r.city == s by {
      forall s | s in vs ensures exists r :: r in data && r.city == s {
        var i :| 0 <= i < |data| && vs[i] == s;
        assert data[i] in data;
      }
    }
    vs
  }

  /** data.map(item => item.CustomerDescr) */
  function Customers(data: seq<Record>): (vs: seq<string>)
    ensures forall s :: s in vs <==> exists r :: r in data && r.customer == s
  {
    var vs := seq(|data|, i requires 0 <= i < |data| => data[i].customer);
    assert forall r :: r in data ==> r.customer in vs by {
      forall r | r in data ensures r.customer in vs {
        var i :| 0 <= i < |data| && data[i] == r;
        assert vs[i] == r.customer;
      }
    }
    assert forall s :: s in vs ==> exists r :: r in data && r.customer == s by {
      forall s | s in vs ensures exists r :: r in data && r.customer == s {
        var i :| 0 <= i < |data| && vs[i] == s;
        assert data[i] in data;
      }
    }
    vs
  }

  /** The option lists of the four dropdowns, before sorting. */
  datatype Choices = Choices(years: seq<int>, months: seq<int>, cities: seq<string>, customers: seq<string>)

  /**
   * populateFilters: each list holds every value of its field that occurs in
   * the data, once.
   */
  function PopulateFilters(data: seq<Record>): (c: Choices)
    ensures NoDuplicates(c.years) && NoDuplicates(c.months)
    ensures NoDuplicates(c.cities) && NoDuplicates(c.customers)
    ensures forall y :: y in c.years <==> exists r :: r in data && r.year == y
    ensures forall m :: m in c.months <==> exists r :: r in data && r.month == m
    ensures forall s :: s in c.cities <==> exists r :: r in data && r.city == s
    ensures forall s :: s in c.customers <==> exists r :: r in data && r.customer == s
  {
    DistinctHasNoDuplicates(Years(data));
    DistinctHasNoDuplicates(Months(data));
    DistinctHasNoDuplicates(Cities(data));
    DistinctHasNoDuplicates(Customers(data));
    Choices(Distinct(Years(data)), Distinct(Months(data)), Distinct(Cities(data)), Distinct(Customers(data)))
  }
}
