/**
 * The filter engine: the conjunctive equality filter over year, month, city
 * and customer that recomputes the filtered subset on every dropdown change.
 */
module Filter {
  import opened Records

  /**
   * The values of the four dropdowns. None is the empty "all" option (a falsy
   * string); Some(v) is an option text converted back to the field's type, so
   * the loose comparison of the source becomes plain equality.
   */
  datatype Selection = Selection(
    year: Option<int>,
    month: Option<int>,
    city: Option<string>,
    customer: Option<string>
  )

  /** All four dropdowns on the empty option. */
  const NoSelection := Selection(None, None, None, None)

  /** `!choice || value == choice`: an unset dropdown admits every value. */
  predicate Admits<T(==)>(choice: Option<T>, value: T)
  {
    choice.None? || choice.value == value
  }

  /** The callback given to data.filter. */
  predicate Matches(r: Record, sel: Selection)
  {
    && Admits(sel.year, r.year)
    && Admits(sel.month, r.month)
    && Admits(sel.city, r.city)
    && Admits(sel.customer, r.customer)
  }

  /** `a` is `b` with some elements dropped and the rest kept in their order. */
  predicate IsSubsequence<T(==)>(a: seq<T>, b: seq<T>)
  {
    if |a| == 0 then true
    else if |b| == 0 then false
    else (a[|a| - 1] == b[|b| - 1] && IsSubsequence(a[..|a| - 1], b[..|b| - 1]))
         || IsSubsequence(a, b[..|b| - 1])
  }

  /**
   * data.filter(Matches): the records that satisfy every set dimension, in
   * their original order, each as often as it occurs in data.
   */
  function FilterData(data: seq<Record>, sel: Selection): (r: seq<Record>)
    ensures IsSubsequence(r, data)
  {
    if |data| == 0 then []
    else
      var kept := FilterData(data[..|data| - 1], sel);
      var last := data[|data| - 1];
      if Matches(last, sel) then
        assert (kept + [last])[..|kept|] == kept;
        kept + [last]
      else kept
  }

  /**
   * The filtered subset holds each matching record as often as data does and
   * no other record: a record is in it exactly when it is in data and matches.
   */
  lemma {:induction false} FilterDataExact(data: seq<Record>, sel: Selection)
    ensures forall x :: multiset(FilterData(data, sel))[x] == if Matches(x, sel) then multiset(data)[x] else 0
    ensures forall x :: x in FilterData(data, sel) <==> x in data && Matches(x, sel)
  {
    if |data| > 0 {
      var init, last := data[..|data| - 1], data[|data| - 1];
      assert data == init + [last];
      FilterDataExact(init, sel);
    }
  }

  /** Filtering a list with one more record at the end keeps that record exactly when it matches. */
  lemma FilterSnoc(init: seq<Record>, r: Record, sel: Selection)
    ensures FilterData(init + [r], sel) == FilterData(init, sel) + (if Matches(r, sel) then [r] else [])
  {
    assert (init + [r])[..|init|] == init;
  }

  /** With all four dropdowns on the empty option the filter returns the whole dataset. */
  lemma {:induction false} FilterNoSelection(data: seq<Record>)
    ensures FilterData(data, NoSelection) == data
  {
    if |data| > 0 {
      var init, last := data[..|data| - 1], data[|data| - 1];
      FilterNoSelection(init);
      assert Matches(last, NoSelection);
      assert data == init + [last];
    }
  }

  /**
   * Filtering by s and then by t is filtering once by u, when on the records
   * of data u holds exactly where s and t both hold.
   */
  lemma {:induction false} FilterThenFilter(data: seq<Record>, s: Selection, t: Selection, u: Selection)
    requires forall x :: x in data ==> (Matches(x, s) && Matches(x, t) <==> Matches(x, u))
    ensures FilterData(FilterData(data, s), t) == FilterData(data, u)
  {
    if |data| > 0 {
      var init, last := data[..|data| - 1], data[|data| - 1];
      assert last in data;
      assert forall x :: x in init ==> x in data;
      FilterThenFilter(init, s, t, u);
      var once := FilterData(init, s);
      if Matches(last, s) {
        assert (once + [last])[..|once|] == once;
      }
    }
  }

  /** Filtering an already filtered subset with the same selection changes nothing. */
  lemma FilterIdempotent(data: seq<Record>, sel: Selection)
    ensures FilterData(FilterData(data, sel), sel) == FilterData(data, sel)
  {
    FilterThenFilter(data, sel, sel, sel);
  }

  /** A year selection that no record carries yields the empty subset. */
  lemma FilterAbsentYear(data: seq<Record>, sel: Selection)
    requires sel.year.Some?
    requires forall x :: x in data ==> x.year != sel.year.value
    ensures FilterData(data, sel) == []
  {
    FilterDataExact(data, sel);
  }
}
