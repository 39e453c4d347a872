/**
 * Sales records as the dashboard logic sees them, and the d3.sum aggregate
 * over one measure of a list of records.
 */
module Records {

  datatype Option<T> = None | Some(value: T)

  /**
   * One sales transaction, reduced to the fields the filter, metrics and
   * chart code read. Measures are integers in the record's smallest unit
   * (cents of revenue, hundredths of a discount percent), so that sums are exact.
   */
  datatype Record = Record(
    year: int,           // YEAR
    month: int,          // MONTH
    city: string,        // City
    customer: string,    // CustomerDescr
    revenue: int,        // Revenue
    salesQuantity: int,  // SalesQuantity
    discount: int        // Discount
  )

  /** The three measures the metrics view and the chart add up. */
  datatype Measure = Revenue | SalesQuantity | Discount

  function MeasureOf(r: Record, m: Measure): int
  {
    match m
    case Revenue => r.revenue
    case SalesQuantity => r.salesQuantity
    case Discount => r.discount
  }

  /** d3.sum(data, d => d.<measure>): the records are visited in order and their values added; 0 on no records. */
  function Sum(data: seq<Record>, m: Measure): int
  {
    if |data| == 0 then 0 else Sum(data[..|data| - 1], m) + MeasureOf(data[|data| - 1], m)
  }

  /** Summing is additive over concatenation. */
  lemma {:induction false} SumAppend(a: seq<Record>, b: seq<Record>, m: Measure)
    ensures Sum(a + b, m) == Sum(a, m) + Sum(b, m)
  {
    if |b| == 0 {
      assert a + b == a;
    } else {
      assert (a + b)[..|a + b| - 1] == a + b[..|b| - 1];
      SumAppend(a, b[..|b| - 1], m);
    }
  }

  /** When every record's measure lies in [lo, hi], the sum lies between |data| * lo and |data| * hi. */
  lemma {:induction false} SumBounds(data: seq<Record>, m: Measure, lo: int, hi: int)
    requires forall r :: r in data ==> lo <= MeasureOf(r, m) <= hi
    ensures |data| * lo <= Sum(data, m) <= |data| * hi
  {
    if |data| > 0 {
      var init := data[..|data| - 1];
      assert data[|data| - 1] in data;
      assert forall r :: r in init ==> r in data;
      SumBounds(init, m, lo, hi);
      MulSucc(|init|, lo);
      MulSucc(|init|, hi);
    }
  }

  /** Multiplying by one more adds one more copy. */
  lemma MulSucc(k: nat, x: int)
    ensures (k + 1) * x == k * x + x
  {
  }
}
