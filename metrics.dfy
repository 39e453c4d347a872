/**
 * The metrics view: total revenue, total sales quantity and average discount
 * over the records currently shown.
 */
module Metrics {
  import opened Records

  /** The three figures updateMetrics writes into the page, before formatting. */
  datatype Summary = Summary(totalRevenue: int, totalSales: int, avgDiscount: real)

  /**
   * updateMetrics: the two totals are d3.sum over the records; the average
   * discount is d3.mean, except that an empty list gives 0 instead of undefined.
   */
  function UpdateMetrics(data: seq<Record>): (s: Summary)
    ensures |data| == 0 ==> s == Summary(0, 0, 0.0)
    ensures |data| > 0 ==> s.avgDiscount * (|data| as real) == Sum(data, Discount) as real
  {
    var avg := if |data| > 0 then (Sum(data, Discount) as real) / (|data| as real) else 0.0;
    Summary(Sum(data, Revenue), Sum(data, SalesQuantity), avg)
  }

  /** The average discount lies between the smallest and the largest discount of the records. */
  lemma AverageDiscountWithin(data: seq<Record>, lo: int, hi: int)
    requires forall r :: r in data ==> lo <= r.discount <= hi
    ensures |data| > 0 ==> lo as real <= UpdateMetrics(data).avgDiscount <= hi as real
  {
    if |data| > 0 {
      SumBounds(data, Discount, lo, hi);
      var avg := UpdateMetrics(data).avgDiscount;
      MeanAtLeast(|data|, lo, Sum(data, Discount), avg);
      MeanAtMost(|data|, hi, Sum(data, Discount), avg);
    }
  }

  /** A mean of n values whose sum is at least n * k is at least k. */
  lemma MeanAtLeast(n: nat, k: int, s: int, avg: real)
    requires n > 0 && avg * (n as real) == s as real && n * k <= s
    ensures k as real <= avg
  {
    assert (n * k) as real == (n as real) * (k as real);
  }

  /** A mean of n values whose sum is at most n * k is at most k. */
  lemma MeanAtMost(n: nat, k: int, s: int, avg: real)
    requires n > 0 && avg * (n as real) == s as real && s <= n * k
    ensures avg <= k as real
  {
    assert (n * k) as real == (n as real) * (k as real);
  }

  /** The totals of two lists shown one after the other are the sums of their totals. */
  lemma TotalsAdd(a: seq<Record>, b: seq<Record>)
    ensures UpdateMetrics(a + b).totalRevenue == UpdateMetrics(a).totalRevenue + UpdateMetrics(b).totalRevenue
    ensures UpdateMetrics(a + b).totalSales == UpdateMetrics(a).totalSales + UpdateMetrics(b).totalSales
  {
    SumAppend(a, b, Revenue);
    SumAppend(a, b, SalesQuantity);
  }
}
