/**
 * The data behind the grouped bar chart: revenue summed per (year, month)
 * over the full cross product of the years and months that occur.
 */
module Chart {
  import opened Records
  import opened Filter
  import opened Options
  import opened Metrics

  /** One element of revenueByYearMonth. */
  datatype Cell = Cell(year: int, month: int, revenue: int)

  /** The selection of exactly one year and one month. */
  function YearMonth(y: int, m: int): Selection
  {
    Selection(Some(y), Some(m), None, None)
  }

  /** Summed revenue of the records of year y and month m (0 when there are none). */
  function CellRevenue(data: seq<Record>, y: int, m: int): int
  {
    Sum(FilterData(data, YearMonth(y, m)), Revenue)
  }

  /** d3.group(data, d => d.YEAR, d => d.MONTH) as nested maps from year to month to records. */
  type Groups = map<int, map<int, seq<Record>>>

  /**
   * d3.group visits the records in order and appends each one to the bucket
   * of its year and month, creating the buckets on first use.
   */
  function Group(data: seq<Record>): (g: Groups)
    ensures g == map[] <==> data == []
  {
    if |data| == 0 then map[]
    else
      var init, r := data[..|data| - 1], data[|data| - 1];
      var g := Group(init);
      var byMonth := if r.year in g then g[r.year] else map[];
      var bucket := if r.month in byMonth then byMonth[r.month] else [];
      g[r.year := byMonth[r.month := bucket + [r]]]
  }

  /** The year keys of the grouping are exactly the years that occur in the data. */
  lemma {:induction false} GroupKeys(data: seq<Record>)
    ensures forall y :: y in Group(data) <==> exists r :: r in data && r.year == y
  {
    if |data| > 0 {
      var init, r := data[..|data| - 1], data[|data| - 1];
      assert data == init + [r];
      GroupKeys(init);
      forall y
        ensures y in Group(data) <==> exists x :: x in data && x.year == y
      {
        if y == r.year {
          assert r in data;
        } else if y in Group(init) {
          var x :| x in init && x.year == y;
          assert x in data;
        }
      }
    }
  }

  /**
   * Every bucket of the grouping is exactly the records of its year and
   * month, in order, and a month is missing under a year only when no record
   * has that year and month.
   */
  lemma {:induction false} GroupBuckets(data: seq<Record>)
    ensures forall y, m :: y in Group(data) && m in Group(data)[y] ==>
      Group(data)[y][m] == FilterData(data, YearMonth(y, m))
    ensures forall y, m :: y in Group(data) && m !in Group(data)[y] ==>
      FilterData(data, YearMonth(y, m)) == []
  {
    if |data| > 0 {
      var init, r := data[..|data| - 1], data[|data| - 1];
      assert data == init + [r];
      GroupBuckets(init);
      var g, g' := Group(init), Group(data);
      forall y, m | y in g'
        ensures m in g'[y] ==> g'[y][m] == FilterData(data, YearMonth(y, m))
        ensures m !in g'[y] ==> FilterData(data, YearMonth(y, m)) == []
      {
        BucketStep(init, r, y, m);
      }
    }
  }

  /** One step of the grouping: the bucket of (y, m) after appending r. */
  lemma BucketStep(init: seq<Record>, r: Record, y: int, m: int)
    requires forall y, m :: y in Group(init) && m in Group(init)[y] ==>
      Group(init)[y][m] == FilterData(init, YearMonth(y, m))
    requires forall y, m :: y in Group(init) && m !in Group(init)[y] ==>
      FilterData(init, YearMonth(y, m)) == []
    requires y in Group(init + [r])
    ensures m in Group(init + [r])[y] ==> Group(init + [r])[y][m] == FilterData(init + [r], YearMonth(y, m))
    ensures m !in Group(init + [r])[y] ==> FilterData(init + [r], YearMonth(y, m)) == []
  {
    var data := init + [r];
    assert data[..|data| - 1] == init && data[|data| - 1] == r;
    var g := Group(init);
    FilterSnoc(init, r, YearMonth(y, m));
    if y != r.year {
      assert Group(data)[y] == g[y];
    } else if y !in g {
      GroupKeys(init);
      NoYearNoCell(init, y, m);
    }
  }

  /** Every year of the chart is a key of the grouping. */
  lemma YearsAreKeys(data: seq<Record>)
    ensures forall y :: y in Distinct(Years(data)) ==> y in Group(data)
  {
    GroupKeys(data);
  }

  /** `groupedData.get(year).get(month) || []` */
  function Bucket(g: Groups, y: int, m: int): seq<Record>
    requires y in g
  {
    if m in g[y] then g[y][m] else []
  }

  /** The summed revenue of the (possibly missing) bucket of (y, m) is the cell revenue of y and m. */
  lemma BucketRevenue(data: seq<Record>, y: int, m: int)
    requires y in Group(data)
    ensures Sum(Bucket(Group(data), y, m), Revenue) == CellRevenue(data, y, m)
  {
    GroupBuckets(data);
  }

  /** With no record of year y, the cell of y and any month is empty. */
  lemma NoYearNoCell(data: seq<Record>, y: int, m: int)
    requires forall x :: x in data ==> x.year != y
    ensures FilterData(data, YearMonth(y, m)) == []
  {
    FilterDataExact(data, YearMonth(y, m));
  }

  /** The cells of one year, one per month, in the order of months. */
  function Row(data: seq<Record>, y: int, months: seq<int>): seq<Cell>
  {
    if |months| == 0 then []
    else
      var m := months[|months| - 1];
      Row(data, y, months[..|months| - 1]) + [Cell(y, m, CellRevenue(data, y, m))]
  }

  /** All cells, year-major: the row of each year in the order of years. */
  function Table(data: seq<Record>, years: seq<int>, months: seq<int>): seq<Cell>
  {
    if |years| == 0 then []
    else Table(data, years[..|years| - 1], months) + Row(data, years[|years| - 1], months)
  }

  /** The cells the inner loop pushes for year y, read from the grouping. */
  function GroupedRow(g: Groups, y: int, months: seq<int>): seq<Cell>
    requires y in g
  {
    if |months| == 0 then []
    else
      var m := months[|months| - 1];
      GroupedRow(g, y, months[..|months| - 1]) + [Cell(y, m, Sum(Bucket(g, y, m), Revenue))]
  }

  /** The cells both loops push, read from the grouping. */
  function GroupedTable(g: Groups, years: seq<int>, months: seq<int>): seq<Cell>
    requires forall y :: y in years ==> y in g
  {
    if |years| == 0 then []
    else GroupedTable(g, years[..|years| - 1], months) + GroupedRow(g, years[|years| - 1], months)
  }

  /** Reading the cells from d3.group's buckets gives the cells defined by the year and month filter. */
  lemma {:induction false} GroupedTableIsTable(data: seq<Record>, years: seq<int>, months: seq<int>)
    requires forall y :: y in years ==> y in Group(data)
    ensures GroupedTable(Group(data), years, months) == Table(data, years, months)
  {
    if |years| > 0 {
      var init := years[..|years| - 1];
      assert forall y :: y in init ==> y in years;
      GroupedTableIsTable(data, init, months);
      GroupedRowIsRow(data, years[|years| - 1], months);
    }
  }

  lemma {:induction false} GroupedRowIsRow(data: seq<Record>, y: int, months: seq<int>)
    requires y in Group(data)
    ensures GroupedRow(Group(data), y, months) == Row(data, y, months)
  {
    if |months| > 0 {
      GroupedRowIsRow(data, y, months[..|months| - 1]);
      BucketRevenue(data, y, months[|months| - 1]);
    }
  }

  /**
   * renderChart's grouping: years are the keys of the d3.group map in
   * insertion order and months the distinct MONTH values in order of first
   * occurrence; the cells are those the nested loops push.
   */
  method RevenueByYearMonth(data: seq<Record>) returns (years: seq<int>, months: seq<int>, cells: seq<Cell>)
    ensures years == Distinct(Years(data)) && months == Distinct(Months(data))
    ensures cells == Table(data, years, months)
  {
    var grouped := Group(data);
    years := Distinct(Years(data));
    months := Distinct(Months(data));
    YearsAreKeys(data);
    cells := PushCells(grouped, years, months);
    GroupedTableIsTable(data, years, months);
  }

  /**
   * The nested forEach loops: one cell per (year, month), years outer, with
   * the bucket's summed revenue, or 0 when the bucket is missing.
   */
  method PushCells(grouped: Groups, years: seq<int>, months: seq<int>) returns (cells: seq<Cell>)
    requires forall y :: y in years ==> y in grouped
    ensures cells == GroupedTable(grouped, years, months)
  {
    cells := [];
    var i := 0;
    while i < |years|
      invariant 0 <= i <= |years|
      invariant cells == GroupedTable(grouped, years[..i], months)
    {
      var year := years[i];
      assert year in grouped;
      ghost var done := cells;
      var j := 0;
      while j < |months|
        invariant 0 <= j <= |months|
        invariant cells == done + GroupedRow(grouped, year, months[..j])
      {
        var month := months[j];
        var revenue := Sum(Bucket(grouped, year, month), Revenue);
        cells := cells + [Cell(year, month, revenue)];
        assert months[..j + 1][..j] == months[..j];
        j := j + 1;
      }
      assert months[..j] == months;
      assert years[..i + 1][..i] == years[..i];
      assert cells == GroupedTable(grouped, years[..i + 1], months);
      i := i + 1;
    }
    assert years[..i] == years;
  }
}

/** What the grouping promises: its shape, its coverage of the cross product, and its total. */
module ChartProperties {
  import opened Records
  import opened Filter
  import opened Options
  import opened Metrics
  import opened Chart

  /** The summed revenue of a list of cells. */
  function CellsTotal(cells: seq<Cell>): int
  {
    if |cells| == 0 then 0 else CellsTotal(cells[..|cells| - 1]) + cells[|cells| - 1].revenue
  }

  lemma {:induction false} CellsTotalAppend(a: seq<Cell>, b: seq<Cell>)
    ensures CellsTotal(a + b) == CellsTotal(a) + CellsTotal(b)
  {
    if |b| == 0 {
      assert a + b == a;
    } else {
      assert (a + b)[..|a + b| - 1] == a + b[..|b| - 1];
      CellsTotalAppend(a, b[..|b| - 1]);
    }
  }

  /** Row y holds one cell per month, in the order of months, each with its exact revenue. */
  lemma {:induction false} RowShape(data: seq<Record>, y: int, months: seq<int>)
    ensures |Row(data, y, months)| == |months|
    ensures forall j :: 0 <= j < |months| ==>
      Row(data, y, months)[j] == Cell(y, months[j], CellRevenue(data, y, months[j]))
  {
    if |months| > 0 {
      RowShape(data, y, months[..|months| - 1]);
    }
  }

  /** Cell j of block i lies before block k when i < k. */
  lemma {:induction false} BlockBefore(i: nat, j: nat, k: nat, n: nat)
    requires i < k && j < n
    ensures i * n + j < k * n
  {
    MulSucc(k - 1, n);
    if i < k - 1 {
      BlockBefore(i, j, k - 1, n);
    }
  }

  /** The grouping holds |years| * |months| cells. */
  lemma {:induction false} TableLength(data: seq<Record>, years: seq<int>, months: seq<int>)
    ensures |Table(data, years, months)| == |years| * |months|
  {
    if |years| > 0 {
      TableLength(data, years[..|years| - 1], months);
      RowShape(data, years[|years| - 1], months);
      MulSucc(|years| - 1, |months|);
    }
  }

  /** The cell at i * |months| + j is year i with month j and their revenue. */
  lemma {:induction false} TableAt(data: seq<Record>, years: seq<int>, months: seq<int>, i: nat, j: nat)
    requires i < |years| && j < |months|
    ensures i * |months| + j < |Table(data, years, months)|
    ensures Table(data, years, months)[i * |months| + j] == Cell(years[i], months[j], CellRevenue(data, years[i], months[j]))
  {
    var init, y, n := years[..|years| - 1], years[|years| - 1], |months|;
    TableLength(data, init, months);
    RowShape(data, y, months);
    var front, row := Table(data, init, months), Row(data, y, months);
    assert Table(data, years, months) == front + row;
    if i < |init| {
      TableAt(data, init, months, i, j);
      BlockBefore(i, j, |init|, n);
      assert years[i] == init[i];
    } else {
      assert i * n + j == |front| + j;
    }
  }

  /**
   * The grouping holds |years| * |months| cells, year-major and month-minor:
   * the cell at i * |months| + j is year i with month j and their revenue.
   */
  lemma TableShape(data: seq<Record>, years: seq<int>, months: seq<int>)
    ensures |Table(data, years, months)| == |years| * |months|
    ensures forall i: nat, j: nat :: i < |years| && j < |months| ==>
      i * |months| + j < |Table(data, years, months)| &&
      Table(data, years, months)[i * |months| + j] == Cell(years[i], months[j], CellRevenue(data, years[i], months[j]))
  {
    TableLength(data, years, months);
    forall i: nat, j: nat | i < |years| && j < |months|
      ensures i * |months| + j < |Table(data, years, months)|
      ensures Table(data, years, months)[i * |months| + j] == Cell(years[i], months[j], CellRevenue(data, years[i], months[j]))
    {
      TableAt(data, years, months, i, j);
    }
  }

  /** Some cell carries year y and month m. */
  predicate HasCell(cells: seq<Cell>, y: int, m: int)
  {
    exists k :: 0 <= k < |cells| && cells[k].year == y && cells[k].month == m
  }

  /**
   * Every (year, month) pair of the cross product has a cell, including
   * pairs that no record carries, and no pair has two cells.
   */
  lemma {:induction false} TableCoversPairsOnce(data: seq<Record>, years: seq<int>, months: seq<int>)
    requires NoDuplicates(years) && NoDuplicates(months)
    ensures forall y, m :: y in years && m in months ==> HasCell(Table(data, years, months), y, m)
    ensures forall k, l :: 0 <= k < l < |Table(data, years, months)| ==>
      Table(data, years, months)[k].year != Table(data, years, months)[l].year ||
      Table(data, years, months)[k].month != Table(data, years, months)[l].month
  {
    forall y, m | y in years && m in months
      ensures HasCell(Table(data, years, months), y, m)
    {
      var i :| 0 <= i < |years| && years[i] == y;
      var j :| 0 <= j < |months| && months[j] == m;
      PairHasCell(data, years, months, i, j);
    }
    TableCellsDistinct(data, years, months);
  }

  lemma PairHasCell(data: seq<Record>, years: seq<int>, months: seq<int>, i: nat, j: nat)
    requires i < |years| && j < |months|
    ensures HasCell(Table(data, years, months), years[i], months[j])
  {
    TableAt(data, years, months, i, j);
    var k := i * |months| + j;
    assert Table(data, years, months)[k].year == years[i];
  }

  lemma {:induction false} TableCellsDistinct(data: seq<Record>, years: seq<int>, months: seq<int>)
    requires NoDuplicates(years) && NoDuplicates(months)
    ensures forall c :: c in Table(data, years, months) ==> c.year in years
    ensures forall k, l :: 0 <= k < l < |Table(data, years, months)| ==>
      Table(data, years, months)[k].year != Table(data, years, months)[l].year ||
      Table(data, years, months)[k].month != Table(data, years, months)[l].month
  {
    if |years| > 0 {
      var init, y := years[..|years| - 1], years[|years| - 1];
      TableCellsDistinct(data, init, months);
      RowShape(data, y, months);
      var front, row := Table(data, init, months), Row(data, y, months);
      var t := front + row;
      assert t == Table(data, years, months);
      forall c | c in t ensures c.year in years {
        if c in row {
          var j :| 0 <= j < |row| && row[j] == c;
        }
      }
      forall k, l | 0 <= k < l < |t|
        ensures t[k].year != t[l].year || t[k].month != t[l].month
      {
        if l >= |front| && k < |front| {
          assert t[k] in front;
          assert t[k].year in init;
        }
      }
    }
  }

  /** A (year, month) pair that no record carries has revenue 0. */
  lemma AbsentPairHasNoRevenue(data: seq<Record>, y: int, m: int)
    requires forall r :: r in data ==> r.year != y || r.month != m
    ensures CellRevenue(data, y, m) == 0
  {
    FilterDataExact(data, YearMonth(y, m));
    assert FilterData(data, YearMonth(y, m)) == [];
  }

  /** The two dimensions the chart groups by. */
  datatype Dimension = ByYear | ByMonth

  function KeyOf(r: Record, d: Dimension): int
  {
    match d
    case ByYear => r.year
    case ByMonth => r.month
  }

  /** The selection of one value of one dimension. */
  function Only(d: Dimension, k: int): Selection
  {
    match d
    case ByYear => Selection(Some(k), None, None, None)
    case ByMonth => Selection(None, Some(k), None, None)
  }

  /** The revenue of the records of each key in ks, added up. */
  function SumByKey(data: seq<Record>, d: Dimension, ks: seq<int>): int
  {
    if |ks| == 0 then 0
    else SumByKey(data, d, ks[..|ks| - 1]) + Sum(FilterData(data, Only(d, ks[|ks| - 1])), Revenue)
  }

  /** Appending record r adds its revenue to the key sum exactly once when its key is among ks. */
  lemma {:induction false} SumByKeySnoc(data: seq<Record>, r: Record, d: Dimension, ks: seq<int>)
    requires NoDuplicates(ks)
    ensures SumByKey(data + [r], d, ks) == SumByKey(data, d, ks) + (if KeyOf(r, d) in ks then r.revenue else 0)
  {
    if |ks| > 0 {
      var init, k := ks[..|ks| - 1], ks[|ks| - 1];
      assert k !in init;
      SumByKeySnoc(data, r, d, init);
      FilterSnoc(data, r, Only(d, k));
      var f := FilterData(data, Only(d, k));
      if Matches(r, Only(d, k)) {
        assert (f + [r])[..|f|] == f;
      }
      assert KeyOf(r, d) in ks <==> KeyOf(r, d) in init || KeyOf(r, d) == k;
    }
  }

  /** When ks lists every key of the data once, the key sums add up to the whole revenue. */
  lemma {:induction false} SumByKeyPartitions(data: seq<Record>, d: Dimension, ks: seq<int>)
    requires NoDuplicates(ks)
    requires forall r :: r in data ==> KeyOf(r, d) in ks
    ensures SumByKey(data, d, ks) == Sum(data, Revenue)
  {
    if |data| > 0 {
      var init, r := data[..|data| - 1], data[|data| - 1];
      assert data == init + [r];
      assert r in data;
      SumByKeyPartitions(init, d, ks);
      SumByKeySnoc(init, r, d, ks);
    } else {
      SumByKeyOfNothing(d, ks);
    }
  }

  lemma {:induction false} SumByKeyOfNothing(d: Dimension, ks: seq<int>)
    ensures SumByKey([], d, ks) == 0
  {
    if |ks| > 0 {
      SumByKeyOfNothing(d, ks[..|ks| - 1]);
    }
  }

  /** The cells of row y add up to the revenue of year y, split by the months ms. */
  lemma {:induction false} RowTotal(data: seq<Record>, y: int, months: seq<int>)
    ensures CellsTotal(Row(data, y, months)) == SumByKey(FilterData(data, Only(ByYear, y)), ByMonth, months)
  {
    if |months| > 0 {
      var init, m := months[..|months| - 1], months[|months| - 1];
      RowTotal(data, y, init);
      FilterThenFilter(data, Only(ByYear, y), Only(ByMonth, m), YearMonth(y, m));
      var row := Row(data, y, init);
      var c := Cell(y, m, CellRevenue(data, y, m));
      assert (row + [c])[..|row|] == row;
    }
  }

  /** When months covers the data's months once, the cells add up to the revenue split by the years ys. */
  lemma {:induction false} TableTotalByYear(data: seq<Record>, years: seq<int>, months: seq<int>)
    requires NoDuplicates(months)
    requires forall r :: r in data ==> r.month in months
    ensures CellsTotal(Table(data, years, months)) == SumByKey(data, ByYear, years)
  {
    if |years| > 0 {
      var init, y := years[..|years| - 1], years[|years| - 1];
      TableTotalByYear(data, init, months);
      CellsTotalAppend(Table(data, init, months), Row(data, y, months));
      RowTotal(data, y, months);
      var ofYear := FilterData(data, Only(ByYear, y));
      FilterDataExact(data, Only(ByYear, y));
      SumByKeyPartitions(ofYear, ByMonth, months);
    }
  }

  /**
   * When years and months list every year and month of the data once, the
   * cells of the grouping add up to the total revenue of the data.
   */
  lemma TableTotal(data: seq<Record>, years: seq<int>, months: seq<int>)
    requires NoDuplicates(years) && NoDuplicates(months)
    requires forall r :: r in data ==> r.year in years && r.month in months
    ensures CellsTotal(Table(data, years, months)) == Sum(data, Revenue)
  {
    TableTotalByYear(data, years, months);
    SumByKeyPartitions(data, ByYear, years);
  }

  /** The chart's cells add up to the total revenue the metrics view shows for the same records. */
  lemma ChartTotalIsTotalRevenue(data: seq<Record>)
    ensures CellsTotal(Table(data, Distinct(Years(data)), Distinct(Months(data)))) == UpdateMetrics(data).totalRevenue
  {
    DistinctHasNoDuplicates(Years(data));
    DistinctHasNoDuplicates(Months(data));
    TableTotal(data, Distinct(Years(data)), Distinct(Months(data)));
  }
}
