/**
 * The page controller: the `data` and `filteredData` variables of the
 * DOMContentLoaded closure, the load callback that fills the dropdowns and
 * draws the first view, and the change handler that refilters and redraws.
 */
module Dashboard {
  import opened Records
  import opened Filter
  import opened Options
  import opened Dropdown
  import opened Metrics
  import opened Chart
  import opened ChartProperties

  /** What one redraw puts on the page: table rows, the three metrics and the chart cells. */
  datatype View = View(rows: seq<Record>, summary: Summary, years: seq<int>, months: seq<int>, cells: seq<Cell>)

  /** view is what updateTable, updateMetrics and renderChart draw for subset. */
  predicate Shows(view: View, subset: seq<Record>)
  {
    && view.rows == subset
    && view.summary == UpdateMetrics(subset)
    && view.years == Distinct(Years(subset))
    && view.months == Distinct(Months(subset))
    && view.cells == Table(subset, view.years, view.months)
  }

  /**
   * The three calls updateTable(subset); updateMetrics(subset);
   * renderChart(subset): the chart's cells and the revenue metric agree.
   */
  method Render(subset: seq<Record>) returns (view: View)
    ensures Shows(view, subset)
    ensures CellsTotal(view.cells) == view.summary.totalRevenue
  {
    var summary := UpdateMetrics(subset);
    var years, months, cells := RevenueByYearMonth(subset);
    ChartTotalIsTotalRevenue(subset);
    view := View(subset, summary, years, months, cells);
  }

  class Dashboard {
    /** The records loaded from data.json; empty until the load completes. */
    var data: seq<Record>
    /** The subset last computed by the change handler. */
    var filteredData: seq<Record>
    /** Whether the load callback has run. */
    var loaded: bool

    /** The filtered subset is always drawn from the loaded data, and nothing is there before the load. */
    ghost predicate Valid()
      reads this
    {
      && IsSubsequence(filteredData, data)
      && (!loaded ==> data == [])
    }

    /** `let data = []; let filteredData = [];` */
    constructor()
      ensures Valid() && !loaded
      ensures data == [] && filteredData == []
    {
      data := [];
      filteredData := [];
      loaded := false;
    }

    /**
     * The fetch callback: stores the records, fills each dropdown with the
     * distinct values of its field sorted by string form, and draws the whole
     * dataset. filteredData keeps its value.
     */
    method Load(json: seq<Record>)
      returns (years: seq<int>, months: seq<int>, cities: seq<string>, customers: seq<string>, view: View)
      requires Valid() && !loaded
      modifies this
      ensures Valid() && loaded
      ensures data == json && filteredData == old(filteredData) == []
      ensures SortedByKey(years, IntToString) && multiset(years) == multiset(PopulateFilters(json).years)
      ensures SortedByKey(months, IntToString) && multiset(months) == multiset(PopulateFilters(json).months)
      ensures SortedByKey(cities, StringOf) && multiset(cities) == multiset(PopulateFilters(json).cities)
      ensures SortedByKey(customers, StringOf) && multiset(customers) == multiset(PopulateFilters(json).customers)
      ensures Shows(view, json)
    {
      data := json;
      loaded := true;
      var choices := PopulateFilters(data);
      var a := ToArray(choices.years);
      PopulateDropdown(a, IntToString);
      years := a[..];
      var b := ToArray(choices.months);
      PopulateDropdown(b, IntToString);
      months := b[..];
      var c := ToArray(choices.cities);
      PopulateDropdown(c, StringOf);
      cities := c[..];
      var d := ToArray(choices.customers);
      PopulateDropdown(d, StringOf);
      customers := d[..];
      view := Render(data);
    }

    /**
     * filterData: recomputes filteredData from the whole dataset under the
     * current dropdown values and redraws it.
     */
    method FilterChanged(sel: Selection) returns (view: View)
      requires Valid()
      modifies this`filteredData
      ensures Valid()
      ensures filteredData == FilterData(data, sel)
      ensures Shows(view, filteredData)
      ensures CellsTotal(view.cells) == view.summary.totalRevenue
    {
      filteredData := FilterData(data, sel);
      view := Render(filteredData);
    }
  }

  /**
   * Changing the dropdowns twice to the same values draws the same view, and
   * the second filter over the first result would not change it either.
   */
  lemma RefilterIsStable(data: seq<Record>, sel: Selection, v: View, w: View)
    requires Shows(v, FilterData(data, sel))
    requires Shows(w, FilterData(FilterData(data, sel), sel))
    ensures v == w
  {
    FilterIdempotent(data, sel);
  }

  /** With every dropdown on the empty option, the change handler draws exactly what the load drew. */
  lemma ResetShowsEverything(data: seq<Record>, v: View, w: View)
    requires Shows(v, data)
    requires Shows(w, FilterData(data, NoSelection))
    ensures v == w
  {
    FilterNoSelection(data);
  }
}
