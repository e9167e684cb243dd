/**
 * The script from the loaded table to the dashboard data, in its order: header
 * normalisation, cleaning, the KPI and chart aggregations, the interactive dashboard.
 * Reading and writing files is not part of this model: the raw table comes in as a
 * value and the data that would be written comes out as results.
 */
module Pipeline {
  import opened Wrappers
  import opened Seqs
  import opened Headers
  import opened Cleaning
  import opened Aggregation
  import opened Dashboard

  /** The column names after lines 35-60. */
  function NormalizedHeaders(headers: seq<string>): (names: seq<string>)
    ensures |names| == |headers| && forall i :: 0 <= i < |headers| ==> names[i] == Normalize(headers[i])
  {
    seq(|headers|, i requires 0 <= i < |headers| => Normalize(headers[i]))
  }

  /** The cleaned table the script ends up with for a raw table. */
  function Cleaned(headers: seq<string>, rows: seq<seq<Cell>>, dates: DateParser, numbers: NumberParser): seq<Sale>
    requires WellFormed(Table(headers, rows)) && RequiredAtMostOnce(NormalizedHeaders(headers))
  {
    CleanedSales(Table(NormalizedHeaders(headers), rows), dates, numbers)
  }

  /**
   * Lines 35-244. The script indexes the first month at line 173, so it needs a
   * cleaned table with at least one row.
   */
  method Refresh(headers: seq<string>, rows: seq<seq<Cell>>, dates: DateParser, numbers: NumberParser)
    returns (sales: seq<Sale>, totalSales: real, channel: seq<Group>, trend: seq<(string, Option<real>)>,
             salesCategory: seq<Group>, product: seq<Group>, initial: seq<Trace>, buttons: seq<Button>)
    requires WellFormed(Table(headers, rows)) && RequiredAtMostOnce(NormalizedHeaders(headers))
    requires Cleaned(headers, rows, dates, numbers) != []
    ensures sales == Cleaned(headers, rows, dates, numbers)
    ensures totalSales == TotalWeight(sales)
    ensures channel == ChannelChart(sales) && trend == MonthChart(sales)
    ensures salesCategory == SalesCategoryChart(sales) && product == ProductChart(sales)
    ensures UniqueMonths(sales) != [] && initial == TracesFor(sales, FilterMonth(sales, UniqueMonths(sales)[0]))
    ensures |buttons| == |UniqueMonths(sales)|
    ensures forall i :: 0 <= i < |buttons| ==> buttons[i] == ButtonFor(sales, UniqueMonths(sales)[i])
  {
    var columns := NormalizeColumns(headers);
    assert columns == NormalizedHeaders(headers);
    sales := Clean(Table(columns, rows), dates, numbers);
    totalSales := TotalWeight(sales);
    channel := ChannelChart(sales);
    trend := MonthChart(sales);
    salesCategory := SalesCategoryChart(sales);
    product := ProductChart(sales);
    initial, buttons := BuildDashboard(sales);
  }
}
