/**
 * The interactive dashboard's data (refresh_and_export.py, lines 155-244): the month
 * filter, the four initial traces, and one dropdown button per month that replaces the
 * traces' data. Each filtered panel shows the grouped index as `x` and the grouped
 * values sorted highest first as `y`; the fourth panel always shows the whole table's
 * monthly sums.
 */
module Dashboard {
  import opened Text
  import opened Seqs
  import opened Cleaning
  import opened Aggregation

  /** `filter_month(m)` (lines 169-170): the rows of month `m`. */
  function FilterMonth(sales: seq<Sale>, m: string): (rows: seq<Sale>)
    ensures forall s :: s in rows <==> s in sales && s.month == m
    ensures IsSubseq(rows, sales)
  {
    Filter(sales, (s: Sale) => s.month == m)
  }

  /** The month filter keeps exactly the rows of that month, in their order. */
  lemma FilterMonthSpec(sales: seq<Sale>, m: string)
    ensures forall s: Sale :: s.month == m ==> Count(FilterMonth(sales, m), s) == Count(sales, s)
    ensures m !in UniqueMonths(sales) ==> FilterMonth(sales, m) == []
  {
    UniqueMonthsSpec(sales);
    var f := FilterMonth(sales, m);
    assert f != [] ==> f[0] in sales;
    forall s: Sale | s.month == m ensures Count(f, s) == Count(sales, s) {
      FilterCount(sales, (s: Sale) => s.month == m, s);
    }
  }

  /** `x` of a filtered panel: the grouped index, keys ascending. */
  function PanelX(rows: seq<Sale>, col: GroupColumn): seq<string> {
    KeysOf(GroupSum(rows, col))
  }

  /** `y` of a filtered panel: `sort_values(ascending=False).values`. */
  function PanelY(rows: seq<Sale>, col: GroupColumn): seq<real> {
    ValuesOf(SortDesc(GroupSum(rows, col)))
  }

  /**
   * A filtered panel: `x` holds each key once, ascending, exactly the keys of the rows;
   * `y` holds the groups' sums, highest first; both have one entry per group.
   */
  lemma PanelSpec(rows: seq<Sale>, col: GroupColumn)
    ensures StrictlyAscending(PanelX(rows, col))
    ensures forall k :: k in PanelX(rows, col) <==> k in KeyList(rows, col)
    ensures |PanelX(rows, col)| == |PanelY(rows, col)|
    ensures forall i, j :: 0 <= i < j < |PanelY(rows, col)| ==> PanelY(rows, col)[i] >= PanelY(rows, col)[j]
    ensures multiset(PanelY(rows, col)) == multiset(ValuesOf(GroupSum(rows, col)))
  {
    var g := GroupSum(rows, col);
    GroupSumSpec(rows, col);
    SortDescSpec(g);
    SortDescValues(g);
    var x := PanelX(rows, col);
    forall i, j | 0 <= i < j < |x| ensures Less(x[i], x[j]) {
      assert x[i] == g[i].key && x[j] == g[j].key;
    }
  }

  /** A filtered panel has as many bars as groups. */
  lemma PanelLengths(rows: seq<Sale>, col: GroupColumn)
    ensures |PanelX(rows, col)| == |PanelY(rows, col)| == |GroupSum(rows, col)|
  {
    SortDescSpec(GroupSum(rows, col));
  }

  /**
   * Lines 178-179 and their counterparts: the bar at `x[i]` shows that key's own sum
   * exactly when the sums in key order already happen to be highest first. Otherwise
   * the heights are those of other keys.
   */
  lemma PanelAlignedIff(rows: seq<Sale>, col: GroupColumn)
    ensures (forall i :: 0 <= i < |PanelX(rows, col)| ==>
               i < |PanelY(rows, col)| && PanelY(rows, col)[i] == SumWhere(rows, col, PanelX(rows, col)[i]))
            <==> Descending(GroupSum(rows, col))
  {
    var g := GroupSum(rows, col);
    GroupSumValues(rows, col);
    SortDescSpec(g);
    var x, y := PanelX(rows, col), PanelY(rows, col);
    if Descending(g) {
      SortDescKeepsDescending(g);
    }
    if forall i :: 0 <= i < |x| ==> i < |y| && y[i] == SumWhere(rows, col, x[i]) {
      forall i, j | 0 <= i < j < |g| ensures g[i].total >= g[j].total {
        assert y[i] == g[i].total && y[j] == g[j].total;
        assert y[i] == SortDesc(g)[i].total && y[j] == SortDesc(g)[j].total;
      }
    }
  }

  /** One trace of the dashboard: a name and its `x` and `y` data. */
  datatype Trace = Trace(name: string, x: seq<string>, y: seq<real>)

  /** The "Trend" trace (lines 206-215): the whole table's monthly sums, months ascending. */
  function TrendTrace(sales: seq<Sale>): Trace {
    var g := GroupSum(sales, MonthCol);
    Trace("Trend", KeysOf(g), ValuesOf(g))
  }

  /** The four traces drawn for the rows `dff` of one month. */
  function TracesFor(sales: seq<Sale>, dff: seq<Sale>): seq<Trace> {
    [Trace("Channel", PanelX(dff, ChannelCol), PanelY(dff, ChannelCol)),
     Trace("SalesCategory", PanelX(dff, SalesCategoryCol), PanelY(dff, SalesCategoryCol)),
     Trace("Product", PanelX(dff, ProductCol), PanelY(dff, ProductCol)),
     TrendTrace(sales)]
  }

  /** A dropdown entry (lines 223-242): its `label` (here `caption`, as `label` is a Dafny keyword) and the four `x` and four `y` lists. */
  datatype Button = Button(caption: string, xs: seq<seq<string>>, ys: seq<seq<real>>)

  /** The button the loop builds for month `m`: its lists as written at lines 229-240. */
  function ButtonFor(sales: seq<Sale>, m: string): Button {
    var dff := FilterMonth(sales, m);
    Button(m,
           [PanelX(dff, ChannelCol), PanelX(dff, SalesCategoryCol), PanelX(dff, ProductCol), TrendTrace(sales).x],
           [PanelY(dff, ChannelCol), PanelY(dff, SalesCategoryCol), PanelY(dff, ProductCol), TrendTrace(sales).y])
  }

  /** The trend panel shows every month once, ascending, with that month's summed weight. */
  lemma TrendTraceSpec(sales: seq<Sale>)
    ensures TrendTrace(sales).x == UniqueMonths(sales)
    ensures |TrendTrace(sales).y| == |TrendTrace(sales).x|
    ensures forall i :: 0 <= i < |TrendTrace(sales).x| ==>
              TrendTrace(sales).y[i] == SumWhere(sales, MonthCol, TrendTrace(sales).x[i])
  {
    UniqueMonthsAreGroupKeys(sales);
    GroupSumValues(sales, MonthCol);
  }

  /**
   * Whatever the month, a button is labelled with it, its first three panels are that
   * month's panels, and its fourth panel is the whole table's monthly trend.
   */
  lemma ButtonSpec(sales: seq<Sale>, m: string)
    ensures ButtonFor(sales, m).caption == m
    ensures |ButtonFor(sales, m).xs| == 4 && |ButtonFor(sales, m).ys| == 4
    ensures ButtonFor(sales, m).xs[3] == UniqueMonths(sales)
    ensures ButtonFor(sales, m).ys[3] == TrendTrace(sales).y
    ensures forall k :: 0 <= k < 4 ==> |ButtonFor(sales, m).xs[k]| == |ButtonFor(sales, m).ys[k]|
    ensures ButtonFor(sales, m).xs[0] == PanelX(FilterMonth(sales, m), ChannelCol)
    ensures ButtonFor(sales, m).ys[0] == PanelY(FilterMonth(sales, m), ChannelCol)
    ensures ButtonFor(sales, m).xs[1] == PanelX(FilterMonth(sales, m), SalesCategoryCol)
    ensures ButtonFor(sales, m).ys[1] == PanelY(FilterMonth(sales, m), SalesCategoryCol)
    ensures ButtonFor(sales, m).xs[2] == PanelX(FilterMonth(sales, m), ProductCol)
    ensures ButtonFor(sales, m).ys[2] == PanelY(FilterMonth(sales, m), ProductCol)
  {
    var b, dff := ButtonFor(sales, m), FilterMonth(sales, m);
    TrendTraceSpec(sales);
    PanelLengths(dff, ChannelCol);
    PanelLengths(dff, SalesCategoryCol);
    PanelLengths(dff, ProductCol);
    assert |b.xs[0]| == |b.ys[0]| && |b.xs[1]| == |b.ys[1]| && |b.xs[2]| == |b.ys[2]| && |b.xs[3]| == |b.ys[3]|;
    forall k | 0 <= k < 4 ensures |b.xs[k]| == |b.ys[k]| {
      assert k == 0 || k == 1 || k == 2 || k == 3;
    }
  }

  /** Lines 219-244: one button per month of the month list, in its order. */
  method BuildButtons(sales: seq<Sale>) returns (buttons: seq<Button>)
    ensures |buttons| == |UniqueMonths(sales)|
    ensures forall i :: 0 <= i < |buttons| ==> buttons[i] == ButtonFor(sales, UniqueMonths(sales)[i])
  {
    var months := UniqueMonths(sales);
    buttons := [];
    for i := 0 to |months|
      invariant |buttons| == i
      invariant forall j :: 0 <= j < i ==> buttons[j] == ButtonFor(sales, months[j])
    {
      var m := months[i];
      var dff := FilterMonth(sales, m);
      var button := Button(m,
        [PanelX(dff, ChannelCol), PanelX(dff, SalesCategoryCol), PanelX(dff, ProductCol), TrendTrace(sales).x],
        [PanelY(dff, ChannelCol), PanelY(dff, SalesCategoryCol), PanelY(dff, ProductCol), TrendTrace(sales).y]);
      assert button == ButtonFor(sales, m);
      var prefix := buttons;
      buttons := buttons + [button];
      assert buttons[..i] == prefix && buttons[i] == button;
    }
  }

  /** The buttons' labels are the month list: one button per month that occurs, ascending. */
  lemma ButtonLabels(sales: seq<Sale>, buttons: seq<Button>)
    requires |buttons| == |UniqueMonths(sales)|
    requires forall i :: 0 <= i < |buttons| ==> buttons[i] == ButtonFor(sales, UniqueMonths(sales)[i])
    ensures forall m :: (exists i :: 0 <= i < |buttons| && buttons[i].caption == m) <==> m in KeyList(sales, MonthCol)
    ensures forall i, j :: 0 <= i < j < |buttons| ==> Less(buttons[i].caption, buttons[j].caption)
  {
    UniqueMonthsSpec(sales);
    var months := UniqueMonths(sales);
    forall m ensures (exists i :: 0 <= i < |buttons| && buttons[i].caption == m) <==> m in KeyList(sales, MonthCol) {
      if m in months {
        var i :| 0 <= i < |months| && months[i] == m;
        assert buttons[i].caption == m;
      }
    }
  }

  /**
   * Lines 155-244: the month list, the initial traces for its first month and the
   * buttons. `unique_months[0]` needs a month, so the cleaned table must not be empty.
   */
  method BuildDashboard(sales: seq<Sale>) returns (initial: seq<Trace>, buttons: seq<Button>)
    requires sales != []
    ensures UniqueMonths(sales) != []
    ensures initial == TracesFor(sales, FilterMonth(sales, UniqueMonths(sales)[0]))
    ensures |buttons| == |UniqueMonths(sales)|
    ensures forall i :: 0 <= i < |buttons| ==> buttons[i] == ButtonFor(sales, UniqueMonths(sales)[i])
    ensures |initial| == 4 && buttons != [] && |buttons[0].xs| == 4 && |buttons[0].ys| == 4
    ensures forall k :: 0 <= k < 4 ==> initial[k].x == buttons[0].xs[k] && initial[k].y == buttons[0].ys[k]
  {
    UniqueMonthsSpec(sales);
    var months := UniqueMonths(sales);
    assert KeyList(sales, MonthCol)[0] in months;
    var first := FilterMonth(sales, months[0]);
    initial := TracesFor(sales, first);
    buttons := BuildButtons(sales);
    TracesMatchButton(sales, months[0]);
  }

  /** The four traces drawn for month `m` carry the data of `m`'s button, panel by panel. */
  lemma TracesMatchButton(sales: seq<Sale>, m: string)
    ensures var t, b := TracesFor(sales, FilterMonth(sales, m)), ButtonFor(sales, m);
      |t| == 4 && |b.xs| == 4 && |b.ys| == 4 &&
      forall k :: 0 <= k < 4 ==> t[k].x == b.xs[k] && t[k].y == b.ys[k]
  {
    var t, b := TracesFor(sales, FilterMonth(sales, m)), ButtonFor(sales, m);
    forall k | 0 <= k < 4 ensures t[k].x == b.xs[k] && t[k].y == b.ys[k] {
      assert k == 0 || k == 1 || k == 2 || k == 3;
    }
  }
}
