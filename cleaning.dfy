/**
 * The cleaning pipeline (refresh_and_export.py, lines 66-93): missing required
 * columns are added as all-missing, the date and weight columns are coerced, the
 * four text columns are converted to text and stripped, rows without a date, a
 * product or a channel are dropped, exact duplicates are removed keeping the first,
 * and every remaining row gets its `Month` label and `Day`.
 */
module Cleaning {
  import opened Wrappers
  import opened Text
  import opened Seqs

  // ---------------------------------------------------------------------------
  // The table as read, after the headers were normalised.
  // ---------------------------------------------------------------------------

  /**
   * A CSV field as `read_csv` returns it: `Missing` exactly when it is read as NaN (an
   * empty field and, by default, markers such as `NA`, `N/A`, `NaN`, `null` or `None`);
   * otherwise `Present` with its text.
   */
  datatype Cell = Missing | Present(text: string)

  /** A data frame: column names and rows of cells, one cell per column. */
  datatype Table = Table(columns: seq<string>, rows: seq<seq<Cell>>)

  predicate WellFormed(t: Table) {
    forall i :: 0 <= i < |t.rows| ==> |t.rows[i]| == |t.columns|
  }

  /** `required`, in the order the backfill loop visits it. */
  const Required: seq<string> :=
    ["ChannelName", "ProductName", "Date", "NetWeightKGs", "ProductCategory", "SalesCategory"]

  /**
   * Selecting a required column by name must yield one column: with two columns of
   * the same required name, `df["Date"]` is a frame and `pd.to_datetime` fails.
   */
  predicate RequiredAtMostOnce(columns: seq<string>) {
    forall n :: n in Required ==> Count(columns, n) <= 1
  }

  /** After the backfill: well formed, and every required column present exactly once. */
  predicate Ready(t: Table) {
    WellFormed(t) && forall n :: n in Required ==> Count(t.columns, n) == 1
  }

  // ---------------------------------------------------------------------------
  // Lines 68-70: backfill the required columns.
  // ---------------------------------------------------------------------------

  /** `df[name] = np.nan`: a new last column, missing in every row. */
  function AddColumn(t: Table, name: string): (r: Table)
    ensures r.columns == t.columns + [name] && |r.rows| == |t.rows|
    ensures forall i :: 0 <= i < |t.rows| ==> r.rows[i] == t.rows[i] + [Missing]
  {
    Table(t.columns + [name], seq(|t.rows|, i requires 0 <= i < |t.rows| => t.rows[i] + [Missing]))
  }

  /** The table after the backfill loop has visited `names`. */
  function Backfilled(t: Table, names: seq<string>): Table {
    if names == [] then t
    else
      var t' := Backfilled(t, names[..|names| - 1]);
      var n := names[|names| - 1];
      if n in t'.columns then t' else AddColumn(t', n)
  }

  /**
   * The backfill only appends columns, each one missing in every row, and appends
   * exactly the visited names that were absent, so each of them then occurs once.
   */
  lemma {:induction false} BackfillProperties(t: Table, names: seq<string>)
    requires WellFormed(t)
    ensures var r := Backfilled(t, names);
      WellFormed(r) && |r.rows| == |t.rows| &&
      |t.columns| <= |r.columns| && r.columns[..|t.columns|] == t.columns &&
      (forall i :: 0 <= i < |t.rows| ==> r.rows[i][..|t.columns|] == t.rows[i]) &&
      (forall i, j :: 0 <= i < |t.rows| && |t.columns| <= j < |r.columns| ==> r.rows[i][j] == Missing) &&
      (forall n :: n in r.columns <==> n in t.columns || n in names) &&
      (forall n :: n in t.columns ==> Count(r.columns, n) == Count(t.columns, n)) &&
      (forall n :: n in names && n !in t.columns ==> Count(r.columns, n) == 1)
  {
    if names != [] {
      var names' := names[..|names| - 1];
      var n := names[|names| - 1];
      BackfillProperties(t, names');
      var t' := Backfilled(t, names');
      if n !in t'.columns {
        var r := AddColumn(t', n);
        forall m ensures Count(r.columns, m) == Count(t'.columns, m) + (if n == m then 1 else 0) {
          CountAppend(t'.columns, n, m);
        }
        forall i | 0 <= i < |t.rows| ensures r.rows[i][..|t.columns|] == t.rows[i] {
          assert r.rows[i][..|t.columns|] == t'.rows[i][..|t.columns|];
        }
        assert r.columns[..|t.columns|] == t'.columns[..|t.columns|];
      }
    }
  }

  /** The backfill loop itself, column by column. */
  method Backfill(t: Table) returns (r: Table)
    ensures r == Backfilled(t, Required)
  {
    r := t;
    for j := 0 to |Required|
      invariant r == Backfilled(t, Required[..j])
    {
      assert Required[..j + 1][..j] == Required[..j];
      var col := Required[j];
      if col !in r.columns {
        r := AddColumn(r, col);
      }
    }
    assert Required[..|Required|] == Required;
  }

  /** A table whose required columns occur at most once is ready after the backfill. */
  lemma BackfillReady(t: Table)
    requires WellFormed(t) && RequiredAtMostOnce(t.columns)
    ensures Ready(Backfilled(t, Required))
    ensures forall n :: n in t.columns ==> n in Backfilled(t, Required).columns
  {
    BackfillProperties(t, Required);
  }

  // ---------------------------------------------------------------------------
  // Lines 73-81: coercions.
  // ---------------------------------------------------------------------------

  /** A calendar date-time as pandas stores it, to the nanosecond. */
  datatype Instant = Instant(year: int, month: int, day: int, nanos: int)

  function DaysInMonth(year: int, month: int): int {
    if month == 2 then (if (year % 4 == 0 && year % 100 != 0) || year % 400 == 0 then 29 else 28)
    else if month == 4 || month == 6 || month == 9 || month == 11 then 30
    else 31
  }

  /** Years are written as four digits; pandas' own range (1677-2262) lies within this one. */
  predicate ValidInstant(t: Instant) {
    1 <= t.year <= 9999 && 1 <= t.month <= 12 && 1 <= t.day <= DaysInMonth(t.year, t.month) &&
    0 <= t.nanos < 86_400_000_000_000
  }

  type Timestamp = t: Instant | ValidInstant(t) witness Instant(1970, 1, 1, 0)

  /**
   * `pd.to_datetime(column, errors="coerce")`: pandas infers one format from the whole
   * column, so the parser sees the column as well as the field; `None` is NaT.
   */
  type DateParser = (seq<Cell>, string) -> Option<Timestamp>

  /** `pd.to_numeric(value, errors="coerce")` on one field; `None` is NaN. */
  type NumberParser = string -> Option<real>

  /** Line 73 for one cell: a missing field is NaT, any other is parsed. */
  function CoerceDate(parse: DateParser, column: seq<Cell>, c: Cell): (d: Option<Timestamp>)
    ensures c.Missing? ==> d.None?
    ensures c.Present? ==> d == parse(column, c.text)
  {
    match c
    case Missing => None
    case Present(s) => parse(column, s)
  }

  /**
   * Line 76 for one cell: NaN, whether missing or unparseable, becomes 0; a parsed
   * value is kept as it is, negative values included.
   */
  function CoerceWeight(parse: NumberParser, c: Cell): (w: real)
    ensures c.Present? && parse(c.text).Some? ==> w == parse(c.text).value
    ensures c.Missing? || parse(c.text).None? ==> w == 0.0
  {
    match c
    case Missing => 0.0
    case Present(s) => parse(s).GetOr(0.0)
  }

  /**
   * Line 81 for one cell: `astype(str)` comes first, so a missing field is already the
   * text "nan" when `fillna("")` runs; then `strip()`. The result is empty exactly when
   * the field was present and blank.
   */
  function CoerceText(c: Cell): (s: string)
    ensures IsStripped(s)
    ensures c.Missing? ==> s == "nan"
    ensures c.Present? ==> s == Strip(c.text)
    ensures s == "" <==> c.Present? && forall k :: 0 <= k < |c.text| ==> IsSpace(c.text[k])
  {
    var raw := if c.Missing? then "nan" else c.text;
    StripProperties(raw);
    assert c.Missing? ==> IsStripped(raw) && !IsSpace(raw[0]);
    Strip(raw)
  }

  /**
   * A cleaned row: the six required columns by name, with their coerced values, and the
   * cells of every other column, in column order, as they were read.
   */
  datatype Row = Row(channel: string, productCategory: string, product: string,
                     salesCategory: string, date: Option<Timestamp>, weight: real,
                     others: seq<Cell>)

  /** The position of a column that is present. */
  function Column(t: Table, name: string): (j: nat)
    requires Ready(t) && name in Required
    ensures j < |t.columns| && t.columns[j] == name
  {
    FirstIndex(t.columns, name)
  }

  /** The cells of row `i` in the columns that are not required, in column order. */
  function OtherCells(columns: seq<string>, row: seq<Cell>): (r: seq<Cell>)
    requires |row| == |columns|
    ensures |r| <= |row|
  {
    if columns == [] then []
    else
      var n := |columns| - 1;
      var rest := OtherCells(columns[..n], row[..n]);
      if columns[n] in Required then rest else rest + [row[n]]
  }

  /** Without required columns, the other cells are the whole row. */
  lemma {:induction false} OtherCellsAll(columns: seq<string>, row: seq<Cell>)
    requires |row| == |columns| && forall j :: 0 <= j < |columns| ==> columns[j] !in Required
    ensures OtherCells(columns, row) == row
  {
    if columns != [] {
      var n := |columns| - 1;
      OtherCellsAll(columns[..n], row[..n]);
      assert row == row[..n] + [row[n]];
    }
  }

  /** The date column as a whole, which the date parser gets to see. */
  function DateColumn(t: Table): (column: seq<Cell>)
    requires Ready(t)
    ensures |column| == |t.rows|
  {
    var j := Column(t, "Date");
    seq(|t.rows|, i requires 0 <= i < |t.rows| => t.rows[i][j])
  }

  /** Lines 73-81 applied to row `i`. */
  function CoerceRow(t: Table, dates: DateParser, numbers: NumberParser, i: nat): Row
    requires Ready(t) && i < |t.rows|
  {
    var row := t.rows[i];
    Row(CoerceText(row[Column(t, "ChannelName")]),
        CoerceText(row[Column(t, "ProductCategory")]),
        CoerceText(row[Column(t, "ProductName")]),
        CoerceText(row[Column(t, "SalesCategory")]),
        CoerceDate(dates, DateColumn(t), row[Column(t, "Date")]),
        CoerceWeight(numbers, row[Column(t, "NetWeightKGs")]),
        OtherCells(t.columns, row))
  }

  /** The frame after lines 73-81, one row per input row. */
  function CoerceAll(t: Table, dates: DateParser, numbers: NumberParser): (rows: seq<Row>)
    requires Ready(t)
    ensures |rows| == |t.rows|
  {
    seq(|t.rows|, i requires 0 <= i < |t.rows| => CoerceRow(t, dates, numbers, i))
  }

  /**
   * Coerced row `i` comes from input row `i` alone: each of the four text fields is the
   * stripped text of its own cell ("nan" when missing), the date and the weight are
   * the coercions of their own cells, and the columns that are not required are
   * carried over untouched.
   */
  lemma CoercedRow(t: Table, dates: DateParser, numbers: NumberParser, i: nat)
    requires Ready(t) && i < |t.rows|
    ensures var r, row := CoerceAll(t, dates, numbers)[i], t.rows[i];
      r.channel == CoerceText(row[Column(t, "ChannelName")]) &&
      r.productCategory == CoerceText(row[Column(t, "ProductCategory")]) &&
      r.product == CoerceText(row[Column(t, "ProductName")]) &&
      r.salesCategory == CoerceText(row[Column(t, "SalesCategory")]) &&
      r.date == CoerceDate(dates, DateColumn(t), row[Column(t, "Date")]) &&
      r.weight == CoerceWeight(numbers, row[Column(t, "NetWeightKGs")]) &&
      r.others == OtherCells(t.columns, row)
    ensures var r := CoerceAll(t, dates, numbers)[i];
      IsStripped(r.channel) && IsStripped(r.productCategory) &&
      IsStripped(r.product) && IsStripped(r.salesCategory) &&
      (r.product == "" ==> t.rows[i][Column(t, "ProductName")].Present?) &&
      (r.channel == "" ==> t.rows[i][Column(t, "ChannelName")].Present?)
  {
  }

  // ---------------------------------------------------------------------------
  // Lines 84-89: drop invalid rows, then duplicates.
  // ---------------------------------------------------------------------------

  /** `dropna(subset=["Date"])` keeps these. */
  predicate HasDate(r: Row) { r.date.Some? }

  /** `df["ProductName"] != ""` keeps these. */
  predicate HasProduct(r: Row) { r.product != "" }

  /** `df["ChannelName"] != ""` keeps these. */
  predicate HasChannel(r: Row) { r.channel != "" }

  /** What all three filters demand together. */
  predicate IsValid(r: Row) { HasDate(r) && HasProduct(r) && HasChannel(r) }

  /** The three filters in the order of lines 84-86. */
  function Filtered(rows: seq<Row>): seq<Row> {
    Filter(Filter(Filter(rows, HasDate), HasProduct), HasChannel)
  }

  /** The rows left after line 89. */
  function Kept(rows: seq<Row>): seq<Row> {
    Dedup(Filtered(rows))
  }

  /** The three filters keep exactly the valid rows, in their order. */
  lemma FilteredProperties(rows: seq<Row>)
    ensures forall r :: r in Filtered(rows) <==> r in rows && IsValid(r)
    ensures IsSubseq(Filtered(rows), rows) && |Filtered(rows)| <= |rows|
  {
    var a := Filter(rows, HasDate);
    var b := Filter(a, HasProduct);
    SubseqTransitive(b, a, rows);
    SubseqTransitive(Filter(b, HasChannel), b, rows);
    SubseqLength(Filtered(rows), rows);
  }

  /** The three filters drop nothing exactly when every row is valid. */
  lemma FilteredAll(rows: seq<Row>)
    ensures |Filtered(rows)| == |rows| <==> forall i :: 0 <= i < |rows| ==> IsValid(rows[i])
    ensures (forall i :: 0 <= i < |rows| ==> IsValid(rows[i])) ==> Filtered(rows) == rows
  {
    if |Filtered(rows)| == |rows| {
      FilteredNoneDropped(rows);
    }
    if forall i :: 0 <= i < |rows| ==> IsValid(rows[i]) {
      assert forall i :: 0 <= i < |rows| ==> HasDate(rows[i]);
      assert Filter(rows, HasDate) == rows;
      assert forall i :: 0 <= i < |rows| ==> HasProduct(rows[i]);
      assert Filter(rows, HasProduct) == rows;
      assert forall i :: 0 <= i < |rows| ==> HasChannel(rows[i]);
    }
  }

  /** When the filters drop nothing, every row passed all three. */
  lemma FilteredNoneDropped(rows: seq<Row>)
    requires |Filtered(rows)| == |rows|
    ensures forall i :: 0 <= i < |rows| ==> IsValid(rows[i])
  {
    var a := Filter(rows, HasDate);
    var b := Filter(a, HasProduct);
    var c := Filter(b, HasChannel);
    SubseqLength(a, rows);
    SubseqLength(b, a);
    SubseqLength(c, b);
    assert |a| == |rows| && a == rows;
    assert |b| == |rows| && b == rows;
    assert forall i :: 0 <= i < |rows| ==> HasChannel(rows[i]);
  }

  /**
   * Every kept row is valid, every valid row is kept (as its first copy), no two kept
   * rows are equal, and the kept rows are in input order.
   */
  lemma KeptProperties(rows: seq<Row>)
    ensures forall r :: r in Kept(rows) <==> r in rows && IsValid(r)
    ensures Distinct(Kept(rows))
    ensures IsSubseq(Kept(rows), rows) && |Kept(rows)| <= |rows|
  {
    FilteredProperties(rows);
    var f := Filtered(rows);
    DedupMembers(f);
    DedupDistinct(f);
    DedupSubseq(f);
    SubseqTransitive(Kept(rows), f, rows);
    SubseqLength(Kept(rows), rows);
  }

  /** Nothing is dropped exactly when every row is valid and no two are equal. */
  lemma KeptAll(rows: seq<Row>)
    ensures |Kept(rows)| == |rows| <==> (forall i :: 0 <= i < |rows| ==> IsValid(rows[i])) && Distinct(rows)
  {
    var f := Filtered(rows);
    FilteredProperties(rows);
    FilteredAll(rows);
    DedupKeepsAll(f);
    DedupSubseq(f);
    if |Kept(rows)| == |rows| {
      assert |f| == |rows|;
    }
  }

  // ---------------------------------------------------------------------------
  // Lines 92-93: derived fields.
  // ---------------------------------------------------------------------------

  /** `dt.date`. */
  datatype Day = Day(year: int, month: int, day: int)

  /** `dt.to_period("M").astype(str)`: the year in four digits, a dash, the month in two. */
  function MonthLabel(t: Timestamp): (m: string)
    ensures |m| == 7 && m[4] == '-'
    ensures forall k :: 0 <= k < 7 && k != 4 ==> '0' <= m[k] <= '9'
    ensures DecimalValue(m[..4]) == t.year && DecimalValue(m[5..]) == t.month
  {
    Pow10Small();
    DigitsValue(t.year, 4);
    DigitsValue(t.month, 2);
    LabelParts(Digits(t.year, 4), Digits(t.month, 2));
    Digits(t.year, 4) + "-" + Digits(t.month, 2)
  }

  /** A `YYYY-MM` label splits back into its two digit strings. */
  lemma LabelParts(y: string, mo: string)
    requires |y| == 4 && |mo| == 2
    requires forall k :: 0 <= k < 4 ==> '0' <= y[k] <= '9'
    requires forall k :: 0 <= k < 2 ==> '0' <= mo[k] <= '9'
    ensures var m := y + "-" + mo;
      |m| == 7 && m[4] == '-' && m[..4] == y && m[5..] == mo &&
      forall k :: 0 <= k < 7 && k != 4 ==> '0' <= m[k] <= '9'
  {
    var m := y + "-" + mo;
    assert forall k :: 0 <= k < 4 ==> m[k] == y[k];
    assert forall k :: 5 <= k < 7 ==> m[k] == mo[k - 5];
  }

  /** A row of the cleaned table, with its two derived columns. */
  datatype Sale = Sale(row: Row, month: string, day: Day)

  function Derive(r: Row): (s: Sale)
    requires HasDate(r)
    ensures s.row == r && s.month == MonthLabel(r.date.value)
  {
    var t := r.date.value;
    Sale(r, MonthLabel(t), Day(t.year, t.month, t.day))
  }

  /** The label of a month is the same exactly when the year and the month are. */
  lemma MonthLabelInjective(a: Timestamp, b: Timestamp)
    ensures MonthLabel(a) == MonthLabel(b) <==> a.year == b.year && a.month == b.month
  {
    if MonthLabel(a) == MonthLabel(b) {
      var la, lb := MonthLabel(a), MonthLabel(b);
      assert la[..4] == Digits(a.year, 4) && lb[..4] == Digits(b.year, 4);
      assert la[5..] == Digits(a.month, 2) && lb[5..] == Digits(b.month, 2);
      DigitsInjective(a.year, b.year, 4);
      DigitsInjective(a.month, b.month, 2);
    }
  }

  /** Labels sort as the months they name: by year, then by month. */
  lemma MonthLabelOrder(a: Timestamp, b: Timestamp)
    ensures Less(MonthLabel(a), MonthLabel(b)) <==>
              a.year < b.year || (a.year == b.year && a.month < b.month)
  {
    var ya, yb := Digits(a.year, 4), Digits(b.year, 4);
    var ma, mb := "-" + Digits(a.month, 2), "-" + Digits(b.month, 2);
    assert MonthLabel(a) == ya + ma && MonthLabel(b) == yb + mb;
    LessConcat(ya, ma, yb, mb);
    DigitsOrder(a.year, b.year, 4);
    DigitsInjective(a.year, b.year, 4);
    LessConcat("-", Digits(a.month, 2), "-", Digits(b.month, 2));
    LessIrreflexive("-");
    DigitsOrder(a.month, b.month, 2);
  }

  /** Line 92-93 over the kept rows. */
  function DeriveAll(rows: seq<Row>): (sales: seq<Sale>)
    requires forall r :: r in rows ==> HasDate(r)
    ensures |sales| == |rows|
    ensures forall i :: 0 <= i < |rows| ==> sales[i].row == rows[i]
    ensures forall i :: 0 <= i < |rows| ==>
              sales[i].row.date.Some? && sales[i].month == MonthLabel(sales[i].row.date.value)
  {
    var sales := seq(|rows|, i requires 0 <= i < |rows| => Derive(rows[i]));
    assert forall i :: 0 <= i < |rows| ==> HasDate(rows[i]);
    sales
  }

  // ---------------------------------------------------------------------------
  // The whole pipeline.
  // ---------------------------------------------------------------------------

  /** The cleaned data frame that is saved at line 96 and used by everything after it. */
  function CleanedSales(t: Table, dates: DateParser, numbers: NumberParser): seq<Sale>
    requires WellFormed(t) && RequiredAtMostOnce(t.columns)
  {
    BackfillReady(t);
    var rows := Kept(CoerceAll(Backfilled(t, Required), dates, numbers));
    KeptProperties(CoerceAll(Backfilled(t, Required), dates, numbers));
    DeriveAll(rows)
  }

  /** Lines 66-93 in order, rebinding the frame at every step as the script does. */
  method Clean(t: Table, dates: DateParser, numbers: NumberParser) returns (sales: seq<Sale>)
    requires WellFormed(t) && RequiredAtMostOnce(t.columns)
    ensures sales == CleanedSales(t, dates, numbers)
  {
    var df := Backfill(t);
    BackfillReady(t);
    var rows := CoerceAll(df, dates, numbers);
    var coerced := rows;
    rows := Filter(rows, HasDate);
    rows := Filter(rows, HasProduct);
    rows := Filter(rows, HasChannel);
    rows := Dedup(rows);
    KeptProperties(coerced);
    sales := DeriveAll(rows);
  }

  /** Every kept row is valid and has its four text fields stripped. */
  lemma KeptStripped(t: Table, dates: DateParser, numbers: NumberParser)
    requires Ready(t)
    ensures forall r :: r in Kept(CoerceAll(t, dates, numbers)) ==>
      IsValid(r) && IsStripped(r.channel) && IsStripped(r.productCategory) &&
      IsStripped(r.product) && IsStripped(r.salesCategory)
  {
    var coerced := CoerceAll(t, dates, numbers);
    KeptProperties(coerced);
    forall r | r in Kept(coerced)
      ensures IsStripped(r.channel) && IsStripped(r.productCategory) &&
              IsStripped(r.product) && IsStripped(r.salesCategory)
    {
      var i :| 0 <= i < |coerced| && coerced[i] == r;
      CoercedRow(t, dates, numbers, i);
    }
  }

  /**
   * The cleaned table: every row has a date, a stripped non-empty product and channel,
   * stripped categories, and the month label of its date; there are at most as many
   * rows as were read.
   */
  lemma CleanedPostcondition(t: Table, dates: DateParser, numbers: NumberParser)
    requires WellFormed(t) && RequiredAtMostOnce(t.columns)
    ensures var sales := CleanedSales(t, dates, numbers);
      |sales| <= |t.rows| &&
      forall s :: s in sales ==>
        s.row.date.Some? && s.month == MonthLabel(s.row.date.value) &&
        s.row.product != "" && IsStripped(s.row.product) &&
        s.row.channel != "" && IsStripped(s.row.channel) &&
        IsStripped(s.row.productCategory) && IsStripped(s.row.salesCategory)
  {
    BackfillReady(t);
    BackfillProperties(t, Required);
    var b := Backfilled(t, Required);
    var coerced := CoerceAll(b, dates, numbers);
    KeptProperties(coerced);
    KeptStripped(b, dates, numbers);
    var rows := Kept(coerced);
    var sales := CleanedSales(t, dates, numbers);
    assert sales == DeriveAll(rows);
    forall s | s in sales
      ensures s.row in rows && s.month == MonthLabel(s.row.date.value)
    {
      var k :| 0 <= k < |sales| && sales[k] == s;
      assert s.row == rows[k];
    }
  }

  /** The `Row` part of each cleaned sale. */
  function RowsOf(sales: seq<Sale>): (rows: seq<Row>)
    ensures |rows| == |sales| && forall i :: 0 <= i < |sales| ==> rows[i] == sales[i].row
  {
    seq(|sales|, i requires 0 <= i < |sales| => sales[i].row)
  }

  /** The rows of the cleaned table, without their derived columns, are the kept rows. */
  lemma CleanedRowsAreKept(t: Table, dates: DateParser, numbers: NumberParser)
    requires WellFormed(t) && RequiredAtMostOnce(t.columns)
    ensures RowsOf(CleanedSales(t, dates, numbers)) ==
            (BackfillReady(t); Kept(CoerceAll(Backfilled(t, Required), dates, numbers)))
  {
    BackfillReady(t);
    var sales := CleanedSales(t, dates, numbers);
    var kept := Kept(CoerceAll(Backfilled(t, Required), dates, numbers));
    assert |sales| == |kept|;
    assert forall i :: 0 <= i < |sales| ==> sales[i].row == kept[i];
  }

  /** The rows of the cleaned table are exactly the distinct valid coerced rows, in order. */
  lemma CleanedRows(t: Table, dates: DateParser, numbers: NumberParser)
    requires WellFormed(t) && RequiredAtMostOnce(t.columns)
    ensures var coerced := (BackfillReady(t); CoerceAll(Backfilled(t, Required), dates, numbers));
      var rows := RowsOf(CleanedSales(t, dates, numbers));
      (forall r :: r in rows <==> r in coerced && IsValid(r)) &&
      Distinct(rows) && IsSubseq(rows, coerced)
  {
    BackfillReady(t);
    CleanedRowsAreKept(t, dates, numbers);
    KeptProperties(CoerceAll(Backfilled(t, Required), dates, numbers));
  }

  /**
   * Every cleaned row is a valid coerced input row: the coercion of some row `i` of the
   * backfilled table, so by `CoercedRow` each of its fields comes from that row's cells.
   */
  lemma CleanedRowOrigin(t: Table, dates: DateParser, numbers: NumberParser)
    requires WellFormed(t) && RequiredAtMostOnce(t.columns)
    ensures (BackfillReady(t);
      var b := Backfilled(t, Required);
      forall s :: s in CleanedSales(t, dates, numbers) ==>
        IsValid(s.row) && exists i :: 0 <= i < |b.rows| && s.row == CoerceRow(b, dates, numbers, i))
  {
    BackfillReady(t);
    CleanedRowsAreKept(t, dates, numbers);
    var b := Backfilled(t, Required);
    KeptOrigin(b, dates, numbers);
    var sales := CleanedSales(t, dates, numbers);
    var kept := Kept(CoerceAll(b, dates, numbers));
    assert RowsOf(sales) == kept;
    forall s | s in sales ensures s.row in kept {
      var j :| 0 <= j < |sales| && sales[j] == s;
      assert kept[j] == s.row;
    }
  }

  /** A kept row is a valid coerced row of some input row. */
  lemma KeptOrigin(b: Table, dates: DateParser, numbers: NumberParser)
    requires Ready(b)
    ensures forall r :: r in Kept(CoerceAll(b, dates, numbers)) ==>
      IsValid(r) && exists i :: 0 <= i < |b.rows| && r == CoerceRow(b, dates, numbers, i)
  {
    var coerced := CoerceAll(b, dates, numbers);
    KeptProperties(coerced);
    forall r | r in Kept(coerced)
      ensures IsValid(r) && exists i :: 0 <= i < |b.rows| && r == CoerceRow(b, dates, numbers, i)
    {
      var i :| 0 <= i < |coerced| && coerced[i] == r;
    }
  }

  /**
   * A row whose product is missing is not dropped by the product filter: its product
   * reads "nan", and with a date and a channel it is in the cleaned table.
   */
  lemma MissingProductKept(t: Table, dates: DateParser, numbers: NumberParser, i: nat)
    requires Ready(t) && i < |t.rows|
    requires t.rows[i][Column(t, "ProductName")].Missing?
    requires HasDate(CoerceAll(t, dates, numbers)[i]) && HasChannel(CoerceAll(t, dates, numbers)[i])
    ensures CoerceAll(t, dates, numbers)[i].product == "nan"
    ensures CoerceAll(t, dates, numbers)[i] in Kept(CoerceAll(t, dates, numbers))
  {
    KeptProperties(CoerceAll(t, dates, numbers));
  }
}
