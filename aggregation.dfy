/**
 * The aggregations behind the exported charts (refresh_and_export.py, lines 102-148):
 * `df.groupby(column)["NetWeightKGs"].sum()`, which yields one group per distinct key
 * in ascending key order, the channel chart re-sorted by weight, highest first, and the
 * month list `sorted(df["Month"].unique())` that the month chart is reindexed by.
 */
module Aggregation {
  import opened Wrappers
  import opened Text
  import opened Seqs
  import opened Cleaning

  /** The columns that are grouped by. */
  datatype GroupColumn = ChannelCol | SalesCategoryCol | ProductCol | MonthCol

  function KeyOf(s: Sale, col: GroupColumn): string {
    match col
    case ChannelCol => s.row.channel
    case SalesCategoryCol => s.row.salesCategory
    case ProductCol => s.row.product
    case MonthCol => s.month
  }

  /** The column `col` of the cleaned table, row by row. */
  function KeyList(sales: seq<Sale>, col: GroupColumn): (keys: seq<string>)
    ensures |keys| == |sales| && forall i :: 0 <= i < |sales| ==> keys[i] == KeyOf(sales[i], col)
  {
    seq(|sales|, i requires 0 <= i < |sales| => KeyOf(sales[i], col))
  }

  /** `total_sales` (line 102): the sum of the weight column. */
  function TotalWeight(sales: seq<Sale>): real {
    if sales == [] then 0.0
    else TotalWeight(sales[..|sales| - 1]) + sales[|sales| - 1].row.weight
  }

  /** The summed weight of the rows whose key in `col` is `k`. */
  function SumWhere(sales: seq<Sale>, col: GroupColumn, k: string): real {
    if sales == [] then 0.0
    else
      var last := sales[|sales| - 1];
      SumWhere(sales[..|sales| - 1], col, k) + (if KeyOf(last, col) == k then last.row.weight else 0.0)
  }

  // ---------------------------------------------------------------------------
  // Grouped sums: a series indexed by key.
  // ---------------------------------------------------------------------------

  /** One entry of a grouped sum: the key and the summed weight. */
  datatype Group = Group(key: string, total: real)

  /** The index of a grouped series. */
  function KeysOf(groups: seq<Group>): (keys: seq<string>)
    ensures |keys| == |groups| && forall i :: 0 <= i < |groups| ==> keys[i] == groups[i].key
  {
    seq(|groups|, i requires 0 <= i < |groups| => groups[i].key)
  }

  /** The values of a grouped series (`.values`). */
  function ValuesOf(groups: seq<Group>): (values: seq<real>)
    ensures |values| == |groups| && forall i :: 0 <= i < |groups| ==> values[i] == groups[i].total
  {
    seq(|groups|, i requires 0 <= i < |groups| => groups[i].total)
  }

  /** What `groupby` guarantees by default: keys in ascending order, each once. */
  predicate Sorted(groups: seq<Group>) {
    forall i, j :: 0 <= i < j < |groups| ==> Less(groups[i].key, groups[j].key)
  }

  /** The value stored for `k`, or 0 when there is no group for it. */
  function ValueAt(groups: seq<Group>, k: string): real {
    if groups == [] then 0.0
    else if groups[0].key == k then groups[0].total
    else ValueAt(groups[1..], k)
  }

  /** The sum of all group values. */
  function GroupsTotal(groups: seq<Group>): real {
    if groups == [] then 0.0 else groups[0].total + GroupsTotal(groups[1..])
  }

  /** Adding weight `w` under key `k`, keeping the keys in order. */
  function AddTo(groups: seq<Group>, k: string, w: real): seq<Group> {
    if groups == [] then [Group(k, w)]
    else if groups[0].key == k then [Group(k, groups[0].total + w)] + groups[1..]
    else if Less(k, groups[0].key) then [Group(k, w)] + groups
    else [groups[0]] + AddTo(groups[1..], k, w)
  }

  /** `df.groupby(col)["NetWeightKGs"].sum()`, one row at a time. */
  function GroupSum(sales: seq<Sale>, col: GroupColumn): seq<Group> {
    if sales == [] then []
    else
      var last := sales[|sales| - 1];
      AddTo(GroupSum(sales[..|sales| - 1], col), KeyOf(last, col), last.row.weight)
  }

  lemma SortedCons(g: Group, rest: seq<Group>)
    ensures Sorted([g] + rest) <==> Sorted(rest) && forall j :: 0 <= j < |rest| ==> Less(g.key, rest[j].key)
  {
    var s := [g] + rest;
    assert forall j :: 0 <= j < |rest| ==> s[j + 1] == rest[j];
    if Sorted(s) {
      forall i, j | 0 <= i < j < |rest| ensures Less(rest[i].key, rest[j].key) {
        assert Less(s[i + 1].key, s[j + 1].key);
      }
      forall j | 0 <= j < |rest| ensures Less(g.key, rest[j].key) {
        assert Less(s[0].key, s[j + 1].key);
      }
    }
  }

  /** Adding under `k` adds the key `k` and no other. */
  lemma {:induction false} AddToKeys(groups: seq<Group>, k: string, w: real)
    ensures forall x :: x in KeysOf(AddTo(groups, k, w)) <==> x in KeysOf(groups) || x == k
  {
    var r := AddTo(groups, k, w);
    if groups == [] {
      assert KeysOf(r) == [k];
    } else if groups[0].key == k {
      assert KeysOf(r) == KeysOf(groups);
    } else if Less(k, groups[0].key) {
      assert KeysOf(r) == [k] + KeysOf(groups);
    } else {
      AddToKeys(groups[1..], k, w);
      assert KeysOf(r) == [groups[0].key] + KeysOf(AddTo(groups[1..], k, w));
      assert KeysOf(groups) == [groups[0].key] + KeysOf(groups[1..]);
    }
  }

  /** Adding keeps the keys ascending and unique. */
  lemma {:induction false} AddToSorted(groups: seq<Group>, k: string, w: real)
    requires Sorted(groups)
    ensures Sorted(AddTo(groups, k, w))
  {
    if groups != [] {
      var g, rest := groups[0], groups[1..];
      assert groups == [g] + rest;
      SortedCons(g, rest);
      if g.key == k {
        SortedCons(Group(k, g.total + w), rest);
      } else if Less(k, g.key) {
        forall j | 0 <= j < |groups| ensures Less(k, groups[j].key) {
          if j > 0 {
            assert KeysOf(groups)[0] == g.key && KeysOf(groups)[j] == groups[j].key;
            LessTransitive(k, g.key, groups[j].key);
          }
        }
        SortedCons(Group(k, w), groups);
      } else {
        LessTotal(k, g.key);
        AddToSorted(rest, k, w);
        AddToKeys(rest, k, w);
        var r' := AddTo(rest, k, w);
        forall j | 0 <= j < |r'| ensures Less(g.key, r'[j].key) {
          assert r'[j].key in KeysOf(r');
          if r'[j].key != k {
            var m :| 0 <= m < |rest| && rest[m].key == r'[j].key;
          }
        }
        SortedCons(g, r');
      }
    }
  }

  /** A key without a group has the value 0. */
  lemma {:induction false} ValueAtAbsent(groups: seq<Group>, k: string)
    requires k !in KeysOf(groups)
    ensures ValueAt(groups, k) == 0.0
  {
    if groups != [] {
      assert KeysOf(groups)[0] == groups[0].key;
      assert KeysOf(groups[1..]) == KeysOf(groups)[1..];
      ValueAtAbsent(groups[1..], k);
    }
  }

  /** In a sorted series, every entry is the value of its own key. */
  lemma {:induction false} ValueAtIndex(groups: seq<Group>, i: nat)
    requires Sorted(groups) && i < |groups|
    ensures ValueAt(groups, groups[i].key) == groups[i].total
  {
    if i > 0 {
      var rest := groups[1..];
      assert groups == [groups[0]] + rest;
      SortedCons(groups[0], rest);
      LessIrreflexive(groups[0].key);
      ValueAtIndex(rest, i - 1);
    }
  }

  /** Adding `w` under `k` adds `w` to the value of `k` and changes no other value. */
  lemma {:induction false} AddToValueAt(groups: seq<Group>, k: string, w: real, x: string)
    requires Sorted(groups)
    ensures ValueAt(AddTo(groups, k, w), x) == ValueAt(groups, x) + (if x == k then w else 0.0)
  {
    if groups != [] {
      var g, rest := groups[0], groups[1..];
      assert groups == [g] + rest;
      SortedCons(g, rest);
      if g.key == k {
        assert AddTo(groups, k, w)[1..] == rest;
      } else if Less(k, g.key) {
        assert AddTo(groups, k, w)[1..] == groups;
        if x == k {
          forall j | 0 <= j < |groups| ensures groups[j].key != k {
            if j > 0 { LessTransitive(k, g.key, groups[j].key); }
            LessIrreflexive(k);
          }
          ValueAtAbsent(groups, k);
        }
      } else {
        assert AddTo(groups, k, w)[1..] == AddTo(rest, k, w);
        AddToValueAt(rest, k, w, x);
      }
    }
  }

  /** Adding `w` adds `w` to the sum of all values. */
  lemma {:induction false} AddToTotal(groups: seq<Group>, k: string, w: real)
    ensures GroupsTotal(AddTo(groups, k, w)) == GroupsTotal(groups) + w
  {
    if groups != [] {
      var r := AddTo(groups, k, w);
      if groups[0].key == k {
        assert r[1..] == groups[1..];
      } else if Less(k, groups[0].key) {
        assert r[1..] == groups;
      } else {
        assert r[1..] == AddTo(groups[1..], k, w);
        AddToTotal(groups[1..], k, w);
      }
    }
  }

  /**
   * A grouped sum has ascending, distinct keys, exactly the keys that occur in the
   * column, and for every key the summed weight of its rows.
   */
  lemma {:induction false} GroupSumSpec(sales: seq<Sale>, col: GroupColumn)
    ensures Sorted(GroupSum(sales, col))
    ensures forall x :: x in KeysOf(GroupSum(sales, col)) <==> x in KeyList(sales, col)
    ensures forall x :: ValueAt(GroupSum(sales, col), x) == SumWhere(sales, col, x)
  {
    if sales != [] {
      var s', last := sales[..|sales| - 1], sales[|sales| - 1];
      GroupSumSpec(s', col);
      var g' := GroupSum(s', col);
      AddToSorted(g', KeyOf(last, col), last.row.weight);
      AddToKeys(g', KeyOf(last, col), last.row.weight);
      assert KeyList(sales, col) == KeyList(s', col) + [KeyOf(last, col)];
      forall x ensures ValueAt(GroupSum(sales, col), x) == SumWhere(sales, col, x) {
        AddToValueAt(g', KeyOf(last, col), last.row.weight, x);
      }
    }
  }

  /** Every group's value is the summed weight of the rows with its key. */
  lemma GroupSumValues(sales: seq<Sale>, col: GroupColumn)
    ensures forall i :: 0 <= i < |GroupSum(sales, col)| ==>
              GroupSum(sales, col)[i].total == SumWhere(sales, col, GroupSum(sales, col)[i].key)
  {
    GroupSumSpec(sales, col);
    var g := GroupSum(sales, col);
    forall i | 0 <= i < |g| ensures g[i].total == SumWhere(sales, col, g[i].key) {
      ValueAtIndex(g, i);
    }
  }

  /** The group values add up to `total_sales`, whatever the column grouped by. */
  lemma {:induction false} GroupSumTotal(sales: seq<Sale>, col: GroupColumn)
    ensures GroupsTotal(GroupSum(sales, col)) == TotalWeight(sales)
  {
    if sales != [] {
      var s', last := sales[..|sales| - 1], sales[|sales| - 1];
      GroupSumTotal(s', col);
      AddToTotal(GroupSum(s', col), KeyOf(last, col), last.row.weight);
    }
  }

  // ---------------------------------------------------------------------------
  // `sort_values(ascending=False)`.
  // ---------------------------------------------------------------------------

  /** Highest value first. */
  predicate Descending(groups: seq<Group>) {
    forall i, j :: 0 <= i < j < |groups| ==> groups[i].total >= groups[j].total
  }

  /** Put `g` in front of the first entry that is not larger. */
  function InsertDesc(g: Group, sorted: seq<Group>): seq<Group> {
    if sorted == [] || g.total >= sorted[0].total then [g] + sorted
    else [sorted[0]] + InsertDesc(g, sorted[1..])
  }

  /** The series re-ordered by value, highest first. */
  function SortDesc(groups: seq<Group>): seq<Group> {
    if groups == [] then [] else InsertDesc(groups[0], SortDesc(groups[1..]))
  }

  lemma DescendingCons(g: Group, rest: seq<Group>)
    ensures Descending([g] + rest) <==> Descending(rest) && forall j :: 0 <= j < |rest| ==> g.total >= rest[j].total
  {
    var s := [g] + rest;
    assert forall j :: 0 <= j < |rest| ==> s[j + 1] == rest[j];
    if Descending(s) {
      forall i, j | 0 <= i < j < |rest| ensures rest[i].total >= rest[j].total {
        assert s[i + 1].total >= s[j + 1].total;
      }
      forall j | 0 <= j < |rest| ensures g.total >= rest[j].total {
        assert s[0].total >= s[j + 1].total;
      }
    }
  }

  /** Inserting adds `g` and nothing else. */
  lemma {:induction false} InsertDescMembers(g: Group, sorted: seq<Group>)
    ensures multiset(InsertDesc(g, sorted)) == multiset(sorted) + multiset{g}
    ensures forall x :: x in InsertDesc(g, sorted) <==> x == g || x in sorted
    ensures |InsertDesc(g, sorted)| == |sorted| + 1
  {
    if sorted != [] && g.total < sorted[0].total {
      InsertDescMembers(g, sorted[1..]);
      assert sorted == [sorted[0]] + sorted[1..];
    }
  }

  lemma {:induction false} InsertDescDescending(g: Group, sorted: seq<Group>)
    requires Descending(sorted)
    ensures Descending(InsertDesc(g, sorted))
  {
    if sorted == [] || g.total >= sorted[0].total {
      DescendingCons(g, sorted);
    } else {
      var rest := sorted[1..];
      assert sorted == [sorted[0]] + rest;
      DescendingCons(sorted[0], rest);
      InsertDescDescending(g, rest);
      InsertDescMembers(g, rest);
      var r' := InsertDesc(g, rest);
      forall j | 0 <= j < |r'| ensures sorted[0].total >= r'[j].total {
        assert r'[j] in r';
      }
      DescendingCons(sorted[0], r');
    }
  }

  /** Sorting by value gives the same groups, highest first. */
  lemma SortDescSpec(groups: seq<Group>)
    ensures Descending(SortDesc(groups))
    ensures multiset(SortDesc(groups)) == multiset(groups)
    ensures |SortDesc(groups)| == |groups|
  {
    SortDescOrdered(groups);
    SortDescMembers(groups);
  }

  lemma {:induction false} SortDescOrdered(groups: seq<Group>)
    ensures Descending(SortDesc(groups))
  {
    if groups != [] {
      SortDescOrdered(groups[1..]);
      InsertDescDescending(groups[0], SortDesc(groups[1..]));
    }
  }

  lemma {:induction false} SortDescMembers(groups: seq<Group>)
    ensures multiset(SortDesc(groups)) == multiset(groups)
    ensures |SortDesc(groups)| == |groups|
  {
    if groups != [] {
      var rest := SortDesc(groups[1..]);
      SortDescMembers(groups[1..]);
      InsertDescMembers(groups[0], rest);
      assert groups == [groups[0]] + groups[1..];
      assert multiset(groups) == multiset(groups[1..]) + multiset{groups[0]};
    }
  }

  /** A series already highest first is left as it is. */
  lemma {:induction false} SortDescKeepsDescending(groups: seq<Group>)
    requires Descending(groups)
    ensures SortDesc(groups) == groups
  {
    if groups != [] {
      var rest := groups[1..];
      assert groups == [groups[0]] + rest;
      DescendingCons(groups[0], rest);
      SortDescKeepsDescending(rest);
    }
  }

  /** The sorted values are the same values, each as often as before. */
  lemma {:induction false} InsertDescValues(g: Group, sorted: seq<Group>)
    ensures multiset(ValuesOf(InsertDesc(g, sorted))) == multiset(ValuesOf(sorted)) + multiset{g.total}
  {
    if sorted == [] || g.total >= sorted[0].total {
      assert InsertDesc(g, sorted) == [g] + sorted;
      assert ValuesOf([g] + sorted) == [g.total] + ValuesOf(sorted);
    } else {
      var rest := sorted[1..];
      var r' := InsertDesc(g, rest);
      InsertDescValues(g, rest);
      assert InsertDesc(g, sorted) == [sorted[0]] + r';
      assert ValuesOf([sorted[0]] + r') == [sorted[0].total] + ValuesOf(r');
      assert ValuesOf(sorted) == [sorted[0].total] + ValuesOf(rest);
    }
  }

  lemma {:induction false} SortDescValues(groups: seq<Group>)
    ensures multiset(ValuesOf(SortDesc(groups))) == multiset(ValuesOf(groups))
  {
    if groups != [] {
      SortDescValues(groups[1..]);
      InsertDescValues(groups[0], SortDesc(groups[1..]));
      assert ValuesOf(groups) == [groups[0].total] + ValuesOf(groups[1..]);
    }
  }

  /** Re-ordering by value does not change the sum of the values. */
  lemma {:induction false} InsertDescTotal(g: Group, sorted: seq<Group>)
    ensures GroupsTotal(InsertDesc(g, sorted)) == g.total + GroupsTotal(sorted)
  {
    if !(sorted == [] || g.total >= sorted[0].total) {
      InsertDescTotal(g, sorted[1..]);
      assert InsertDesc(g, sorted)[1..] == InsertDesc(g, sorted[1..]);
    }
  }

  lemma {:induction false} SortDescTotal(groups: seq<Group>)
    ensures GroupsTotal(SortDesc(groups)) == GroupsTotal(groups)
  {
    if groups != [] {
      SortDescTotal(groups[1..]);
      InsertDescTotal(groups[0], SortDesc(groups[1..]));
    }
  }

  // ---------------------------------------------------------------------------
  // Month list and the chart data.
  // ---------------------------------------------------------------------------

  /** Insert `m` in ascending order (Python's `sorted`). */
  function InsertAsc(m: string, sorted: seq<string>): seq<string> {
    if sorted == [] || !Less(sorted[0], m) then [m] + sorted
    else [sorted[0]] + InsertAsc(m, sorted[1..])
  }

  function SortAsc(s: seq<string>): seq<string> {
    if s == [] then [] else InsertAsc(s[0], SortAsc(s[1..]))
  }

  lemma AscendingCons(m: string, rest: seq<string>)
    ensures Ascending([m] + rest) <==> Ascending(rest) && forall j :: 0 <= j < |rest| ==> !Less(rest[j], m)
  {
    var s := [m] + rest;
    assert forall j :: 0 <= j < |rest| ==> s[j + 1] == rest[j];
    if Ascending(s) {
      forall i, j | 0 <= i < j < |rest| ensures !Less(rest[j], rest[i]) {
        assert !Less(s[j + 1], s[i + 1]);
      }
      forall j | 0 <= j < |rest| ensures !Less(rest[j], m) {
        assert !Less(s[j + 1], s[0]);
      }
    }
  }

  /** Inserting adds `m` and nothing else. */
  lemma {:induction false} InsertAscMembers(m: string, sorted: seq<string>)
    ensures multiset(InsertAsc(m, sorted)) == multiset(sorted) + multiset{m}
    ensures forall x :: x in InsertAsc(m, sorted) <==> x == m || x in sorted
    ensures |InsertAsc(m, sorted)| == |sorted| + 1
  {
    if sorted != [] && Less(sorted[0], m) {
      InsertAscMembers(m, sorted[1..]);
      assert sorted == [sorted[0]] + sorted[1..];
    }
  }

  lemma {:induction false} InsertAscAscending(m: string, sorted: seq<string>)
    requires Ascending(sorted)
    ensures Ascending(InsertAsc(m, sorted))
  {
    if sorted == [] || !Less(sorted[0], m) {
      forall j | 0 <= j < |sorted| ensures !Less(sorted[j], m) {
        if Less(sorted[j], m) && j > 0 {
          LessTotal(sorted[0], sorted[j]);
          if Less(sorted[0], sorted[j]) { LessTransitive(sorted[0], sorted[j], m); }
        }
      }
      AscendingCons(m, sorted);
    } else {
      var rest := sorted[1..];
      assert sorted == [sorted[0]] + rest;
      AscendingCons(sorted[0], rest);
      InsertAscAscending(m, rest);
      InsertAscMembers(m, rest);
      var r' := InsertAsc(m, rest);
      forall j | 0 <= j < |r'| ensures !Less(r'[j], sorted[0]) {
        assert r'[j] in r';
        if r'[j] == m { LessAsymmetric(sorted[0], m); }
      }
      AscendingCons(sorted[0], r');
    }
  }

  /** Inserting an element that is not there keeps a sequence free of duplicates. */
  lemma {:induction false} InsertAscDistinct(m: string, sorted: seq<string>)
    requires Distinct(sorted) && m !in sorted
    ensures Distinct(InsertAsc(m, sorted))
  {
    var r := InsertAsc(m, sorted);
    if sorted == [] || !Less(sorted[0], m) {
      forall i, j | 0 <= i < j < |r| ensures r[i] != r[j] {
        if i > 0 { assert r[i] == sorted[i - 1] && r[j] == sorted[j - 1]; }
        else { assert r[j] == sorted[j - 1]; }
      }
    } else {
      var rest := sorted[1..];
      assert sorted == [sorted[0]] + rest;
      assert Distinct(rest) by {
        forall i, j | 0 <= i < j < |rest| ensures rest[i] != rest[j] { assert sorted[i + 1] == rest[i] && sorted[j + 1] == rest[j]; }
      }
      InsertAscDistinct(m, rest);
      InsertAscMembers(m, rest);
      var r' := InsertAsc(m, rest);
      assert sorted[0] !in rest by {
        forall j | 0 <= j < |rest| ensures rest[j] != sorted[0] { assert sorted[j + 1] == rest[j]; }
      }
      assert r == [sorted[0]] + r';
      forall i, j | 0 <= i < j < |r| ensures r[i] != r[j] {
        assert r[j] == r'[j - 1];
        if i > 0 { assert r[i] == r'[i - 1]; } else { assert r'[j - 1] in r'; }
      }
    }
  }

  /** Python's `sorted`: ascending, with the same elements, and no duplicates added. */
  lemma {:induction false} SortAscSpec(s: seq<string>)
    ensures Ascending(SortAsc(s))
    ensures multiset(SortAsc(s)) == multiset(s)
    ensures forall x :: x in SortAsc(s) <==> x in s
    ensures |SortAsc(s)| == |s|
    ensures Distinct(s) ==> Distinct(SortAsc(s))
  {
    if s != [] {
      var rest := s[1..];
      assert s == [s[0]] + rest;
      SortAscSpec(rest);
      InsertAscAscending(s[0], SortAsc(rest));
      InsertAscMembers(s[0], SortAsc(rest));
      if Distinct(s) {
        assert Distinct(rest) by {
          forall i, j | 0 <= i < j < |rest| ensures rest[i] != rest[j] { assert s[i + 1] == rest[i] && s[j + 1] == rest[j]; }
        }
        assert s[0] !in rest by {
          forall j | 0 <= j < |rest| ensures rest[j] != s[0] { assert s[j + 1] == rest[j]; }
        }
        InsertAscDistinct(s[0], SortAsc(rest));
      }
    }
  }

  /** `month_order` and `unique_months` (lines 118 and 155): `sorted(df["Month"].unique())`. */
  function UniqueMonths(sales: seq<Sale>): seq<string> {
    SortAsc(Dedup(KeyList(sales, MonthCol)))
  }

  /** The month list is strictly ascending and holds exactly the months that occur. */
  lemma UniqueMonthsSpec(sales: seq<Sale>)
    ensures StrictlyAscending(UniqueMonths(sales))
    ensures forall m :: m in UniqueMonths(sales) <==> m in KeyList(sales, MonthCol)
    ensures |UniqueMonths(sales)| <= |sales|
  {
    var d := Dedup(KeyList(sales, MonthCol));
    DedupMembers(KeyList(sales, MonthCol));
    DedupDistinct(KeyList(sales, MonthCol));
    DedupSubseq(KeyList(sales, MonthCol));
    SortAscSpec(d);
    var u := UniqueMonths(sales);
    forall i, j | 0 <= i < j < |u| ensures Less(u[i], u[j]) {
      LessTotal(u[i], u[j]);
    }
  }

  /** The month list is the index of the monthly grouped sum. */
  lemma UniqueMonthsAreGroupKeys(sales: seq<Sale>)
    ensures UniqueMonths(sales) == KeysOf(GroupSum(sales, MonthCol))
  {
    UniqueMonthsSpec(sales);
    GroupSumSpec(sales, MonthCol);
    StrictlyAscendingUnique(UniqueMonths(sales), KeysOf(GroupSum(sales, MonthCol)));
  }

  /** `reindex(order)`: one value per label of `order`; `None` (NaN) for a label without a group. */
  function Reindex(groups: seq<Group>, order: seq<string>): (r: seq<Option<real>>)
    ensures |r| == |order|
    ensures forall i :: 0 <= i < |order| ==> (r[i].Some? <==> order[i] in KeysOf(groups))
    ensures forall i :: 0 <= i < |order| && order[i] in KeysOf(groups) ==> r[i] == Some(ValueAt(groups, order[i]))
  {
    seq(|order|, i requires 0 <= i < |order| =>
      if order[i] in KeysOf(groups) then Some(ValueAt(groups, order[i])) else None)
  }

  /** Reindexing a sorted series by its own index returns its values, with no NaN. */
  lemma ReindexByOwnKeys(groups: seq<Group>)
    requires Sorted(groups)
    ensures Reindex(groups, KeysOf(groups)) == seq(|groups|, i requires 0 <= i < |groups| => Some(groups[i].total))
  {
    forall i | 0 <= i < |groups| ensures ValueAt(groups, groups[i].key) == groups[i].total {
      ValueAtIndex(groups, i);
    }
  }

  /** The data of the channel chart (lines 106-111): channel sums, highest first. */
  function ChannelChart(sales: seq<Sale>): seq<Group> {
    SortDesc(GroupSum(sales, ChannelCol))
  }

  /** The data of the monthly trend (lines 118-125). */
  function MonthChart(sales: seq<Sale>): (points: seq<(string, Option<real>)>)
    ensures |points| == |UniqueMonths(sales)|
  {
    var months := UniqueMonths(sales);
    var values := Reindex(GroupSum(sales, MonthCol), months);
    seq(|months|, i requires 0 <= i < |months| => (months[i], values[i]))
  }

  /** The data of the sales-category chart (lines 130-136), in key order. */
  function SalesCategoryChart(sales: seq<Sale>): seq<Group> {
    GroupSum(sales, SalesCategoryCol)
  }

  /** The data of the product chart (lines 141-147), in key order: it is not sorted by weight. */
  function ProductChart(sales: seq<Sale>): seq<Group> {
    GroupSum(sales, ProductCol)
  }

  /**
   * The channel chart has one bar per channel that occurs, each with the channel's
   * summed weight, highest first.
   */
  lemma ChannelChartSpec(sales: seq<Sale>)
    ensures Descending(ChannelChart(sales))
    ensures multiset(ChannelChart(sales)) == multiset(GroupSum(sales, ChannelCol))
    ensures forall g :: g in ChannelChart(sales) ==>
              g.key in KeyList(sales, ChannelCol) && g.total == SumWhere(sales, ChannelCol, g.key)
    ensures forall c :: c in KeyList(sales, ChannelCol) ==> exists g :: g in ChannelChart(sales) && g.key == c
  {
    var groups := GroupSum(sales, ChannelCol);
    SortDescSpec(groups);
    GroupSumSpec(sales, ChannelCol);
    GroupSumValues(sales, ChannelCol);
    forall g | g in ChannelChart(sales)
      ensures g.key in KeyList(sales, ChannelCol) && g.total == SumWhere(sales, ChannelCol, g.key)
    {
      assert g in multiset(groups);
      var i :| 0 <= i < |groups| && groups[i] == g;
      assert g.key == KeysOf(groups)[i];
    }
    forall c | c in KeyList(sales, ChannelCol) ensures exists g :: g in ChannelChart(sales) && g.key == c {
      var i :| 0 <= i < |groups| && KeysOf(groups)[i] == c;
      assert groups[i] in multiset(ChannelChart(sales));
    }
  }

  /** The bars of the channel chart add up to `total_sales` (line 102). */
  lemma ChannelChartTotal(sales: seq<Sale>)
    ensures GroupsTotal(ChannelChart(sales)) == TotalWeight(sales)
  {
    SortDescTotal(GroupSum(sales, ChannelCol));
    GroupSumTotal(sales, ChannelCol);
  }

  /**
   * The sales-category chart (lines 131-136): one bar per category that occurs, in
   * ascending key order, each with the category's summed weight, adding up to `total_sales`.
   */
  lemma SalesCategoryChartSpec(sales: seq<Sale>)
    ensures StrictlyAscending(KeysOf(SalesCategoryChart(sales)))
    ensures forall c :: c in KeysOf(SalesCategoryChart(sales)) <==> c in KeyList(sales, SalesCategoryCol)
    ensures forall g :: g in SalesCategoryChart(sales) ==> g.total == SumWhere(sales, SalesCategoryCol, g.key)
    ensures GroupsTotal(SalesCategoryChart(sales)) == TotalWeight(sales)
  {
    ChartInKeyOrder(sales, SalesCategoryCol);
  }

  /**
   * The product chart (lines 142-147): one bar per product that occurs, in ascending key
   * order (not ranked by weight), each with the product's summed weight, adding up to
   * `total_sales`.
   */
  lemma ProductChartSpec(sales: seq<Sale>)
    ensures StrictlyAscending(KeysOf(ProductChart(sales)))
    ensures forall p :: p in KeysOf(ProductChart(sales)) <==> p in KeyList(sales, ProductCol)
    ensures forall g :: g in ProductChart(sales) ==> g.total == SumWhere(sales, ProductCol, g.key)
    ensures GroupsTotal(ProductChart(sales)) == TotalWeight(sales)
  {
    ChartInKeyOrder(sales, ProductCol);
  }

  /** A grouped sum printed in its own order: keys ascending, each with its sum. */
  lemma ChartInKeyOrder(sales: seq<Sale>, col: GroupColumn)
    ensures StrictlyAscending(KeysOf(GroupSum(sales, col)))
    ensures forall c :: c in KeysOf(GroupSum(sales, col)) <==> c in KeyList(sales, col)
    ensures forall g :: g in GroupSum(sales, col) ==> g.total == SumWhere(sales, col, g.key)
    ensures GroupsTotal(GroupSum(sales, col)) == TotalWeight(sales)
  {
    var g := GroupSum(sales, col);
    GroupSumSpec(sales, col);
    GroupSumValues(sales, col);
    GroupSumTotal(sales, col);
    var x := KeysOf(g);
    forall i, j | 0 <= i < j < |x| ensures Less(x[i], x[j]) {
      assert x[i] == g[i].key && x[j] == g[j].key;
    }
  }

  /** The monthly trend has a value for every month, the summed weight of that month. */
  lemma MonthChartSpec(sales: seq<Sale>)
    ensures forall i :: 0 <= i < |MonthChart(sales)| ==>
              MonthChart(sales)[i].0 == UniqueMonths(sales)[i] &&
              MonthChart(sales)[i].1 == Some(SumWhere(sales, MonthCol, UniqueMonths(sales)[i]))
  {
    UniqueMonthsAreGroupKeys(sales);
    GroupSumSpec(sales, MonthCol);
    ReindexByOwnKeys(GroupSum(sales, MonthCol));
    GroupSumValues(sales, MonthCol);
  }
}
