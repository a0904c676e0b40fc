/** `get_stock_data` (src/dataset.py): one price series is downloaded per
    ticker, tickers with no data are skipped, and the remaining series are
    left-joined on their date, from left to right, into one wide table. The
    download is not modelled: the series are inputs. */
module StockData {
  import opened Wrappers
  import opened Stages

  /** A trading day. */
  type Date = int

  /** One day of a downloaded series: its date and its opening price, None
      where the provider has no value (NaN). */
  datatype Quote = Quote(date: Date, open: Option<real>)

  /** A table row: its date (the index) and the cells it holds; a column
      missing from `cells` is NaN. */
  datatype Row = Row(date: Date, cells: map<string, real>)

  datatype Table = Table(columns: seq<string>, rows: seq<Row>)

  function Dates(rows: seq<Row>): (ds: seq<Date>)
    ensures |ds| == |rows| && forall i :: 0 <= i < |rows| ==> ds[i] == rows[i].date
  {
    seq(|rows|, i requires 0 <= i < |rows| => rows[i].date)
  }

  ghost predicate DistinctDates(rows: seq<Row>)
  {
    forall i, j :: 0 <= i < j < |rows| ==> rows[i].date != rows[j].date
  }

  /** `pd.DataFrame(download_stock_data(t))` with its `Open` column renamed to
      the ticker. */
  function SeriesTable(t: string, quotes: seq<Quote>): (tbl: Table)
    ensures tbl.columns == [t] && |tbl.rows| == |quotes|
    ensures forall i :: 0 <= i < |quotes| ==> tbl.rows[i].date == quotes[i].date
    ensures forall i :: 0 <= i < |quotes| ==>
      tbl.rows[i].cells == if quotes[i].open.Some? then map[t := quotes[i].open.value] else map[]
  {
    Table([t], seq(|quotes|, i requires 0 <= i < |quotes| =>
      Row(quotes[i].date, if quotes[i].open.Some? then map[t := quotes[i].open.value] else map[])))
  }

  /** The rows of `right` dated `d`, in order. */
  function MatchingRows(right: seq<Row>, d: Date): (ms: seq<Row>)
    ensures forall m :: m in ms ==> m in right && m.date == d
  {
    if right == [] then []
    else (if right[0].date == d then [right[0]] else []) + MatchingRows(right[1..], d)
  }

  /** The rows of `left.merge(right, how='left', on='Date')`: each left row in
      order, once per matching right row, or once with the right columns
      missing when nothing matches. */
  function MergeRows(left: seq<Row>, right: seq<Row>): seq<Row>
  {
    if left == [] then []
    else
      JoinRow(left[0], right) + MergeRows(left[1..], right)
  }

  function MergeLeft(left: Table, right: Table): (merged: Table)
    ensures merged.columns == left.columns + right.columns
  {
    Table(left.columns + right.columns, MergeRows(left.rows, right.rows))
  }

  /** `reduce(merge, stocks)`: ((s0 ⋈ s1) ⋈ s2) ⋈ ... */
  function Reduce(stocks: seq<Table>): Table
    requires |stocks| >= 1
  {
    if |stocks| == 1 then stocks[0]
    else MergeLeft(Reduce(stocks[..|stocks| - 1]), stocks[|stocks| - 1])
  }

  /** `fillna(0)`: every missing cell of a column becomes 0. */
  function FillNa(tbl: Table): (filled: Table)
    ensures filled.columns == tbl.columns && Dates(filled.rows) == Dates(tbl.rows)
    ensures forall i, c :: 0 <= i < |filled.rows| && c in tbl.columns ==> c in filled.rows[i].cells
    ensures forall i, c :: 0 <= i < |filled.rows| && c in tbl.rows[i].cells ==>
      c in filled.rows[i].cells && filled.rows[i].cells[c] == tbl.rows[i].cells[c]
    ensures forall i, c :: 0 <= i < |filled.rows| && c in tbl.columns && c !in tbl.rows[i].cells ==>
      c in filled.rows[i].cells && filled.rows[i].cells[c] == 0.0
    ensures forall i, c :: 0 <= i < |filled.rows| ==>
      (c in filled.rows[i].cells <==> c in tbl.rows[i].cells || c in tbl.columns)
  {
    Table(tbl.columns, seq(|tbl.rows|, i requires 0 <= i < |tbl.rows| =>
      Row(tbl.rows[i].date,
          tbl.rows[i].cells + map c | c in tbl.columns && c !in tbl.rows[i].cells :: 0.0)))
  }

  /** The list `stocks` after the first n tickers: the series that are not
      empty, in order. */
  function Stocks(tickers: seq<string>, downloads: seq<seq<Quote>>, n: nat): seq<Table>
    requires n <= |tickers| == |downloads|
  {
    if n == 0 then []
    else
      Stocks(tickers, downloads, n - 1)
      + (if |downloads[n - 1]| > 0 then [SeriesTable(tickers[n - 1], downloads[n - 1])] else [])
  }

  /** The tickers that got a column, in input order. */
  function IncludedTickers(tickers: seq<string>, downloads: seq<seq<Quote>>, n: nat): seq<string>
    requires n <= |tickers| == |downloads|
  {
    if n == 0 then []
    else IncludedTickers(tickers, downloads, n - 1) + (if |downloads[n - 1]| > 0 then [tickers[n - 1]] else [])
  }

  /** The table `get_stock_data` writes, or None when no ticker had data:
      `reduce` of an empty list raises, and nothing is written. */
  function Assemble(tickers: seq<string>, downloads: seq<seq<Quote>>, fillNa: bool): Option<Table>
    requires |tickers| == |downloads|
  {
    var stocks := Stocks(tickers, downloads, |tickers|);
    if stocks == [] then None
    else
      var merged := Reduce(stocks);
      Some(if fillNa then FillNa(merged) else merged)
  }

  /** The download loop: keeps the non-empty series, in order. */
  method CollectStocks(tickers: seq<string>, downloads: seq<seq<Quote>>) returns (stocks: seq<Table>)
    requires |tickers| == |downloads|
    ensures stocks == Stocks(tickers, downloads, |tickers|)
    ensures forall k :: 0 <= k < |stocks| ==> |stocks[k].rows| > 0
  {
    stocks := [];
    var i := 0;
    while i < |tickers|
      invariant i <= |tickers|
      invariant stocks == Stocks(tickers, downloads, i)
      invariant forall k :: 0 <= k < |stocks| ==> |stocks[k].rows| > 0
    {
      var dfT := SeriesTable(tickers[i], downloads[i]);
      if |dfT.rows| > 0 {
        stocks := stocks + [dfT];
      }
      i := i + 1;
    }
  }

  /** `get_stock_data`: the skip gate, the download loop, the fold, the
      optional fill. */
  method GetStockData(outputExists: bool, tickers: seq<string>, downloads: seq<seq<Quote>>, fillNa: bool)
    returns (r: Stage<Option<Table>>)
    requires |tickers| == |downloads|
    ensures r == Gate(outputExists, Assemble(tickers, downloads, fillNa))
  {
    if outputExists {
      return Skipped;
    }
    var stocks := CollectStocks(tickers, downloads);
    if stocks == [] {
      return Wrote(None);
    }
    var outputDf := Reduce(stocks);
    if fillNa {
      outputDf := FillNa(outputDf);
    }
    return Wrote(Some(outputDf));
  }

  // Properties of the assembly.

  /** The columns are the tickers whose series is not empty, in input order. */
  lemma {:induction false} StocksColumns(tickers: seq<string>, downloads: seq<seq<Quote>>, n: nat)
    requires n <= |tickers| == |downloads|
    ensures |Stocks(tickers, downloads, n)| == |IncludedTickers(tickers, downloads, n)|
    ensures Stocks(tickers, downloads, n) != [] ==>
      Reduce(Stocks(tickers, downloads, n)).columns == IncludedTickers(tickers, downloads, n)
  {
    if n > 0 {
      StocksColumns(tickers, downloads, n - 1);
      var prev := Stocks(tickers, downloads, n - 1);
      var cur := Stocks(tickers, downloads, n);
      var x := SeriesTable(tickers[n - 1], downloads[n - 1]);
      if |downloads[n - 1]| > 0 {
        assert cur == prev + [x];
        assert IncludedTickers(tickers, downloads, n) == IncludedTickers(tickers, downloads, n - 1) + [tickers[n - 1]];
        if prev == [] {
          assert IncludedTickers(tickers, downloads, n - 1) == [];
          assert Reduce(cur) == x;
        } else {
          assert cur[..|cur| - 1] == prev;
          assert Reduce(cur) == MergeLeft(Reduce(prev), x);
        }
      } else {
        assert cur == prev;
        assert IncludedTickers(tickers, downloads, n) == IncludedTickers(tickers, downloads, n - 1);
      }
    }
  }

  /** Only tickers with data become columns, and the fill leaves them as
      they are. */
  lemma AssembleColumns(tickers: seq<string>, downloads: seq<seq<Quote>>, fillNa: bool)
    requires |tickers| == |downloads|
    ensures Assemble(tickers, downloads, fillNa).None? <==> IncludedTickers(tickers, downloads, |tickers|) == []
    ensures Assemble(tickers, downloads, fillNa).Some? ==>
      Assemble(tickers, downloads, fillNa).value.columns == IncludedTickers(tickers, downloads, |tickers|)
  {
    StocksColumns(tickers, downloads, |tickers|);
  }

  /** With distinct dates on the right, each left row matches at most once. */
  lemma {:induction false} MatchingRowsAtMostOne(right: seq<Row>, d: Date)
    requires DistinctDates(right)
    ensures |MatchingRows(right, d)| <= 1
    ensures MatchingRows(right, d) == [] <==> forall k :: 0 <= k < |right| ==> right[k].date != d
  {
    if right != [] {
      MatchingRowsAtMostOne(right[1..], d);
      if right[0].date == d {
        forall k | 0 <= k < |right| - 1 ensures right[1..][k].date != d {
          assert right[k + 1].date != right[0].date;
        }
      } else {
        forall k | 0 <= k < |right| ensures right[k].date != d <== (forall k' :: 0 <= k' < |right| - 1 ==> right[1..][k'].date != d) {
          if k > 0 {
            assert right[k] == right[1..][k - 1];
          }
        }
      }
    }
  }

  /** The matching is an order-preserving filter: the rows matched in
      `a + b` are those matched in `a` followed by those matched in `b`. */
  lemma {:induction false} MatchingRowsAppend(a: seq<Row>, b: seq<Row>, d: Date)
    ensures MatchingRows(a + b, d) == MatchingRows(a, d) + MatchingRows(b, d)
  {
    if a == [] {
      assert a + b == b;
    } else {
      var tail := a[1..];
      MatchingRowsAppend(tail, b, d);
      AppendStep(a[0], tail, b, d);
      assert a == [a[0]] + tail;
    }
  }

  /** The induction step of `MatchingRowsAppend`. */
  lemma AppendStep(r: Row, tail: seq<Row>, b: seq<Row>, d: Date)
    requires MatchingRows(tail + b, d) == MatchingRows(tail, d) + MatchingRows(b, d)
    ensures MatchingRows([r] + tail + b, d) == MatchingRows([r] + tail, d) + MatchingRows(b, d)
  {
    assert [r] + tail + b == [r] + (tail + b);
    MatchingRowsCons(r, tail + b, d);
    MatchingRowsCons(r, tail, d);
  }

  /** `r` alone if it is dated `d`, nothing otherwise: the head term of
      `MatchingRows`, named so that the step lemmas need not unfold it. */
  function Matched(r: Row, d: Date): seq<Row>
  {
    if r.date == d then [r] else []
  }

  lemma MatchingRowsCons(r: Row, rest: seq<Row>, d: Date)
    ensures MatchingRows([r] + rest, d) == Matched(r, d) + MatchingRows(rest, d)
  {
    assert ([r] + rest)[0] == r && ([r] + rest)[1..] == rest;
  }

  /** A row is matched exactly when it is a row of `right` with the date. */
  lemma {:induction false} MatchingRowsMembers(right: seq<Row>, d: Date, r: Row)
    ensures r in MatchingRows(right, d) <==> r in right && r.date == d
  {
    if right != [] {
      MatchingRowsMembers(right[1..], d, r);
      assert right == [right[0]] + right[1..];
    }
  }

  /** The cells a left row dated `d` gains from `right`. */
  function RightCells(right: seq<Row>, d: Date): map<string, real>
  {
    var ms := MatchingRows(right, d);
    if ms == [] then map[] else ms[0].cells
  }

  /** The rows one left row becomes: one per matching right row, or the
      row alone. */
  function JoinRow(l: Row, right: seq<Row>): seq<Row>
  {
    var ms := MatchingRows(right, l.date);
    if ms == [] then [l]
    else seq(|ms|, j requires 0 <= j < |ms| => Row(l.date, l.cells + ms[j].cells))
  }

  /** With distinct dates on the right, a left row stays one row, gaining
      the cells of the right row with its date, if there is one. */
  lemma JoinRowUnique(l: Row, right: seq<Row>)
    requires DistinctDates(right)
    ensures JoinRow(l, right) == [Row(l.date, l.cells + RightCells(right, l.date))]
  {
    MatchingRowsAtMostOne(right, l.date);
    if MatchingRows(right, l.date) == [] {
      assert l.cells + map[] == l.cells;
    }
  }

  /** With distinct dates on the right, the left join keeps the left rows one
      for one, in order, and adds to each the cells of the right row with the
      same date, if there is one. */
  lemma {:induction false} MergeRowsUnique(left: seq<Row>, right: seq<Row>)
    requires DistinctDates(right)
    ensures |MergeRows(left, right)| == |left|
    ensures forall i :: 0 <= i < |left| ==>
      MergeRows(left, right)[i] == Row(left[i].date, left[i].cells + RightCells(right, left[i].date))
  {
    if left != [] {
      MergeRowsUnique(left[1..], right);
      JoinRowUnique(left[0], right);
      var m := MergeRows(left, right);
      assert m == JoinRow(left[0], right) + MergeRows(left[1..], right);
      forall i | 0 < i < |left|
        ensures m[i] == Row(left[i].date, left[i].cells + RightCells(right, left[i].date))
      {
        assert m[i] == MergeRows(left[1..], right)[i - 1];
        assert left[i] == left[1..][i - 1];
      }
    }
  }

  /** With each joined series free of repeated dates, the fold keeps the
      first series' dates, in order, as the index. */
  lemma {:induction false} ReduceKeepsFirstDates(stocks: seq<Table>)
    requires |stocks| >= 1
    requires forall k :: 1 <= k < |stocks| ==> DistinctDates(stocks[k].rows)
    ensures Dates(Reduce(stocks).rows) == Dates(stocks[0].rows)
  {
    if |stocks| > 1 {
      var front := stocks[..|stocks| - 1];
      ReduceKeepsFirstDates(front);
      MergeRowsUnique(Reduce(front).rows, stocks[|stocks| - 1].rows);
    }
  }

  /** A download in which no date appears twice. */
  ghost predicate DistinctQuoteDates(quotes: seq<Quote>)
  {
    forall i, j :: 0 <= i < j < |quotes| ==> quotes[i].date != quotes[j].date
  }

  /** No ticker before n has data, so no series is kept. */
  lemma {:induction false} StocksNone(tickers: seq<string>, downloads: seq<seq<Quote>>, n: nat)
    requires n <= |tickers| == |downloads|
    requires forall j :: 0 <= j < n ==> |downloads[j]| == 0
    ensures Stocks(tickers, downloads, n) == []
  {
    if n > 0 {
      StocksNone(tickers, downloads, n - 1);
    }
  }

  /** The first kept series is that of the first ticker with data. */
  lemma {:induction false} StocksFirst(tickers: seq<string>, downloads: seq<seq<Quote>>, n: nat, f: nat)
    requires f < n <= |tickers| == |downloads|
    requires |downloads[f]| > 0 && forall j :: 0 <= j < f ==> |downloads[j]| == 0
    ensures |Stocks(tickers, downloads, n)| > 0
    ensures Stocks(tickers, downloads, n)[0] == SeriesTable(tickers[f], downloads[f])
  {
    if n - 1 == f {
      StocksNone(tickers, downloads, f);
    } else {
      StocksFirst(tickers, downloads, n - 1, f);
    }
  }

  /** Downloads without repeated dates give series without repeated dates. */
  lemma {:induction false} StocksDistinct(tickers: seq<string>, downloads: seq<seq<Quote>>, n: nat)
    requires n <= |tickers| == |downloads|
    requires forall k :: 0 <= k < |downloads| ==> DistinctQuoteDates(downloads[k])
    ensures forall k :: 0 <= k < |Stocks(tickers, downloads, n)| ==> DistinctDates(Stocks(tickers, downloads, n)[k].rows)
  {
    if n > 0 {
      StocksDistinct(tickers, downloads, n - 1);
      var prev := Stocks(tickers, downloads, n - 1);
      var stocks := Stocks(tickers, downloads, n);
      if |downloads[n - 1]| > 0 {
        var tbl := SeriesTable(tickers[n - 1], downloads[n - 1]);
        assert stocks == prev + [tbl];
        assert DistinctDates(tbl.rows) by {
          assert DistinctQuoteDates(downloads[n - 1]);
        }
        forall k | 0 <= k < |stocks| ensures DistinctDates(stocks[k].rows) {
          if k < |prev| {
            assert stocks[k] == prev[k];
          }
        }
      } else {
        assert stocks == prev;
      }
    }
  }

  /** When no download repeats a date, the written table's index is the
      dates of the first ticker with data, in order, whether or not the gaps
      are filled. */
  lemma AssembleKeepsFirstDates(tickers: seq<string>, downloads: seq<seq<Quote>>, fillNa: bool, f: nat)
    requires f < |tickers| == |downloads|
    requires |downloads[f]| > 0 && forall j :: 0 <= j < f ==> |downloads[j]| == 0
    requires forall k :: 0 <= k < |downloads| ==> DistinctQuoteDates(downloads[k])
    ensures Assemble(tickers, downloads, fillNa).Some?
    ensures Dates(Assemble(tickers, downloads, fillNa).value.rows)
      == seq(|downloads[f]|, i requires 0 <= i < |downloads[f]| => downloads[f][i].date)
  {
    var stocks := Stocks(tickers, downloads, |tickers|);
    StocksFirst(tickers, downloads, |tickers|, f);
    StocksDistinct(tickers, downloads, |tickers|);
    ReduceKeepsFirstDates(stocks);
    var first := SeriesTable(tickers[f], downloads[f]);
    assert Dates(first.rows) == seq(|downloads[f]|, i requires 0 <= i < |downloads[f]| => downloads[f][i].date);
  }

  /** The fill leaves no missing value in any column. */
  lemma AssembleFillNa(tickers: seq<string>, downloads: seq<seq<Quote>>)
    requires |tickers| == |downloads|
    ensures Assemble(tickers, downloads, true).Some? ==>
      var tbl := Assemble(tickers, downloads, true).value;
      forall i, c :: 0 <= i < |tbl.rows| && c in tbl.columns ==> c in tbl.rows[i].cells
  {
  }
}
