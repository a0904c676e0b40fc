/** `process_tickers` (src/dataset.py): rows whose ticker is one of a few
    known-bad search results are dropped, then rows repeating an earlier
    ticker are dropped, keeping the first. */
module TickerCleaning {
  import opened Text
  import opened Stages

  /** One row of the tickers file: column 0 is the company, column 1 the
      ticker. */
  datatype Row = Row(company: string, ticker: string)

  /** The tickers the web search is known to produce by mistake. */
  function IsInvalidTicker(t: string): bool
  {
    Contains(t, ".html") || t == "history" || t == "profile" || t == "news" || t == "1"
  }

  /** `invalid_indexes`: the positions whose ticker is invalid. */
  function InvalidIndexes(rows: seq<Row>): (ix: set<nat>)
    ensures forall i: nat :: i in ix <==> i < |rows| && IsInvalidTicker(rows[i].ticker)
  {
    set i: nat | i < |rows| && IsInvalidTicker(rows[i].ticker)
  }

  function Tickers(rows: seq<Row>): set<string>
  {
    if rows == [] then {} else Tickers(rows[..|rows| - 1]) + {rows[|rows| - 1].ticker}
  }

  /** A ticker is in `Tickers(rows)` iff some row has it. */
  lemma {:induction false} TickersMembers(rows: seq<Row>, t: string)
    ensures t in Tickers(rows) <==> exists i :: 0 <= i < |rows| && rows[i].ticker == t
  {
    if rows != [] {
      var front := rows[..|rows| - 1];
      TickersMembers(front, t);
      if t in Tickers(front) {
        var i :| 0 <= i < |front| && front[i].ticker == t;
        assert rows[i] == front[i];
      }
      if exists i :: 0 <= i < |rows| && rows[i].ticker == t {
        var i :| 0 <= i < |rows| && rows[i].ticker == t;
        if i < |front| {
          assert front[i] == rows[i];
        }
      }
    }
  }

  /** The rows whose ticker is valid, in order. */
  function DropInvalid(rows: seq<Row>): (kept: seq<Row>)
    ensures |kept| <= |rows|
  {
    if rows == [] then []
    else
      var last := rows[|rows| - 1];
      DropInvalid(rows[..|rows| - 1]) + (if IsInvalidTicker(last.ticker) then [] else [last])
  }

  /** `drop_duplicates(1, keep='first')`: a row goes when an earlier row has
      the same ticker. */
  function DropDuplicates(rows: seq<Row>): (kept: seq<Row>)
    ensures |kept| <= |rows|
  {
    if rows == [] then []
    else
      var front := rows[..|rows| - 1];
      var last := rows[|rows| - 1];
      DropDuplicates(front) + (if last.ticker in Tickers(front) then [] else [last])
  }

  /** The cleaned rows: first the invalid ones go, then the repeats. */
  function Clean(rows: seq<Row>): seq<Row>
  {
    DropDuplicates(DropInvalid(rows))
  }

  /** `output.drop(invalid_indexes)`: the rows whose ticker is valid, in
      order. */
  method DropRows(rows: seq<Row>) returns (kept: seq<Row>)
    ensures kept == DropInvalid(rows)
  {
    var invalidIndexes := InvalidIndexes(rows);
    kept := [];
    var i := 0;
    while i < |rows|
      invariant i <= |rows|
      invariant kept == DropInvalid(rows[..i])
    {
      assert rows[..i + 1][..i] == rows[..i];
      if i !in invalidIndexes {
        kept := kept + [rows[i]];
      }
      i := i + 1;
    }
    assert rows[..|rows|] == rows;
  }

  /** `output.drop_duplicates(1, keep='first')`: a row goes when an earlier
      row has its ticker. */
  method DropDuplicateRows(kept: seq<Row>) returns (output: seq<Row>)
    ensures output == DropDuplicates(kept)
  {
    output := [];
    var seen: set<string> := {};
    var j := 0;
    while j < |kept|
      invariant j <= |kept|
      invariant seen == Tickers(kept[..j])
      invariant output == DropDuplicates(kept[..j])
    {
      assert kept[..j + 1][..j] == kept[..j];
      if kept[j].ticker !in seen {
        output := output + [kept[j]];
      }
      seen := seen + {kept[j].ticker};
      j := j + 1;
    }
    assert kept[..|kept|] == kept;
  }

  /** The body of `process_tickers`: the invalid rows go, then the repeats;
      the number of rows removed is reported. */
  method CleanTickers(rows: seq<Row>) returns (output: seq<Row>, removed: nat)
    ensures output == Clean(rows)
    ensures removed == |rows| - |output|
  {
    var kept := DropRows(rows);
    output := DropDuplicateRows(kept);
    removed := |rows| - |output|;
  }

  /** `process_tickers`: the skip gate, then the cleaning. */
  method ProcessTickers(outputExists: bool, rows: seq<Row>) returns (r: Stage<seq<Row>>)
    ensures r == Gate(outputExists, Clean(rows))
  {
    if outputExists {
      return Skipped;
    }
    var output, removed := CleanTickers(rows);
    return Wrote(output);
  }

  // Properties of the cleaning.

  /** No retained row has an invalid ticker, and a row with a valid ticker
      is kept exactly as often as it occurs. */
  lemma {:induction false} DropInvalidCounts(rows: seq<Row>, x: Row)
    ensures multiset(DropInvalid(rows))[x] == if IsInvalidTicker(x.ticker) then 0 else multiset(rows)[x]
  {
    if rows != [] {
      var front := rows[..|rows| - 1];
      var last := rows[|rows| - 1];
      var tail: seq<Row> := if IsInvalidTicker(last.ticker) then [] else [last];
      calc {
        multiset(DropInvalid(rows))[x];
        multiset(DropInvalid(front) + tail)[x];
        multiset(DropInvalid(front))[x] + multiset(tail)[x];
        { DropInvalidCounts(front, x); }
        (if IsInvalidTicker(x.ticker) then 0 else multiset(front)[x]) + multiset(tail)[x];
        { assert multiset(tail)[x] == if IsInvalidTicker(x.ticker) then 0 else multiset([last])[x]; }
        if IsInvalidTicker(x.ticker) then 0 else multiset(front)[x] + multiset([last])[x];
        { assert rows == front + [last]; }
        if IsInvalidTicker(x.ticker) then 0 else multiset(rows)[x];
      }
    }
  }

  /** A row survives the validity filter iff it is in the input and its
      ticker is valid. */
  lemma {:induction false} DropInvalidMembers(rows: seq<Row>, x: Row)
    ensures x in DropInvalid(rows) <==> x in rows && !IsInvalidTicker(x.ticker)
  {
    if rows != [] {
      var front := rows[..|rows| - 1];
      DropInvalidMembers(front, x);
      assert rows == front + [rows[|rows| - 1]];
    }
  }

  lemma TickersSnoc(rows: seq<Row>, x: Row)
    ensures Tickers(rows + [x]) == Tickers(rows) + {x.ticker}
  {
    assert (rows + [x])[..|rows|] == rows;
  }

  /** The tickers that survive the duplicate drop are those of the input. */
  lemma {:induction false} DropDuplicatesTickers(rows: seq<Row>)
    ensures Tickers(DropDuplicates(rows)) == Tickers(rows)
  {
    if rows != [] {
      var front := rows[..|rows| - 1];
      var last := rows[|rows| - 1];
      DropDuplicatesTickers(front);
      var df := DropDuplicates(front);
      assert Tickers(rows) == Tickers(front) + {last.ticker};
      if last.ticker in Tickers(front) {
        assert DropDuplicates(rows) == df;
      } else {
        assert DropDuplicates(rows) == df + [last];
        TickersSnoc(df, last);
      }
    }
  }

  /** After the duplicate drop no two rows share a ticker. */
  lemma {:induction false} DropDuplicatesDistinct(rows: seq<Row>)
    ensures forall i, j :: 0 <= i < j < |DropDuplicates(rows)| ==>
      DropDuplicates(rows)[i].ticker != DropDuplicates(rows)[j].ticker
  {
    if rows != [] {
      var front := rows[..|rows| - 1];
      DropDuplicatesDistinct(front);
      DropDuplicatesTickers(front);
      var d := DropDuplicates(front);
      forall i | 0 <= i < |d| ensures d[i].ticker in Tickers(front) {
        TickersMembers(d, d[i].ticker);
      }
    }
  }

  /** Position of the first row with ticker t. */
  function FirstIndex(rows: seq<Row>, t: string): (i: nat)
    requires t in Tickers(rows)
    ensures i < |rows| && rows[i].ticker == t
    ensures forall j :: 0 <= j < i ==> rows[j].ticker != t
  {
    if rows[0].ticker == t then 0
    else
      assert t in Tickers(rows[1..]) by {
        TickersMembers(rows, t);
        var k :| 0 <= k < |rows| && rows[k].ticker == t;
        assert rows[1..][k - 1] == rows[k];
        TickersMembers(rows[1..], t);
      }
      1 + FirstIndex(rows[1..], t)
  }

  /** Every kept row is the first row with its ticker. */
  lemma {:induction false} DropDuplicatesKeepsFirst(rows: seq<Row>)
    ensures forall k :: 0 <= k < |DropDuplicates(rows)| ==>
      && DropDuplicates(rows)[k].ticker in Tickers(rows)
      && DropDuplicates(rows)[k] == rows[FirstIndex(rows, DropDuplicates(rows)[k].ticker)]
  {
    if rows != [] {
      var front := rows[..|rows| - 1];
      var last := rows[|rows| - 1];
      DropDuplicatesKeepsFirst(front);
      var d := DropDuplicates(rows);
      var df := DropDuplicates(front);
      assert Tickers(rows) == Tickers(front) + {last.ticker} by {
        assert rows == front + [last];
      }
      forall k | 0 <= k < |d|
        ensures d[k].ticker in Tickers(rows)
        ensures d[k] == rows[FirstIndex(rows, d[k].ticker)]
      {
        if k < |df| {
          assert d[k] == df[k];
          var t := df[k].ticker;
          var i := FirstIndex(front, t);
          assert rows[i] == front[i];
          FirstIndexUnique(rows, t, i);
        } else {
          assert d[k] == last && last.ticker !in Tickers(front);
          TickersMembers(front, last.ticker);
          forall j | 0 <= j < |rows| - 1 ensures rows[j].ticker != last.ticker {
            assert rows[j] == front[j];
          }
          FirstIndexUnique(rows, last.ticker, |rows| - 1);
        }
      }
    }
  }

  lemma FirstIndexUnique(rows: seq<Row>, t: string, i: nat)
    requires i < |rows| && rows[i].ticker == t
    requires forall j :: 0 <= j < i ==> rows[j].ticker != t
    ensures t in Tickers(rows) && FirstIndex(rows, t) == i
  {
    assert rows[i] in rows;
  }

  /** `f` lists, for each row of `a`, the position in `b` it comes from, in
      increasing order: `a` is `b` with some rows left out. */
  ghost predicate IsEmbedding(a: seq<Row>, b: seq<Row>, f: seq<nat>)
  {
    && |f| == |a|
    && (forall k :: 0 <= k < |f| ==> f[k] < |b| && a[k] == b[f[k]])
    && (forall k, l :: 0 <= k < l < |f| ==> f[k] < f[l])
  }

  /** Appending a row to `b` keeps an embedding, whether or not `a` takes
      the row too. */
  lemma EmbeddingSnoc(a: seq<Row>, b: seq<Row>, f: seq<nat>, x: Row)
    requires IsEmbedding(a, b, f)
    ensures IsEmbedding(a, b + [x], f)
    ensures IsEmbedding(a + [x], b + [x], f + [|b|])
  {
    var g := f + [|b|];
    forall k | 0 <= k < |g| ensures g[k] < |b| + 1 && (a + [x])[k] == (b + [x])[g[k]] {
      if k < |f| {
        assert g[k] == f[k];
      }
    }
  }

  lemma {:induction false} DropInvalidEmbeds(rows: seq<Row>) returns (f: seq<nat>)
    ensures IsEmbedding(DropInvalid(rows), rows, f)
  {
    if rows == [] {
      f := [];
    } else {
      var front := rows[..|rows| - 1];
      var last := rows[|rows| - 1];
      f := DropInvalidEmbeds(front);
      EmbeddingSnoc(DropInvalid(front), front, f, last);
      assert rows == front + [last];
      if !IsInvalidTicker(last.ticker) {
        f := f + [|front|];
      }
    }
  }

  lemma {:induction false} DropDuplicatesEmbeds(rows: seq<Row>) returns (f: seq<nat>)
    ensures IsEmbedding(DropDuplicates(rows), rows, f)
  {
    if rows == [] {
      f := [];
    } else {
      var front := rows[..|rows| - 1];
      var last := rows[|rows| - 1];
      f := DropDuplicatesEmbeds(front);
      EmbeddingSnoc(DropDuplicates(front), front, f, last);
      assert rows == front + [last];
      if last.ticker !in Tickers(front) {
        f := f + [|front|];
      }
    }
  }

  lemma EmbeddingCompose(a: seq<Row>, b: seq<Row>, c: seq<Row>, f: seq<nat>, g: seq<nat>) returns (h: seq<nat>)
    requires IsEmbedding(a, b, f) && IsEmbedding(b, c, g)
    ensures IsEmbedding(a, c, h)
  {
    h := seq(|f|, k requires 0 <= k < |f| => g[f[k]]);
  }

  /** No retained row has an invalid ticker. */
  lemma CleanDropsInvalid(rows: seq<Row>)
    ensures forall k :: 0 <= k < |Clean(rows)| ==> !IsInvalidTicker(Clean(rows)[k].ticker)
  {
    var survivors := DropInvalid(rows);
    var out := Clean(rows);
    var f := DropDuplicatesEmbeds(survivors);
    forall k | 0 <= k < |out| ensures !IsInvalidTicker(out[k].ticker) {
      var x := out[k];
      assert x == survivors[f[k]];
      DropInvalidCounts(rows, x);
    }
  }

  /** Retained tickers are pairwise distinct. */
  lemma CleanDistinct(rows: seq<Row>)
    ensures forall i, j :: 0 <= i < j < |Clean(rows)| ==> Clean(rows)[i].ticker != Clean(rows)[j].ticker
  {
    DropDuplicatesDistinct(DropInvalid(rows));
  }

  /** Each retained row is the first row with its ticker among the rows that
      pass the validity filter. */
  lemma CleanKeepsFirst(rows: seq<Row>)
    ensures forall k :: 0 <= k < |Clean(rows)| ==>
      && Clean(rows)[k].ticker in Tickers(DropInvalid(rows))
      && Clean(rows)[k] == DropInvalid(rows)[FirstIndex(DropInvalid(rows), Clean(rows)[k].ticker)]
  {
    DropDuplicatesKeepsFirst(DropInvalid(rows));
  }

  /** The retained rows appear in the same relative order as in the input. */
  lemma CleanKeepsOrder(rows: seq<Row>) returns (f: seq<nat>)
    ensures IsEmbedding(Clean(rows), rows, f)
  {
    var f1 := DropInvalidEmbeds(rows);
    var f2 := DropDuplicatesEmbeds(DropInvalid(rows));
    f := EmbeddingCompose(Clean(rows), DropInvalid(rows), rows, f2, f1);
  }

  /** Every valid ticker of the input is retained (exactly once, by
      CleanDistinct), and no other. */
  lemma CleanKeepsEveryValidTicker(rows: seq<Row>, t: string)
    ensures t in Tickers(Clean(rows)) <==>
      !IsInvalidTicker(t) && exists i :: 0 <= i < |rows| && rows[i].ticker == t
  {
    var survivors := DropInvalid(rows);
    DropDuplicatesTickers(survivors);
    TickersMembers(survivors, t);
    if i :| 0 <= i < |survivors| && survivors[i].ticker == t {
      DropInvalidMembers(rows, survivors[i]);
      var j :| 0 <= j < |rows| && rows[j] == survivors[i];
    }
    if !IsInvalidTicker(t) && exists i :: 0 <= i < |rows| && rows[i].ticker == t {
      var i :| 0 <= i < |rows| && rows[i].ticker == t;
      DropInvalidMembers(rows, rows[i]);
      var k :| 0 <= k < |survivors| && survivors[k] == rows[i];
    }
  }
}
