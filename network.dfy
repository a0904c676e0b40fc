/** `stock_network` (src/networks.py): every column of the price table
    becomes a node, every unordered pair of columns gets a correlation record,
    and a pair is linked when its correlation is stronger than 0.5 either
    way. The correlation itself (scipy's `pearsonr`) is not modelled: it is a
    given function of the pair of column positions. */
module Network {
  import opened Dicts

  /** `pearsonr`'s answer for one pair: the coefficient and its p-value. */
  datatype Correlation = Correlation(pcc: real, pValue: real)

  /** The edge rule: `r > 0.5 or r < -0.5`, both strict. */
  function Strong(r: real): bool
  {
    r > 0.5 || r < -0.5
  }

  /** The undirected edge between u and v: the set of its ends. */
  function Edge(u: string, v: string): set<string>
  {
    {u, v}
  }

  /** An undirected `networkx.Graph`: an edge is the set of its ends. */
  class Graph {
    var nodes: set<string>
    var edges: set<set<string>>

    constructor ()
      ensures nodes == {} && edges == {}
    {
      nodes := {};
      edges := {};
    }

    /** `add_nodes_from`: adds each node once. */
    method AddNodesFrom(ns: seq<string>)
      modifies this
      ensures nodes == old(nodes) + set n | n in ns
      ensures edges == old(edges)
    {
      nodes := nodes + set n | n in ns;
    }

    /** `add_edge`: adds both ends as nodes and the edge between them. */
    method AddEdge(u: string, v: string)
      modifies this
      ensures nodes == old(nodes) + {u, v}
      ensures edges == old(edges) + {Edge(u, v)}
    {
      nodes := nodes + {u, v};
      edges := edges + {Edge(u, v)};
    }
  }

  // Pair enumeration: `itertools.combinations(range(n), 2)`.

  /** The pairs whose first position is at least i, in the order
      `combinations` yields them. */
  function PairsFrom(n: nat, i: nat): seq<(nat, nat)>
    decreases n - i
  {
    if i >= n then []
    else seq(n - i - 1, k requires 0 <= k < n - i - 1 => (i, i + 1 + k)) + PairsFrom(n, i + 1)
  }

  function Combinations(n: nat): (pairs: seq<(nat, nat)>)
    ensures PairsBelow(n, pairs)
  {
    PairsFromMembers(n, 0);
    assert forall k :: 0 <= k < |PairsFrom(n, 0)| ==> PairsFrom(n, 0)[k] in PairsFrom(n, 0);
    PairsFrom(n, 0)
  }

  ghost predicate PairBefore(p: (nat, nat), q: (nat, nat))
  {
    p.0 < q.0 || (p.0 == q.0 && p.1 < q.1)
  }

  lemma {:induction false} PairsFromMembers(n: nat, i: nat)
    ensures forall p: (nat, nat) :: p in PairsFrom(n, i) <==> i <= p.0 < p.1 < n
    decreases n - i
  {
    if i < n {
      PairsFromMembers(n, i + 1);
      var row := seq(n - i - 1, k requires 0 <= k < n - i - 1 => (i, i + 1 + k));
      forall p: (nat, nat) | i <= p.0 < p.1 < n ensures p in PairsFrom(n, i) {
        if p.0 == i {
          assert row[p.1 - i - 1] == p;
        }
      }
    }
  }

  lemma {:induction false} PairsFromOrdered(n: nat, i: nat)
    ensures forall a, b :: 0 <= a < b < |PairsFrom(n, i)| ==> PairBefore(PairsFrom(n, i)[a], PairsFrom(n, i)[b])
    decreases n - i
  {
    if i < n {
      PairsFromOrdered(n, i + 1);
      PairsFromMembers(n, i + 1);
      var row := seq(n - i - 1, k requires 0 <= k < n - i - 1 => (i, i + 1 + k));
      var rest := PairsFrom(n, i + 1);
      var all := row + rest;
      forall a, b | 0 <= a < b < |all| ensures PairBefore(all[a], all[b]) {
        if b >= |row| && a < |row| {
          assert all[b] in rest;
        } else if a >= |row| {
          assert all[a] == rest[a - |row|] && all[b] == rest[b - |row|];
        }
      }
    }
  }

  lemma {:induction false} PairsFromLength(n: nat, i: nat)
    requires i <= n
    ensures 2 * |PairsFrom(n, i)| == (n - i) * (n - i - 1)
    decreases n - i
  {
    if i < n {
      PairsFromLength(n, i + 1);
      var m := n - i;
      assert (m - 1) * (m - 2) + 2 * (m - 1) == m * (m - 1);
    }
  }

  /** `combinations(tickers, 2)` visits every pair i < j of column positions
      once, in increasing order, n(n-1)/2 pairs in all. */
  lemma CombinationsSpec(n: nat)
    ensures 2 * |Combinations(n)| == n * (n - 1)
    ensures forall p: (nat, nat) :: p in Combinations(n) <==> p.0 < p.1 < n
    ensures forall a, b :: 0 <= a < b < |Combinations(n)| ==> PairBefore(Combinations(n)[a], Combinations(n)[b])
  {
    PairsFromLength(n, 0);
    PairsFromMembers(n, 0);
    PairsFromOrdered(n, 0);
  }

  /** A pair is visited once: no two steps see the same pair. */
  lemma CombinationsDistinct(n: nat)
    ensures forall a, b :: 0 <= a < b < |Combinations(n)| ==> Combinations(n)[a] != Combinations(n)[b]
  {
    CombinationsSpec(n);
  }

  // The loop over the pairs.

  /** The key of a pair's record: `ticker1 + '__' + ticker2`. */
  function Key(columns: seq<string>, p: (nat, nat)): string
    requires p.0 < |columns| && p.1 < |columns|
  {
    columns[p.0] + "__" + columns[p.1]
  }

  /** Every pair indexes two of n columns. */
  ghost predicate PairsBelow(n: nat, pairs: seq<(nat, nat)>)
  {
    forall k :: 0 <= k < |pairs| ==> pairs[k].0 < n && pairs[k].1 < n
  }

  /** `correlations` after the first k pairs. */
  function CorrelationsAfter(columns: seq<string>, stat: (nat, nat) -> Correlation, pairs: seq<(nat, nat)>, k: nat)
    : (d: Dict<Correlation>)
    requires k <= |pairs| && PairsBelow(|columns|, pairs)
  {
    if k == 0 then Empty()
    else Put(CorrelationsAfter(columns, stat, pairs, k - 1), Key(columns, pairs[k - 1]), stat(pairs[k - 1].0, pairs[k - 1].1))
  }

  /** `G`'s edges after the first k pairs. */
  function EdgesAfter(columns: seq<string>, stat: (nat, nat) -> Correlation, pairs: seq<(nat, nat)>, k: nat)
    : set<set<string>>
    requires k <= |pairs| && PairsBelow(|columns|, pairs)
  {
    if k == 0 then {}
    else
      var p := pairs[k - 1];
      EdgesAfter(columns, stat, pairs, k - 1) + (if Strong(stat(p.0, p.1).pcc) then {Edge(columns[p.0], columns[p.1])} else {})
  }

  /** `add_nodes_from(tickers)`'s node set. */
  function ColumnSet(columns: seq<string>): (nodes: set<string>)
    ensures forall c :: c in nodes <==> c in columns
  {
    set c | c in columns
  }

  /** What `stock_network` leaves behind. `LengthMismatch` is the ValueError
      raised by `corr_result.columns = ['PCC', 'p-value']` when no pair was
      recorded (fewer than two columns): the table built from an empty dict
      has no column to rename, and neither file is written. */
  datatype Outcome =
    | CorrelationFileExists
    | NetworkFileExists
    | LengthMismatch
    | Built(correlations: Dict<Correlation>, nodes: set<string>, edges: set<set<string>>)

  /** The specification of `stock_network`: the correlation file is checked
      first, then the network file; otherwise the records and the graph after
      every pair. */
  function StockNetworkSpec(correlationExists: bool, networkExists: bool, columns: seq<string>,
                            stat: (nat, nat) -> Correlation): (r: Outcome)
    ensures r.CorrelationFileExists? <==> correlationExists
    ensures r.NetworkFileExists? <==> !correlationExists && networkExists
    ensures r.LengthMismatch? <==> !correlationExists && !networkExists && |columns| < 2
  {
    if correlationExists then CorrelationFileExists
    else if networkExists then NetworkFileExists
    else if |columns| < 2 then LengthMismatch
    else
      var pairs := Combinations(|columns|);
      Built(CorrelationsAfter(columns, stat, pairs, |pairs|),
            ColumnSet(columns),
            EdgesAfter(columns, stat, pairs, |pairs|))
  }

  /** `stock_network`: the two gates, the node insertion and the loop over
      `combinations(tickers, 2)` that records every pair and links the
      strong ones. */
  method StockNetwork(correlationExists: bool, networkExists: bool, columns: seq<string>,
                      stat: (nat, nat) -> Correlation) returns (r: Outcome)
    ensures r == StockNetworkSpec(correlationExists, networkExists, columns, stat)
  {
    if correlationExists {
      return CorrelationFileExists;
    }
    if networkExists {
      return NetworkFileExists;
    }
    var g := new Graph();
    g.AddNodesFrom(columns);
    var correlations := CorrelatePairs(g, columns, stat);
    NoRecordsIff(columns, stat);
    if correlations.keys == [] {
      return LengthMismatch;
    }
    return Built(correlations, g.nodes, g.edges);
  }

  /** The state of `stock_network` after the first k pairs. */
  ghost predicate VisitedUpTo(columns: seq<string>, stat: (nat, nat) -> Correlation, pairs: seq<(nat, nat)>, k: nat,
                              nodes: set<string>, edges: set<set<string>>, correlations: Dict<Correlation>)
    requires k <= |pairs| && PairsBelow(|columns|, pairs)
  {
    && nodes == ColumnSet(columns)
    && edges == EdgesAfter(columns, stat, pairs, k)
    && correlations == CorrelationsAfter(columns, stat, pairs, k)
  }

  /** The loop over `combinations(tickers, 2)` on a graph that holds the
      columns and no edge yet: every pair is recorded, the strong ones are
      linked. */
  method CorrelatePairs(g: Graph, columns: seq<string>, stat: (nat, nat) -> Correlation)
    returns (correlations: Dict<Correlation>)
    requires g.nodes == ColumnSet(columns) && g.edges == {}
    modifies g
    ensures correlations == CorrelationsAfter(columns, stat, Combinations(|columns|), |Combinations(|columns|)|)
    ensures g.nodes == ColumnSet(columns)
    ensures g.edges == EdgesAfter(columns, stat, Combinations(|columns|), |Combinations(|columns|)|)
  {
    correlations := Empty();
    var pairs := Combinations(|columns|);
    var k := 0;
    while k < |pairs|
      invariant k <= |pairs|
      invariant VisitedUpTo(columns, stat, pairs, k, g.nodes, g.edges, correlations)
    {
      var i, j := pairs[k].0, pairs[k].1;
      var ticker1, ticker2 := columns[i], columns[j];
      var c := stat(i, j);
      ghost var prev := correlations;
      correlations := Put(correlations, ticker1 + "__" + ticker2, c);
      ghost var before := g.edges;
      ghost var nodes := g.nodes;
      assert ticker1 in nodes && ticker2 in nodes by {
        assert ticker1 in columns && ticker2 in columns;
      }
      if c.pcc > 0.5 || c.pcc < -0.5 {
        g.AddEdge(ticker1, ticker2);
      }
      assert VisitedUpTo(columns, stat, pairs, k + 1, g.nodes, g.edges, correlations) by {
        assert Key(columns, pairs[k]) == ticker1 + "__" + ticker2;
        assert prev == CorrelationsAfter(columns, stat, pairs, k);
        assert before == EdgesAfter(columns, stat, pairs, k);
        assert g.nodes == nodes;
      }
      k := k + 1;
    }
  }

  // Properties of the network.

  /** After k >= 1 pairs at least one key is recorded. */
  lemma {:induction false} RecordsNonEmpty(columns: seq<string>, stat: (nat, nat) -> Correlation,
                                           pairs: seq<(nat, nat)>, k: nat)
    requires k <= |pairs| && PairsBelow(|columns|, pairs)
    ensures k > 0 <==> CorrelationsAfter(columns, stat, pairs, k).keys != []
  {
    if k > 1 {
      RecordsNonEmpty(columns, stat, pairs, k - 1);
    }
  }

  /** The dict of records is empty exactly when there are fewer than two
      columns: that is when the renaming of its columns raises. */
  lemma NoRecordsIff(columns: seq<string>, stat: (nat, nat) -> Correlation)
    ensures CorrelationsAfter(columns, stat, Combinations(|columns|), |Combinations(|columns|)|).keys == []
      <==> |columns| < 2
  {
    var n := |columns|;
    CombinationsSpec(n);
    RecordsNonEmpty(columns, stat, Combinations(n), |Combinations(n)|);
    if n >= 2 {
      assert n * (n - 1) >= 2 by {
        assert n - 1 >= 1;
      }
    }
  }

  /** Every pair visited so far has its record, whether or not it was linked. */
  lemma {:induction false} EveryPairRecorded(columns: seq<string>, stat: (nat, nat) -> Correlation,
                                             pairs: seq<(nat, nat)>, k: nat)
    requires k <= |pairs| && PairsBelow(|columns|, pairs)
    ensures forall q :: 0 <= q < k ==> Key(columns, pairs[q]) in CorrelationsAfter(columns, stat, pairs, k).values
  {
    if k > 0 {
      EveryPairRecorded(columns, stat, pairs, k - 1);
    }
  }

  ghost predicate KeysDistinct(columns: seq<string>, pairs: seq<(nat, nat)>)
    requires PairsBelow(|columns|, pairs)
  {
    forall a, b :: 0 <= a < b < |pairs| ==> Key(columns, pairs[a]) != Key(columns, pairs[b])
  }

  /** The records after k pairs, when each of them holds one of the first k
      pairs' correlations, in visiting order. */
  ghost predicate OneRecordPerPair(columns: seq<string>, stat: (nat, nat) -> Correlation,
                                   pairs: seq<(nat, nat)>, k: nat)
    requires k <= |pairs| && PairsBelow(|columns|, pairs)
  {
    var d := CorrelationsAfter(columns, stat, pairs, k);
    && |d.keys| == k
    && (forall q :: 0 <= q < k ==> d.keys[q] == Key(columns, pairs[q]))
    && (forall key :: key in d.values <==> key in d.keys)
    && (forall q :: 0 <= q < k ==>
          Key(columns, pairs[q]) in d.values && d.values[Key(columns, pairs[q])] == stat(pairs[q].0, pairs[q].1))
  }

  /** With distinct keys, the key of pair k - 1 is not yet recorded. */
  lemma FreshKey(columns: seq<string>, stat: (nat, nat) -> Correlation, pairs: seq<(nat, nat)>, k: nat)
    requires 0 < k <= |pairs| && PairsBelow(|columns|, pairs)
    requires KeysDistinct(columns, pairs)
    requires OneRecordPerPair(columns, stat, pairs, k - 1)
    ensures Key(columns, pairs[k - 1]) !in CorrelationsAfter(columns, stat, pairs, k - 1).values
  {
    var prev := CorrelationsAfter(columns, stat, pairs, k - 1);
    forall q | 0 <= q < k - 1 ensures prev.keys[q] != Key(columns, pairs[k - 1]) {
      assert prev.keys[q] == Key(columns, pairs[q]);
    }
  }

  lemma RecordsStep(columns: seq<string>, stat: (nat, nat) -> Correlation, pairs: seq<(nat, nat)>, k: nat)
    requires 0 < k <= |pairs| && PairsBelow(|columns|, pairs)
    requires KeysDistinct(columns, pairs)
    requires OneRecordPerPair(columns, stat, pairs, k - 1)
    ensures OneRecordPerPair(columns, stat, pairs, k)
  {
    FreshKey(columns, stat, pairs, k);
    RecordKeysStep(columns, stat, pairs, k);
    RecordValuesStep(columns, stat, pairs, k);
  }

  /** A fresh key is listed after the earlier ones. */
  lemma RecordKeysStep(columns: seq<string>, stat: (nat, nat) -> Correlation, pairs: seq<(nat, nat)>, k: nat)
    requires 0 < k <= |pairs| && PairsBelow(|columns|, pairs)
    requires OneRecordPerPair(columns, stat, pairs, k - 1)
    requires Key(columns, pairs[k - 1]) !in CorrelationsAfter(columns, stat, pairs, k - 1).values
    ensures var d := CorrelationsAfter(columns, stat, pairs, k);
      && |d.keys| == k
      && (forall q :: 0 <= q < k ==> d.keys[q] == Key(columns, pairs[q]))
      && (forall key :: key in d.values <==> key in d.keys)
  {
    var prev := CorrelationsAfter(columns, stat, pairs, k - 1);
    var d := CorrelationsAfter(columns, stat, pairs, k);
    assert d.keys == prev.keys + [Key(columns, pairs[k - 1])];
    forall q | 0 <= q < k ensures d.keys[q] == Key(columns, pairs[q]) {
      if q < k - 1 {
        assert d.keys[q] == prev.keys[q];
      }
    }
  }

  /** Each earlier record keeps its correlation, since the new key differs
      from theirs. */
  lemma RecordValuesStep(columns: seq<string>, stat: (nat, nat) -> Correlation, pairs: seq<(nat, nat)>, k: nat)
    requires 0 < k <= |pairs| && PairsBelow(|columns|, pairs)
    requires KeysDistinct(columns, pairs)
    requires var prev := CorrelationsAfter(columns, stat, pairs, k - 1);
      forall q :: 0 <= q < k - 1 ==>
        Key(columns, pairs[q]) in prev.values && prev.values[Key(columns, pairs[q])] == stat(pairs[q].0, pairs[q].1)
    ensures var d := CorrelationsAfter(columns, stat, pairs, k);
      forall q :: 0 <= q < k ==>
        Key(columns, pairs[q]) in d.values && d.values[Key(columns, pairs[q])] == stat(pairs[q].0, pairs[q].1)
  {
    var key := Key(columns, pairs[k - 1]);
    var d := CorrelationsAfter(columns, stat, pairs, k);
    var prev := CorrelationsAfter(columns, stat, pairs, k - 1);
    assert d.values == prev.values[key := stat(pairs[k - 1].0, pairs[k - 1].1)];
    forall q | 0 <= q < k
      ensures Key(columns, pairs[q]) in d.values && d.values[Key(columns, pairs[q])] == stat(pairs[q].0, pairs[q].1)
    {
      if q < k - 1 {
        assert Key(columns, pairs[q]) != key;
        assert Key(columns, pairs[q]) in prev.values;
      }
    }
  }

  /** When no two pairs share a key, there is one record per pair, in visiting
      order, each holding that pair's correlation. */
  lemma {:induction false} RecordsPerPair(columns: seq<string>, stat: (nat, nat) -> Correlation,
                                          pairs: seq<(nat, nat)>, k: nat)
    requires k <= |pairs| && PairsBelow(|columns|, pairs)
    requires KeysDistinct(columns, pairs)
    ensures OneRecordPerPair(columns, stat, pairs, k)
  {
    if k > 0 {
      RecordsPerPair(columns, stat, pairs, k - 1);
      RecordsStep(columns, stat, pairs, k);
    }
  }

  /** An edge is exactly a visited pair whose coefficient is strong. */
  lemma {:induction false} EdgesAfterMembers(columns: seq<string>, stat: (nat, nat) -> Correlation,
                                             pairs: seq<(nat, nat)>, k: nat, e: set<string>)
    requires k <= |pairs| && PairsBelow(|columns|, pairs)
    ensures e in EdgesAfter(columns, stat, pairs, k) <==>
      exists q :: 0 <= q < k && Strong(stat(pairs[q].0, pairs[q].1).pcc) && e == Edge(columns[pairs[q].0], columns[pairs[q].1])
  {
    if k > 0 {
      EdgesAfterMembers(columns, stat, pairs, k - 1, e);
    }
  }

  /** Two edges between distinct ends are equal only when they have the same
      ends. */
  lemma EdgeEnds(u: string, v: string, x: string, y: string)
    requires u != v && Edge(u, v) == Edge(x, y)
    ensures (u == x && v == y) || (u == y && v == x)
  {
    assert x in Edge(u, v) && y in Edge(u, v);
    assert u in Edge(x, y) && v in Edge(x, y);
  }

  ghost predicate DistinctColumns(columns: seq<string>)
  {
    forall a, b :: 0 <= a < b < |columns| ==> columns[a] != columns[b]
  }

  /** With distinct column names, columns i < j are linked iff their
      coefficient is above 0.5 or below -0.5. */
  lemma LinkedIffStrong(columns: seq<string>, stat: (nat, nat) -> Correlation, i: nat, j: nat)
    requires DistinctColumns(columns)
    requires i < j < |columns|
    ensures Edge(columns[i], columns[j]) in StockNetworkSpec(false, false, columns, stat).edges
      <==> Strong(stat(i, j).pcc)
  {
    var pairs := Combinations(|columns|);
    CombinationsSpec(|columns|);
    var e := Edge(columns[i], columns[j]);
    EdgesAfterMembers(columns, stat, pairs, |pairs|, e);
    if Strong(stat(i, j).pcc) {
      assert (i, j) in pairs;
      var q :| 0 <= q < |pairs| && pairs[q] == (i, j);
    }
    if e in EdgesAfter(columns, stat, pairs, |pairs|) {
      var q :| 0 <= q < |pairs| && Strong(stat(pairs[q].0, pairs[q].1).pcc)
        && e == Edge(columns[pairs[q].0], columns[pairs[q].1]);
      var a, b := pairs[q].0, pairs[q].1;
      assert pairs[q] in pairs;
      EdgeEnds(columns[i], columns[j], columns[a], columns[b]);
      assert a == i && b == j;
    }
  }

  /** With distinct column names every edge joins two different columns:
      there are no self-loops. */
  lemma NoSelfLoops(columns: seq<string>, stat: (nat, nat) -> Correlation)
    requires DistinctColumns(columns)
    ensures StockNetworkSpec(false, false, columns, stat).Built? ==>
      forall e :: e in StockNetworkSpec(false, false, columns, stat).edges ==>
      exists a, b :: 0 <= a < b < |columns| && e == Edge(columns[a], columns[b]) && columns[a] != columns[b]
  {
    var pairs := Combinations(|columns|);
    CombinationsSpec(|columns|);
    forall e | e in EdgesAfter(columns, stat, pairs, |pairs|)
      ensures exists a, b :: 0 <= a < b < |columns| && e == Edge(columns[a], columns[b]) && columns[a] != columns[b]
    {
      EdgesAfterMembers(columns, stat, pairs, |pairs|, e);
      var q :| 0 <= q < |pairs| && Strong(stat(pairs[q].0, pairs[q].1).pcc)
        && e == Edge(columns[pairs[q].0], columns[pairs[q].1]);
      assert pairs[q] in pairs;
    }
  }

  /** The p-value plays no part in the edges: `alpha` is never used. */
  lemma {:induction false} EdgesIgnorePValue(columns: seq<string>, stat1: (nat, nat) -> Correlation,
                                             stat2: (nat, nat) -> Correlation, pairs: seq<(nat, nat)>, k: nat)
    requires k <= |pairs| && PairsBelow(|columns|, pairs)
    requires forall a: nat, b: nat :: stat1(a, b).pcc == stat2(a, b).pcc
    ensures EdgesAfter(columns, stat1, pairs, k) == EdgesAfter(columns, stat2, pairs, k)
  {
    if k > 0 {
      EdgesIgnorePValue(columns, stat1, stat2, pairs, k - 1);
    }
  }

  /** The threshold is strict: a coefficient of exactly 0.5 or -0.5 gives no
      edge, a perfect anti-correlation does. */
  lemma ThresholdIsStrict()
    ensures !Strong(0.5) && !Strong(-0.5) && Strong(-1.0) && Strong(0.51)
  {
  }

  /** Keys of distinct pairs differ when no column name holds an underscore. */
  lemma KeyInjective(t1: string, t2: string, u1: string, u2: string)
    requires '_' !in t1 && '_' !in u1
    requires t1 + "__" + t2 == u1 + "__" + u2
    ensures t1 == u1 && t2 == u2
  {
    var s := t1 + "__" + t2;
    assert s[|t1|] == '_';
    assert forall m :: 0 <= m < |t1| ==> s[m] == t1[m] && s[m] != '_';
    assert s == u1 + "__" + u2 && s[|u1|] == '_';
    assert forall m :: 0 <= m < |u1| ==> s[m] == u1[m] && s[m] != '_';
    assert |t1| == |u1|;
    assert t1 == s[..|t1|] == u1;
    assert t2 == s[|t1| + 2..] == u2;
  }

  /** With distinct keys, a built network holds n(n-1)/2 records, one per
      unordered pair of columns. */
  lemma RecordCount(columns: seq<string>, stat: (nat, nat) -> Correlation)
    requires |columns| >= 2 && KeysDistinct(columns, Combinations(|columns|))
    ensures StockNetworkSpec(false, false, columns, stat).Built?
    ensures 2 * |StockNetworkSpec(false, false, columns, stat).correlations.keys| == |columns| * (|columns| - 1)
  {
    var pairs := Combinations(|columns|);
    RecordsPerPair(columns, stat, pairs, |pairs|);
    CombinationsSpec(|columns|);
  }

  /** Distinct column names without underscores give every enumerated pair
      its own key, which is what `RecordsPerPair` needs. */
  lemma CombinationKeysDistinct(columns: seq<string>)
    requires DistinctColumns(columns)
    requires forall k :: 0 <= k < |columns| ==> '_' !in columns[k]
    ensures KeysDistinct(columns, Combinations(|columns|))
  {
    var pairs := Combinations(|columns|);
    CombinationsDistinct(|columns|);
    forall a, b | 0 <= a < b < |pairs|
      ensures Key(columns, pairs[a]) != Key(columns, pairs[b])
    {
      var p, q := pairs[a], pairs[b];
      assert p != q;
      if Key(columns, p) == Key(columns, q) {
        KeyInjective(columns[p.0], columns[p.1], columns[q.0], columns[q.1]);
        assert false;
      }
    }
  }
}
