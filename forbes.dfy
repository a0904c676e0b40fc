/** The record reshaping of `scraping_forbes_2000` (src/dataset.py): the
    organisations of the Forbes Global 2000 answer are sorted by their rank
    with Python's stable `sorted`, and six fields of each are kept. The HTTP
    request is not modelled: the organisation list is an input. */
module Forbes {
  import opened Stages

  /** One entry of `organizationsLists` in the JSON answer. */
  datatype Organization = Organization(
    organizationName: string, country: string, revenue: real, profits: real,
    assets: real, marketValue: real, position: int)

  /** One row of the written table: Company, Country, Sales, Profits,
      Assets, Market Value. */
  datatype CompanyRow = CompanyRow(
    company: string, country: string, sales: real, profits: real,
    assets: real, marketValue: real)

  ghost predicate SortedByPosition(s: seq<Organization>)
  {
    forall i, j :: 0 <= i < j < |s| ==> s[i].position <= s[j].position
  }

  /** Places `x` after every element of `s` whose position is not larger,
      which is what keeps the sort stable. */
  function Insert(s: seq<Organization>, x: Organization): seq<Organization>
  {
    if s == [] || s[|s| - 1].position <= x.position then s + [x]
    else Insert(s[..|s| - 1], x) + [s[|s| - 1]]
  }

  /** Inserting adds `x` and nothing else. */
  lemma {:induction false} InsertPermutes(s: seq<Organization>, x: Organization)
    ensures multiset(Insert(s, x)) == multiset(s) + multiset{x}
  {
    if !(s == [] || s[|s| - 1].position <= x.position) {
      var front := s[..|s| - 1];
      InsertPermutes(front, x);
      assert s == front + [s[|s| - 1]];
    }
  }

  /** `sorted(organizations, key=lambda k: k["position"])`. */
  function SortByPosition(orgs: seq<Organization>): seq<Organization>
  {
    if orgs == [] then []
    else Insert(SortByPosition(orgs[..|orgs| - 1]), orgs[|orgs| - 1])
  }

  /** The organisations ranked `p`, in the order they appear. */
  function WithPosition(s: seq<Organization>, p: int): seq<Organization>
  {
    if s == [] then []
    else WithPosition(s[..|s| - 1], p) + Ranked(s[|s| - 1], p)
  }

  /** `o` alone if it is ranked `p`, nothing otherwise. */
  function Ranked(o: Organization, p: int): seq<Organization>
  {
    if o.position == p then [o] else []
  }

  function Project(o: Organization): (row: CompanyRow)
  {
    CompanyRow(o.organizationName, o.country, o.revenue, o.profits, o.assets, o.marketValue)
  }

  /** `sample_table`: the six fields of each organisation, in rank order. */
  function SampleTable(orgs: seq<Organization>): (table: seq<CompanyRow>)
  {
    var sorted := SortByPosition(orgs);
    seq(|sorted|, i requires 0 <= i < |sorted| => Project(sorted[i]))
  }

  /** `scraping_forbes_2000`: nothing is fetched or written when the output
      file exists. */
  function ScrapingForbes2000(outputExists: bool, orgs: seq<Organization>): (r: Stage<seq<CompanyRow>>)
    ensures r.Skipped? <==> outputExists
    ensures r.Wrote? ==> r.output == SampleTable(orgs)
  {
    Gate(outputExists, SampleTable(orgs))
  }

  // Properties of the sort.

  /** Inserting into a sorted sequence keeps it sorted. */
  lemma {:induction false} InsertSorted(s: seq<Organization>, x: Organization)
    requires SortedByPosition(s)
    ensures SortedByPosition(Insert(s, x))
  {
    if s == [] || s[|s| - 1].position <= x.position {
      var r := s + [x];
      forall i, j | 0 <= i < j < |r| ensures r[i].position <= r[j].position {
        if j == |s| && i < |s| - 1 {
          assert s[i].position <= s[|s| - 1].position;
        }
      }
    } else {
      var front := s[..|s| - 1];
      var last := s[|s| - 1];
      InsertSorted(front, x);
      var ins := Insert(front, x);
      InsertPermutes(front, x);
      forall y | y in ins ensures y.position <= last.position {
        assert y in multiset(ins);
        if y != x {
          assert y in multiset(front);
          var i :| 0 <= i < |front| && front[i] == y;
          assert s[i] == y;
        }
      }
      var r := ins + [last];
      forall i, j | 0 <= i < j < |r| ensures r[i].position <= r[j].position {
        if j == |ins| {
          assert r[i] in ins;
        } else {
          assert r[i] == ins[i] && r[j] == ins[j];
        }
      }
    }
  }

  /** The sort orders by position. */
  lemma {:induction false} SortSorted(orgs: seq<Organization>)
    ensures SortedByPosition(SortByPosition(orgs))
  {
    if orgs != [] {
      SortSorted(orgs[..|orgs| - 1]);
      InsertSorted(SortByPosition(orgs[..|orgs| - 1]), orgs[|orgs| - 1]);
    }
  }

  /** The sort neither loses nor adds an organisation. */
  lemma {:induction false} SortPermutes(orgs: seq<Organization>)
    ensures multiset(SortByPosition(orgs)) == multiset(orgs)
  {
    if orgs != [] {
      var front := orgs[..|orgs| - 1];
      SortPermutes(front);
      InsertPermutes(SortByPosition(front), orgs[|orgs| - 1]);
      assert orgs == front + [orgs[|orgs| - 1]];
    }
  }

  /** Inserting keeps the relative order of equally ranked organisations and
      puts `x` after them. */
  lemma {:induction false} InsertStable(s: seq<Organization>, x: Organization, p: int)
    ensures WithPosition(Insert(s, x), p) == WithPosition(s, p) + Ranked(x, p)
  {
    if s == [] || s[|s| - 1].position <= x.position {
      WithPositionSnoc(s, x, p);
    } else {
      var front := s[..|s| - 1];
      var last := s[|s| - 1];
      var ins := Insert(front, x);
      calc {
        WithPosition(Insert(s, x), p);
        { assert Insert(s, x) == ins + [last]; WithPositionSnoc(ins, last, p); }
        WithPosition(ins, p) + Ranked(last, p);
        { InsertStable(front, x, p); }
        WithPosition(front, p) + Ranked(x, p) + Ranked(last, p);
        { assert Ranked(x, p) == [] || Ranked(last, p) == []; }
        WithPosition(front, p) + Ranked(last, p) + Ranked(x, p);
        { assert s == front + [last]; WithPositionSnoc(front, last, p); }
        WithPosition(s, p) + Ranked(x, p);
      }
    }
  }

  lemma WithPositionSnoc(s: seq<Organization>, x: Organization, p: int)
    ensures WithPosition(s + [x], p) == WithPosition(s, p) + Ranked(x, p)
  {
    assert (s + [x])[..|s|] == s;
  }

  /** The sort is stable: the organisations sharing a position keep their
      input order. */
  lemma {:induction false} SortStable(orgs: seq<Organization>, p: int)
    ensures WithPosition(SortByPosition(orgs), p) == WithPosition(orgs, p)
  {
    if orgs != [] {
      var front := orgs[..|orgs| - 1];
      SortStable(front, p);
      InsertStable(SortByPosition(front), orgs[|orgs| - 1], p);
    }
  }

  /** The table has one row per organisation, the i-th row holding the six
      fields of the i-th ranked organisation. */
  lemma SampleTableRows(orgs: seq<Organization>)
    ensures |SampleTable(orgs)| == |orgs|
    ensures forall i :: 0 <= i < |orgs| ==>
      var o := SortByPosition(orgs)[i];
      SampleTable(orgs)[i] == CompanyRow(o.organizationName, o.country, o.revenue, o.profits, o.assets, o.marketValue)
  {
    SortPermutes(orgs);
    assert |multiset(SortByPosition(orgs))| == |multiset(orgs)|;
  }

  /** Every organisation of the answer has its row in the table. */
  lemma SampleTableComplete(orgs: seq<Organization>)
    ensures forall o :: o in orgs ==> Project(o) in SampleTable(orgs)
  {
    SortPermutes(orgs);
    var sorted := SortByPosition(orgs);
    forall o | o in orgs ensures Project(o) in SampleTable(orgs) {
      assert o in multiset(sorted);
      var i :| 0 <= i < |sorted| && sorted[i] == o;
      assert SampleTable(orgs)[i] == Project(o);
    }
  }
}
