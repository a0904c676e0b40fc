/** The string handling in `name_convert` (src/dataset.py): the first link a
    web search returns for "yahoo finance <company>" is cut into a ticker
    symbol. The search itself is not modelled; its first link is an input. */
module TickerParse {
  import opened Wrappers
  import opened Text

  /** `link.split("/")`, then the piece before a trailing slash, or else the
      text after the last `=` of the final piece. None where Python's negative
      indexing raises IndexError (a URL with a single piece that is empty). */
  function ParseTickerUrl(url: string): Option<string>
  {
    var link := Split(url, '/');
    if link[|link| - 1] == [] then
      if |link| >= 2 then Some(link[|link| - 2]) else None
    else
      var x := Split(link[|link| - 1], '=');
      Some(x[|x| - 1])
  }

  /** `name_convert`: `firstLink` is None when the search yields no link, so
      that `link[0]` raises IndexError. */
  function NameConvert(firstLink: Option<string>): (r: Option<string>)
    ensures r.None? <==> firstLink.None? || firstLink.value == []
  {
    match firstLink
    case None => None
    case Some(url) =>
      ParseTickerUrlSpec(url);
      ParseTickerUrl(url)
  }

  /** What the parse returns, stated without `split`: it fails exactly on the
      empty URL; after a trailing slash it is the last path segment before
      that slash; otherwise it is the text after the last `/` or `=`. The
      ticker never contains a slash. */
  lemma ParseTickerUrlSpec(url: string)
    ensures ParseTickerUrl(url).None? <==> url == []
    ensures ParseTickerUrl(url).Some? ==> '/' !in ParseTickerUrl(url).value
    ensures url != [] && url[|url| - 1] == '/' ==>
      IsTailAfterLast(url[..|url| - 1], ParseTickerUrl(url).value, {'/'})
    ensures url != [] && url[|url| - 1] != '/' ==>
      IsTailAfterLast(url, ParseTickerUrl(url).value, {'/', '='})
  {
    if url == [] {
      assert Split(url, '/') == [[]];
    } else if url[|url| - 1] == '/' {
      TrailingSlash(url);
    } else {
      NoTrailingSlash(url);
      TailHasNoStop(url, ParseTickerUrl(url).value, {'/', '='}, '/');
    }
  }

  /** After a trailing slash the ticker is the last segment before it. */
  lemma TrailingSlash(url: string)
    requires url != [] && url[|url| - 1] == '/'
    ensures ParseTickerUrl(url).Some?
    ensures IsTailAfterLast(url[..|url| - 1], ParseTickerUrl(url).value, {'/'})
    ensures '/' !in ParseTickerUrl(url).value
  {
    var link := Split(url, '/');
    var pre := url[..|url| - 1];
    assert url == pre + ['/'];
    SplitSnocSeparator(pre, '/');
    var front := Split(pre, '/');
    assert link[|link| - 2] == front[|front| - 1];
    SplitLast(pre, '/');
  }

  /** Otherwise the ticker is the text after the last `/` or `=`. */
  lemma NoTrailingSlash(url: string)
    requires url != [] && url[|url| - 1] != '/'
    ensures ParseTickerUrl(url).Some?
    ensures IsTailAfterLast(url, ParseTickerUrl(url).value, {'/', '='})
  {
    var link := Split(url, '/');
    SplitLast(url, '/');
    var last := link[|link| - 1];
    assert last != [] by {
      assert url[|url| - 1] !in {'/'};
    }
    var x := Split(last, '=');
    assert ParseTickerUrl(url) == Some(x[|x| - 1]);
    SplitLast(last, '=');
    TailAfterLastCompose(url, last, x[|x| - 1], '/', '=');
  }

  /** A tail after the last stop character holds no stop character. */
  lemma TailHasNoStop(s: string, r: string, stops: set<char>, c: char)
    requires IsTailAfterLast(s, r, stops) && c in stops
    ensures c !in r
  {
    forall k | 0 <= k < |r| ensures r[k] != c {
      assert r[k] !in stops;
    }
  }

}
