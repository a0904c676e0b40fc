/** The loop of `get_company_tickers` (src/dataset.py): every company name is
    resolved to a ticker, the result is stored in a dict, and every 100
    companies the dict so far is written to a numbered checkpoint file. */
module CompanyTickers {
  import opened Wrappers
  import opened Text
  import opened Paths
  import opened Dicts
  import opened Stages
  import opened TickerParse

  /** A checkpoint file: where it is written and the dict it holds. */
  datatype Checkpoint = Checkpoint(path: Path, table: Dict<string>)

  /** The loop state: `counter`, the checkpoints written so far in order, and
      `names_tickers`. */
  datatype Run = Run(counter: nat, checkpoints: seq<Checkpoint>, namesTickers: Dict<string>)

  /** The key under which company i is recorded: its name when the lookup
      succeeds, `err<i>` when it raises. */
  function EntryKey(names: seq<string>, lookups: seq<Option<string>>, i: nat): string
    requires i < |names| == |lookups|
  {
    match lookups[i]
    case Some(_) => names[i]
    case None => "err" + NatToString(i)
  }

  /** The value recorded for company i: its ticker, or a single blank. */
  function EntryValue(names: seq<string>, lookups: seq<Option<string>>, i: nat): string
    requires i < |names| == |lookups|
  {
    match lookups[i]
    case Some(t) => t
    case None => " "
  }

  /** `names_tickers` after the first n companies. */
  function TickersAfter(names: seq<string>, lookups: seq<Option<string>>, n: nat): (d: Dict<string>)
    requires n <= |names| == |lookups|
    ensures |d.keys| <= n
  {
    if n == 0 then Empty()
    else Put(TickersAfter(names, lookups, n - 1), EntryKey(names, lookups, n - 1), EntryValue(names, lookups, n - 1))
  }

  /** Every company's key is listed once in `names_tickers`, and the listed
      keys are the mapped ones. */
  lemma {:induction false} TickersAfterValid(names: seq<string>, lookups: seq<Option<string>>, n: nat)
    requires n <= |names| == |lookups|
    ensures Valid(TickersAfter(names, lookups, n))
  {
    if n > 0 {
      TickersAfterValid(names, lookups, n - 1);
      PutValid(TickersAfter(names, lookups, n - 1), EntryKey(names, lookups, n - 1), EntryValue(names, lookups, n - 1));
    }
  }

  /** The path of checkpoint k: the output path with `k` before its
      extension. */
  function CheckpointPath(outputPath: Path, k: nat): Result<Path, PathError>
  {
    AddStringToPath(outputPath, NatToString(k))
  }

  /** The state after n iterations of the loop, or the error that
      `add_string_to_path` raised on the way. */
  function LoopAfter(outputPath: Path, names: seq<string>, lookups: seq<Option<string>>, n: nat): (r: Result<Run, PathError>)
    requires n <= |names| == |lookups|
  {
    if n == 0 then Ok(Run(0, [], Empty()))
    else
      match LoopAfter(outputPath, names, lookups, n - 1)
      case Err(e) => Err(e)
      case Ok(run) =>
        var d := Put(run.namesTickers, EntryKey(names, lookups, n - 1), EntryValue(names, lookups, n - 1));
        if n % 100 != 0 then Ok(Run(n, run.checkpoints, d))
        else
          match CheckpointPath(outputPath, n / 100)
          case Err(e) => Err(e)
          case Ok(p) => Ok(Run(n, run.checkpoints + [Checkpoint(p, d)], d))
  }

  /** Checkpoint k (0-based) is file number k + 1 and holds the dict after the
      first 100 * (k + 1) companies. */
  ghost predicate CheckpointsAgree(outputPath: Path, names: seq<string>, lookups: seq<Option<string>>, checkpoints: seq<Checkpoint>)
    requires |names| == |lookups|
  {
    && 100 * |checkpoints| <= |names|
    && CheckpointPathsAgree(outputPath, checkpoints)
    && CheckpointTablesAgree(names, lookups, checkpoints)
  }

  ghost predicate CheckpointPathsAgree(outputPath: Path, checkpoints: seq<Checkpoint>)
  {
    forall k {:trigger checkpoints[k]} :: 0 <= k < |checkpoints| ==> Ok(checkpoints[k].path) == CheckpointPath(outputPath, k + 1)
  }

  ghost predicate CheckpointTablesAgree(names: seq<string>, lookups: seq<Option<string>>, checkpoints: seq<Checkpoint>)
    requires 100 * |checkpoints| <= |names| == |lookups|
  {
    forall k {:trigger checkpoints[k]} :: 0 <= k < |checkpoints| ==> checkpoints[k].table == TickersAfter(names, lookups, 100 * (k + 1))
  }

  /** What the loop leaves behind after n companies: the run fails exactly
      when a checkpoint is due and the output name does not have one dot;
      otherwise the counter is n, the dict is the one built from the first n
      companies, and there are floor(n / 100) checkpoints, the k-th holding
      the dict after 100 * k companies. */
  lemma {:induction false} LoopAfterSpec(outputPath: Path, names: seq<string>, lookups: seq<Option<string>>, n: nat)
    requires n <= |names| == |lookups|
    ensures LoopAfter(outputPath, names, lookups, n).Err? <==> n >= 100 && Occurrences(outputPath.name, '.') != 1
    ensures LoopAfter(outputPath, names, lookups, n).Ok? ==>
      var run := LoopAfter(outputPath, names, lookups, n).value;
      && run.counter == n
      && run.namesTickers == TickersAfter(names, lookups, n)
      && |run.checkpoints| == n / 100
      && CheckpointsAgree(outputPath, names, lookups, run.checkpoints)
  {
    if n > 0 {
      LoopAfterSpec(outputPath, names, lookups, n - 1);
      DivStep(n);
      var prev := LoopAfter(outputPath, names, lookups, n - 1);
      if prev.Ok? {
        var run := prev.value;
        var d := TickersAfter(names, lookups, n);
        if n % 100 == 0 {
          var p := CheckpointPath(outputPath, n / 100);
          if p.Ok? {
            CheckpointsExtend(outputPath, names, lookups, run.checkpoints, Checkpoint(p.value, d));
          }
        }
      }
    }
  }

  lemma DivStep(n: nat)
    requires n > 0
    ensures n % 100 != 0 ==> n / 100 == (n - 1) / 100
    ensures n % 100 == 0 ==> n / 100 == (n - 1) / 100 + 1 && n >= 100 && 100 * (n / 100) == n
  {
  }

  lemma CheckpointsExtend(outputPath: Path, names: seq<string>, lookups: seq<Option<string>>,
                          checkpoints: seq<Checkpoint>, checkpoint: Checkpoint)
    requires |names| == |lookups|
    requires CheckpointsAgree(outputPath, names, lookups, checkpoints)
    requires Ok(checkpoint.path) == CheckpointPath(outputPath, |checkpoints| + 1)
    requires 100 * (|checkpoints| + 1) <= |names|
    requires checkpoint.table == TickersAfter(names, lookups, 100 * (|checkpoints| + 1))
    ensures CheckpointsAgree(outputPath, names, lookups, checkpoints + [checkpoint])
  {
    PathsExtend(outputPath, checkpoints, checkpoint);
    TablesExtend(names, lookups, checkpoints, checkpoint);
  }

  lemma PathsExtend(outputPath: Path, checkpoints: seq<Checkpoint>, checkpoint: Checkpoint)
    requires CheckpointPathsAgree(outputPath, checkpoints)
    requires Ok(checkpoint.path) == CheckpointPath(outputPath, |checkpoints| + 1)
    ensures CheckpointPathsAgree(outputPath, checkpoints + [checkpoint])
  {
    var extended := checkpoints + [checkpoint];
    assert forall k :: 0 <= k < |checkpoints| ==> extended[k] == checkpoints[k];
  }

  lemma TablesExtend(names: seq<string>, lookups: seq<Option<string>>, checkpoints: seq<Checkpoint>, checkpoint: Checkpoint)
    requires 100 * (|checkpoints| + 1) <= |names| == |lookups|
    requires CheckpointTablesAgree(names, lookups, checkpoints)
    requires checkpoint.table == TickersAfter(names, lookups, 100 * (|checkpoints| + 1))
    ensures CheckpointTablesAgree(names, lookups, checkpoints + [checkpoint])
  {
    var extended := checkpoints + [checkpoint];
    forall k | 0 <= k < |extended|
      ensures extended[k].table == TickersAfter(names, lookups, 100 * (k + 1))
    {
      if k < |checkpoints| {
        assert extended[k] == checkpoints[k];
        assert checkpoints[k].table == TickersAfter(names, lookups, 100 * (k + 1));
      } else {
        assert k == |checkpoints| && extended[k] == checkpoint;
      }
    }
  }

  /** What `name_convert` gives for each company, None where it raises;
      `firstLinks[i]` is the first search link for company i, if any. */
  function Lookups(firstLinks: seq<Option<string>>): (lookups: seq<Option<string>>)
    ensures |lookups| == |firstLinks|
    ensures forall i :: 0 <= i < |firstLinks| ==> lookups[i] == NameConvert(firstLinks[i])
  {
    seq(|firstLinks|, i requires 0 <= i < |firstLinks| => NameConvert(firstLinks[i]))
  }

  /** The resolving loop: each company's name goes through `name_convert`. */
  method ResolveTickers(outputPath: Path, names: seq<string>, firstLinks: seq<Option<string>>)
    returns (r: Result<Run, PathError>)
    requires |firstLinks| == |names|
    ensures r == LoopAfter(outputPath, names, Lookups(firstLinks), |names|)
  {
    ghost var lookups := Lookups(firstLinks);
    var namesTickers: Dict<string> := Empty();
    var checkpoints: seq<Checkpoint> := [];
    var counter := 0;
    while counter < |names|
      invariant counter <= |names|
      invariant LoopAfter(outputPath, names, lookups, counter) == Ok(Run(counter, checkpoints, namesTickers))
    {
      LoopStep(outputPath, names, lookups, counter, Run(counter, checkpoints, namesTickers));
      match NameConvert(firstLinks[counter]) {
        case Some(ticker) =>
          namesTickers := Put(namesTickers, names[counter], ticker);
        case None =>
          namesTickers := Put(namesTickers, "err" + NatToString(counter), " ");
      }
      counter := counter + 1;
      if counter % 100 == 0 {
        var newOutputPath := CheckpointPath(outputPath, counter / 100);
        if newOutputPath.Err? {
          ErrorPersists(outputPath, names, lookups, counter, |names|);
          return Err(newOutputPath.error);
        }
        checkpoints := checkpoints + [Checkpoint(newOutputPath.value, namesTickers)];
      }
    }
    return Ok(Run(counter, checkpoints, namesTickers));
  }

  /** One more company: its entry is put into the dict, and a checkpoint is
      taken when the count reaches a multiple of 100. */
  lemma LoopStep(outputPath: Path, names: seq<string>, lookups: seq<Option<string>>, n: nat, run: Run)
    requires n < |names| == |lookups|
    requires LoopAfter(outputPath, names, lookups, n) == Ok(run)
    ensures LoopAfter(outputPath, names, lookups, n + 1) ==
      var d := Put(run.namesTickers, EntryKey(names, lookups, n), EntryValue(names, lookups, n));
      if (n + 1) % 100 != 0 then Ok(Run(n + 1, run.checkpoints, d))
      else match CheckpointPath(outputPath, (n + 1) / 100)
        case Err(e) => Err(e)
        case Ok(p) => Ok(Run(n + 1, run.checkpoints + [Checkpoint(p, d)], d))
  {
  }

  /** Once raised, the error ends the loop: it is what the function raises. */
  lemma {:induction false} ErrorPersists(outputPath: Path, names: seq<string>, lookups: seq<Option<string>>, m: nat, n: nat)
    requires m <= n <= |names| == |lookups|
    requires LoopAfter(outputPath, names, lookups, m).Err?
    ensures LoopAfter(outputPath, names, lookups, n) == LoopAfter(outputPath, names, lookups, m)
  {
    if m < n {
      ErrorPersists(outputPath, names, lookups, m, n - 1);
    }
  }

  /** `get_company_tickers`: the skip gate, then the loop. On success it
      writes every checkpoint and then the final dict to `outputPath`. */
  method GetCompanyTickers(outputExists: bool, outputPath: Path, names: seq<string>, firstLinks: seq<Option<string>>)
    returns (r: Stage<Result<Run, PathError>>)
    requires |firstLinks| == |names|
    ensures r == Gate(outputExists, LoopAfter(outputPath, names, Lookups(firstLinks), |names|))
  {
    if outputExists {
      return Skipped;
    }
    var run := ResolveTickers(outputPath, names, firstLinks);
    return Wrote(run);
  }

  /** The keys of the dict after n companies are exactly the keys written by
      those companies, so there are at most n of them. */
  lemma {:induction false} TickersAfterKeys(names: seq<string>, lookups: seq<Option<string>>, n: nat, key: string)
    requires n <= |names| == |lookups|
    ensures key in TickersAfter(names, lookups, n).values <==>
      exists i :: 0 <= i < n && EntryKey(names, lookups, i) == key
  {
    if n > 0 {
      TickersAfterKeys(names, lookups, n - 1, key);
      if EntryKey(names, lookups, n - 1) == key {
        assert 0 <= n - 1 < n && EntryKey(names, lookups, n - 1) == key;
      }
    }
  }

  /** Last write wins: the entry of company i stands as long as no later
      company writes the same key. */
  lemma {:induction false} LastWriteWins(names: seq<string>, lookups: seq<Option<string>>, n: nat, i: nat)
    requires i < n <= |names| == |lookups|
    requires forall j :: i < j < n ==> EntryKey(names, lookups, j) != EntryKey(names, lookups, i)
    ensures EntryKey(names, lookups, i) in TickersAfter(names, lookups, n).values
    ensures TickersAfter(names, lookups, n).values[EntryKey(names, lookups, i)] == EntryValue(names, lookups, i)
  {
    if i < n - 1 {
      LastWriteWins(names, lookups, n - 1, i);
    }
  }

  /** A company whose lookup succeeds maps to its ticker, unless a later
      entry writes the same key; in particular a later company of the same
      name that resolves overwrites it. */
  lemma SuccessEntry(names: seq<string>, lookups: seq<Option<string>>, n: nat, i: nat)
    requires i < n <= |names| == |lookups|
    requires lookups[i].Some?
    requires forall j :: i < j < n ==> EntryKey(names, lookups, j) != names[i]
    ensures names[i] in TickersAfter(names, lookups, n).values
    ensures TickersAfter(names, lookups, n).values[names[i]] == lookups[i].value
  {
    LastWriteWins(names, lookups, n, i);
  }

  /** A failed lookup at index i leaves `err<i>` mapped to a blank, unless a
      later company is itself named `err<i>` and resolves. */
  lemma FailureEntry(names: seq<string>, lookups: seq<Option<string>>, n: nat, i: nat)
    requires i < n <= |names| == |lookups|
    requires lookups[i].None?
    requires forall j :: i < j < n && lookups[j].Some? ==> names[j] != "err" + NatToString(i)
    ensures "err" + NatToString(i) in TickersAfter(names, lookups, n).values
    ensures TickersAfter(names, lookups, n).values["err" + NatToString(i)] == " "
  {
    forall j | i < j < n
      ensures EntryKey(names, lookups, j) != EntryKey(names, lookups, i)
    {
      if lookups[j].None? {
        NatToStringInjective(i, j);
        assert ("err" + NatToString(j))[3..] == NatToString(j);
        assert ("err" + NatToString(i))[3..] == NatToString(i);
      }
    }
    LastWriteWins(names, lookups, n, i);
  }

  /** Keys keep their first-insertion order: the rows of an earlier
      checkpoint are the first rows of every later file. */
  lemma {:induction false} KeysOnlyGrow(names: seq<string>, lookups: seq<Option<string>>, m: nat, n: nat)
    requires m <= n <= |names| == |lookups|
    ensures TickersAfter(names, lookups, m).keys <= TickersAfter(names, lookups, n).keys
  {
    if m < n {
      KeysOnlyGrow(names, lookups, m, n - 1);
    }
  }
}
