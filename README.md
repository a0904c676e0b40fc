# Stock network pipeline: a Dafny model

This project models the data pipeline that takes the Forbes Global 2000 list
and turns it into a stock correlation network. The pipeline runs in five
stages:

1. `scraping_forbes_2000` sorts the organisations of the Forbes answer by
   rank and keeps six fields of each.
2. `get_company_tickers` looks up a ticker symbol for every company name.
   It stores the results in a dict and writes a numbered checkpoint file
   every 100 companies. `name_convert` does the lookup: it cuts the ticker
   out of the first search link, and `add_string_to_path` builds the
   checkpoint file names.
3. `process_tickers` drops rows whose ticker is a known-bad search result.
   It then drops rows that repeat an earlier ticker, keeping the first.
4. `get_stock_data` downloads one opening-price series per ticker and skips
   the empty ones. It left-joins the rest on their date, from left to right,
   and can fill the gaps with 0.
5. `stock_network` makes every column a node and records the correlation of
   every unordered pair of columns. It links a pair when the coefficient is
   above 0.5 or below -0.5.

Every stage first checks whether its output file exists and returns without
doing anything if it does. `stock_network` checks two files: the correlation
file first, then the network file.

The modules follow the source functions:

| module | models |
|---|---|
| `Text` | Python's `in` on strings, `str.split`, `str(n)` on naturals; `Join` and `ParseNat` are their inverses, used only in the round-trip and injectivity proofs |
| `Dicts` | a Python dict with string keys: insertion order plus a mapping |
| `Stages` | the "output exists ⇒ return" gate shared by every stage |
| `Paths` | `add_string_to_path` |
| `TickerParse` | the URL parse of `name_convert` |
| `CompanyTickers` | the resolving and checkpoint loop of `get_company_tickers` |
| `TickerCleaning` | `process_tickers` |
| `StockData` | the skip-and-fold of `get_stock_data` |
| `Forbes` | the sort and projection of `scraping_forbes_2000` |
| `Network` | `stock_network`, with an undirected graph class |

Loops in the source become methods with `while` loops. Each method is proved
equal to a recursive specification function, and the lemmas state what that
function guarantees. The networkx graph is the class `Network.Graph`, which
`stock_network` updates in place.

## Model

| member | source | states |
|---|---|---|
| Text.Contains | src/dataset.py:150 | Python's `p in s` on strings, by recursion over `s` |
| Text.ContainsIff | src/dataset.py:150 | `'.html' in t` as modelled holds exactly when `.html` occurs at some position of `t` |
| Text.Split | src/dataset.py:93 | `split` yields at least one piece, and no piece contains the separator |
| Text.JoinSplit | src/dataset.py:93 | joining the pieces of a split with the separator gives back the string |
| Text.SplitJoin | src/dataset.py:93 | splitting a join of separator-free pieces gives back the pieces |
| Text.SplitCount | src/dataset.py:93 | a string with m separators splits into m + 1 pieces, so the two-name unpack succeeds exactly when there is one dot |
| Text.SplitSnocSeparator | src/dataset.py:73-75 | a trailing `/` adds one empty last piece, so `link[-2]` is the piece before the trailing slash |
| Text.SplitLast | src/dataset.py:77-78 | the last piece of a split is the text after the last separator |
| Text.TailAfterLastUnique | src/dataset.py:77-78 | the text after the last separator is determined by the string |
| Text.TailAfterLastCompose | src/dataset.py:73-78 | the text after the last `=` of the text after the last `/` is the text after the last `/` or `=` |
| Text.Occurrences | src/dataset.py:93 | the count of a character is 0 exactly when it does not occur |
| Text.OccurrencesUpTo | src/dataset.py:93 | the count up to the last occurrence of a character, plus one, is the total count |
| Text.LastIndexOf | src/dataset.py:77-78 | the index returned holds the character and no later index does |
| Text.NatToString | src/dataset.py:121-125 | `str(n)` is a non-empty string of decimal digits |
| Text.ParseNatToString | src/dataset.py:121-125 | reading back `str(n)` gives `n` |
| Text.NatToStringInjective | src/dataset.py:121 | different counters give different `err<i>` and checkpoint names |
| Dicts.Empty | src/dataset.py:112 | the empty dict is well formed and has no keys |
| Dicts.Put | src/dataset.py:118-121 | an assignment maps the key to the new value; an existing key keeps its place and a new key goes last |
| Stages.Gate | src/dataset.py:141-143 | a stage returns without output exactly when its output file exists, and otherwise writes its result |
| Paths.AddStringToPath | src/dataset.py:85-95 | fails exactly when the file name does not hold exactly one dot, and keeps the parent directories |
| Paths.AddStringToPathName | src/dataset.py:85-95 | for `stem.suffix` the new name is `stem<s>.suffix` in the same directory |
| Paths.AddEmptyStringToPath | src/dataset.py:85-95 | adding the empty string gives back the same path |
| TickerParse.ParseTickerUrl | src/dataset.py:72-78 | cuts the link at `/`; takes the piece before a trailing slash, otherwise the text after the last `=` of the final piece; None where `link[-2]` raises |
| TickerParse.NameConvert | src/dataset.py:60-82 | the ticker of the first search link; None exactly when there is no link or the link is empty, the two cases in which the function raises |
| TickerParse.ParseTickerUrlSpec | src/dataset.py:72-78 | the parse fails exactly on an empty link; after a trailing `/` the ticker is the last segment before it, otherwise the text after the last `/` or `=`; the ticker never holds a `/` |
| TickerParse.TrailingSlash | src/dataset.py:74-75 | a link ending in `/` parses, to the last segment before that slash, which holds no `/` |
| TickerParse.NoTrailingSlash | src/dataset.py:76-78 | a non-empty link not ending in `/` parses, to the text after its last `/` or `=` |
| CompanyTickers.EntryKey | src/dataset.py:117-121 | the key company i writes: its name when the lookup succeeds, `err<i>` when it raises |
| CompanyTickers.EntryValue | src/dataset.py:117-121 | the value company i writes: its ticker, or a single blank |
| CompanyTickers.TickersAfter | src/dataset.py:114-122 | after n companies the dict holds at most n keys |
| CompanyTickers.TickersAfterValid | src/dataset.py:114-122 | every key of `names_tickers` is listed once, and the listed keys are the mapped ones |
| CompanyTickers.LoopAfter | src/dataset.py:114-127 | the loop state after n companies (counter, checkpoints written, dict), or the error `add_string_to_path` raised at a due checkpoint |
| CompanyTickers.LoopAfterSpec | src/dataset.py:114-127 | the loop fails exactly when a checkpoint is due (n >= 100) and the output name does not have exactly one dot; otherwise the counter is n, the dict is the one built from the first n companies, and there are n div 100 checkpoints, checkpoint k being file `k` holding the dict after 100k companies |
| CompanyTickers.DivStep | src/dataset.py:122-125 | the checkpoint count grows by one exactly at multiples of 100 |
| CompanyTickers.CheckpointsExtend | src/dataset.py:123-127 | appending the next checkpoint keeps every checkpoint's path and contents correct |
| CompanyTickers.PathsExtend | src/dataset.py:125 | appending the next checkpoint keeps every checkpoint's path correct |
| CompanyTickers.TablesExtend | src/dataset.py:126-127 | appending the next checkpoint keeps every checkpoint's contents correct |
| CompanyTickers.Lookups | src/dataset.py:115-121 | what `name_convert` gives for each company, None where it raises |
| CompanyTickers.ResolveTickers | src/dataset.py:114-127 | the loop, which calls `name_convert` on each company, computes exactly what `LoopAfter` specifies, including the raised path error |
| CompanyTickers.CheckpointPath | src/dataset.py:125 | the path of checkpoint k: `add_string_to_path(output_path, str(k))`, an error when the name has not exactly one dot |
| CompanyTickers.LoopStep | src/dataset.py:114-127 | one iteration puts the company's entry into the dict and adds a checkpoint exactly when the count reaches a multiple of 100, or fails with the path error |
| CompanyTickers.ErrorPersists | src/dataset.py:123-127 | once `add_string_to_path` raises, that error is the outcome of the whole loop |
| CompanyTickers.GetCompanyTickers | src/dataset.py:98-131 | nothing is done when the output exists; otherwise the result is the loop's outcome |
| CompanyTickers.TickersAfterKeys | src/dataset.py:114-122 | a key is in the dict exactly when one of the first n companies wrote it |
| CompanyTickers.LastWriteWins | src/dataset.py:118-121 | a company's entry stands as long as no later company writes the same key |
| CompanyTickers.SuccessEntry | src/dataset.py:117-118 | a resolved company maps to its ticker unless a later entry has the same key |
| CompanyTickers.FailureEntry | src/dataset.py:119-121 | a failed lookup at index i leaves `err<i>` mapped to a blank unless a later resolved company is named `err<i>` |
| CompanyTickers.KeysOnlyGrow | src/dataset.py:118-127 | the keys of an earlier checkpoint are a prefix of the keys of every later file |
| TickerCleaning.IsInvalidTicker | src/dataset.py:150 | a ticker is invalid when it contains `.html` or is `history`, `profile`, `news` or `1` |
| TickerCleaning.InvalidIndexes | src/dataset.py:149-151 | an index is listed exactly when its ticker is invalid |
| TickerCleaning.TickersMembers | src/dataset.py:158 | a ticker is among the rows' tickers exactly when some row has it |
| TickerCleaning.DropInvalid | src/dataset.py:155 | dropping rows never lengthens the table |
| TickerCleaning.DropDuplicates | src/dataset.py:158 | dropping duplicates never lengthens the table |
| TickerCleaning.Clean | src/dataset.py:149-158 | the rows written: the invalid rows dropped first, then the rows repeating an earlier ticker |
| TickerCleaning.DropRows | src/dataset.py:149-155 | the drop loop keeps exactly the valid rows, in order |
| TickerCleaning.DropDuplicateRows | src/dataset.py:158 | the duplicate loop keeps exactly the rows whose ticker no earlier row has |
| TickerCleaning.CleanTickers | src/dataset.py:145-160 | the output is the input without invalid rows and then without repeats, and the reported count is the number removed |
| TickerCleaning.ProcessTickers | src/dataset.py:134-164 | nothing is done when the output exists; otherwise the cleaned rows are written |
| TickerCleaning.DropInvalidCounts | src/dataset.py:149-155 | no row with an invalid ticker survives, and a row with a valid ticker is kept as often as it occurs |
| TickerCleaning.DropInvalidMembers | src/dataset.py:149-155 | a row survives the first drop exactly when it is in the input and its ticker is valid |
| TickerCleaning.TickersSnoc | src/dataset.py:158 | appending a row adds its ticker to the set of tickers |
| TickerCleaning.DropDuplicatesTickers | src/dataset.py:158 | the duplicate drop loses no ticker |
| TickerCleaning.DropDuplicatesDistinct | src/dataset.py:158 | after the duplicate drop no two rows share a ticker |
| TickerCleaning.FirstIndex | src/dataset.py:158 | the index returned is the first row with the ticker |
| TickerCleaning.DropDuplicatesKeepsFirst | src/dataset.py:158 | every kept row is the first row with its ticker (`keep='first'`) |
| TickerCleaning.FirstIndexUnique | src/dataset.py:158 | the first row with a ticker is unique |
| TickerCleaning.EmbeddingSnoc | src/dataset.py:155-158 | appending a row keeps the order embedding, whether or not the row is kept |
| TickerCleaning.DropInvalidEmbeds | src/dataset.py:155 | the rows kept by the first drop are a subsequence of the input |
| TickerCleaning.DropDuplicatesEmbeds | src/dataset.py:158 | the rows kept by the duplicate drop are a subsequence of the input |
| TickerCleaning.EmbeddingCompose | src/dataset.py:155-158 | a subsequence of a subsequence is a subsequence |
| TickerCleaning.CleanDropsInvalid | src/dataset.py:149-158 | no written row has an invalid ticker |
| TickerCleaning.CleanDistinct | src/dataset.py:149-158 | no two written rows share a ticker |
| TickerCleaning.CleanKeepsFirst | src/dataset.py:149-158 | each written row is the first valid row with its ticker |
| TickerCleaning.CleanKeepsOrder | src/dataset.py:149-158 | the written rows keep their input order |
| TickerCleaning.CleanKeepsEveryValidTicker | src/dataset.py:149-158 | a ticker is written exactly when it is valid and some input row has it |
| StockData.Dates | src/dataset.py:192 | the date index lists each row's date, in order |
| StockData.SeriesTable | src/dataset.py:184-185 | a downloaded series becomes a one-column table named by its ticker, one row per quote, with the same dates; each row holds the opening price under the ticker, or no cell where the price is NaN |
| StockData.MatchingRows | src/dataset.py:192 | the rows matched for a date come from the right table and carry that date |
| StockData.MatchingRowsMembers | src/dataset.py:192 | a row is matched exactly when it is a row of the right table with the date |
| StockData.MatchingRowsAppend | src/dataset.py:192 | the matching is an order-preserving filter: the matches in `a + b` are those in `a` followed by those in `b` |
| StockData.JoinRow | src/dataset.py:192 | one left row becomes one row per matching right row, merged with it, or stays alone with the right columns missing |
| StockData.MergeRows | src/dataset.py:192 | the rows of `left.merge(right, how='left', on='Date')`: the left rows in order, each joined with its matches |
| StockData.MergeLeft | src/dataset.py:192 | a merge's columns are the left columns followed by the right ones |
| StockData.Reduce | src/dataset.py:192 | `reduce` of the left merge over the series, from left to right |
| StockData.FillNa | src/dataset.py:193-194 | the fill keeps the columns, dates and present cells, sets every missing cell of a column to 0, and adds no other cell |
| StockData.Stocks | src/dataset.py:182-189 | the list `stocks` after the first n tickers: the non-empty series, in order |
| StockData.IncludedTickers | src/dataset.py:182-189 | the tickers whose series is not empty, in order |
| StockData.Assemble | src/dataset.py:191-195 | the table written: the fold of the kept series, filled when asked, or nothing when no series had data |
| StockData.CollectStocks | src/dataset.py:182-189 | the download loop keeps exactly the non-empty series, in ticker order |
| StockData.GetStockData | src/dataset.py:167-201 | nothing is done when the output exists; otherwise the table written is the left fold of the kept series, filled if asked, and nothing is written when no series had data |
| StockData.StocksColumns | src/dataset.py:182-192 | there is one series per ticker with data, and the folded table's columns are those tickers in input order |
| StockData.AssembleColumns | src/dataset.py:182-195 | no table is written exactly when no ticker had data; otherwise its columns are the tickers with data |
| StockData.MatchingRowsAtMostOne | src/dataset.py:192 | with distinct dates on the right, at most one row matches, and none exactly when no right row has the date |
| StockData.JoinRowUnique | src/dataset.py:192 | with distinct right dates, a left row stays one row and gains the cells of the right row with its date |
| StockData.MergeRowsUnique | src/dataset.py:192 | with distinct right dates, the left join keeps the left rows one for one, in order, each gaining the matching right cells |
| StockData.ReduceKeepsFirstDates | src/dataset.py:192 | when the joined series have no repeated dates, the fold's index is the first series' dates, in order |
| StockData.StocksNone | src/dataset.py:182-189 | while no ticker has data, `stocks` stays empty |
| StockData.StocksFirst | src/dataset.py:182-189 | the first kept series is that of the first ticker with data |
| StockData.StocksDistinct | src/dataset.py:184-187 | downloads without repeated dates give kept series without repeated dates |
| StockData.AssembleKeepsFirstDates | src/dataset.py:182-194 | when no download repeats a date, a table is written and its index is the dates of the first ticker with data, in order, with or without the fill |
| StockData.AssembleFillNa | src/dataset.py:193-194 | with `fill_na` the written table has no missing cell |
| Forbes.Insert | src/dataset.py:52 | one step of a stable insertion sort: `x` goes after every element whose rank is not larger |
| Forbes.SortByPosition | src/dataset.py:52 | `sorted(..., key=position)` as an insertion sort |
| Forbes.SampleTable | src/dataset.py:43-53 | the six fields of each organisation, in rank order |
| Forbes.Project | src/dataset.py:44-51 | one organisation's row: name, country, revenue (the Sales column), profits, assets and market value |
| Forbes.InsertPermutes | src/dataset.py:52 | one insertion step adds the element and nothing else |
| Forbes.InsertSorted | src/dataset.py:52 | inserting into a rank-sorted list keeps it sorted |
| Forbes.SortSorted | src/dataset.py:52 | `sorted(..., key=position)` is sorted by rank |
| Forbes.SortPermutes | src/dataset.py:52 | the sort is a permutation of the organisations |
| Forbes.InsertStable | src/dataset.py:52 | an insertion keeps equal-ranked organisations in arrival order |
| Forbes.WithPositionSnoc | src/dataset.py:52 | the organisations of one rank in an extended list are the old ones followed by the new one if it has that rank |
| Forbes.SortStable | src/dataset.py:52 | the sort is stable: organisations of equal rank keep their input order |
| Forbes.SampleTableRows | src/dataset.py:43-53 | the table has one row per organisation; row i holds the six fields of the i-th ranked organisation |
| Forbes.SampleTableComplete | src/dataset.py:43-53 | every organisation of the answer has its row in the table |
| Forbes.ScrapingForbes2000 | src/dataset.py:20-57 | nothing is fetched or written when the output exists; otherwise the written table is the projected, rank-sorted list |
| Network.Graph.constructor | src/networks.py:33 | a new graph has no nodes and no edges |
| Network.Graph.AddNodesFrom | src/networks.py:34 | the nodes gain every given name, and the edges are unchanged |
| Network.Graph.AddEdge | src/networks.py:45 | both ends become nodes and the edge between them is added |
| Network.Strong | src/networks.py:44 | the edge rule `r > 0.5 or r < -0.5`, both strict |
| Network.PairsFrom | src/networks.py:39-40 | the pairs `combinations` yields whose first index is at least i, in order |
| Network.Combinations | src/networks.py:39-40 | every enumerated pair indexes two columns |
| Network.PairsFromMembers | src/networks.py:39-40 | the pairs from row i are exactly the index pairs i <= a < b < n |
| Network.PairsFromOrdered | src/networks.py:39-40 | the pairs from row i come in lexicographic order |
| Network.PairsFromLength | src/networks.py:39 | there are (n - i)(n - i - 1)/2 pairs from row i |
| Network.CombinationsSpec | src/networks.py:39-40 | `combinations(tickers, 2)` yields n(n-1)/2 pairs, exactly the index pairs a < b < n, in lexicographic order |
| Network.CombinationsDistinct | src/networks.py:39-40 | no pair is enumerated twice |
| Network.CorrelationsAfter | src/networks.py:35-42 | the dict `correlations` after the first k pairs |
| Network.EdgesAfter | src/networks.py:40-45 | the edges of `G` after the first k pairs |
| Network.ColumnSet | src/networks.py:31-34 | a name is a node exactly when it is a column |
| Network.StockNetworkSpec | src/networks.py:22-48 | the correlation file is checked first, then the network file, and the function returns early exactly when one of them exists; otherwise it raises the renaming ValueError exactly when there are fewer than two columns |
| Network.StockNetwork | src/networks.py:13-60 | the method leaves the gates' outcome, the ValueError when no pair was recorded, or the records, nodes and edges after every pair |
| Network.RecordsNonEmpty | src/networks.py:40-42 | after at least one pair the dict of records is not empty, and before any it is |
| Network.NoRecordsIff | src/networks.py:39-48 | the dict of records is empty exactly when there are fewer than two columns, the case in which the renaming to `PCC` and `p-value` raises |
| Network.CorrelatePairs | src/networks.py:39-45 | the loop records every pair's correlation under `t1__t2` and links the strong pairs, and the nodes stay the columns |
| Network.EveryPairRecorded | src/networks.py:40-42 | every visited pair has its record, whether or not it was linked |
| Network.FreshKey | src/networks.py:42 | with distinct keys, the next pair's key is not yet in the dict |
| Network.RecordsStep | src/networks.py:42 | recording the next pair, whose key is new, keeps one record per pair in visiting order |
| Network.RecordKeysStep | src/networks.py:42 | a fresh key is listed after the earlier ones, so the listed keys follow the visited pairs |
| Network.RecordValuesStep | src/networks.py:42 | with distinct keys, recording the next pair leaves every earlier pair's correlation in place |
| Network.RecordsPerPair | src/networks.py:40-42 | with distinct keys there is one record per pair, in visiting order, holding that pair's coefficient and p-value |
| Network.RecordCount | src/networks.py:40-42 | with distinct keys, a built network records n(n-1)/2 pairs, one per unordered pair of columns |
| Network.Key | src/networks.py:42 | a pair's record key `ticker1 + '__' + ticker2` |
| Network.Edge | src/networks.py:45 | the undirected edge `add_edge(ticker1, ticker2)` adds: the set of its two ends |
| Network.EdgesAfterMembers | src/networks.py:44-45 | an edge exists exactly when a visited pair's coefficient is strong and the edge joins its two columns |
| Network.EdgeEnds | src/networks.py:45 | two undirected edges between distinct ends are equal only when they have the same ends |
| Network.LinkedIffStrong | src/networks.py:40-45 | with distinct column names, columns i < j are linked exactly when their coefficient is above 0.5 or below -0.5 |
| Network.NoSelfLoops | src/networks.py:40-45 | with distinct column names every edge joins two different columns |
| Network.EdgesIgnorePValue | src/networks.py:37-45 | the p-value plays no part in the edges, since `alpha` is never used |
| Network.ThresholdIsStrict | src/networks.py:44 | a coefficient of exactly 0.5 or -0.5 gives no edge |
| Network.KeyInjective | src/networks.py:42 | `t1__t2` determines t1 and t2 when neither first part contains an underscore |
| Network.CombinationKeysDistinct | src/networks.py:39-42 | with distinct column names that hold no underscore, every enumerated pair gets its own key |

## Left out

- The HTTP request to the Forbes API is not modelled. Its organisation list is an input of `Forbes.ScrapingForbes2000`.
- The web search in `name_convert` is not modelled. Each company's first link is an input of `CompanyTickers.GetCompanyTickers`, and None means no link or a raised search.
- The yfinance download is not modelled. Each ticker's series is an input.
- `pearsonr` is not modelled. It is a given function from a pair of column positions to a coefficient and a p-value.
- The CSV text of a dict (`from_dict(orient='index')`) is not modelled. A checkpoint holds the `Dict` itself, whose `keys` give the row order.
- File I/O is not modelled: CSV reading and writing, `write_gexf` and the path existence tests. The existence tests are boolean inputs. The value of a stage is what it would write.
- Floating point is modelled as `real`. NaN is a missing cell, and pandas dtype coercion is left out.
- Plotting is left out: `nx.draw` and `plot_data_df`. So are logging, the progress bars and the density printed at the end.
- The traceback and `pdb.post_mortem` in the `get_stock_data` error handler are left out. An empty list of series is modelled as nothing written.
- Pandas suffixes for clashing column names in a merge are left out. `StockData.MergeRows` unions the cell maps, which matches pandas only when the tickers are distinct.
- Python exceptions other than the ones named are left out, for example a NaN ticker reaching `'.html' in t`.
- `StockData.MergeRowsUnique`, `StockData.ReduceKeepsFirstDates`, `StockData.AssembleKeepsFirstDates`: these are stated for series without repeated dates. With repeated dates the general join in `StockData.MergeRows` multiplies rows, as pandas does, and no lemma describes that case.
- `Network.LinkedIffStrong`, `Network.NoSelfLoops`: these assume distinct column names, as a pandas table read from CSV has.
- `Network.RecordsPerPair`: this assumes that the keys `t1__t2` of different pairs differ. `Network.CombinationKeysDistinct` shows this holds when the column names are distinct and hold no underscore. Otherwise a later pair overwrites an earlier record, as it does in the Python dict, and no lemma describes that case.
- `Dicts.Put`: its contract does not carry the dict's well-formedness. `Dicts.PutValid` states it separately.
- Pandas updates in place (`drop(..., inplace=True)`, `fillna(..., inplace=True)`) are modelled as reassignments of sequence values.
- The networkx graph is reduced to a node set and a set of two-element edges. Node and edge attributes and networkx's own ordering are left out.
- `main.py` and the package initialiser are not part of this model.
