# acoes_inf_comet_v2: a verified model of the stock dashboard's data logic

This project models the logic of a small stock-market dashboard. The rest of the application is React view code and is not modelled.

The modelled logic:

- **The record adapter** (`src/utils/dataUtils.js`):
  - a market snapshot is a dictionary from ticker to `{info, historico}`;
  - the adapter turns it into a list of flat stock records, using JavaScript `||` fallbacks for missing fields;
  - it also provides the ticker lookup and the market summary (count and average market cap).
- **The dashboard views** (`src/pages/Dashboard.jsx`):
  - three rankings, each a stably sorted copy of the records in descending order of P/E, dividend yield or daily change, with the highest and lowest values read off the ends;
  - the list of records trading within 5% of their 52-week high, cut to five rows.
- **The stock table** (`src/components/StockTable.jsx`):
  - a stable sort on the clicked column in either direction;
  - the click toggle that picks the direction;
  - a case-insensitive search over ticker and company name.
- **The two maintenance scripts** (`scripts/fix_json.js`, `scripts/break_json.js`). They rewrite the data file textually: `NaN` to `null`, and back.

Modules and files:

| file | module | contents |
|---|---|---|
| `wrappers.dfy` | `Wrappers` | `Option`, `Result` |
| `data_utils.dfy` | `DataUtils` | raw JSON values and truthiness; the record adapter; lookup; summary |
| `seqs.dfy` | `Seqs` | `Array.prototype.filter` and its laws |
| `sorting.dfy` | `Sorting` | a stable insertion sort over any comparator: a specification function, then an in-place array method proved equal to it |
| `comparators.dfy` | `Comparators` | JavaScript `<` on strings, sort keys, the table's and the dashboard's comparators, and the proof that both are consistent |
| `dashboard.dfy` | `Dashboard` | rankings, picks, near-high list |
| `stock_table.dfy` | `StockTableView` | the sort state machine, sorted and filtered rows, the component as a class |
| `text.dfy` | `Text` | `includes`, global literal `replace`, ASCII `toLowerCase`, and their laws |
| `fix_json.dfy`, `break_json.dfy` | `FixJson`, `BreakJson` | the two rewrite chains and their guards |

How the source is represented:

- Numbers are `real`.
- A raw JSON scalar is `Absent | Null | Num | Str`, with JavaScript truthiness.
- The dictionary is its entries in iteration order.
- Timer-wrapped promises become direct results. A rejected lookup is `Failure(NotFound)`.

Four behaviours of the code are easy to get wrong, and the model keeps them as written:

- **Metadata entries are not skipped.** The adapter maps every dictionary entry, so a metadata key such as `last_updated` becomes a record made of defaults (`MetadataEntryBecomesDefaultRecord`).
- **A null entry value makes the adapter throw.** Reading `.info` of `null` throws a `TypeError`, modelled as `Failure(TypeError(key))`.
- **`aboveHigh12M` reads `info.currentPrice` directly**, not the resolved `price`. With a truthy 52-week high and a `null` current price it is -100, not 0 (`AboveHighZero`).
- **The sanitiser rewrites only `": NaN"` and `":NaN"`.** `Infinity`, and `NaN` with other spacing, are left alone (`FixLeavesOtherSpellings`).

## Model

| member | source | states |
|---|---|---|
| DataUtils.Truthy | src/utils/dataUtils.js:17-31 | JavaScript truthiness of a raw value: `undefined`, `null`, `0` and `""` are falsy, every other number and string is truthy |
| DataUtils.Or | src/utils/dataUtils.js:17-31 | JavaScript's logical or of two values: the result is one of its two operands, and it is truthy exactly when either operand is |
| DataUtils.FormatHistory | src/utils/dataUtils.js:7-13 | one point per history item, in order, with `date` from `Date` and `close` from `Close` |
| DataUtils.AboveHigh | src/utils/dataUtils.js:30 | with a truthy 52-week high h, the result times h is (currentPrice − h) × 100, a null price counting as 0; with a falsy high it is 0, so there is no division by zero |
| DataUtils.AboveHighExample | src/utils/dataUtils.js:30 | a price of 10 under a high of 20 gives -50 |
| DataUtils.AboveHighZero | src/utils/dataUtils.js:30 | the value is 0 exactly when the high is falsy or the current price equals it; a truthy high with a null price gives -100 |
| DataUtils.AdaptRecord | src/utils/dataUtils.js:15-32 | every field of the record: `ticker` is the key; `name`, `price`, `pe` and `dividendYield` take the first truthy of their two sources, else the ticker or 0; single-source fields take their source when truthy, else 0 or the fixed default text; `history` is the formatted history; `name` is non-empty whenever the ticker is |
| DataUtils.AdaptStockData | src/utils/dataUtils.js:4-34 | fails exactly when some entry value is null, with `TypeError` naming the first such key; otherwise there is one record per entry, in entry order, each with the key as ticker and each the adapted record of its entry (`info` and `historico` defaulting to empty) |
| DataUtils.TickersUnique | src/utils/dataUtils.js:5-16 | distinct dictionary keys give distinct tickers |
| DataUtils.MetadataEntryBecomesDefaultRecord | src/utils/dataUtils.js:5-31 | a non-object entry such as `last_updated` is not skipped: it becomes a record named after its key, with the default sector and description, zero numbers and empty history |
| DataUtils.FindByTicker | src/utils/dataUtils.js:50 | `None` exactly when no record has that ticker; otherwise the first record with that ticker |
| DataUtils.GetStockByTicker | src/utils/dataUtils.js:47-58 | fails with "Stock not found" exactly when no record has the ticker; otherwise succeeds with the first record carrying it |
| DataUtils.TotalMarketCap | src/utils/dataUtils.js:64 | the `reduce` sum of the market caps, taken left to right from 0; its bounds are stated by `TotalMarketCapBounds` |
| DataUtils.MarketSummary | src/utils/dataUtils.js:63-65 | `totalStocks` is the record count; `avgMarketCap` is the market-cap sum divided by the count, or 0 for no records |
| DataUtils.TotalMarketCapBounds | src/utils/dataUtils.js:64 | when every market cap lies in [lo, hi], the sum lies in [n·lo, n·hi] |
| DataUtils.AverageWithinBounds | src/utils/dataUtils.js:63-65 | when the list is non-empty and every market cap lies in [lo, hi], so does the average |
| Seqs.Filter | src/pages/Dashboard.jsx:47 | the result is no longer than the input and holds exactly the elements that pass |
| Seqs.FilterIsSubsequence | src/pages/Dashboard.jsx:47 | the filter result is a subsequence of its input, order kept |
| Seqs.FilterMultiset | src/pages/Dashboard.jsx:47 | each passing element is kept as often as it occurs, and each failing one is dropped |
| Sorting.Insert | src/components/StockTable.jsx:12-20 | one insertion step of the sort: the element goes after every element it need not precede, counting from the right, so the list grows by one; `InsertPermutes`, `InsertSorted` and `InsertStable` give its laws |
| Sorting.Sort | src/components/StockTable.jsx:10-20 | `Array.prototype.sort` with a comparator, as a stable insertion sort on a value; it keeps the length, and `SortCorrect` states the rest |
| Sorting.SortCorrect | src/components/StockTable.jsx:10-20 | for a consistent comparator, the sort is a permutation of its input, and no later element must come before an earlier one; elements with equal keys keep their input order (stability) |
| Sorting.SortFirst | src/pages/Dashboard.jsx:35-36 | the first element of a sorted non-empty list is an input element that nothing must precede, and no earlier input element shares its key |
| Sorting.SortLast | src/pages/Dashboard.jsx:37 | the last element of a sorted non-empty list is an input element that must precede nothing, and no later input element shares its key |
| Sorting.InsertInPlace | src/components/StockTable.jsx:12-20 | shifting `a[i]` left into the sorted prefix leaves the prefix equal to `Insert` of the old element into the old prefix, and the rest of the array unchanged |
| Sorting.SortInPlace | src/components/StockTable.jsx:12-20 | sorting the array in place leaves it equal to `Sort` of its old contents |
| Sorting.SortedCopy | src/components/StockTable.jsx:10-22 | sorting a fresh copy returns `Sort` of the input, a permutation of it, ordered and stable; the input is a value and is untouched |
| Comparators.StrLess | src/components/StockTable.jsx:13-16 | JavaScript `<` on strings: character-wise lexicographic order, a proper prefix first |
| Comparators.StrLessTotal | src/components/StockTable.jsx:13-16 | JavaScript string `<` is total: two different strings are ordered one way or the other |
| Comparators.StrLessTransitive | src/components/StockTable.jsx:13-16 | string `<` is transitive |
| Comparators.Cmp | src/components/StockTable.jsx:12-20 | the table comparator on `sortConfig` (-1, 1 or 0 by the key's `<` and `>`, flipped when descending), and the dashboard comparator `b[k] - a[k]`; their laws are the lemmas below |
| Comparators.NegativeByColumn | src/components/StockTable.jsx:12-20 | the table comparator puts `a` first exactly when its key is smaller (ascending) or larger (descending) |
| Comparators.CmpAntisymmetric | src/components/StockTable.jsx:12-20 | swapping the arguments flips the sign, for the table comparator and for `b[k] - a[k]` |
| Comparators.CompareConsistent | src/components/StockTable.jsx:12-20 | both comparators are consistent (antisymmetric, with transitive "need not come after"), and only records with different keys are ever put in order |
| Dashboard.Ranking | src/pages/Dashboard.jsx:35-42 | a ranking, `[...stocks].sort((a, b) => b[k] - a[k])`, as a value of the same length; `RankingOrder` states its order |
| Dashboard.RankingOrder | src/pages/Dashboard.jsx:35-42 | each ranking is a permutation of the records, non-increasing in its key, with records of equal key in list order |
| Dashboard.DifferenceOrder | src/pages/Dashboard.jsx:35 | `(a, b) => b[k] - a[k]` puts `a` first exactly when `a[k] > b[k]` |
| Dashboard.RankingFirst | src/pages/Dashboard.jsx:35-43 | the first record of a ranking is the earliest record holding the largest value |
| Dashboard.RankingLast | src/pages/Dashboard.jsx:37-44 | the last record of a ranking is the latest record holding the smallest value |
| Dashboard.SortByDescending | src/pages/Dashboard.jsx:35 | `[...stocks].sort(...)` returns the ranking |
| Dashboard.ComputePicks | src/pages/Dashboard.jsx:34-44 | with no records there are no picks; otherwise highest P/E, yield and gain are the earliest maxima, and lowest P/E and highest loss are the latest minima |
| Dashboard.IsNearHigh | src/pages/Dashboard.jsx:47 | the filter's test: price at least 0.95 times the 52-week high |
| Dashboard.NearHigh | src/pages/Dashboard.jsx:47 | exactly the subsequence of records with price ≥ 0.95 × high52, with the multiplicities those records have in the input |
| Dashboard.NoHighIsNearHigh | src/pages/Dashboard.jsx:47 | a record with no 52-week high and a non-negative price is always near its high |
| Dashboard.NearHighShown | src/pages/Dashboard.jsx:181 | the near-high table shows min(5, nearHigh.length) rows, which are the first near-high records |
| StockTableView.Requested | src/components/StockTable.jsx:30-36 | the new key is the clicked one, and the direction is descending exactly when that key was current and ascending |
| StockTableView.RequestTwiceToggles | src/components/StockTable.jsx:30-35 | a second click on the same column flips the direction |
| StockTableView.RequestTwiceRestores | src/components/StockTable.jsx:30-35 | from an ascending column, two clicks on it bring back ascending |
| StockTableView.RequestPeriodic | src/components/StockTable.jsx:30-35 | after the first click, clicks on one column alternate with period two |
| StockTableView.SortedBy | src/components/StockTable.jsx:9-23 | the sorted table has as many rows as there are records |
| StockTableView.SortedByCorrect | src/components/StockTable.jsx:9-23 | the sorted table is a permutation of the records, non-decreasing in the key when ascending and non-increasing when descending; records with equal keys keep input order in both directions |
| StockTableView.DescendingIsNotReversed | src/components/StockTable.jsx:12-20 | two records with equal prices appear in input order whichever direction is chosen |
| StockTableView.Matches | src/components/StockTable.jsx:26-27 | the search test: the lower-cased ticker or the lower-cased name contains the lower-cased search text |
| StockTableView.Search | src/components/StockTable.jsx:25-28 | the rows are a subsequence of the sorted table holding exactly the matching records, each as many times as it occurs there |
| StockTableView.SearchEmptyKeepsAll | src/components/StockTable.jsx:25-28 | an empty search text keeps every row |
| StockTableView.SearchIgnoresCase | src/components/StockTable.jsx:26-27 | search texts with the same lower-case form give the same rows |
| StockTableView.SearchLowerCase | src/components/StockTable.jsx:26-27 | lower-casing the search text does not change the rows |
| StockTableView.StockTable.constructor | src/components/StockTable.jsx:5-7 | the table starts sorted by ticker, ascending, with an empty search text |
| StockTableView.StockTable.RequestSort | src/components/StockTable.jsx:30-36 | the sort state becomes `Requested` of the old state and the clicked column; the search text is unchanged |
| StockTableView.StockTable.SetFilter | src/components/StockTable.jsx:59-60 | the search text becomes the typed text; the sort state is unchanged |
| StockTableView.StockTable.Shown | src/components/StockTable.jsx:9-28 | the rows on screen: the search applied to the sorted table, never more than the records |
| StockTableView.StockTable.SortedStocks | src/components/StockTable.jsx:9-23 | returns the sorted table for the current state: a permutation of the records in the chosen order |
| StockTableView.StockTable.FilteredStocks | src/components/StockTable.jsx:25-28 | returns the shown rows, which are exactly the matching records, with the shown count never above the total |
| Text.Occurs | scripts/fix_json.js:15 | `includes`: the pattern occurs somewhere in the text; `OccursAt` ties it to a position |
| Text.OccursAt | scripts/fix_json.js:15 | `includes` holds exactly when the pattern starts at some position of the text |
| Text.ReplaceAll | scripts/fix_json.js:24 | `replace(/p/g, r)` for a literal pattern: scanning from the left, each occurrence is replaced and scanning resumes after it |
| Text.ReplaceAllAvoids | scripts/fix_json.js:24 | after a global replace, a pattern that cannot overlap the replacement is absent, if it was the pattern replaced or was absent before |
| Text.ReplaceAllInverse | scripts/break_json.js:20 | replacing p by r and then r by p restores text without r, when r's first character does not recur in it |
| Text.Lower | src/components/StockTable.jsx:26-27 | ASCII `toLowerCase`: the same length, no capital letter left, and every other character unchanged |
| Text.LowerIdempotent | src/components/StockTable.jsx:26-27 | lower-casing twice is lower-casing once |
| FixJson.Fix | scripts/fix_json.js:24 | the sanitising chain: every `": NaN"`, then every `":NaN"`, replaced by `": null"` |
| FixJson.FixFile | scripts/fix_json.js:15-29 | a rewrite is produced exactly when the text contains `NaN`; it is the sanitised text, with no `": NaN"` and no `":NaN"` (whether it is then written also depends on `JSON.parse`, see below) |
| FixJson.FixRemovesNaN | scripts/fix_json.js:24 | after sanitising there is no `": NaN"` and no `":NaN"` |
| FixJson.FixUnchanged | scripts/fix_json.js:24 | text without a colon-adjacent `NaN` is returned unchanged |
| FixJson.FixIdempotent | scripts/fix_json.js:24 | sanitising twice is sanitising once |
| FixJson.FixGuardHarmless | scripts/fix_json.js:15-24 | text without `NaN` is a fixed point, so the guard only skips a rewrite that would change nothing |
| FixJson.FixRewritesBoth | scripts/fix_json.js:24 | `": NaN"` and `":NaN"` both become `": null"`, the tight one gaining a space |
| FixJson.FixLeavesOtherSpellings | scripts/fix_json.js:24 | `":  NaN"` with two spaces, and `NaN` with no colon before it, are left as they are |
| BreakJson.Break | scripts/break_json.js:20 | the breaking chain: every `": null"` replaced by `": NaN"`, then every `":null"` by `":NaN"` |
| BreakJson.BreakFile | scripts/break_json.js:18-22 | the file is rewritten exactly when its text contains `null`, with the broken text, which has no `": null"` and no `":null"` |
| BreakJson.BreakRemovesNull | scripts/break_json.js:20 | after the rewrite there is no `": null"` and no `":null"` |
| BreakJson.BreakUnchanged | scripts/break_json.js:20 | text without a colon-adjacent `null` is returned unchanged |
| BreakJson.BreakIdempotent | scripts/break_json.js:20 | breaking twice is breaking once |
| BreakJson.BreakGuardHarmless | scripts/break_json.js:18-20 | text without `null` is a fixed point, so the guard only skips a rewrite that would change nothing |
| BreakJson.BreakSpacedOnly | scripts/break_json.js:20 | text without `":null"` is touched only by the first replacement |
| BreakJson.FixUndoesBreak | scripts/break_json.js:14-20 | the sanitiser undoes this rewrite on text that has no colon-adjacent `NaN` and writes its nulls only as `": null"` |
| BreakJson.TightNullComesBackSpaced | scripts/break_json.js:20 | an original `":null"` becomes `":NaN"` and comes back as `": null"`, so the round trip does not restore it |

## Left out

- File reading and writing, console output and `process.exit` in the two scripts: these are I/O. The model is the string transform and the guard (`None` means the file is left alone).
- FixJson.FixFile: the `JSON.parse` check before the write is not modelled. When the sanitised text does not parse, the script throws, writes nothing and exits with an error; the model still returns the rewrite.
- The JSON module import, and JavaScript's ordering of integer-like keys in `Object.entries`. The dictionary is given as its entries in iteration order, with distinct keys.
- The `setTimeout` and `Promise` wrappers of `getStocks`, `getStockByTicker` and `getMarketSummary`. These are modelled as direct results.
- `lastUpdated` in the market summary: it depends on the clock and the locale.
- React rendering, hooks, routing, `getSortIcon`, the number formatting (`formatCurrency`, `formatLargeNumber`, `toFixed`, the distance column), StockChart and StockDetail. These are presentation.
- IEEE-754 arithmetic. Numbers are reals, so the rounding in `high52 * 0.95` and in the `aboveHigh12M` division is not modelled, and neither are NaN comparisons inside the sort.
- DataUtils.WellTyped: records whose fields have the wrong JSON type are excluded by this precondition. It also excludes an absent `currentPrice` under a truthy 52-week high, which yields NaN in the code.
- DataUtils.AdaptRecord: history items are objects (maps). A `null` history item, on which the code throws, is not modelled.
- Text.Lower: lower-casing is ASCII only. Unicode case mapping, and the difference between UTF-16 code units and Dafny characters, are not modelled.
- Comparators.StrLess: strings are compared by Dafny characters (Unicode scalar values), not by UTF-16 code units, so the order differs from JavaScript's for characters outside the Basic Multilingual Plane.
- Sorting.SortCorrect: the engine's own sort algorithm is not modelled. Any stable sort with a consistent comparator gives the same result, and the model uses insertion sort.
- StockTableView.StockTable.SortedStocks: the code's `sortConfig !== null` test is always true (the state is never null), so the unsorted branch is not modelled.
- Dashboard.ComputePicks: with no records, the picks are `undefined` and the page then dereferences them and fails while rendering. The model returns `None` and does not model the rendering failure.
