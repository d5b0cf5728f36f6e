# News-event volatility analysis, modelled in Dafny

This project models the computational core of `news_volatility_analysis.py`.
The script compares a stock's volatility in the trading days before and after
tagged news events. For each event it does four things:

- it computes the daily returns of the closing prices (`pct_change`);
- it anchors the event in the date index with `searchsorted`;
- it cuts a before window and an after window of returns;
- it takes the sample standard deviation of each window.

An event that has a positive volatility on both sides becomes a row of the
results table. The table is then summarised: mean and median change,
counts of increases and decreases, the three largest increases, and the
average change per ticker.

Modules, one per file:

- `wrappers.dfy` (`Wrappers`): `Option`, and the filter that keeps the
  defined entries of a sequence in order.
- `returns.dfy` (`ReturnSeries`): the return series and its inverse,
  compounding.
- `window.dfy` (`WindowLocator`): the anchor, as a first-position
  definition and as the binary search, and the before/after windows.
- `stats.dfy` (`Stats`): sum, mean, the NaN-skipping sample variance, and
  volatility given a square-root function.
- `evaluator.dfy` (`VolatilityEvaluator`): price series, the per-event
  volatilities, the coerce-and-guard step and the record.
- `batch.dfy` (`EventBatch`): the loop over tickers and events.
- `ranking.dfy` (`Ranking`): the stable descending ranking behind
  `nlargest` and the median.
- `summary.dfy` (`Summary`): the aggregates of `print_summary_stats`.
- `vectors.dfy` (`RegressionVectors`): concrete instances.

Dates are integers (for example, days since an epoch). Prices and returns
are exact reals. The square root is a parameter `root: real -> real`. The
lemmas that need it to be a true square root say so with `IsSquareRoot(root)`.
Price downloads are a parameter `prices: map<Ticker, Series>`. A ticker
absent from the map gets an empty history, as an empty download would.

## Model

| member | source | states |
|---|---|---|
| ReturnSeries.Returns | news_volatility_analysis.py:73 | one return per close; the first is NaN; return i is finite exactly when close i-1 is nonzero, and infinite exactly when close i-1 is zero and close i is not (0/0 is NaN) |
| ReturnSeries.ReturnRoundTrip | news_volatility_analysis.py:73 | a defined return compounds the previous close exactly into the current one |
| ReturnSeries.CompoundRebuilds | news_volatility_analysis.py:73 | compounding growth rates that link consecutive closes rebuilds the whole close sequence from the first close |
| ReturnSeries.CompoundReturns | news_volatility_analysis.py:73 | with no zero close before the last, compounding the returns rebuilds the original closes (returns and compounding are inverse) |
| WindowLocator.Anchor | news_volatility_analysis.py:76 | the anchor is within 0..len; every date before it is earlier than the event; the date at it (if any) is not earlier |
| WindowLocator.SearchSorted | news_volatility_analysis.py:76 | the binary search on an ascending index splits it into earlier and not-earlier dates, and returns the same position as the first-position definition |
| WindowLocator.SearchSortedIsAnchor | news_volatility_analysis.py:76 | any position that splits the index into earlier and not-earlier dates is the anchor |
| WindowLocator.AnchorSplits | news_volatility_analysis.py:76 | on an ascending index, every date from the anchor on is not earlier than the event |
| WindowLocator.AnchorOfListedDate | news_volatility_analysis.py:76 | on a strictly ascending index, an event date that is in the index anchors at its own position |
| WindowLocator.AnchorMonotone | news_volatility_analysis.py:76 | a later event date never gets an earlier anchor |
| WindowLocator.Locate | news_volatility_analysis.py:79-86 | start <= end == anchor == start <= end <= len; a position is in the before window iff it is among the w+1 positions just before the anchor, and in the after window iff it is among the w positions from the anchor on |
| WindowLocator.BeforeWindowBounds | news_volatility_analysis.py:79-81 | the before window is at most w+1 long, empty iff the anchor is 0, and exactly w+1 long once the anchor is at least w+1 |
| WindowLocator.AfterWindowBounds | news_volatility_analysis.py:84-86 | the after window is at most w long, empty iff the anchor is past the end (for w >= 1), and exactly w long when w dates remain |
| WindowLocator.WindowsStraddleEvent | news_volatility_analysis.py:76-86 | on an ascending index, every before-window date is earlier than the event and every after-window date is not |
| WindowLocator.LocateMonotone | news_volatility_analysis.py:76-86 | every window boundary moves forward or stays put as the event date moves forward |
| Stats.Mean | news_volatility_analysis.py:199 | the mean is defined iff there are values, and mean times count equals the sum |
| Stats.MeanWithinBounds | news_volatility_analysis.py:199 | the mean lies within any bounds that hold of every value |
| Stats.Defined | news_volatility_analysis.py:89-90 | the NaN-skipped values are at most the window's length, each is a finite return of the window, and every finite return of the window is among them |
| Stats.DefinedAppend | news_volatility_analysis.py:89-90 | skipping non-finite returns commutes with concatenation, so the kept values keep window order and multiplicity |
| Stats.DefinedSingle | news_volatility_analysis.py:89-90 | a single return contributes its value when finite and nothing otherwise |
| Stats.SampleVariance | news_volatility_analysis.py:89-90 | the sample variance of two or more values is non-negative |
| Stats.SampleVarianceZeroIffConstant | news_volatility_analysis.py:89-90 | the sample variance is zero iff all values are equal |
| Stats.Volatility | news_volatility_analysis.py:89-90 | the volatility of a window is defined iff it holds no infinite return and at least two finite ones |
| Stats.VolatilityPositiveIffVariance | news_volatility_analysis.py:89-90 | with a true square root, a defined volatility is non-negative, and positive iff the sample variance is |
| VolatilityEvaluator.EventWindows | news_volatility_analysis.py:81-86 | the before window has exactly as many returns as the before range has positions, and the after window as many as the after range |
| VolatilityEvaluator.EventWindowsCover | news_volatility_analysis.py:79-86 | each window holds, in order, the return at every position of its range |
| VolatilityEvaluator.EventVolatility | news_volatility_analysis.py:70-92 | each side's volatility is defined iff its window holds no infinite return and at least two finite ones |
| VolatilityEvaluator.Coerce | news_volatility_analysis.py:113-114 | a defined volatility is kept as is; an undefined one becomes 0 |
| VolatilityEvaluator.EvaluateEvent | news_volatility_analysis.py:113-128 | a record is made iff both volatilities are defined and positive; the record carries the event's ticker, name, date and the two volatilities |
| VolatilityEvaluator.EvaluateEventValid | news_volatility_analysis.py:116-128 | every record made has positive volatilities, change = after - before, and change_pct * before = change * 100 |
| VolatilityEvaluator.ChangePctSign | news_volatility_analysis.py:117-118 | the percentage change of a valid record has the sign of its change |
| VolatilityEvaluator.RecordIffInformative | news_volatility_analysis.py:89-118 | with a true square root, an event yields a record iff each window has no infinite return and at least two finite returns that are not all equal |
| EventBatch.Pairs | news_volatility_analysis.py:102-108 | the (ticker, event) pairs of the two loops: one pair per event in total |
| EventBatch.PairsAt | news_volatility_analysis.py:102-108 | event j of ticker i is the pair at position (number of events of the tickers before i) + j, so pairs follow ticker order and event order within a ticker |
| EventBatch.EventOutcome | news_volatility_analysis.py:108-128 | a record made for a (ticker, event) pair carries that pair's ticker, event name and date |
| EventBatch.EventOutcomeValid | news_volatility_analysis.py:113-128 | every record made for a pair is valid |
| EventBatch.MissingTickerSkipped | news_volatility_analysis.py:104-110 | a ticker with no price data yields no record for any of its events |
| Wrappers.Somes | news_volatility_analysis.py:116-128 | the kept records are at most the outcomes; each comes from a defined outcome and every defined outcome is kept |
| Wrappers.SomesAppend | news_volatility_analysis.py:100-132 | dropping skipped outcomes commutes with concatenation, so the order of kept records follows iteration order |
| EventBatch.SomesOfOutcomes | news_volatility_analysis.py:108-128 | every kept record is valid and equals the outcome of one of the pairs |
| EventBatch.CollectTicker | news_volatility_analysis.py:108-128 | the inner loop returns exactly the defined outcomes of the ticker's events, in event order |
| EventBatch.Collect | news_volatility_analysis.py:100-132 | the outer loop returns exactly the defined outcomes of all pairs, tickers in order and events in order within each |
| EventBatch.AnalyzeAllEvents | news_volatility_analysis.py:98-132 | the results table is the defined outcomes in iteration order; it has no more rows than events; every row is valid and is the outcome of one (ticker, event) pair |
| EventBatch.AnalyzeAllEventsDefault | news_volatility_analysis.py:58 | the batch with the default window of 5 trading days |
| Ranking.Insert | news_volatility_analysis.py:209 | inserting a row into a ranking keeps it ranked and adds exactly that row |
| Ranking.Rank | news_volatility_analysis.py:200 | the ranking is a permutation of the rows, ordered by key from largest down, earlier rows first among ties |
| Ranking.TopN | news_volatility_analysis.py:209 | the top n rows: min(n, len) distinct rows, non-increasing keys, earlier rows first among ties, and every row left out ranks behind every row listed |
| Ranking.Median | news_volatility_analysis.py:200 | the median is defined iff there are values |
| Ranking.RankKeys | news_volatility_analysis.py:200 | the keys in ranking order are a permutation of the keys, in non-increasing order |
| Ranking.MirrorSorted | news_volatility_analysis.py:200 | an ascending and a descending arrangement of the same values are each other's reverse |
| Ranking.MedianOfSorted | news_volatility_analysis.py:200 | for every ascending arrangement a of the values: no median for none, a[n/2] for odd n, (a[n/2-1] + a[n/2]) / 2 for even n |
| Ranking.MedianSplits | news_volatility_analysis.py:200 | at least half the rows have a key at least the median, and at least half a key at most the median |
| Ranking.SlotsSize | news_volatility_analysis.py:200 | distinct positions of a ranking hold that many distinct rows |
| Summary.Increased | news_volatility_analysis.py:202 | the number of positions whose change is strictly positive |
| Summary.Decreased | news_volatility_analysis.py:203 | the number of positions whose change is strictly negative |
| Summary.CountIsMatching | news_volatility_analysis.py:202-203 | counting the values that satisfy a condition gives the size of the set of positions the boolean mask selects |
| Summary.DirectionCountsPartition | news_volatility_analysis.py:202-203 | increases, decreases and zero changes add up to the row count |
| Summary.CountZeroIff | news_volatility_analysis.py:202-203 | a count is zero iff no value satisfies the condition |
| Summary.StrictCountsCoverIffNoZero | news_volatility_analysis.py:202-203 | increases plus decreases equal the row count iff no row has a zero change; a zero change is counted in neither |
| Summary.Share | news_volatility_analysis.py:205-206 | a share is defined iff there are rows; it lies in [0, 100] and is count * 100 / n |
| Summary.FirstIndex | news_volatility_analysis.py:216 | the first position holding the value |
| Summary.Unique | news_volatility_analysis.py:216 | the distinct tickers: the same set of values, no repeats, in first-seen order |
| Summary.GroupPcts | news_volatility_analysis.py:217 | the changes selected for ticker t: exactly one per row whose ticker is t; GroupPctsAppend and GroupPctsSnoc fix which changes they are and their table order |
| Summary.GroupPctsAppend | news_volatility_analysis.py:217 | grouping commutes with concatenation: a ticker's changes over two stretches of the table are the first stretch's followed by the second's |
| Summary.GroupPctsSnoc | news_volatility_analysis.py:217 | an appended row adds its change to its own ticker's group and leaves every other group unchanged |
| Summary.GroupPctsNonEmptyIff | news_volatility_analysis.py:216-217 | a ticker's group is nonempty iff the ticker is in the table |
| Summary.TickerAverages | news_volatility_analysis.py:216-217 | one average per distinct ticker, in first-seen order; each is the mean over that ticker's rows |
| Summary.TickerAveragesCoverTickers | news_volatility_analysis.py:216-217 | every listed ticker is in the table, every ticker in the table is listed, and the order is first-seen order |
| Summary.TopIncreases | news_volatility_analysis.py:209 | min(3, n) rows of the table, changes non-increasing, earlier rows first among ties, and no row left out ranks ahead of a listed one |
| Summary.Summarize | news_volatility_analysis.py:197-218 | total = rows; mean, median, the two counts and the two shares are the Mean, Median, Increased, Decreased and Share of the change column; each ratio is defined iff the table is nonempty; increased + decreased <= total; the top list and ticker averages are those above |
| RegressionVectors.LocateVector | news_volatility_analysis.py:76-86 | an event between sessions on index [10,20,30,40] with w = 1 anchors at 2, with before window [0,2) and after window [2,3) |
| RegressionVectors.LateEventVector | news_volatility_analysis.py:76-86 | an event after the last session anchors past the end, with an empty after window |
| RegressionVectors.ZeroCloseVector | news_volatility_analysis.py:73 | closes 100, 50, 0, 10, 0, 0 give returns NaN, -0.5, -1, infinite, -1, NaN |
| RegressionVectors.InfiniteReturnVector | news_volatility_analysis.py:73-116 | closes 1, 0, 1, 2, 6, 12, 36 on dates 1..7 and an event on date 6: the before window holds the infinite return after the zero close, its volatility is undefined, and no record is made |
| RegressionVectors.RecordVector | news_volatility_analysis.py:116-128 | volatilities 2 before and 3 after give a record with change 1 and change_pct +50 |
| RegressionVectors.SkippedVector | news_volatility_analysis.py:113-116 | an undefined before volatility is coerced to 0 and the event is skipped |
| RegressionVectors.TopTieVector | news_volatility_analysis.py:209 | two rows tied for the largest change keep their table order in the top three |

## Left out

- Downloading prices (`get_stock_data`, yfinance): the prices are the `prices` map parameter. A ticker missing from it gets an empty history.
- Plots, printing and the CSV file (`create_visualizations`, the `print` calls in `print_summary_stats`, `to_csv`): they are output only. Only the values the summary prints are modelled.
- The literal `events_data` table: events are a parameter, a sequence of (ticker, events) pairs in dictionary order. Dictionary key uniqueness is not enforced.
- Date parsing (`pd.to_datetime`): dates are integers. A malformed date string makes the source raise; the model has no such input.
- The write of the `Returns` column into the shared frame (line 73): it is recomputed identically for every event, so the model computes returns as a pure function.
- Floating point: all arithmetic is over exact reals, so rounding and the `:+.1f` formatting are not modelled.
- Square root: `root` is a parameter. Only `IsSquareRoot(root)` (non-negative, and squaring back to its argument) is assumed where a lemma needs it.
- ReturnSeries.Returns: a return after a zero close is `Infinite` without a sign or value. The only thing the analysis does with it is let `std` turn NaN, which makes the volatility undefined. Arithmetic on infinities (for example, `-inf` after a zero close with a negative next close) is not modelled.
- WindowLocator.Anchor: on an unsorted index it is the first position whose date is not earlier than the event. numpy's result is unspecified there; `SearchSorted` is proved equal to `Anchor` only on an ascending index.
- Summary.Summarize: on an empty table the source fails (division by `len(results_df)` at line 205, and a missing column). The model returns `None` for every ratio and empty lists instead. This is a deliberate strengthening.
- Summary.TickerAverages: the averages are exact reals; the printed rounding is left out.
- `fix.py` and `fix_complete.py`: one-off repair scripts, not part of the analysis.
- The source's before window spans w+1 returns while the after window spans w. This is modelled as written.
