# Volatility scanner: rate gate, market selection and ranking

A Dafny model of the logic inside `evaluate_volatility.py`, the market-volatility scanner. It has three parts:

- **Rate gate.** The process-wide weight counter and its 60-second window (`reset_rate_limit`, `check_rate_limit`) become the class `RateLimit.RateGate`. Time is an integer clock in seconds that the caller passes in. `time.sleep(d)` advances that clock by `d`. The threshold `1200 * 0.9` is the integer 1080, which is exactly what that expression gives as a double. The functions `Reset` and `Acquire` state what one call does to the window, `(weight, start)`. The class methods are proved to do exactly that. `Run` chains calls to state what sequential use keeps invariant.
- **Market selection.** `get_top_liquid_coins`: keep the tickers whose symbol ends with `USDT`, sort them stably by descending quote volume, and take the first `n` symbols. The sort is `StableSort.SortDesc`, an insertion sort. It is proved ordered, a permutation and stable. It is also proved to be the only arrangement with those properties, so it matches what Python's `sorted(..., reverse=True)` returns.
- **Fetch and ranking.** Steps 2 to 4 of `main`:
  - fetch every selected symbol through the gate, with results kept in submission order;
  - collect the `(symbol, volatility)` pairs of the fetches that returned a frame;
  - sort them by descending volatility;
  - cut the first ten and the last ten, dropping undefined scores.

  `Scanner.Scan` ties the three steps together.

A candlestick frame is represented only by the volatility score that `calculate_volatility` would compute from it. That score is `Option<int>`, where `None` stands for NaN. The exchange is a parameter too: a ticker list, and one function giving each symbol's fetch outcome.

## Model

| member | source | states |
|---|---|---|
| `RateLimit.Reset` | evaluate_volatility.py:59-67 | after the reset check the window is never expired, its start never moves back and its counter never grows; the window changes exactly when 60 seconds have passed since it started |
| `RateLimit.RateGate.constructor` | evaluate_volatility.py:50-54 | at load the counter is 0 and the window starts at the current time |
| `RateLimit.RateGate.ResetRateLimit` | evaluate_volatility.py:59-67 | if `now - last_reset_time >= 60` the counter becomes 0 and the window start becomes `now`; otherwise neither field changes |
| `RateLimit.Acquire` | evaluate_volatility.py:69-80 | within budget after the reset check: no sleep, and the counter grows by exactly `w`. Over budget: it sleeps exactly until the current window ends, and the counter then holds exactly `w` in a new window. The request is always admitted. A counter within the threshold stays within it for `w <= 1080`. The window start never moves back. The counter only drops when the window moves |
| `RateLimit.RateGate.CheckRateLimit` | evaluate_volatility.py:69-80 | the new counter and window start are those of `Acquire`, and the returned clock is the entry clock plus the time slept |
| `RateLimit.FullWindowBlocks` | evaluate_volatility.py:74-80 | after 1080 is consumed inside a window, a request of weight 1 sleeps until the window ends and then opens a new window holding 1 |
| `RateLimit.Run` | evaluate_volatility.py:69-80 | in sequential use the clock never goes back |
| `RateLimit.RunAppend` | evaluate_volatility.py:69-80 | running two batches of calls one after the other leaves the gate and the clock as running the concatenated batch does |
| `RateLimit.RunSingle` | evaluate_volatility.py:69-80 | a run of one call is that call's `Acquire`, entered after the call's gap |
| `RateLimit.RunStaysWithinThreshold` | evaluate_volatility.py:69-80 | in sequential use with no request over 1080, the counter is within 1080 after every call, and the window start never moves back nor passes the clock |
| `RateLimit.AcquireAsWritten` | evaluate_volatility.py:59-80 | as written, the call hangs exactly when the request is over budget after the reset check; otherwise it behaves as `Acquire` |
| `RateLimit.DeadlockExample` | evaluate_volatility.py:73-79 | a full window plus one request of weight 1 hangs as written |
| `StableSort.SortDesc` | evaluate_volatility.py:88 | the output is in non-increasing key order and is a permutation of the input |
| `StableSort.Insert` | evaluate_volatility.py:88 | inserting adds exactly the one element: the length grows by one and the multiset gains `x` |
| `StableSort.InsertSorted` | evaluate_volatility.py:88 | inserting into an ordered sequence keeps it ordered |
| `StableSort.SortStable` | evaluate_volatility.py:88 | equal keys keep their input order: every key class is the same subsequence in input and output |
| `StableSort.StableSortUnique` | evaluate_volatility.py:88 | two ordered sequences with the same key classes are equal, so the stable descending arrangement is unique |
| `StableSort.SortOfSorted` | evaluate_volatility.py:183 | sorting an already ordered sequence returns it unchanged |
| `StableSort.SortIdempotent` | evaluate_volatility.py:183 | sorting twice gives the same result as sorting once |
| `Selection.EndsWith` | evaluate_volatility.py:87 | true if and only if the string is some string followed by the suffix |
| `Selection.UsdtPairs` | evaluate_volatility.py:87 | a ticker is kept if and only if it is in the input and its symbol ends with `USDT`, and nothing is duplicated |
| `Selection.UsdtPairsAppend` | evaluate_volatility.py:87 | the filter keeps the exchange's order: filtering a concatenation is concatenating the filtered parts |
| `Selection.UsdtPairsKeepsCopies` | evaluate_volatility.py:87 | every copy of a USDT ticker is kept: its multiplicity in the output is its multiplicity in the input |
| `Selection.UsdtPairsWithKey` | evaluate_volatility.py:87-88 | filtering by suffix and picking one volume class commute, so each volume class of the USDT tickers is in the exchange's order |
| `Selection.TopTickers` | evaluate_volatility.py:87-89 | the selected tickers are a prefix of the stably sorted USDT tickers, of length `n` or all of them |
| `Selection.Take` | evaluate_volatility.py:89 | the result is a prefix of length `min(n, len)` |
| `Selection.SelectTop` | evaluate_volatility.py:82-91 | the returned symbols are those of the selected tickers, position by position |
| `Selection.TopTickersCount` | evaluate_volatility.py:87-89 | exactly `min(n, number of USDT tickers)` are selected, and together they are part of the USDT tickers |
| `Selection.TopTickersOrdered` | evaluate_volatility.py:87-89 | every selected ticker is a USDT ticker of the input, and they are in non-increasing quote-volume order |
| `Selection.TopTickersMostLiquid` | evaluate_volatility.py:88-89 | every USDT ticker left out has a quote volume no higher than any selected one |
| `Selection.TopTickersStable` | evaluate_volatility.py:87-89 | for every volume, the selected tickers of that volume are the first ones of that volume among the USDT tickers, and are a prefix of the USDT tickers of that volume in the exchange's own list, in that list's order |
| `Selection.GetTopLiquidCoins` | evaluate_volatility.py:82-91 | passes the gate with weight 40, then returns the selection for the exchange's ticker list |
| `Fetching.FetchCandlestickData` | evaluate_volatility.py:93-117 | passes the gate with weight 1 and returns `(symbol, frame)`, with None when the fetch failed |
| `Fetching.FetchAll` | evaluate_volatility.py:169-173 | one result per symbol in submission order. The gate ends as the weight-1 calls in sequence leave it, still within 1080 if it started within it |
| `Ranking.Volatilities` | evaluate_volatility.py:176-180 | every collected pair comes from a result whose frame is present, and every such result contributes its pair |
| `Ranking.VolatilitiesAppend` | evaluate_volatility.py:176-180 | collection keeps the result order: collecting a concatenation is concatenating the collected parts |
| `Ranking.VolatilitiesSingle` | evaluate_volatility.py:177-180 | one result contributes exactly its own pair when its frame is present, and nothing otherwise |
| `Ranking.CollectVolatilities` | evaluate_volatility.py:176-180 | the appending loop produces exactly `Volatilities` of the results |
| `Ranking.DropUndefined` | evaluate_volatility.py:184-185 | an entry is kept if and only if it is present and its score is defined; nothing is duplicated |
| `Ranking.DropUndefinedAllDefined` | evaluate_volatility.py:184-185 | an input whose scores are all defined is returned unchanged |
| `Ranking.DropUndefinedCons` | evaluate_volatility.py:184-185 | the first entry is kept in front of the rest exactly when its score is defined |
| `Ranking.DropUndefinedAppend` | evaluate_volatility.py:184-185 | dropping keeps the order: dropping from a concatenation is concatenating the dropped parts |
| `Ranking.DropUndefinedKeepsCopies` | evaluate_volatility.py:184-185 | every copy of an entry with a defined score is kept |
| `Ranking.DropUndefinedWithKey` | evaluate_volatility.py:183-185 | dropping undefined scores and picking one score class commute |
| `Ranking.Rank` | evaluate_volatility.py:183 | the ranking holds exactly the defined pairs, all defined, in non-increasing score order |
| `Ranking.RankStable` | evaluate_volatility.py:183 | equal scores keep their collection order: for every score, the ranked entries with that score are the collected entries with that score, in collection order |
| `Ranking.RankedFromSuccessfulFetches` | evaluate_volatility.py:115-117 | no failed fetch reaches the ranking, and every fetched market with a defined score does |
| `Ranking.RankIdempotent` | evaluate_volatility.py:183 | ranking a ranking changes nothing |
| `Ranking.Cut` | evaluate_volatility.py:184-185 | each slice covers at most ten entries and never more than the ranking holds |
| `Ranking.Top` | evaluate_volatility.py:184 | at most ten entries. An entry is reported if and only if it is among the first ten of the ranking with a defined score |
| `Ranking.Bottom` | evaluate_volatility.py:185 | at most ten entries. An entry is reported if and only if it is among the last ten of the ranking with a defined score |
| `Ranking.ReportsAreSlices` | evaluate_volatility.py:183-185 | on a ranking, the top report is exactly its prefix and the bottom report exactly its suffix |
| `Ranking.TopBottomDisjoint` | evaluate_volatility.py:184-185 | with at least twenty ranked entries, the two reports together use no entry more often than the ranking contains it |
| `Ranking.TopOutranksBottom` | evaluate_volatility.py:183-185 | with at least twenty entries in an ordered ranking, every top score is at least every bottom score |
| `Ranking.TopBottomShareNoSymbol` | evaluate_volatility.py:184-185 | with at least twenty ranked entries with distinct symbols, no market is in both reports |
| `Ranking.Report` | evaluate_volatility.py:176-185 | the reports are the top and bottom slices of the ranking of the collected pairs, which are its first and last ten entries |
| `Scanner.Scan` | evaluate_volatility.py:164-185 | the results are the fetches of the selected 100 markets, in order, and the reports are the top and bottom slices of their ranking. The gate and the clock end as one run of a weight-40 ticker call followed by one weight-1 candle call per selected market leaves them. The clock never goes back, and the gate stays within 1080 if it started within it |

## Findings

| source | as written | input that shows it | evidently intended | confidence | as-written member | corrected member |
|---|---|---|---|---|---|---|
| evaluate_volatility.py:64-79 | `check_rate_limit` holds `lock`, a non-reentrant `threading.Lock`, while it sleeps and calls `reset_rate_limit`. After the sleep the window has expired, so `reset_rate_limit` enters `with lock:` again and blocks forever, and every other worker then waits on the same lock | counter at 1080 and a call `check_rate_limit(1)` within the window | reset the window after the sleep, add the weight, return | high (not executed) | `RateLimit.AcquireAsWritten` | `RateLimit.Acquire` |

The class `RateLimit.RateGate` models the corrected behaviour: it runs the second reset check under the lock its caller already holds. `Acquire`'s contract proves the intended result: after the sleep there is a new window that holds exactly the request's weight. `DeadlockExample` gives the concrete input. The hang is latent in `main`: one run uses 40 + 100 × 1 = 140 weight units, far below 1080.

## Left out

- `bitvavo_telegram.py` is not part of this model. It is exchange REST calls, floating-point balance sums and Telegram messages, with no logic of its own once those are removed.
- Binance client calls, the Google Sheets client and its authentication, base64/JSON credential decoding and environment loading (lines 22-47) are left out. The exchange's answers are parameters instead.
- `save_to_google_sheets` and `plot_price_courses`, with the plot-data selection in `main` (lines 127-162, 187-197), are left out. They are external sinks: the model stops at the two reports. `main` calls `save_to_google_sheets` only when the top list is non-empty (line 188).
- The DataFrame construction and the volatility formula (log returns, sample standard deviation, `sqrt(1440)`; lines 105-125) are floating-point library numerics. A frame is represented by the score it yields.
- Concurrency is replaced by a sequential model:
  - `ThreadPoolExecutor` with 10 workers becomes one worker running the tasks in submission order. Results are then collected in that same order.
  - `threading.Lock` only matters for the deadlock finding. Overshoot by concurrent callers after a shared sleep is not modelled.
- Wall-clock time is modelled as integer seconds, read once per call:
  - no time passes inside a call except while sleeping, so the `sleep_time > 0` guard (line 76) always holds when the call is over budget;
  - the case where the window expires between the readings at lines 62 and 75 is not modelled.
- Logging is left out.
- `Fetching.FetchAll`: a candle request is modelled as taking no time. Each gate call is entered at the clock the previous call returned (a gap of 0), so the exact gate state it states assumes instantaneous requests. `RateLimit.Run` takes a gap per call, but the fetch durations are not modelled.
- `Ranking.Volatilities`: only failed fetches are dropped when the pairs are collected (`df is not None`, line 178). An empty frame still gets a NaN score (lines 121-122). So does a frame of one or two rows, since it has fewer than two log returns and their sample standard deviation is NaN (line 124). Such an entry reaches the sort, and only the report filters drop it (lines 184-185).
- `Ranking.Rank`: the source sorts NaN scores along with the others. Python's sort has no total order over NaN keys, so the model leaves undefined scores out before sorting. Where NaN entries would land, and so how many defined entries the first-ten and last-ten slices keep, is not modelled.
- `Selection.SelectTop`: quote volumes are integers rather than parsed floats, and `n` is a natural number. The negative slice bounds that Python also accepts are not modelled; `main` always passes 100.
