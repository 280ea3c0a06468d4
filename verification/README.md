# Euronext trend engine — a Dafny model

This project models the trend engine of the Euronext index scraper. The scraper
samples the last-trade price of every constituent of an index once a minute. It
keeps a rolling window of up to 720 one-minute samples per instrument. From that
window it derives a trend signal (+1, -1 or 0) per instrument, and it appends
the sum of those signals to an aggregated trend series.

Modules, one per component of the class `Euronext`:

- `PriceWindow` (window.dfy): the snapshot frame. It has age columns with explicit
  minute labels. It models the shift (delete `720m`, rename `km` to `(k+1)m` through
  the column map) and the write of the fetched prices into `1m`.
- `Trend` (trend.dfy): `calculate_trend`, together with an independent "higher
  high / lower low" reading of it.
- `QuoteSource` (quote.dfy): `get_last_trade_price`. Each HTTP attempt is
  abstracted into how it ends. The model covers the 3-attempt retry, the early
  exit on ValueError, and the `market_open` assignment, which happens before the
  price is parsed.
- `Aggregator` (aggregate.dfy): `aggregated_trend`. It covers the TREND column,
  the Total row and the append to the aggregated series.
- `Scheduler` (scheduler.dfy): `get_snapshot`, the opening probe, and one pass of
  the `snapshot_scheduler` loop. It also defines runs of any number of passes.
- `Optional` (optional.dfy): the Some/None wrapper.

Modelling choices:

- Prices are integers (hundredths). A NaN cell left by a failed fetch is `None`.
- Time is in integer hundredths of a second.
- The elapsed time of a cycle and the UTC timestamp of its aggregate are parameters.
- The answers the quote endpoint gives are a parameter: for each ISIN, a function
  from the attempt number to the way that attempt ends.
- The thread pool is modelled as an order-preserving map. Each row's new price is
  the fetch of that row's own ISIN.
- Each fetch that reaches the status line assigns `market_open`. Under the
  sequential model, the last such fetch in row order wins.

Behaviours of the code the model keeps:

- Trend +1 requires only that no occurrence of the maximum lies among the
  samples older than the newest five. The maximum need not be unique: it may
  occur several times among the newest five (`RepeatedMaxInTailRises`). The
  same holds for -1 and the minimum.
- The window `[10, 9, ..., 1]` classifies as -1: its maximum lies among the
  older samples and its minimum is the newest sample (`FallingWindow`).
- A failed assertion (bad status code, no price element) is retried. Only a
  ValueError ends the fetch without retrying.
- `market_open` is assigned by every attempt whose response had status 200 and
  a price element, including when the price then fails to parse. A page without
  a status element sets it to false. An attempt that fails before that point
  leaves it alone, so a probe whose three attempts all fail keeps the previous
  value; at start-up that value is true (`FailedProbeStartsActive`).
- A pass whose fetches see a closed market still writes its snapshot; only the
  next pass is idle (`ClosedStatusGoesIdle`). An idle pass sleeps 10 minutes
  and then re-probes with one fetch.

## Model

| member | source | states |
|---|---|---|
| PriceWindow.Kept | modules/euronext.py:108-110 | the surviving column positions are exactly those not labelled `720m`, in increasing order |
| PriceWindow.Rename | modules/euronext.py:24 | `col_map`: a label in 1..719 moves up by exactly one minute and every other label is left as it is |
| PriceWindow.RenameMerges719And720 | modules/euronext.py:24 | the rename map sends both `719m` and `720m` to `720m`, so the shift must delete `720m` before renaming |
| PriceWindow.RenameInjectiveOffWidth | modules/euronext.py:108-113 | on labels other than `720m` the rename map is one-to-one: distinct surviving columns keep distinct labels |
| PriceWindow.Shift | modules/euronext.py:107-115 | the shift keeps every row, its Component and ISIN, and the cell-per-column shape, and leaves no column labelled `1m` |
| PriceWindow.ShiftMovesEverySample | modules/euronext.py:107-115 | every sample outside `720m`, even in a frame with a single age column, survives the shift with its cell under the renamed label (`km` becomes `(k+1)m` for 1..719) |
| PriceWindow.ShiftKeepsOrder | modules/euronext.py:107-115 | two surviving samples keep their relative column order through the shift |
| PriceWindow.ShiftDropsOnlyWidth | modules/euronext.py:109-110 | every column after the shift comes from a column not labelled `720m`, so the 720-minute sample is gone |
| PriceWindow.KeptSkipsLeading | modules/euronext.py:108-110 | when `720m` can only be the first column, exactly that one position is dropped and the rest stay in order |
| PriceWindow.ShiftAligned | modules/euronext.py:107-115 | on the oldest-first layout `nm..1m` the shift yields labels `(m+1)m..2m` with m = min(n, 719), dropping the oldest cell only when it was `720m` |
| PriceWindow.Fill | modules/euronext.py:125 | assigning `1m` overwrites an existing `1m` column in place or appends one at the end; row r gets `prices[r]`; every other column of the input survives at its position with its label and cells, and no other column appears |
| PriceWindow.SnapshotKeepsLayout | modules/euronext.py:117-126 | shift-then-fill keeps the oldest-first layout with at most 720 ages, puts the new value at age 1, and moves age k to age k+1 |
| Trend.Max | modules/euronext.py:162 | the maximum occurs in the window and bounds every sample |
| Trend.Min | modules/euronext.py:164 | the minimum occurs in the window and is below every sample |
| Trend.HeadLength | modules/euronext.py:160-162 | `prices[:-5]` holds all but the newest five samples, and is empty for five or fewer |
| Trend.Classify | modules/euronext.py:157-167 | the trend is always -1, 0 or +1 |
| Trend.MaxOutsideHeadIff | modules/euronext.py:162-163 | the maximum occurs nowhere outside the newest five iff some newest-five sample exceeds every older one |
| Trend.MinOutsideHeadIff | modules/euronext.py:164-165 | the minimum occurs nowhere outside the newest five iff some newest-five sample is below every older one |
| Trend.ClassifyMeaning | modules/euronext.py:157-167 | +1 iff a higher high; -1 iff a lower low and no higher high (the max test wins); 0 iff neither |
| Trend.ShortWindowRises | modules/euronext.py:160-163 | a window of five samples or fewer always gives +1 |
| Trend.HeadOrderIrrelevant | modules/euronext.py:160-165 | reordering the samples outside the newest five does not change the trend |
| Trend.RepeatedMaxInTailRises | modules/euronext.py:162-163 | any window whose largest value occurs twice among the newest five, above every older sample, gives +1: the maximum need not be unique |
| Trend.FallingWindow | modules/euronext.py:157-167 | `[10..1]` gives -1 (maximum oldest, minimum newest) |
| Trend.RisingWindow | modules/euronext.py:157-167 | `[1..10]` gives +1 |
| Trend.FlatWindow | modules/euronext.py:157-167 | a flat window of six equal samples gives 0 |
| QuoteSource.TrimLeft | modules/euronext.py:93 | removes exactly the leading whitespace: the result is a suffix, the dropped part is all whitespace, and the result does not start with whitespace |
| QuoteSource.TrimRight | modules/euronext.py:93 | removes exactly the trailing whitespace |
| QuoteSource.Strip | modules/euronext.py:93 | `strip()` yields a slice of the text with only whitespace cut at both ends, and neither end is whitespace |
| QuoteSource.TrimLeftPadding | modules/euronext.py:93 | leading whitespace padding is removed and nothing more |
| QuoteSource.TrimRightPadding | modules/euronext.py:93 | trailing whitespace padding is removed and nothing more |
| QuoteSource.StripPadding | modules/euronext.py:93 | stripping a text padded with whitespace gives back the text |
| QuoteSource.Retry | modules/euronext.py:59-105 | the loop stops at the first non-retryable attempt, or when attempts run out; every earlier attempt was retryable; the price and status come from the last attempt made |
| QuoteSource.GetLastTradePrice | modules/euronext.py:58-105 | at most three attempts; all but the last were retryable; fewer than three only when the last was not retryable; that last attempt decides the price and the status assignment |
| QuoteSource.FetchSucceedsIff | modules/euronext.py:59-95 | the fetch returns p iff some attempt among the first three parses p after only retryable failures |
| QuoteSource.ValueErrorStops | modules/euronext.py:97-99 | a ValueError ends the fetch at once with None and no further attempt |
| QuoteSource.ExhaustedYieldsNone | modules/euronext.py:59-105 | three retryable failures yield None after three attempts and leave `market_open` alone |
| QuoteSource.MarketOpenAfterFetch | modules/euronext.py:86-93 | `market_open` becomes the status test of the attempt that ended the fetch if that attempt got a status-200 response with a price element, and stays unchanged otherwise |
| QuoteSource.StatusAssignedBeforeParse | modules/euronext.py:92-99 | a padded `CONTINUOUS TRADING` status followed by an unparsable price opens the market even though the fetch returns None |
| QuoteSource.MissingStatusCloses | modules/euronext.py:93 | a page without a status element closes the market even when it yields a price |
| QuoteSource.Observed | modules/euronext.py:92-95 | an attempt assigns `market_open` iff it got as far as the status line (parsed or unparsable price), and then assigns whether the stripped status reads `CONTINUOUS TRADING` |
| Aggregator.RowTrend | modules/euronext.py:160-172 | a row's TREND is specified iff the row holds no NaN; it lies in {-1, 0, 1}; +1 iff the row has a higher high, -1 iff a lower low and no higher high, 0 iff neither |
| Aggregator.ColumnSum | modules/euronext.py:177 | the TREND column sum is specified iff every entry is |
| Aggregator.ColumnSumOfKnown | modules/euronext.py:177 | with every entry known, the column sum is the arithmetic sum of the entries |
| Aggregator.ZeroCellAddsNothing | modules/euronext.py:176-177 | setting the Total cell to 0 before summing makes the Total row contribute nothing |
| Aggregator.SumBounded | modules/euronext.py:177 | a sum of n trends lies within [-n, n] |
| Aggregator.AggregatedTrend | modules/euronext.py:170-184 | the caller's frame is unchanged; each row gets its own TREND; the Total is the column sum; the series gains exactly one record (timestamp, Total) after the unchanged earlier ones |
| Aggregator.TotalOfCompleteFrame | modules/euronext.py:171-177 | with no NaN anywhere, the Total is exactly the sum of the instrument trends and lies within plus or minus the instrument count |
| Scheduler.LastObserved | modules/euronext.py:121-123 | the `market_open` assignments of successive fetches combine last-write-wins: none made leaves it unset, otherwise the last one made is the result |
| Scheduler.FetchAll | modules/euronext.py:121-123 | one price per row, in row order, each from the row's own ISIN; the resulting status is that of the last fetch which observed one, or unchanged if none did |
| Scheduler.GetSnapshot | modules/euronext.py:117-126 | every row keeps its identity; the new labels are exactly the shifted window's followed by `1m`, and each row's cells are exactly its shifted cells followed by the fetch of its own ISIN; the returned status is that of the last row whose fetch assigned one, and none when no fetch did |
| Scheduler.ActiveSleep | modules/euronext.py:145-146 | the sleep is never negative, and never exceeds 60 s when the elapsed time is not negative; a cycle plus its sleep lasts at least 60 s, and exactly 60 s whenever the sleep is positive |
| Scheduler.Start | modules/euronext.py:128-131 | the probe leaves `market_open` true iff the attempt that ended it did not reach the status assignment or read `CONTINUOUS TRADING`; frame, series and count start as given |
| Scheduler.FailedProbeStartsActive | modules/euronext.py:128-134 | when all three attempts of the opening probe fail, `market_open` stays at its initial true and the first pass takes a snapshot |
| Scheduler.SchedulerStep | modules/euronext.py:133-152 | active iff `market_open` or `force_open`; active: one snapshot written, one record (timestamp, Total) appended, count + 1, sleep exactly max(60 s − elapsed, 0); idle: 600 s sleep, `market_open` set by one probe of the first ISIN, frame and series unchanged |
| Scheduler.Run | modules/euronext.py:133-152 | repeated passes keep every row with its ISIN and one cell per age column, and take at most one snapshot per pass |
| Scheduler.ActiveStepTakesSnapshot | modules/euronext.py:134-140 | an active pass's frame is the snapshot of the old one, `market_open` is what the snapshot's fetches left it, and the written frame and new record are `aggregated_trend` of the new frame |
| Scheduler.ActiveStepMarketStatus | modules/euronext.py:121-123 | after an active pass `market_open` is the status read by the last row whose fetch assigned one, or unchanged when no fetch did; the snapshot is written either way |
| Scheduler.ClosedStatusGoesIdle | modules/euronext.py:133-152 | a closed status read by the last fetch that read one still lets the pass write its snapshot and makes the next unforced pass idle |
| Scheduler.StepKeepsAligned | modules/euronext.py:134-137 | one pass keeps the oldest-first layout of at most 720 ages |
| Scheduler.StepExtendsSeries | modules/euronext.py:139-142 | one pass adds a record exactly when it takes a snapshot and never edits earlier records |
| Scheduler.StepGrowsWindow | modules/euronext.py:133-152 | one pass keeps the layout and adds one age exactly when it takes a snapshot, up to 720 |
| Scheduler.RunKeepsWindow | modules/euronext.py:133-152 | after any number of passes the window keeps the oldest-first layout and holds min(n + c, 720) ages, where n is the initial count and c the number of snapshots taken |
| Scheduler.RunExtendsSeries | modules/euronext.py:133-152 | after any number of passes the series length is its initial length plus the number of snapshots taken, and its initial records are unchanged |
| Scheduler.ActiveStepAgesWindow | modules/euronext.py:134-137 | an active pass moves every sample from age k to age k+1 and puts each row's own fetched price at age 1 |
| Scheduler.FirstSnapshot | modules/euronext.py:117-126 | the first snapshot of a frame with no age columns holds exactly the column `1m`, each row holding its own fetched price |

## Left out

- HTTP request, headers, response status and HTML selectors (modules/euronext.py:61-92): network and HTML plumbing. Each attempt is an abstract outcome (`QuoteSource.Attempt`).
- Float parsing, comma stripping and `round(float(...), 2)` (modules/euronext.py:95): float numerics. A parsed price is an integer number of hundredths carried by the outcome, and a text that fails to parse is the `Unparsable` outcome.
- `get_index_composition` (modules/euronext.py:30-56): it drives a browser and is a one-time discovery step.
- Spreadsheet reads and writes (modules/euronext.py:20-22, 140, 182): file I/O. What would be written is returned as the snapshot and the series.
- Wall clock, timezone formatting and sleeping (modules/euronext.py:26-28, 135, 145-151): the elapsed time and the timestamp are parameters, and the sleep is returned.
- The rounding in `round(60 - elapsed, 2)`: the elapsed time is already in whole hundredths, so the rounding changes nothing.
- Thread-pool concurrency (modules/euronext.py:121-123): fetches run in row order. With real threads, whichever status assignment happens last wins, which may not be the last row.
- Aggregator.RowTrend: a row holding a NaN gets an unspecified trend (`None`). Python's `max`/`min` over NaN depend on its position, and that is not modelled. The Total and the series record are then unspecified too.
- Scheduler.SchedulerStep: in the code, a pass in which every fetch fails assigns an all-None list to `1m`, which pandas keeps as an object column of None rather than NaN; `calculate_trend` then calls `max` on a list mixing None with floats (modules/euronext.py:160-162) as soon as the window holds another column, raising TypeError that nothing in the loop catches, so the program ends (main.py:30-34). The model instead completes such passes, with unspecified (`None`) trends and Total; `Scheduler.ActiveStepMarketStatus` ("written either way") inherits this.
- Scheduler.Start: an empty index composition makes the probe `df['ISIN'][0]` raise KeyError (modules/euronext.py:130, also the idle probe at :152) and ends the program; the model requires at least one row for the probe instead of modelling that error.
- Frames whose age labels repeat: `Fill` overwrites every column labelled `1m`. pandas behaves differently for duplicated labels, but the snapshot cycle never creates them.
- The endless `while True` loop (modules/euronext.py:133): one pass is modelled (`SchedulerStep`), plus finite runs of passes (`Run`).
- Console output and the snapshot counter's message (modules/euronext.py:131, 143, 147, 150): printing only.
- `main.py` (the entry point with file checks and traceback logging). Note that it calls `Euronext()` without the `agg_file` argument the constructor requires.

