# Account settlement engine of a streaming stock simulator

This project models the per-batch settlement engine of a streaming trading simulator.
Every micro-batch of quote ticks `(time_new, ticker, volume, price)` goes through four steps:

1. It is deduplicated by ticker.
2. It is inner-joined on `ticker` to the table of trading accounts.
   The table is keyed by (ticker, user).
3. Rows whose price moved less than both thresholds get `volume := 0`.
   Rows with `volume < 1` go to an activity log. Rows with `volume != 0` are evaluated.
4. The evaluator applies a threshold buy rule and a threshold sell rule as a chain of column updates.
   The updated accounts are then merged back into the baseline table.

The modules follow the source's three functions:

- `Tables` (with `Seqs`): the account row, the quote, the joined row, and the order-preserving row filter.
- `Evaluator`: `calculation`, written as its nine column updates in source order. Each update re-reads the row the previous one left. Beside it is a snapshot evaluator that decides buy, sell or hold once from the unmodified account.
- `Routing`: `looping_funct`. It covers the dedup, the join, the inactive rewrite and the two filters.
- `Merge`: `combine`. The baseline filter keys on `user` only. A reference merge keyed on (ticker, user) sits beside it.
- `Cycle`: one batch end to end. It proves the key-uniqueness and consistency of the whole pipeline. It also proves that an account survives the merge unchanged when the batch quotes none of the tickers its user holds.

Points where the model settles a question:

- **Column order.** The sell updates read the share count and value that the buy updates just wrote. The model proves this is harmless for every choice of thresholds: the chain always equals the snapshot evaluator in which sell wins when both rules fire (`Evaluator.ColumnOrderIsSnapshot`). The reason is that a buy followed by a sell at the same price nets out. The cash returns to `cash + total_value`. The profit is that of the original position. With non-negative thresholds the two rules never both fire, so the snapshot is "buy xor sell xor neither" (`Evaluator.DecideIsExclusive`).
- **Merge key.** The merge keys on `user` alone, not on the table's (ticker, user) key. This follows the code. A user's baseline row under another ticker is dropped when that user has an updated row (`Merge.CombineReplacesUser`). The user-keyed merge equals the key-based merge exactly when no updated user holds a baseline row under another ticker (`Merge.CombineIsKeyMerge`).
- **Inactive filter.** The rewrite uses strict `<` on `|previous_price - price|` against both thresholds. A row whose move equals one threshold and is not above the other is therefore evaluated when its volume is non-zero, and the evaluator leaves it unchanged (`Routing.WithinThresholdsHolds`). A move equal to one threshold but above the other is evaluated too when its volume is non-zero, and it can trade (`Routing.EqualToOneThresholdTrades`).
- **Zero volume.** A tick with volume 0 is logged and never evaluated, even when a rule would fire. No trade is lost among rows with volume at least 1 (`Routing.UnevaluatedRowsHold`).

## Model

| member | source | states |
|---|---|---|
| `Seqs.Filter` | spark/pyspark_analysis.py:44-46 | the filtered rows are exactly the input rows satisfying the predicate, never more rows than the input |
| `Seqs.FilterPartition` | spark/pyspark_analysis.py:44-46 | two complementary filters split a table as multisets: no row is lost or duplicated |
| `Evaluator.Calculation` | spark/pyspark_analysis.py:50-100 | the column chain never writes the key or thresholds; conserves `cash + total_value`; stamps `time`/`previous_price` exactly when a rule fires; leaves the account unchanged otherwise; a sell zeroes shares and value, returns value to cash and books `numb_share*price - total_value` of the original position; a lone buy leaves `0 <= cash < price`, adds `floor(cash/price)` shares valued at `price` each |
| `Evaluator.Decide` | spark/pyspark_analysis.py:59-99 | for any thresholds: sell iff the sell rule fires, buy iff the buy rule fires and the sell rule does not, hold iff neither fires |
| `Evaluator.ApplyBuy` | spark/pyspark_analysis.py:59-72 | a buy leaves less cash than one share costs, conserves `cash + total_value`, values the new shares at `price`, never reduces shares from non-negative cash, keeps profit, key and thresholds, and stamps `time`/`previous_price` |
| `Evaluator.ApplySell` | spark/pyspark_analysis.py:74-89 | a sell closes the position, conserves `cash + total_value`, books the position's profit at `price`, keeps key and thresholds, and stamps `time`/`previous_price` |
| `Evaluator.Snapshot` | spark/pyspark_analysis.py:59-99 | the one-decision evaluator keeps key and thresholds, conserves `cash + total_value`, closes the position when the sell rule fires, stamps the trade when a rule fires and leaves the account unchanged otherwise |
| `Evaluator.MutualExclusion` | spark/pyspark_analysis.py:60-75 | with non-negative thresholds the buy and sell rules never both fire |
| `Evaluator.DecideIsExclusive` | spark/pyspark_analysis.py:59-99 | with non-negative thresholds the snapshot decision is buy iff the buy rule fires, sell iff the sell rule fires, hold iff neither |
| `Evaluator.ColumnOrderIsSnapshot` | spark/pyspark_analysis.py:59-99 | for all thresholds the sequential column chain equals the snapshot evaluator; when both rules fire, the shares and value the buy columns add at `price` cancel out of the profit and cash of the sell that follows |
| `Evaluator.CalculationKeepsConsistent` | spark/pyspark_analysis.py:59-89 | non-negative cash, shares and value, and `numb_share == 0 <==> total_value == 0`, are preserved |
| `Evaluator.SellClosedPosition` | spark/pyspark_analysis.py:74-89 | selling an empty position leaves cash and profit unchanged and the position empty |
| `Evaluator.BuyExample` | spark/pyspark_analysis.py:59-99 | cash 1000 at previous price 100, quote 90, thresholds 5: buys 11 shares, cash 10, value 990 |
| `Evaluator.SellExample` | spark/pyspark_analysis.py:74-99 | that position sold at 120 books profit 330 and restores cash 1000 |
| `Evaluator.HoldExample` | spark/pyspark_analysis.py:91-99 | a move of 5 against thresholds of 10 leaves the account unchanged |
| `Routing.Dedup` | spark/pyspark_analysis.py:37 | each ticker appears at most once, every input ticker is represented, every kept quote is an input quote |
| `Routing.DedupKeepsFirst` | spark/pyspark_analysis.py:37 | the quote kept for a ticker is that ticker's first quote in the batch |
| `Routing.JoinAccount` | spark/pyspark_analysis.py:38 | one account's joined rows are exactly its pairings with the quotes of its ticker |
| `Routing.Join` | spark/pyspark_analysis.py:38 | every joined row pairs an input account with an input quote of the same ticker, and every such pair is joined |
| `Routing.JoinDropsUnmatched` | spark/pyspark_analysis.py:38 | an account with no quote for its ticker, and a quote with no account for its ticker, yield no joined row |
| `Routing.JoinAccountOnce` | spark/pyspark_analysis.py:37-38 | after dedup, an account is joined once if its ticker is quoted and not at all otherwise |
| `Routing.JoinKeepsKeysUnique` | spark/pyspark_analysis.py:37-38 | after dedup, joined rows of key-unique accounts have unique (ticker, user) keys |
| `Routing.MarkInactive` | spark/pyspark_analysis.py:40-43 | the rewrite touches only `volume`, sets it to 0 for a row that moved less than both thresholds, leaves other rows unchanged, and never changes whether a row is inactive |
| `Routing.Route` | spark/pyspark_analysis.py:44-46 | every logged row has volume below 1, every evaluated row has non-zero volume, and neither output is longer than the input |
| `Routing.RouteActive` | spark/pyspark_analysis.py:40-46 | the evaluated rows are exactly the joined rows that are not inactive and have non-zero volume |
| `Routing.RouteLog` | spark/pyspark_analysis.py:40-44 | every logged row is the rewrite of some joined row and has volume below 1; every inactive row, with volume zeroed, and every row with volume below 1, after the rewrite, is logged |
| `Routing.RoutePartitions` | spark/pyspark_analysis.py:44-46 | with non-negative volumes the log and the evaluated rows are disjoint and together hold every marked row exactly once |
| `Routing.NegativeVolumeRoutedTwice` | spark/pyspark_analysis.py:44-46 | a tradable row with negative volume is both logged and evaluated |
| `Routing.InactiveRowHolds` | spark/pyspark_analysis.py:40-43 | a row the rewrite marks inactive would be left unchanged by the evaluator |
| `Routing.WithinThresholdsHolds` | spark/pyspark_analysis.py:40-43 | a move no larger than either threshold leaves the account unchanged, including a move equal to a threshold that the rewrite keeps active |
| `Routing.EqualToOneThresholdTrades` | spark/pyspark_analysis.py:40-99 | a move of 10 against buy threshold 10 and sell threshold 5 is evaluated and sells the position |
| `Routing.UnevaluatedRowsHold` | spark/pyspark_analysis.py:40-46 | a row with volume at least 1 that is kept from the evaluator would not have traded |
| `Merge.Combine` | spark/pyspark_analysis.py:22-24 | every updated row is present; a baseline row survives iff its user has no updated row; nothing else appears |
| `Merge.CombineReplacesUser` | spark/pyspark_analysis.py:22-24 | a baseline row of an updated user, not itself updated, is gone from the merge |
| `Merge.CombineKeepsKeysUnique` | spark/pyspark_analysis.py:22-24 | key-unique baseline and key-unique updates merge into a key-unique table |
| `Merge.CombineByKey` | spark/pyspark_analysis.py:22-24 | reference merge: every updated row present, a baseline row survives iff its (ticker, user) key has no update |
| `Merge.CombineIsKeyMerge` | spark/pyspark_analysis.py:22-24 | the user-keyed merge equals the key-based merge iff no updated user has a baseline row under another ticker |
| `Merge.ReplaceExample` | spark/pyspark_analysis.py:22-24 | merging B' into [A, B, C] gives [A, C, B'], never both B and B' |
| `Cycle.LoopingFunct` | spark/pyspark_analysis.py:36-101 | one batch logs the routed log rows of the deduplicated join, evaluates the routed active rows (all with positive prices) in order with `calculation`, and merges the result into the baseline with `combine`; the Cycle lemmas below state what this guarantees |
| `Cycle.Calculate` | spark/pyspark_analysis.py:47 | evaluating a table row by row keeps every row's (ticker, user) key |
| `Cycle.ActiveRowsComeFromInput` | spark/pyspark_analysis.py:36-46 | every evaluated row pairs a baseline account with a quote of the batch |
| `Cycle.UpdatedAreQuotedAccounts` | spark/pyspark_analysis.py:36-101 | every evaluated account keeps the key of a baseline account and has a quoted ticker |
| `Cycle.QuotedAccountsAreEvaluated` | spark/pyspark_analysis.py:37-47 | every baseline account whose row with its ticker's kept quote can trade and has non-zero volume is evaluated |
| `Cycle.CycleKeepsKeysUnique` | spark/pyspark_analysis.py:22-47 | a batch never creates two rows with one (ticker, user) key |
| `Cycle.CalculateKeepsConsistent` | spark/pyspark_analysis.py:47-99 | evaluating consistent accounts row by row yields consistent accounts |
| `Cycle.UpdatedKeepConsistent` | spark/pyspark_analysis.py:46-99 | from a consistent baseline every evaluated account is consistent |
| `Cycle.CombineKeepsConsistent` | spark/pyspark_analysis.py:22-24 | merging consistent updates into a consistent baseline gives a consistent table |
| `Cycle.CycleKeepsConsistent` | spark/pyspark_analysis.py:22-101 | from a consistent baseline every row of the merged table is consistent |
| `Cycle.UpdatedUsersHoldQuotedTicker` | spark/pyspark_analysis.py:36-47 | the user of every evaluated account holds a baseline account of a quoted ticker |
| `Cycle.UntouchedAccountsSurvive` | spark/pyspark_analysis.py:22-47 | an account is carried over unchanged when the batch quotes no ticker its user holds |
| `Cycle.UniqueUsersUntouchedSurvive` | spark/pyspark_analysis.py:22-47 | when each user holds one account, an account whose ticker the batch does not quote is carried over unchanged |

## Left out

- Cassandra and Kafka I/O is not modelled: `load_and_get_table`, `writeToCassandra`, the writes at lines 25 and 45, and the streaming setup in `__main__`. These are library calls with no logic of their own. The log written at line 45 is returned as `Batch.log`.
- JSON decoding and `round(float(...))` at lines 158-163 are floating-point parsing. Prices enter the model as already-rounded integers.
- All account columns are modelled as unbounded integers, because the column types of the stored table are not visible in the source.
- Spark divides as floating point before `floor`. The model uses exact floor division. The two can differ only for operands near 2^53 or larger.
- Division by a zero price yields a Spark null. This is not modelled: `Evaluator.Calculation` and `Cycle.LoopingFunct` require positive prices. The same requirement also leaves out negative prices, which the source divides without error; market prices are positive. With a negative price `floor(cash/price)` is negative, so a buy would sell shares short and `Evaluator.CalculationKeepsConsistent` would not hold.
- Cycle.LoopingFunct: on an empty micro-batch the source raises at line 36, because `toDF` infers its schema from the first row of the batch, and the error escapes the `foreachRDD` callback registered at line 164 and stops the stream. The model instead returns the baseline unchanged with an empty log, so the Cycle lemmas also cover `flow == []`, an outcome the source never reaches.
- The global `cass_data` is not modelled. `combine` rebinds only a local at line 24, so the source never updates its baseline. `Merge.Combine` returns the merged table instead, and the baseline is a parameter of `Cycle.LoopingFunct`.
- Spark's `dropDuplicates` keeps an unspecified row per ticker. `Routing.Dedup` keeps the first one. The order-independent properties are stated separately.
- Spark does not specify the row order of a join. `Routing.Join` is account-major. Every property about it is stated as membership or uniqueness, not as position.
- Spark's `union` matches columns by position and keeps duplicate rows. After the drop at line 100 the evaluated rows have the account table's columns in the order that line 118 loads them, so `Merge.Combine` models the union as a plain concatenation.
- `Routing.MarkAll` is a row-by-row map of `Routing.MarkInactive` and carries no property of its own. `Cycle.Calculate` states only that it keeps keys; what each output row holds is fixed by the definition of `Cycle.Calculate`, which `Cycle.LoopingFunct`'s ensures names.
- ingestion/dezip.py is not part of this model. It is a top-level script built from directory listing, gzip reads and pandas. Its only pure content is a field projection, a drop of the last two rows and a sort, and it cannot be separated from that I/O.
