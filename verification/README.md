# Trade shortfall engine — Dafny model

This project models the aggregation engine of a small batch tool that
compares what each trading account actually earned on an instrument with the
best gain the instrument's price window allowed. It has three parts, each a
module, plus the record parsing they share:

- `Records` (records.dfy): input rows, the trade and candle records built from
  fixed columns, and the fail-fast conversion of a whole file of rows.
- `TradeAccumulator` (trades.dfy): folds trade records into
  account → ticker → leg prices, appending the buy price when it is non-zero
  and the sell price otherwise.
- `CandleReducer` (candles.dfy): folds candle records into one summary per
  ticker: the lowest window minimum and the highest window maximum, each with
  the time label of the first row that reached it (strict comparisons, so ties
  keep the earlier label). A ticker starts from the sentinel summary
  `min = MaxFloat64, max = 0`.
- `OutputJoiner` (output.dfy): one output row per (account, ticker) pair of
  the trade map, with realized gain `prices[1] - prices[0]`, best gain
  `max - min`, shortfall `best - realized`, and the time labels of the
  maximum then of the minimum. A ticker without candles gets the all-zero
  summary.
- `Scenarios` (scenarios.dfy): worked examples on concrete data.

Prices are `real`: the engine only compares and subtracts them. A cell of an
input row carries its text together with what the integer and decimal
conversions of that text yield (`None` when the text is not such a number);
the conversions themselves are not modelled. Output amounts are numbers, not
two-decimal text. The output order of the source follows map iteration and is
unspecified, so `PrepareForOutput` picks the next pair nondeterministically
and its contract says nothing about order.

Each parsing loop is stated against a reference definition: `Legs` (the leg
prices of one pair's records, in record order) and `RecordPairs` for trades,
and `Summarizes` (greatest maximum / least minimum, labelled by the first row
reaching it) for candles. The loops are proved to agree with them.

Two consequences of the code are easy to miss, and the model states both:
- Leg prices are kept in the order the rows were read; nothing sorts them
  into buy then sell. A sell row read before a buy row of the same pair gives
  the sequence `[sell, buy]`, and the realized gain is then `buy - sell`
  (`Scenarios.LegsFollowRowOrder`, `Scenarios.JoinedRow`).
- The best gain is taken from the reduced summary of all of a ticker's
  candles, not from any single candle: with two candles, the maximum is the
  higher one and the minimum the lower one, each with its own label
  (`Scenarios.WindowExtremes`).

## Model

| member | source | states |
|---|---|---|
| Records.MakeTradeRecord | main.go:68-94 | succeeds exactly when the id, buy and sell columns (0, 3, 4) all convert; the record holds columns 0, 2, 3, 4; a failure names the first failing column in the order id, buy, sell |
| Records.MakeCandleRecord | main.go:96-118 | succeeds exactly when the max and min columns (3, 4) convert; the record holds ticker, time, max, min from columns 0, 1, 3, 4; a failure names max before min |
| Records.ParseAll | main.go:187-211 | converting a file either yields every record in row order, when every row converts, or the error of the earliest failing row; no partial list |
| Records.FirstFailureDecides | main.go:190-195 | once row i is the first failing row, the whole file fails with row i's error, whatever follows it |
| Records.AllParsedDecides | main.go:187-198 | when every row converts, the file's result is exactly the list of converted records |
| TradeAccumulator.AddTrade | main.go:120-153 | appends exactly one price to the record's own pair, the buy price if non-zero else the sell price; every other pair is unchanged; the pair set grows by that pair; no empty inner map or sequence appears |
| TradeAccumulator.AddTradeStep | main.go:190-195 | recording one more trade keeps the map the grouping of all records read so far: right pairs, right prices in order, nothing empty |
| TradeAccumulator.LegsCount | main.go:126-150 | a pair has as many leg prices as there are records of that pair |
| TradeAccumulator.LegsInOrder | main.go:126-150 | the price from a pair's j-th record sits at position j of the pair's sequence: input order is kept |
| TradeAccumulator.AccumulateIsGrouping | main.go:187-197 | folding records with addTrade from the empty map gives, for every pair, its records' leg prices in order, and exactly the pairs the records name |
| TradeAccumulator.ParseTradesInfo | main.go:187-198 | fails with the first failing row's error and no map; otherwise the map's pairs are exactly those of the rows and each pair holds its rows' leg prices in row order |
| CandleReducer.UpdatePriceInfo | main.go:155-168 | the new max bounds the old max and the row's max, the new min is below both; a row that does not strictly beat the stored max (min) leaves that value and its label unchanged; one that does installs its own label |
| CandleReducer.AddCandle | main.go:170-185 | the row's ticker is folded from its stored summary or, on first sight, from the sentinel `min = MaxFloat64, max = 0`; the key set grows by that ticker; every other ticker is unchanged |
| CandleReducer.ReduceMax | main.go:155-168 | folding rows from any start yields a max no row exceeds; it keeps the start's max and label unless some row exceeds it, and otherwise is the max and label of the first row reaching the greatest max |
| CandleReducer.ReduceMin | main.go:155-168 | the mirror of ReduceMax for the min: the least min, labelled by the first row reaching it, or the start when no row is lower |
| CandleReducer.ReduceSummarizes | main.go:176-182 | folding a ticker's rows from the sentinel gives the greatest max when it is above 0 (else 0, empty label) and the least min when it is below MaxFloat64 (else MaxFloat64, empty label), each labelled by the first row reaching it |
| CandleReducer.AddCandleStep | main.go:176-182 | folding one more row into the map keeps every entry equal to the fold of its ticker's rows from the sentinel |
| CandleReducer.ParseCandleInfo | main.go:200-211 | fails with the first failing row's error and no map; otherwise the map has one entry per ticker seen, summarizing that ticker's rows as in ReduceSummarizes |
| OutputJoiner.CandleFor | main.go:236 | a ticker with candles gets its summary; one without gets zero best gain and empty time labels |
| OutputJoiner.MakeRecord | main.go:213-229 | a 7-field row: id, ticker, realized gain with buy + gain = sell, best gain with min + best = max, shortfall with realized + shortfall = best, then the max's label and the min's label |
| OutputJoiner.ShortfallNonNegative | main.go:217-225 | when the first leg price is no lower than the window min and the second no higher than the window max, the shortfall is at least 0, and exactly 0 only when the first leg is at the min and the second at the max (the legs count as buy then sell by position alone) |
| OutputJoiner.EmitStep | main.go:234-238 | emitting the row of a not yet visited pair keeps the rows in one-to-one correspondence with the visited pairs |
| OutputJoiner.PrepareForOutput | main.go:231-242 | as many rows as pairs in the trade map; each row is the joined row of a pair of the map (so none for a candle-only ticker); every pair has a row; no two rows share a pair; the set of rows is the same whatever the visiting order |
| Scenarios.LegsFollowRowOrder | main.go:143-148 | a sell row read before a buy row of the same pair gives the sequence [sell, buy] |
| Scenarios.WindowExtremes | main.go:155-168 | two candles give the first's max with its label and the second's lower min with its label |
| Scenarios.TiesKeepFirstLabel | main.go:157-165 | a later candle with an equal max and min leaves the first candle's labels |
| Scenarios.JoinedRow | main.go:213-229 | the joined row of the example: realized -2.5, best 17, shortfall 19.5, labels t1 then t2 |

## Left out

- `readCSVFile`, `writeInCSVFile` and `main` (main.go:34-66, main.go:244-271): file and CSV I/O and process orchestration, including `log.Fatal` on any error.
- `strconv.Atoi` and `strconv.ParseFloat` (main.go:76-91, main.go:106-115): foreign conversions; each cell carries their outcome instead.
- `strconv.Itoa` and `strconv.FormatFloat(x, 'f', 2, 64)` (main.go:215-224): output amounts stay numbers, and the id stays an integer, rather than text rounded to two decimals.
- IEEE-754 behaviour of `float64`: rounding of subtraction, NaN and infinities that `ParseFloat` can return, and the sign of zero. Prices are exact reals.
- TradeAccumulator.ParseTradesInfo: requires every row to have at least five fields (`Wide`). The CSV reader gives every row of a file the same field count, so the first row decides what a short file does. A short trade row makes the source index past its end and panic, unless a column converted earlier fails first: column 0 is converted before column 2 is read, so a row whose id is not an integer returns the id error; and a four-field row with a valid id converts column 3 before reading column 4, so a bad buy price returns the buy-price error. Those error-returning files are left out along with the panicking ones.
- CandleReducer.ParseCandleInfo: requires `Wide` likewise. A candle row with fewer than four fields panics when column 1 or column 3 is read. A four-field row converts column 3 before reading column 4, so a bad max price returns the max-price error instead of a panic. Such files are left out too.
- A pair with fewer than two leg prices makes the source panic in `makeRecord`. `PrepareForOutput` requires every pair to have at least two (`BothLegs`); extra legs beyond the first two are ignored, as in the source.
- The visiting order of `prepareForOutput` (main.go:234-235) follows Go map iteration, which is unspecified. `PrepareForOutput` may visit pairs of different accounts interleaved, which the source's nested loops would not, and its contract says nothing about order.
- Go's in-place map mutation: each update is modelled as a function returning the new map. A failing row leaves the source's partially built map unreachable, which the model expresses by returning only the error.
