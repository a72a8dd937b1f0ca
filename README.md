# Moving-average crossover backtest, modelled in Dafny

This project models the `backtest` function of a small Python backtester. It
takes a series of daily closing prices and computes two simple moving averages
and a long/flat signal comparing them. From the signal it derives the
strategy's daily return, earned on the previous row's position. It then
rebuilds round-trip trades from the rows where the signal changes, and reports
the trade count, the win fraction and the profit factor.

Prices are mathematical `real`s, all positive. A pandas NaN is `None` of an
`Option`. A row's date is its position in the series: the series' dates are
strictly increasing, so positions order rows the same way dates do. The two
look-ups that raise `IndexError` on an empty trade list are modelled as the
error results `NoChangeRows` and `NoRowsAfterLeadingTrim`.

Modules follow the stages of the pipeline:

- `Wrappers`: `Option` and `Result`.
- `Indicators`: the rolling mean.
- `Signals`: the 0/1 signal and the crossover of two averages.
- `Returns`: the daily percentage change, the one-row shift of the signal and the strategy return.
- `Trades`: change rows, the two trims, the entry/exit split, pairing and profit.
- `Performance`: win fraction and profit factor.
- `Backtest`: the whole function, written step by step like the source.
- `Scenarios`: worked cases.

Main results:

- Consecutive change rows alternate.
- After trimming, the change-row list is empty or runs from an entry to an exit.
- This gives as many entries as exits, and each entry comes before its exit.
- Every trade is one maximal long run of the signal that a flat row closes.
- There is one trade per 1→0 fall of the signal.
- The backtest fails exactly when the signal is never long.

Two points about what the program checks:

- The program validates neither the windows nor the commission. A window is a `nat`, because pandas rejects negative windows. A window of 0 leaves every average undefined, which is what `rolling(0).mean()` gives. The commission is any real, and it defaults to 0 as in the source (main.py:16).
- The program never checks that entries and exits match before pairing them. `Trades.TrimmedChangePointsSplit` proves they always do, so the model has no error for it.

## Model

| member | source | states |
|---|---|---|
| `Indicators.Sma` | main.py:24-25 | the average series has one entry per close, and entry i is defined exactly when 1 <= window <= i + 1 |
| `Indicators.SmaSlide` | main.py:24-25 | sliding-window recurrence: each defined average equals the previous one plus (entering close - leaving close) / window |
| `Indicators.SmaWithinWindowRange` | main.py:24-25 | a defined average lies between any lower and upper bound of the closes in its window |
| `Indicators.SmaPositive` | main.py:24-25 | averages of positive closes are positive |
| `Indicators.SmaUnitWindow` | main.py:24-25 | a window of one reproduces the closes |
| `Indicators.SmaCausal` | main.py:24-25 | the average at row i ignores every close after row i: truncating the series truncates the averages |
| `Signals.Signal` | main.py:28 | the signal is 1 exactly when both indicators are defined and the first is greater; otherwise 0, including wherever an indicator is undefined |
| `Signals.Crossover` | main.py:24-28 | the crossover signal has one entry per close |
| `Signals.WarmUpIsFlat` | main.py:24-28 | the signal is flat while either average is still undefined |
| `Signals.FirstRowIsFlat` | main.py:24-28 | row 0 is always flat, whatever the windows, so the leading trim of line 42 always applies |
| `Signals.SameWindowNeverLong` | main.py:24-28 | comparing an average with itself never goes long |
| `Signals.CrossoverCausal` | main.py:24-28 | the signal at row i depends only on closes up to row i |
| `Returns.DailyReturn` | main.py:21 | `pct_change` gives one entry per close |
| `Returns.Lag` | main.py:37 | `shift(1)` gives one entry per signal row |
| `Returns.StrategicReturn` | main.py:37 | the strategy return has one entry per row |
| `Returns.StrategicReturnAt` | main.py:21-37 | the strategy return is undefined at row 0; at row i >= 1 it is (close[i]/close[i-1] - 1) times signal[i-1] |
| `Returns.StrategicReturnFollowsPosition` | main.py:21-37 | a flat previous row earns exactly 0; a long one earns the price change, so close[i] = close[i-1] * (1 + return) |
| `Returns.NoLookAhead` | main.py:21-37 | the return at row i is the price change times a position computed only from closes before row i |
| `Trades.ChangePoints` | main.py:40 | a non-empty series always has change rows, and the first is row 0 with its own signal and close, because the shifted signal is NaN there |
| `Trades.ChangePointsFacts` | main.py:40 | the change rows are row 0 and every row whose signal differs from the previous one, nothing else, in strictly increasing order, each with its own signal and close |
| `Trades.HoldsUntilNextChange` | main.py:40 | between one change row and the next (or the end), the signal keeps the change row's value |
| `Trades.ChangePointsAlternate` | main.py:40 | consecutive change rows have different signals |
| `Trades.Trim` | main.py:42-46 | fails exactly on an empty list or a lone flat row; otherwise drops the leading row if it is flat and the trailing row if it is long, and nothing else |
| `Trades.TrimShape` | main.py:40-46 | trimming an alternating list leaves an alternating list that is empty or starts with an entry and ends with an exit |
| `Trades.Select` | main.py:48-49 | the filter keeps only rows with the requested signal and never more rows than its input |
| `Trades.SelectPartition` | main.py:48-49 | every row the filter keeps has the requested signal, and the entries and the exits together number all the rows |
| `Trades.SplitLengths` | main.py:48-51 | an alternating list from an entry to an exit has even length and holds equally many entries and exits |
| `Trades.SplitPosition` | main.py:48-51 | in such a list the k-th entry is row 2k and the k-th exit row 2k+1 |
| `Trades.SplitTrimmed` | main.py:40-51 | after trimming, the k-th entry is change row Lead + 2k (signal 1) and the k-th exit is change row Lead + 2k + 1 (signal 0) |
| `Trades.TrimmedChangePointsSplit` | main.py:40-51 | after trimming, the buy and sell lists have equal length, so the positional pairing lines up; entry prices are positive |
| `Trades.Profit` | main.py:54 | the profit recovers the exit price (exit = entry * (1 + commission + profit)) and is positive exactly when exit > entry * (1 + commission) |
| `Trades.Pair` | main.py:51-54 | pairing gives one trade per entry |
| `Trades.ExtractTrades` | main.py:40-54 | when extraction fails, the error is the one of the look-up that fails: `NoChangeRows` exactly for an empty series, `NoRowsAfterLeadingTrim` otherwise |
| `Trades.TradeFromChangeRows` | main.py:40-54 | trade k is built from change rows Lead + 2k (an entry) and Lead + 2k + 1 (an exit), with its profit |
| `Trades.ExtractTradesFailsIffNeverLong` | main.py:40-46 | trade extraction raises exactly when the signal is never 1 (including the empty series) |
| `Trades.FlatChangeRowsUpTo` | main.py:40 | the flat change rows are one per 1 to 0 fall, plus row 0 when it is flat |
| `Trades.TrimFlatCount` | main.py:42-46 | trimming removes a flat row exactly when the leading row is flat |
| `Trades.ExtractTradesCount` | main.py:40-56 | the number of trades equals the number of rows i >= 1 with signal[i-1] = 1 and signal[i] = 0 |
| `Trades.ExtractTradesRuns` | main.py:40-54 | every trade opens where the signal turns long, stays long until its exit, closes where it turns flat, is priced at those rows' closes, and carries exit/entry - 1 - commission as profit |
| `Trades.TradeRunAt` | main.py:40-54 | trade k opens where the signal turns long, stays long until its exit, closes where it turns flat, at those rows' closes and with its profit |
| `Trades.ExtractTradesOrdered` | main.py:48-51 | trades are oldest first and do not overlap: each exit precedes the next entry |
| `Trades.ExtractTradesCorrect` | main.py:40-56 | extraction fails exactly when the signal is never long; otherwise it returns one trade per 1 to 0 fall, each a closed long run priced and charged as the source does, oldest first and not overlapping |
| `Performance.Wins` | main.py:57 | the win count is at most the trade count, equals it exactly when all trades win, and is 0 exactly when none does |
| `Performance.WinFraction` | main.py:57 | undefined exactly with no trades; otherwise in [0, 1], 1 exactly when every trade wins and 0 exactly when none does |
| `Performance.GrossProfit` | main.py:58 | the sum of positive profits is non-negative and 0 exactly when no trade wins |
| `Performance.GrossLoss` | main.py:58 | the sum of negative profits is non-positive and 0 exactly when no trade loses |
| `Performance.ProfitFactor` | main.py:58 | undefined exactly when no trade loses; otherwise non-negative and positive exactly when some trade wins |
| `Performance.AllLosing` | main.py:57-58 | when every trade loses, the win fraction and the profit factor are both 0 |
| `Backtest.Backtest` | main.py:16-57 | fails exactly when the signal is never long, with the error of the look-up that fails; otherwise returns the strategy return series, one trade per 1 to 0 fall, each trade a long run opened after row 0, oldest first, with the win fraction, profit factor and trade count of those trades |
| `Scenarios.OneCleanCross` | main.py:40-54 | the signal 0,0,1,1,1,0,0 yields exactly one trade, from row 2 to row 5 |
| `Scenarios.PairAverage` | main.py:25 | a two-row average is the midpoint of the two closes |
| `Scenarios.FiveDaySignal` | main.py:24-28 | closes 100,102,101,105,103 with windows 1 and 2 give the signal 0,1,0,1,0 |
| `Scenarios.FiveDayTrades` | main.py:40-54 | that case gives two losing trades, rows 1 to 2 and rows 3 to 4 |
| `Scenarios.FiveDayReport` | main.py:57-58 | that case has a win fraction of 0 and a profit factor of 0 |

## Left out

- `get_price_history` (main.py:6-14) fetches prices over the network through a third-party library. The model takes the closes as an input.
- The equity curve `cumsum().apply(np.exp)` (main.py:38) uses the exponential, which has no exact real counterpart here.
- The annual return (main.py:59), the volatility (main.py:60) and the Sharpe ratio (main.py:61) are floating-point statistics built on powers, standard deviations and square roots. They are not modelled.
- Floating-point rounding in the averages and divisions is left out. All arithmetic is exact over the reals.
- The result dictionary layout (main.py:63-70), the column renaming (main.py:52) and the `__main__` block with its `print` (main.py:76-78) are presentation only.
- Dates are not a separate field. A row's date is its position, which orders rows the same way because the series' dates are strictly increasing.
- Trades.Pair: requires equal-length buy and sell lists. The NaN rows that `pd.concat` would add for unequal lengths are not modelled. `Trades.TrimmedChangePointsSplit` proves that unequal lengths never reach this call.
- Trades.Pair: computes each trade's profit while pairing. The source adds the profit column afterwards (main.py:54). The values are the same.
- Performance.ProfitFactor: returns `None` whenever no trade loses. The source gives `-inf` when some trade wins and NaN when none does; the model does not tell these apart.
- Performance.WinFraction: returns `None` with no trades, where the source returns NaN from the mean of an empty column.
