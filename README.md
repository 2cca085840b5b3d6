# Signal-to-trade performance engine

A Dafny model of the strategy performance analysis in `create_performance_analysis`
of the mean-reversion backtester. The input is a table of daily rows. Each row has
a date, a closing price and a signal label (BUY, SELL or anything else). The
analysis works in three stages:

1. It selects the BUY rows and the SELL rows, keeping their row order.
2. It pairs each BUY, in row order, with the first SELL row (in row order) that is
   dated strictly later. It records the trade's fractional return,
   `(sell - buy) / buy`. A BUY with no later SELL is skipped. A SELL is never
   consumed, so several BUYs can close on the same SELL.
3. When at least one trade completed, it reports four figures: the trade count,
   the mean return, the total return (a plain sum, no compounding) and the win
   rate (the share of strictly positive returns).

Modules:

- `Wrappers` holds the `Option` datatype.
- `Signals` holds rows, signals, the boolean-mask row selection and the BUY/SELL
  filters.
- `Pairing` holds exit choice, the trade list, per-trade returns and the pairing
  loop, a `method` with a `for` loop proved against the `Trades`/`Returns`
  specification functions.
- `Performance` holds sum, wins and the summary report.
- `Analysis` holds the whole analysis and the table-level properties.
- `Scenarios` holds worked examples.

Dates are ordinal integers: any totally ordered timestamp works, because only `>`
is used on them. Prices and returns are exact `real`s. A trade's return divides by
its BUY price without a guard. So every BUY that is paired with a later SELL must
have a non-zero closing price: this is the precondition `PricedEntries` on the
trades. A BUY with no later SELL is never divided by and may have any price. The
properties about the sign of a return need positive BUY prices.

The model follows the code:

- The code never checks that dates are sorted. The exit is the first later SELL
  in row order, which need not be the one with the smallest date.
  `ExitIsEarliestLaterSell` proves that the two agree when dates strictly increase.
- A SELL is never consumed; several BUYs may close on it (`SharedExit`,
  `SameExitWithoutSellBetween`). So the BUYs can be split anywhere and the totals
  add up (`SplitBuys`).
- With no trades nothing is reported (`None`).

## Model

| member | source | states |
|---|---|---|
| `Signals.Select` | visualize_signals.py:105-106 | boolean-mask selection `df[mask]`: the rows satisfying the mask, in row order; characterized by `SelectMembers`, `SelectCounts` and `SelectAppend` |
| `Signals.SelectMembers` | visualize_signals.py:105-106 | a mask selection holds exactly the rows that satisfy the mask, and no more rows than the table |
| `Signals.SelectCounts` | visualize_signals.py:105-106 | each row that satisfies the mask is selected exactly as often as it occurs in the table; other rows never |
| `Signals.SelectAppend` | visualize_signals.py:105-106 | selection distributes over concatenation, so the original relative order of the rows is kept |
| `Signals.SelectKeepsAll` | visualize_signals.py:105-106 | a selection is as long as the table exactly when every row satisfies the mask |
| `Signals.SelectCongruent` | visualize_signals.py:113 | two masks that agree on every row of the table select the same rows |
| `Signals.SelectFirst` | visualize_signals.py:113-115 | `iloc[0]` of a non-empty selection is the first row, in row order, that satisfies the mask |
| `Signals.SelectIncreasing` | visualize_signals.py:105-106 | a selection from a table with strictly increasing dates has strictly increasing dates |
| `Signals.BuySignals` | visualize_signals.py:105 | `buy_signals` holds exactly the rows of the table whose signal is BUY |
| `Signals.SellSignals` | visualize_signals.py:106 | `sell_signals` holds exactly the rows of the table whose signal is SELL |
| `Signals.SignalsDisjoint` | visualize_signals.py:105-106 | no row is in both selections, and together they take at most the table's row count |
| `Pairing.LaterThan` | visualize_signals.py:113 | `sell_signals[sell_signals['date'] > buy_row['date']]`: the SELLs dated strictly after a date, in row order; characterized by `ExitIsLaterSell` and `ExitIsFirstLater` |
| `Pairing.NextSell` | visualize_signals.py:113-115 | the BUY's exit: none when no SELL is later, otherwise `next_sell.iloc[0]`; characterized by `ExitIsLaterSell`, `ExitIsFirstLater` and `ExitIsEarliestLater` |
| `Pairing.Closing` | visualize_signals.py:113-119 | the trade one BUY contributes: none without an exit, otherwise the BUY with its exit; characterized by `TradesAround` |
| `Pairing.Trades` | visualize_signals.py:111-119 | the trades of the BUYs, each BUY's trade (if any) in BUY order; characterized by `TradesAreForward`, `TradesAppend`, `TradesAround` and `TradesCount` |
| `Pairing.ExitIsLaterSell` | visualize_signals.py:113-115 | a BUY has an exit exactly when some SELL is dated strictly after it, and the exit is such a SELL |
| `Pairing.ExitIsFirstLater` | visualize_signals.py:113-115 | the exit is the first SELL in row order among those dated after the BUY; every earlier SELL is not later than the BUY |
| `Pairing.ExitIsEarliestLater` | visualize_signals.py:113-115 | with strictly increasing SELL dates, the exit has the smallest date among the later SELLs |
| `Pairing.SameExitWithoutSellBetween` | visualize_signals.py:111-115 | SELLs are not consumed: two BUYs with no SELL dated between them get the same exit (or both none) |
| `Pairing.TradesAreForward` | visualize_signals.py:111-119 | every trade pairs one of the BUYs with one of the SELLs dated strictly later than it |
| `Pairing.TradesAppend` | visualize_signals.py:111-119 | pairing distributes over the BUY rows, so trades follow the order of their BUYs |
| `Pairing.TradesAround` | visualize_signals.py:111-119 | a BUY with no later SELL adds no trade; one with a later SELL adds exactly the trade with its exit, in its own place |
| `Pairing.TradesCount` | visualize_signals.py:111-119 | the number of trades is the number of BUYs that have a later SELL, so at most the number of BUYs |
| `Pairing.AllBuysClosedIff` | visualize_signals.py:111-119 | there are as many trades as BUYs exactly when every BUY has a later SELL |
| `Pairing.NoSignalsNoTrades` | visualize_signals.py:108-119 | with no BUY rows or no SELL rows, no trade is produced |
| `Pairing.TradesOrderedByEntry` | visualize_signals.py:111-119 | trades of date-ordered BUYs come in strictly increasing entry date |
| `Pairing.TradeReturn` | visualize_signals.py:116-118 | `(sell_price - buy_price) / buy_price`, defined for a non-zero BUY price; characterized by `ReturnIsPriceChange` and `ReturnSign` |
| `Pairing.Returns` | visualize_signals.py:118-119 | the return of every trade, in trade order; characterized by `ReturnsPerTrade` and `ReturnsAppend` |
| `Pairing.ReturnsAppend` | visualize_signals.py:118-119 | the returns of consecutive runs of trades are the returns of each run, in order, and each run is priced when the whole is |
| `Pairing.PricedPrefix` | visualize_signals.py:111-118 | when every trade of the BUYs has a non-zero entry price, so does every trade of any prefix of the BUYs |
| `Pairing.ReturnIsPriceChange` | visualize_signals.py:116-118 | the return is the fractional price change: sell price = buy price × (1 + return) |
| `Pairing.ReturnSign` | visualize_signals.py:116-118 | with a positive buy price, the return is positive exactly when the sell price is higher, and zero exactly when it is equal |
| `Pairing.ReturnsPerTrade` | visualize_signals.py:118-119 | one return per trade, the k-th being the return of the k-th trade |
| `Pairing.ClosingReturns` | visualize_signals.py:113-118 | a BUY with a later SELL contributes exactly the return `(sell - buy) / buy` on the first later SELL, and its price is then non-zero; a BUY without one contributes nothing |
| `Pairing.PrefixStep` | visualize_signals.py:111-119 | extending the BUYs by one appends that BUY's returns to those of the BUYs before it |
| `Pairing.ReturnsStep` | visualize_signals.py:111-119 | one loop iteration, for BUYs `done` followed by `buy_row`: the next BUY appends its return `(sell - buy) / buy` exactly when it has a later SELL, whose price is then non-zero, and appends nothing otherwise |
| `Pairing.StrategyReturns` | visualize_signals.py:110-119 | when the paired BUYs have non-zero prices, the loop's `strategy_returns` is the list of returns of the trades (the pairing specification) in BUY order |
| `Performance.Sum` | visualize_signals.py:125 | `np.sum`: the returns added left to right; characterized by `SumAppend` and `Summarize` |
| `Performance.Wins` | visualize_signals.py:126 | `sum(1 for r in strategy_returns if r > 0)`: the number of strictly positive returns; characterized by `WinsBounds` and `WinsAppend` |
| `Performance.SumAppend` | visualize_signals.py:125 | the total of consecutive runs of returns is the sum of their totals |
| `Performance.WinsAppend` | visualize_signals.py:126 | the win counts of consecutive runs of returns add up |
| `Performance.WinsBounds` | visualize_signals.py:126 | wins are at most the count; all are wins exactly when all returns are > 0, none exactly when all are <= 0 (zero is not a win) |
| `Performance.Summarize` | visualize_signals.py:121-126 | no report exactly when there are no returns; otherwise count = number of returns, total = sum, mean × count = total, win rate × count = wins, win rate in [0, 1] |
| `Analysis.TradesOf` | visualize_signals.py:105-119 | every trade of the table opens on a BUY row of the table and closes on a SELL row of the table dated strictly later |
| `Analysis.CreatePerformanceAnalysis` | visualize_signals.py:104-126 | for a table whose paired BUYs have non-zero prices, the report is the summary of the returns of the table's trades; there is none when the table has no BUY or no SELL row |
| `Analysis.ExitIsEarliestLaterSell` | visualize_signals.py:105-115 | in a table with strictly increasing dates, a BUY's exit is the SELL row with the earliest date after it |
| `Analysis.TradesInEntryOrder` | visualize_signals.py:105-119 | in a table with strictly increasing dates, trades come in strictly increasing entry date |
| `Analysis.ProfitableTrades` | visualize_signals.py:116-126 | the number of trades whose SELL price is above their BUY price; related to the wins by `WinsAreProfitableTrades` |
| `Analysis.WinsAreProfitableTrades` | visualize_signals.py:116-126 | with positive buy prices, the wins are exactly the trades that sold above their buy price |
| `Analysis.SplitBuys` | visualize_signals.py:111-126 | the BUYs can be split anywhere: the total return and the wins of all BUYs' trades are those of the first part plus those of the rest, and both parts are priced |
| `Analysis.WinRateIsProfitableShare` | visualize_signals.py:116-126 | with positive BUY prices, the reported win rate is the number of trades sold above the buy price divided by the trade count |
| `Scenarios.ThreeReturnsReport` | visualize_signals.py:121-126 | returns +10%, -5%, +20% report 3 trades, total 25%, mean 25%/3, win rate 2/3 |
| `Scenarios.RoundTripSignals` | visualize_signals.py:105-106 | in the table BUY 100, SELL 110, BUY 110, SELL 99 the BUY rows are the first and third, the SELL rows the second and fourth |
| `Scenarios.RoundTripTrades` | visualize_signals.py:105-119 | BUY 100, SELL 110, BUY 110, SELL 99 pairs each BUY with the SELL right after it |
| `Scenarios.RoundTripReturns` | visualize_signals.py:116-119 | those two trades return +10% and -10% |
| `Scenarios.EvenReport` | visualize_signals.py:121-126 | returns +10% and -10% report 2 trades, mean 0, total 0, win rate 1/2 |
| `Scenarios.RoundTripReport` | visualize_signals.py:104-126 | the round-trip table reports 2 trades, mean 0, total 0, win rate 1/2 |
| `Scenarios.TrailingBuyIsOpen` | visualize_signals.py:111-119 | a trailing BUY with no later SELL opens no trade; only the first BUY is paired |
| `Scenarios.SharedExit` | visualize_signals.py:111-119 | two BUYs before a single SELL both close on that SELL |

## Left out

- CSV reading and date parsing (visualize_signals.py:97-98): the table is the model's input, already loaded.
- The `returns` and `cumulative_returns` columns (visualize_signals.py:101-102): they are never used by the strategy computation.
- The printed report and its `%` formatting (visualize_signals.py:122-126): the model computes the figures, not the text.
- The `__main__` block and its exception handling (visualize_signals.py:128-136): these are I/O.
- `visualize_signals` (visualize_signals.py:7-94): this is chart layout and printed summaries with no algorithmic content.
- backtest.py, download_data.py and load_data.py: these are network download, CSV writing and database loading.
- Floating-point behaviour: rounding, NaN and infinities. Prices and returns are exact reals. In the source, a missing close gives a NaN return; a NaN return is not a win, and it makes the mean and the total NaN.
- A BUY paired with a later SELL whose close is 0 (visualize_signals.py:118): the source divides by zero there. What happens next depends on the float scalar types pandas yields: an infinite or NaN return, or an exception. The model does not capture this. The precondition `PricedEntries` on the trades excludes the case.
