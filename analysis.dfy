/**
 * `create_performance_analysis` once the CSV is loaded: select the BUY and SELL rows,
 * pair each BUY with its exit, collect the per-trade returns and, when at least one
 * trade completed, report the strategy performance.
 */
module Analysis {
  import opened Wrappers
  import opened Signals
  import opened Pairing
  import opened Performance

  /**
   * The trades of a table: each opens on a BUY row of the table and closes on a SELL
   * row of the table dated strictly later.
   */
  function TradesOf(df: seq<Row>): (trades: seq<Trade>)
    ensures forall t :: t in trades ==>
              && t.entry in df && t.entry.signal == Buy
              && t.exit in df && t.exit.signal == Sell
              && t.exit.date > t.entry.date
  {
    TradesAreForward(BuySignals(df), SellSignals(df));
    Trades(BuySignals(df), SellSignals(df))
  }

  /**
   * The performance analysis: the report is the summary of the returns of the
   * table's trades, and there is none when the table has no BUY or no SELL row.
   * Every BUY that is paired with an exit must have a non-zero price, since its
   * return divides by it; unpaired BUYs may have any price.
   */
  method CreatePerformanceAnalysis(df: seq<Row>) returns (report: Option<Summary>)
    requires PricedEntries(TradesOf(df))
    ensures report == Summarize(Returns(TradesOf(df)))
    ensures BuySignals(df) == [] || SellSignals(df) == [] ==> report == None
  {
    var buySignals := BuySignals(df);
    var sellSignals := SellSignals(df);
    report := None;
    if buySignals != [] && sellSignals != [] {
      var strategyReturns := StrategyReturns(buySignals, sellSignals);
      if strategyReturns != [] {
        report := Summarize(strategyReturns);
      }
    } else {
      NoSignalsNoTrades(buySignals, sellSignals);
    }
  }

  /**
   * In a table with strictly increasing dates, each trade's exit is the SELL row
   * with the earliest date after its BUY.
   */
  lemma ExitIsEarliestLaterSell(df: seq<Row>, buy: Row)
    requires Increasing(df)
    requires NextSell(SellSignals(df), buy).Some?
    ensures forall s :: s in df && s.signal == Sell && s.date > buy.date ==>
              NextSell(SellSignals(df), buy).value.date <= s.date
  {
    SelectIncreasing(df, (r: Row) => r.signal == Sell);
    ExitIsEarliestLater(SellSignals(df), buy);
  }

  /** In a table with strictly increasing dates, the trades come in entry-date order. */
  lemma TradesInEntryOrder(df: seq<Row>)
    requires Increasing(df)
    ensures forall i, j :: 0 <= i < j < |TradesOf(df)| ==> TradesOf(df)[i].entry.date < TradesOf(df)[j].entry.date
  {
    SelectIncreasing(df, (r: Row) => r.signal == Buy);
    TradesOrderedByEntry(BuySignals(df), SellSignals(df));
  }

  /** How many trades sold above their buy price. */
  function ProfitableTrades(trades: seq<Trade>): nat {
    if trades == [] then 0
    else
      var last := trades[|trades| - 1];
      ProfitableTrades(trades[..|trades| - 1]) + (if last.exit.close > last.entry.close then 1 else 0)
  }

  /** With positive buy prices, the wins are exactly the trades that sold above their buy price. */
  lemma {:induction false} WinsAreProfitableTrades(trades: seq<Trade>)
    requires forall t :: t in trades ==> t.entry.close > 0.0
    ensures PricedEntries(trades)
    ensures Wins(Returns(trades)) == ProfitableTrades(trades)
  {
    if trades != [] {
      var n := |trades| - 1;
      WinsAreProfitableTrades(trades[..n]);
      ReturnsPerTrade(trades[..n]);
      assert Returns(trades)[..n] == Returns(trades[..n]);
      ReturnSign(trades[n]);
    }
  }

  /** The win rate reported for a table with positive BUY prices is the share of trades sold above their buy price. */
  lemma WinRateIsProfitableShare(df: seq<Row>)
    requires forall r :: r in df && r.signal == Buy ==> r.close > 0.0
    ensures PricedEntries(TradesOf(df))
    ensures Summarize(Returns(TradesOf(df))).Some? ==>
              Summarize(Returns(TradesOf(df))).value.winRate
                == ProfitableTrades(TradesOf(df)) as real / |TradesOf(df)| as real
  {
    var trades := TradesOf(df);
    assert forall t :: t in trades ==> t.entry.close > 0.0;
    WinsAreProfitableTrades(trades);
    var tradeReturns := Returns(trades);
    ReturnsPerTrade(trades);
    assert Wins(tradeReturns) == ProfitableTrades(trades);
  }

  /**
   * Since no SELL is used up by a trade, the BUYs can be split anywhere: the total
   * return and the wins of all of them are those of the first part plus those of
   * the rest.
   */
  lemma SplitBuys(a: seq<Row>, b: seq<Row>, sells: seq<Row>)
    requires PricedEntries(Trades(a + b, sells))
    ensures PricedEntries(Trades(a, sells)) && PricedEntries(Trades(b, sells))
    ensures Sum(Returns(Trades(a + b, sells))) == Sum(Returns(Trades(a, sells))) + Sum(Returns(Trades(b, sells)))
    ensures Wins(Returns(Trades(a + b, sells))) == Wins(Returns(Trades(a, sells))) + Wins(Returns(Trades(b, sells)))
  {
    TradesAppend(a, b, sells);
    ReturnsAppend(Trades(a, sells), Trades(b, sells));
    SumAppend(Returns(Trades(a, sells)), Returns(Trades(b, sells)));
    WinsAppend(Returns(Trades(a, sells)), Returns(Trades(b, sells)));
  }
}
