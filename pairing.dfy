/**
 * Trade pairing and per-trade return: for each BUY row, in row order, the first
 * SELL row (in row order) dated strictly later is the exit, and the trade's
 * fractional return is appended to the list of strategy returns. A BUY with no
 * later SELL is skipped; a SELL is never consumed, so several BUYs may close on it.
 */
module Pairing {
  import opened Wrappers
  import opened Signals

  /** A completed round trip: the BUY row it opened on and the SELL row it closed on. */
  datatype Trade = Trade(entry: Row, exit: Row)

  /** `sell_signals[sell_signals['date'] > buy_row['date']]` */
  function LaterThan(sells: seq<Row>, date: int): seq<Row> {
    Select(sells, (r: Row) => r.date > date)
  }

  /** The exit for `buy`: `next_sell.iloc[0]` when `next_sell` is not empty. */
  function NextSell(sells: seq<Row>, buy: Row): Option<Row> {
    var later := LaterThan(sells, buy.date);
    if later == [] then None else Some(later[0])
  }

  /** A BUY has an exit exactly when some SELL is dated after it, and the exit is such a SELL. */
  lemma ExitIsLaterSell(sells: seq<Row>, buy: Row)
    ensures NextSell(sells, buy).None? <==> forall s :: s in sells ==> s.date <= buy.date
    ensures NextSell(sells, buy).Some? ==>
              NextSell(sells, buy).value in sells && NextSell(sells, buy).value.date > buy.date
  {
    var later := LaterThan(sells, buy.date);
    SelectMembers(sells, (r: Row) => r.date > buy.date);
    if later != [] {
      assert later[0] in later;
    }
  }

  /** The exit is the first SELL, in row order, among those dated after the BUY. */
  lemma ExitIsFirstLater(sells: seq<Row>, buy: Row)
    requires NextSell(sells, buy).Some?
    ensures exists k :: 0 <= k < |sells| && sells[k] == NextSell(sells, buy).value
                        && sells[k].date > buy.date
                        && forall j :: 0 <= j < k ==> sells[j].date <= buy.date
  {
    SelectFirst(sells, (r: Row) => r.date > buy.date);
  }

  /**
   * When the SELL rows are in strictly increasing date order, the first later SELL
   * in row order is also the later SELL with the earliest date.
   */
  lemma ExitIsEarliestLater(sells: seq<Row>, buy: Row)
    requires Increasing(sells)
    requires NextSell(sells, buy).Some?
    ensures forall s :: s in sells && s.date > buy.date ==> NextSell(sells, buy).value.date <= s.date
  {
    ExitIsFirstLater(sells, buy);
    var k :| 0 <= k < |sells| && sells[k] == NextSell(sells, buy).value
             && sells[k].date > buy.date
             && forall j :: 0 <= j < k ==> sells[j].date <= buy.date;
    forall s | s in sells && s.date > buy.date ensures sells[k].date <= s.date {
      var j :| 0 <= j < |sells| && sells[j] == s;
      assert k <= j;
    }
  }

  /**
   * SELLs are not consumed: two BUYs with no SELL dated in between (after the first,
   * up to and including the second) get the same exit, or both get none.
   */
  lemma SameExitWithoutSellBetween(sells: seq<Row>, buy1: Row, buy2: Row)
    requires buy1.date <= buy2.date
    requires forall s :: s in sells ==> !(buy1.date < s.date <= buy2.date)
    ensures NextSell(sells, buy1) == NextSell(sells, buy2)
  {
    SelectCongruent(sells, (r: Row) => r.date > buy1.date, (r: Row) => r.date > buy2.date);
  }

  /** The trade one BUY completes: none when it has no later SELL, else the one with its exit. */
  function Closing(sells: seq<Row>, buy: Row): seq<Trade> {
    match NextSell(sells, buy)
    case None => []
    case Some(sell) => [Trade(buy, sell)]
  }

  /**
   * The trades the loop over `buy_signals` completes, one per BUY that has an exit,
   * in the order of their BUY rows.
   */
  function Trades(buys: seq<Row>, sells: seq<Row>): seq<Trade> {
    if buys == [] then []
    else Trades(buys[..|buys| - 1], sells) + Closing(sells, buys[|buys| - 1])
  }

  /**
   * Every trade pairs one of the BUYs with one of the SELLs dated strictly later:
   * no same-day or backward pairing.
   */
  lemma {:induction false} TradesAreForward(buys: seq<Row>, sells: seq<Row>)
    ensures forall t :: t in Trades(buys, sells) ==>
              t.entry in buys && t.exit in sells && t.exit.date > t.entry.date
  {
    if buys != [] {
      TradesAreForward(buys[..|buys| - 1], sells);
      ExitIsLaterSell(sells, buys[|buys| - 1]);
    }
  }

  /** Pairing distributes over the BUY rows: each BUY is paired independently of the others. */
  lemma {:induction false} TradesAppend(a: seq<Row>, b: seq<Row>, sells: seq<Row>)
    ensures Trades(a + b, sells) == Trades(a, sells) + Trades(b, sells)
  {
    if b == [] {
      assert a + b == a;
    } else {
      var n := |b| - 1;
      assert (a + b)[..|a + b| - 1] == a + b[..n];
      TradesAppend(a, b[..n], sells);
    }
  }

  /**
   * A BUY with no later SELL contributes no trade; one with a later SELL contributes
   * exactly the trade with its exit, in its own place among the BUYs.
   */
  lemma {:induction false} TradesAround(before: seq<Row>, buy: Row, after: seq<Row>, sells: seq<Row>)
    ensures NextSell(sells, buy).None? ==>
              Trades(before + [buy] + after, sells) == Trades(before, sells) + Trades(after, sells)
    ensures NextSell(sells, buy).Some? ==>
              Trades(before + [buy] + after, sells)
                == Trades(before, sells) + [Trade(buy, NextSell(sells, buy).value)] + Trades(after, sells)
  {
    var head, tail := Trades(before, sells), Trades(after, sells);
    assert Trades(before + [buy] + after, sells) == head + Closing(sells, buy) + tail by {
      TradesAppend(before + [buy], after, sells);
      TradesAppend(before, [buy], sells);
      assert [buy][..0] == [];
    }
    if NextSell(sells, buy).None? {
      assert head + Closing(sells, buy) + tail == head + tail;
    }
  }

  /** There are exactly as many trades as BUYs that have a later SELL, so at most one per BUY. */
  lemma {:induction false} TradesCount(buys: seq<Row>, sells: seq<Row>)
    ensures |Trades(buys, sells)| == |Select(buys, (b: Row) => NextSell(sells, b).Some?)|
    ensures |Trades(buys, sells)| <= |buys|
  {
    if buys != [] {
      var n, keep := |buys| - 1, (b: Row) => NextSell(sells, b).Some?;
      TradesCount(buys[..n], sells);
      assert |Trades(buys, sells)| == |Trades(buys[..n], sells)| + |Closing(sells, buys[n])|;
      assert |Closing(sells, buys[n])| == if keep(buys[n]) then 1 else 0;
      assert buys == buys[..n] + [buys[n]];
      SelectAppend(buys[..n], [buys[n]], keep);
      assert [buys[n]][1..] == [];
      assert Select([buys[n]], keep) == if keep(buys[n]) then [buys[n]] else [];
    }
  }

  /** Every BUY yields a trade exactly when every BUY has a later SELL. */
  lemma AllBuysClosedIff(buys: seq<Row>, sells: seq<Row>)
    ensures |Trades(buys, sells)| == |buys| <==> forall b :: b in buys ==> NextSell(sells, b).Some?
  {
    TradesCount(buys, sells);
    SelectKeepsAll(buys, (b: Row) => NextSell(sells, b).Some?);
  }

  /** With no BUY rows or no SELL rows there is no trade. */
  lemma {:induction false} NoSignalsNoTrades(buys: seq<Row>, sells: seq<Row>)
    requires buys == [] || sells == []
    ensures Trades(buys, sells) == []
  {
    if buys != [] {
      NoSignalsNoTrades(buys[..|buys| - 1], sells);
    }
  }

  /** Trades of date-ordered BUY rows are ordered by entry date. */
  lemma {:induction false} TradesOrderedByEntry(buys: seq<Row>, sells: seq<Row>)
    requires Increasing(buys)
    ensures forall i, j :: 0 <= i < j < |Trades(buys, sells)| ==>
              Trades(buys, sells)[i].entry.date < Trades(buys, sells)[j].entry.date
  {
    if buys != [] {
      var n := |buys| - 1;
      assert Increasing(buys[..n]);
      TradesOrderedByEntry(buys[..n], sells);
      TradesAreForward(buys[..n], sells);
      forall t | t in Trades(buys[..n], sells) ensures t.entry.date < buys[n].date {
        var k :| 0 <= k < n && buys[..n][k] == t.entry;
      }
    }
  }

  /** `(sell_price - buy_price) / buy_price` */
  function TradeReturn(t: Trade): real
    requires t.entry.close != 0.0
  {
    (t.exit.close - t.entry.close) / t.entry.close
  }

  /** The return is the fractional price change: the sell price is the buy price grown by it. */
  lemma ReturnIsPriceChange(t: Trade)
    requires t.entry.close != 0.0
    ensures t.exit.close == t.entry.close * (1.0 + TradeReturn(t))
  {
  }

  /** With a positive buy price, a return is positive (a win) exactly when the sell price is higher. */
  lemma ReturnSign(t: Trade)
    requires t.entry.close > 0.0
    ensures TradeReturn(t) > 0.0 <==> t.exit.close > t.entry.close
    ensures TradeReturn(t) == 0.0 <==> t.exit.close == t.entry.close
  {
  }

  /** Every trade's entry has a non-zero price, so its return is defined. */
  predicate PricedEntries(trades: seq<Trade>) {
    forall t :: t in trades ==> t.entry.close != 0.0
  }

  /** When every trade of the BUYs has a defined return, so does every trade of a prefix of them. */
  lemma {:induction false} PricedPrefix(buys: seq<Row>, i: nat, sells: seq<Row>)
    requires i <= |buys|
    requires PricedEntries(Trades(buys, sells))
    ensures PricedEntries(Trades(buys[..i], sells))
  {
    assert buys == buys[..i] + buys[i..];
    TradesAppend(buys[..i], buys[i..], sells);
  }

  /** The returns of `trades`, one per trade, in trade order. */
  function Returns(trades: seq<Trade>): seq<real>
    requires PricedEntries(trades)
  {
    if trades == [] then []
    else Returns(trades[..|trades| - 1]) + [TradeReturn(trades[|trades| - 1])]
  }

  /** The returns of consecutive runs of trades are the returns of each run, in order. */
  lemma {:induction false} ReturnsAppend(x: seq<Trade>, y: seq<Trade>)
    requires PricedEntries(x + y)
    ensures PricedEntries(x) && PricedEntries(y)
    ensures Returns(x + y) == Returns(x) + Returns(y)
  {
    assert forall t :: t in x || t in y ==> t in x + y;
    if y != [] {
      var n := |y| - 1;
      assert (x + y)[..|x + y| - 1] == x + y[..n];
      ReturnsAppend(x, y[..n]);
    } else {
      assert x + y == x;
    }
  }

  /** The k-th return is the return of the k-th trade, and there is one return per trade. */
  lemma {:induction false} ReturnsPerTrade(trades: seq<Trade>)
    requires PricedEntries(trades)
    ensures |Returns(trades)| == |trades|
    ensures forall k :: 0 <= k < |trades| ==> Returns(trades)[k] == TradeReturn(trades[k])
  {
    if trades != [] {
      var n := |trades| - 1;
      assert PricedEntries(trades[..n]);
      ReturnsPerTrade(trades[..n]);
    }
  }

  /** The return one BUY contributes: none without a later SELL, else its price change to the first later SELL. */
  lemma ClosingReturns(sells: seq<Row>, buy: Row)
    requires PricedEntries(Closing(sells, buy))
    ensures LaterThan(sells, buy.date) != [] ==> buy.close != 0.0
    ensures var later := LaterThan(sells, buy.date);
            Returns(Closing(sells, buy))
              == if later == [] then [] else [TradeReturn(Trade(buy, later[0]))]
  {
  }

  /** Extending the BUYs by one adds the returns of that BUY's trade, if it has one, to those before it. */
  lemma PrefixStep(done: seq<Row>, buy: Row, sells: seq<Row>)
    requires PricedEntries(Trades(done + [buy], sells))
    ensures PricedEntries(Trades(done, sells)) && PricedEntries(Closing(sells, buy))
    ensures Returns(Trades(done + [buy], sells)) == Returns(Trades(done, sells)) + Returns(Closing(sells, buy))
  {
    assert (done + [buy])[..|done|] == done;
    ReturnsAppend(Trades(done, sells), Closing(sells, buy));
  }

  /** One iteration of the pairing loop: the next BUY appends its return when it has a later SELL, and nothing otherwise. */
  lemma ReturnsStep(done: seq<Row>, buy: Row, sells: seq<Row>)
    requires PricedEntries(Trades(done + [buy], sells))
    ensures PricedEntries(Trades(done, sells))
    ensures var later := LaterThan(sells, buy.date);
            later != [] ==>
              && buy.close != 0.0
              && Returns(Trades(done + [buy], sells))
                   == Returns(Trades(done, sells)) + [TradeReturn(Trade(buy, later[0]))]
    ensures LaterThan(sells, buy.date) == [] ==>
              Returns(Trades(done + [buy], sells)) == Returns(Trades(done, sells))
  {
    PrefixStep(done, buy, sells);
    ClosingReturns(sells, buy);
    if LaterThan(sells, buy.date) == [] {
      assert Returns(Trades(done, sells)) + [] == Returns(Trades(done, sells));
    }
  }

  /**
   * The loop of `create_performance_analysis` that builds `strategy_returns`: one
   * return per BUY that has a later SELL, in BUY order. Only the BUYs that are
   * paired are divided by, so only they need a non-zero price.
   */
  method StrategyReturns(buySignals: seq<Row>, sellSignals: seq<Row>) returns (strategyReturns: seq<real>)
    requires PricedEntries(Trades(buySignals, sellSignals))
    ensures strategyReturns == Returns(Trades(buySignals, sellSignals))
  {
    strategyReturns := [];
    for i := 0 to |buySignals|
      invariant PricedEntries(Trades(buySignals[..i], sellSignals))
      invariant strategyReturns == Returns(Trades(buySignals[..i], sellSignals))
    {
      var buyRow := buySignals[i];
      assert buySignals[..i + 1] == buySignals[..i] + [buyRow];
      assert PricedEntries(Trades(buySignals[..i] + [buyRow], sellSignals)) by {
        PricedPrefix(buySignals, i + 1, sellSignals);
      }
      ReturnsStep(buySignals[..i], buyRow, sellSignals);
      var nextSell := LaterThan(sellSignals, buyRow.date);
      if nextSell != [] {
        var sellRow := nextSell[0];
        var tradeReturn := TradeReturn(Trade(buyRow, sellRow));
        strategyReturns := strategyReturns + [tradeReturn];
      }
    }
    assert buySignals[..|buySignals|] == buySignals;
  }
}
