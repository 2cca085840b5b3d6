/** Worked examples of the performance analysis on small tables. */
module Scenarios {
  import opened Wrappers
  import opened Signals
  import opened Pairing
  import opened Performance
  import opened Analysis

  /** Returns +10%, -5% and +20%: three trades, 25% in total, two wins out of three. */
  lemma ThreeReturnsReport()
    ensures Summarize([0.10, -0.05, 0.20]) == Some(Summary(3, 0.25 / 3.0, 0.25, 2.0 / 3.0))
  {
    assert [0.10, -0.05, 0.20][..2] == [0.10, -0.05];
    assert [0.10, -0.05][..1] == [0.10];
    assert [0.10][..0] == [];
  }

  /** The table of the round-trip example: two BUY/SELL pairs in date order. */
  function RoundTripTable(): seq<Row> {
    [Row(1, 100.0, Buy), Row(2, 110.0, Sell), Row(3, 110.0, Buy), Row(4, 99.0, Sell)]
  }

  /** The round-trip table's BUY rows are its first and third rows, its SELL rows the second and fourth. */
  lemma RoundTripSignals()
    ensures var df := RoundTripTable();
            BuySignals(df) == [df[0], df[2]] && SellSignals(df) == [df[1], df[3]]
  {
  }

  /** Buy at 100, sell at 110, buy at 110, sell at 99: each BUY closes on the SELL right after it. */
  lemma RoundTripTrades()
    ensures var df := RoundTripTable();
            TradesOf(df) == [Trade(df[0], df[1]), Trade(df[2], df[3])]
  {
    var df := RoundTripTable();
    var buys, sells := [df[0], df[2]], [df[1], df[3]];
    RoundTripSignals();
    assert Trades(buys, sells) == [Trade(df[0], df[1]), Trade(df[2], df[3])] by {
      assert sells[1..][1..] == [];
      assert NextSell(sells, df[0]) == Some(df[1]);
      assert NextSell(sells, df[2]) == Some(df[3]);
      assert buys[..1] == [df[0]] && buys[..1][..0] == [];
    }
  }

  /** The round trips return +10% and then -10%. */
  lemma RoundTripReturns()
    ensures var df := RoundTripTable();
            && PricedEntries([Trade(df[0], df[1]), Trade(df[2], df[3])])
            && Returns([Trade(df[0], df[1]), Trade(df[2], df[3])]) == [0.10, -0.10]
  {
    var df := RoundTripTable();
    var trades := [Trade(df[0], df[1]), Trade(df[2], df[3])];
    ReturnsPerTrade(trades);
  }

  /** The round trips report two trades, nothing on average or in total, and one win in two. */
  lemma RoundTripReport()
    ensures PricedEntries(TradesOf(RoundTripTable()))
    ensures Summarize(Returns(TradesOf(RoundTripTable()))) == Some(Summary(2, 0.0, 0.0, 0.5))
  {
    RoundTripTrades();
    RoundTripReturns();
    EvenReport();
  }

  /** Returns +10% and -10%: two trades, nothing on average or in total, one win in two. */
  lemma EvenReport()
    ensures Summarize([0.10, -0.10]) == Some(Summary(2, 0.0, 0.0, 0.5))
  {
    var tradeReturns := [0.10, -0.10];
    assert tradeReturns[..1] == [0.10] && tradeReturns[..1][..0] == [];
    assert Sum(tradeReturns) == 0.0;
    assert Wins(tradeReturns) == 1;
  }

  /** A trailing BUY with no later SELL opens no trade: only the first BUY is paired. */
  lemma TrailingBuyIsOpen()
    ensures var df := [Row(1, 100.0, Buy), Row(2, 110.0, Sell), Row(3, 90.0, Buy)];
            TradesOf(df) == [Trade(df[0], df[1])]
  {
    var df := [Row(1, 100.0, Buy), Row(2, 110.0, Sell), Row(3, 90.0, Buy)];
    var buys, sells := [df[0], df[2]], [df[1]];
    assert df[1..][1..][1..] == [];
    assert BuySignals(df) == buys;
    assert SellSignals(df) == sells;
    assert NextSell(sells, df[0]) == Some(df[1]);
    assert NextSell(sells, df[2]) == None;
    assert buys[..1] == [df[0]] && buys[..1][..0] == [];
    assert Trades(buys, sells) == [Trade(df[0], df[1])];
    assert TradesOf(df) == Trades(buys, sells);
  }

  /** Two BUYs before one SELL both close on it: the SELL is not consumed by the first. */
  lemma SharedExit()
    ensures var df := [Row(1, 100.0, Buy), Row(2, 105.0, Buy), Row(3, 110.0, Sell)];
            TradesOf(df) == [Trade(df[0], df[2]), Trade(df[1], df[2])]
  {
    var df := [Row(1, 100.0, Buy), Row(2, 105.0, Buy), Row(3, 110.0, Sell)];
    var buys, sells := [df[0], df[1]], [df[2]];
    assert df[1..][1..][1..] == [];
    assert BuySignals(df) == buys;
    assert SellSignals(df) == sells;
    assert NextSell(sells, df[0]) == Some(df[2]);
    assert NextSell(sells, df[1]) == Some(df[2]);
    assert buys[..1] == [df[0]] && buys[..1][..0] == [];
    assert Trades(buys, sells) == [Trade(df[0], df[2]), Trade(df[1], df[2])];
    assert TradesOf(df) == Trades(buys, sells);
  }
}
