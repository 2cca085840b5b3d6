/**
 * The strategy performance report: trade count (`len`), average trade return
 * (`np.mean`), total strategy return (`np.sum`, a plain sum with no compounding)
 * and win rate (the share of strictly positive returns). It exists only when at
 * least one trade completed.
 */
module Performance {
  import opened Wrappers

  /** The four figures reported under "STRATEGY PERFORMANCE". */
  datatype Summary = Summary(tradeCount: nat, averageReturn: real, totalReturn: real, winRate: real)

  /** `np.sum`: the returns added left to right. */
  function Sum(tradeReturns: seq<real>): real {
    if tradeReturns == [] then 0.0 else Sum(tradeReturns[..|tradeReturns| - 1]) + tradeReturns[|tradeReturns| - 1]
  }

  /** `sum(1 for r in tradeReturns if r > 0)`: how many tradeReturns are strictly positive. */
  function Wins(tradeReturns: seq<real>): nat {
    if tradeReturns == [] then 0
    else Wins(tradeReturns[..|tradeReturns| - 1]) + (if tradeReturns[|tradeReturns| - 1] > 0.0 then 1 else 0)
  }

  /** The total of consecutive runs of tradeReturns is the sum of their totals. */
  lemma {:induction false} SumAppend(a: seq<real>, b: seq<real>)
    ensures Sum(a + b) == Sum(a) + Sum(b)
  {
    if b == [] {
      assert a + b == a;
    } else {
      assert (a + b)[..|a + b| - 1] == a + b[..|b| - 1];
      SumAppend(a, b[..|b| - 1]);
    }
  }

  /** The wins of consecutive runs of tradeReturns add up. */
  lemma {:induction false} WinsAppend(a: seq<real>, b: seq<real>)
    ensures Wins(a + b) == Wins(a) + Wins(b)
  {
    if b == [] {
      assert a + b == a;
    } else {
      assert (a + b)[..|a + b| - 1] == a + b[..|b| - 1];
      WinsAppend(a, b[..|b| - 1]);
    }
  }

  /**
   * There are never more wins than tradeReturns; all tradeReturns are wins exactly when all
   * are strictly positive, and none is exactly when none is (a zero return is not a win).
   */
  lemma {:induction false} WinsBounds(tradeReturns: seq<real>)
    ensures Wins(tradeReturns) <= |tradeReturns|
    ensures Wins(tradeReturns) == |tradeReturns| <==> forall i :: 0 <= i < |tradeReturns| ==> tradeReturns[i] > 0.0
    ensures Wins(tradeReturns) == 0 <==> forall i :: 0 <= i < |tradeReturns| ==> tradeReturns[i] <= 0.0
  {
    if tradeReturns != [] {
      var n := |tradeReturns| - 1;
      WinsBounds(tradeReturns[..n]);
      assert forall i :: 0 <= i < n ==> tradeReturns[..n][i] == tradeReturns[i];
    }
  }

  /** Sharing `part` out over `count` and multiplying back gives `part`; a part of the whole is a share in [0, 1]. */
  lemma ShareOf(part: real, count: real)
    requires count > 0.0
    ensures (part / count) * count == part
    ensures 0.0 <= part <= count ==> 0.0 <= part / count <= 1.0
  {
  }

  /**
   * The report, or None when no trade completed (`if strategy_returns:`). The count
   * is the number of tradeReturns, the total their sum, the average the total shared out
   * over the trades, and the win rate the share of strictly positive returns, between
   * 0 and 1.
   */
  function Summarize(tradeReturns: seq<real>): (report: Option<Summary>)
    ensures report.None? <==> tradeReturns == []
    ensures report.Some? ==>
              && report.value.tradeCount == |tradeReturns|
              && report.value.totalReturn == Sum(tradeReturns)
              && report.value.averageReturn * |tradeReturns| as real == Sum(tradeReturns)
              && report.value.winRate * |tradeReturns| as real == Wins(tradeReturns) as real
              && 0.0 <= report.value.winRate <= 1.0
  {
    if tradeReturns == [] then None
    else
      var count, total, wins := |tradeReturns| as real, Sum(tradeReturns), Wins(tradeReturns) as real;
      assert (total / count) * count == total by { ShareOf(total, count); }
      assert (wins / count) * count == wins && 0.0 <= wins / count <= 1.0 by {
        WinsBounds(tradeReturns);
        ShareOf(wins, count);
      }
      Some(Summary(|tradeReturns|, total / count, total, wins / count))
  }
}
