/**
 * The signal table as the performance analysis sees it once the CSV is loaded,
 * and the boolean-mask row selection (`df[mask]`) that builds `buy_signals`,
 * `sell_signals` and the per-BUY `next_sell` candidates from it.
 */
module Signals {

  /** The `signal` column; a label other than 'BUY' or 'SELL' (including a missing one) is Neutral. */
  datatype Signal = Buy | Sell | Neutral

  /** One row of the table: trading date as an ordinal day number, closing price, signal. */
  datatype Row = Row(date: int, close: real, signal: Signal)

  /**
   * `rows[mask]` where `mask` is `keep` evaluated row by row: exactly the rows that
   * satisfy `keep`, each as often as it occurs in `rows`, in their original order
   * (the order is stated by SelectAppend).
   */
  function Select(rows: seq<Row>, keep: Row -> bool): seq<Row> {
    if rows == [] then []
    else (if keep(rows[0]) then [rows[0]] else []) + Select(rows[1..], keep)
  }

  /** A selection holds exactly the rows that satisfy the mask, and no more rows than the table. */
  lemma {:induction false} SelectMembers(rows: seq<Row>, keep: Row -> bool)
    ensures |Select(rows, keep)| <= |rows|
    ensures forall x :: x in Select(rows, keep) <==> x in rows && keep(x)
  {
    if rows != [] {
      SelectMembers(rows[1..], keep);
      assert forall x :: x in rows <==> x == rows[0] || x in rows[1..];
    }
  }

  /** Every row that satisfies `keep` is selected exactly as often as it occurs in `rows`. */
  lemma {:induction false} SelectCounts(rows: seq<Row>, keep: Row -> bool)
    ensures forall x :: multiset(Select(rows, keep))[x] == if keep(x) then multiset(rows)[x] else 0
  {
    if rows != [] {
      assert rows == [rows[0]] + rows[1..];
      SelectCounts(rows[1..], keep);
    }
  }

  /** Selection distributes over concatenation, so it keeps the rows' relative order. */
  lemma {:induction false} SelectAppend(a: seq<Row>, b: seq<Row>, keep: Row -> bool)
    ensures Select(a + b, keep) == Select(a, keep) + Select(b, keep)
  {
    if a != [] {
      assert (a + b)[1..] == a[1..] + b;
      SelectAppend(a[1..], b, keep);
    } else {
      assert a + b == b;
    }
  }

  /** A selection keeps the whole table exactly when every row satisfies the mask. */
  lemma {:induction false} SelectKeepsAll(rows: seq<Row>, keep: Row -> bool)
    ensures |Select(rows, keep)| == |rows| <==> forall x :: x in rows ==> keep(x)
  {
    if rows != [] {
      SelectKeepsAll(rows[1..], keep);
      SelectMembers(rows[1..], keep);
      assert forall x :: x in rows <==> x == rows[0] || x in rows[1..];
    }
  }

  /** Two masks that agree on every row of the table select the same rows. */
  lemma {:induction false} SelectCongruent(rows: seq<Row>, keep1: Row -> bool, keep2: Row -> bool)
    requires forall x :: x in rows ==> keep1(x) == keep2(x)
    ensures Select(rows, keep1) == Select(rows, keep2)
  {
    if rows != [] {
      SelectCongruent(rows[1..], keep1, keep2);
    }
  }

  /**
   * The first selected row is the first row of `rows`, in row order, that satisfies
   * `keep` (what `iloc[0]` picks out of a mask selection).
   */
  lemma {:induction false} SelectFirst(rows: seq<Row>, keep: Row -> bool)
    requires Select(rows, keep) != []
    ensures exists k :: 0 <= k < |rows| && Select(rows, keep)[0] == rows[k] && keep(rows[k])
                        && forall j :: 0 <= j < k ==> !keep(rows[j])
  {
    if keep(rows[0]) {
      assert Select(rows, keep)[0] == rows[0];
    } else {
      assert Select(rows, keep) == Select(rows[1..], keep);
      SelectFirst(rows[1..], keep);
      var k :| 0 <= k < |rows[1..]| && Select(rows[1..], keep)[0] == rows[1..][k] && keep(rows[1..][k])
               && forall j :: 0 <= j < k ==> !keep(rows[1..][j]);
      assert forall j :: 1 <= j < k + 1 ==> rows[j] == rows[1..][j - 1];
    }
  }

  /** Dates strictly increase from row to row (one row per trading day, in date order). */
  predicate Increasing(rows: seq<Row>) {
    forall i, j :: 0 <= i < j < |rows| ==> rows[i].date < rows[j].date
  }

  /** A selection from a date-ordered table is date-ordered. */
  lemma {:induction false} SelectIncreasing(rows: seq<Row>, keep: Row -> bool)
    requires Increasing(rows)
    ensures Increasing(Select(rows, keep))
  {
    if rows != [] {
      var rest := Select(rows[1..], keep);
      assert Increasing(rows[1..]) by {
        forall i, j | 0 <= i < j < |rows[1..]| ensures rows[1..][i].date < rows[1..][j].date {
          assert rows[1..][i] == rows[i + 1] && rows[1..][j] == rows[j + 1];
        }
      }
      SelectIncreasing(rows[1..], keep);
      SelectMembers(rows[1..], keep);
      forall x | x in rest ensures rows[0].date < x.date {
        var j :| 0 <= j < |rows[1..]| && rows[1..][j] == x;
        assert rows[j + 1] == x;
      }
    }
  }

  /** `buy_signals = df[df['signal'] == 'BUY']` */
  function BuySignals(df: seq<Row>): (buys: seq<Row>)
    ensures forall x :: x in buys <==> x in df && x.signal == Buy
  {
    var isBuy := (r: Row) => r.signal == Buy;
    SelectMembers(df, isBuy);
    Select(df, isBuy)
  }

  /** `sell_signals = df[df['signal'] == 'SELL']` */
  function SellSignals(df: seq<Row>): (sells: seq<Row>)
    ensures forall x :: x in sells <==> x in df && x.signal == Sell
  {
    var isSell := (r: Row) => r.signal == Sell;
    SelectMembers(df, isSell);
    Select(df, isSell)
  }

  /**
   * No row is both a BUY and a SELL signal, and the two selections together take
   * no more rows than the table has.
   */
  lemma {:induction false} SignalsDisjoint(df: seq<Row>)
    ensures forall x :: x in BuySignals(df) ==> x !in SellSignals(df)
    ensures |BuySignals(df)| + |SellSignals(df)| <= |df|
  {
    if df != [] {
      SignalsDisjoint(df[1..]);
    }
  }
}
