/**
 The equity curve (src/forest/backtest/metrics.ts): a two-pointer merge of candles and trades, and its
 agreement with the cash of the paper exchange.
 */
module Equity {
  import opened ExchangeTypes
  import opened PaperExchange
  import opened LotMatching
  import opened LotMatchingFifo
  import opened CashIdentity
  import opened Totals

  datatype EquityPoint = EquityPoint(timestamp: int, equity: real, drawdownPct: real)

  // The independent reading: every trade that exited no later than ts is credited, wherever it stands.
  ghost function CreditedBy(trades: seq<BacktestTrade>, ts: int): real {
    if trades == [] then 0.0
    else
      var last := trades[|trades| - 1];
      CreditedBy(trades[..|trades| - 1], ts) + if last.exitTimestamp <= ts then last.pnl else 0.0
  }

  // The highest of the starting capital and the equities before candle i.
  ghost function PeakBefore(start: real, candles: seq<int>, trades: seq<BacktestTrade>, i: nat): real
    requires i <= |candles|
  {
    if i == 0 then start
    else
      var peak := PeakBefore(start, candles, trades, i - 1);
      var eq := start + CreditedBy(trades, candles[i - 1]);
      if eq > peak then eq else peak
  }

  // The loss from a peak, in per cent of the peak.
  function DrawdownPct(peak: real, eq: real): real {
    if peak > 0.0 then ((peak - eq) / peak) * 100.0 else 0.0
  }

  // A loss in per cent of the peak: the missing part of a positive peak, and nothing without one.
  ghost predicate LossTells(pct: real, peak: real, eq: real) {
    if peak > 0.0 then pct * peak == (peak - eq) * 100.0 else pct == 0.0
  }

  lemma LossIsTold(peak: real, eq: real)
    ensures LossTells(DrawdownPct(peak, eq), peak, eq)
  {
    if peak > 0.0 {
      var q := (peak - eq) / peak;
      assert q * peak == peak - eq;
      assert q * 100.0 * peak == q * peak * 100.0;
    }
  }

  // The point of the curve at candle i: the starting capital plus every trade exited by then, with
  // the drawdown measured from the highest of the starting capital and the earlier points.
  ghost function PointAt(start: real, candles: seq<int>, trades: seq<BacktestTrade>, i: nat): EquityPoint
    requires i < |candles|
  {
    var eq := start + CreditedBy(trades, candles[i]);
    EquityPoint(candles[i], eq, DrawdownPct(PeakBefore(start, candles, trades, i), eq))
  }

  // The first n points of the curve.
  ghost function CurveOf(start: real, candles: seq<int>, trades: seq<BacktestTrade>, n: nat): (curve: seq<EquityPoint>)
    requires n <= |candles|
    ensures |curve| == n
  {
    if n == 0 then []
    else CurveOf(start, candles, trades, n - 1) + [PointAt(start, candles, trades, n - 1)]
  }

  ghost predicate ByExit(trades: seq<BacktestTrade>) {
    forall i, j :: 0 <= i < j < |trades| ==> trades[i].exitTimestamp <= trades[j].exitTimestamp
  }

  ghost predicate Ascending(candles: seq<int>) {
    forall i, j :: 0 <= i < j < |candles| ==> candles[i] <= candles[j]
  }

  lemma {:induction false} NothingCredited(trades: seq<BacktestTrade>, n: nat, ts: int)
    requires n <= |trades| && forall i :: n <= i < |trades| ==> trades[i].exitTimestamp > ts
    ensures CreditedBy(trades, ts) == CreditedBy(trades[..n], ts)
    decreases |trades|
  {
    if n < |trades| {
      var front := trades[..|trades| - 1];
      NothingCredited(front, n, ts);
      assert front[..n] == trades[..n];
    } else {
      assert trades[..n] == trades;
    }
  }

  lemma {:induction false} AllCredited(trades: seq<BacktestTrade>, ts: int)
    requires forall t :: t in trades ==> t.exitTimestamp <= ts
    ensures CreditedBy(trades, ts) == Total(TradePnl, trades)
  {
    if trades != [] {
      AllCredited(trades[..|trades| - 1], ts);
    }
  }

  // The trade pointer stands where the trades exited by ts end, so the running sum is what is credited by ts.
  lemma PointerIsCredit(trades: seq<BacktestTrade>, ti: nat, ts: int)
    requires ti <= |trades| && ByExit(trades)
    requires forall i :: 0 <= i < ti ==> trades[i].exitTimestamp <= ts
    requires ti < |trades| ==> trades[ti].exitTimestamp > ts
    ensures Total(TradePnl, trades[..ti]) == CreditedBy(trades, ts)
  {
    NothingCredited(trades, ti, ts);
    AllCredited(trades[..ti], ts);
  }

  // The pointer after the last candle is not beyond the next one's trades.
  ghost predicate PointerBehind(trades: seq<BacktestTrade>, ti: nat, ts: int) {
    ti <= |trades| && forall k :: 0 <= k < ti ==> trades[k].exitTimestamp <= ts
  }

  // The inner loop: credit the trades that closed before or at this candle.
  method CreditTrades(trades: seq<BacktestTrade>, from: nat, sum: real, ts: int) returns (ti: nat, cumPnl: real)
    requires from <= |trades| && sum == Total(TradePnl, trades[..from])
    ensures from <= ti <= |trades| && cumPnl == Total(TradePnl, trades[..ti])
    ensures PointerBehind(trades, from, ts) ==> PointerBehind(trades, ti, ts)
    ensures PointerBehind(trades, from, ts) && ByExit(trades) ==> cumPnl == CreditedBy(trades, ts)
  {
    ti, cumPnl := from, sum;
    while ti < |trades| && trades[ti].exitTimestamp <= ts
      invariant from <= ti <= |trades| && cumPnl == Total(TradePnl, trades[..ti])
      invariant PointerBehind(trades, from, ts) ==> PointerBehind(trades, ti, ts)
    {
      cumPnl := cumPnl + trades[ti].pnl;
      assert trades[..ti + 1] == trades[..ti] + [trades[ti]];
      TotalPush(TradePnl, trades[..ti], trades[ti]);
      ti := ti + 1;
    }
    if PointerBehind(trades, from, ts) && ByExit(trades) {
      PointerIsCredit(trades, ti, ts);
    }
  }

  // The curve, point by point.
  lemma {:induction false} CurveIsPoints(start: real, candles: seq<int>, trades: seq<BacktestTrade>, n: nat, i: nat)
    requires i < n <= |candles|
    ensures CurveOf(start, candles, trades, n)[i] == PointAt(start, candles, trades, i)
  {
    if i < n - 1 {
      CurveIsPoints(start, candles, trades, n - 1, i);
    }
  }

  lemma PointTells(start: real, candles: seq<int>, trades: seq<BacktestTrade>, i: nat)
    requires i < |candles|
    ensures var point := CurveOf(start, candles, trades, |candles|)[i];
      && point.timestamp == candles[i] && point.equity == start + CreditedBy(trades, candles[i])
      && LossTells(point.drawdownPct, PeakBefore(start, candles, trades, i), point.equity)
  {
    CurveIsPoints(start, candles, trades, |candles|, i);
    LossIsTold(PeakBefore(start, candles, trades, i), start + CreditedBy(trades, candles[i]));
  }

  /** The merge, of which only the candle timestamps matter: on trades in exit order and ascending candles it draws
      the curve of PointAt. */
  method BuildEquity(capitalStart: real, candles: seq<int>, trades: seq<BacktestTrade>)
    returns (curve: seq<EquityPoint>)
    ensures |curve| == |candles|
    ensures forall i :: 0 <= i < |curve| ==> curve[i].timestamp == candles[i]
    ensures ByExit(trades) && Ascending(candles) ==> curve == CurveOf(capitalStart, candles, trades, |candles|)
    ensures ByExit(trades) && Ascending(candles) ==>
      forall i :: 0 <= i < |curve| ==>
        && curve[i].equity == capitalStart + CreditedBy(trades, candles[i])
        && LossTells(curve[i].drawdownPct, PeakBefore(capitalStart, candles, trades, i), curve[i].equity)
  {
    curve := [];
    var cumPnl := 0.0;
    var ti := 0;
    var maxEq := capitalStart;
    ghost var inOrder := ByExit(trades) && Ascending(candles);
    for i := 0 to |candles|
      invariant 0 <= ti <= |trades| && |curve| == i
      invariant forall k :: 0 <= k < i ==> curve[k].timestamp == candles[k]
      invariant cumPnl == Total(TradePnl, trades[..ti])
      invariant ti == 0 || (i > 0 && (inOrder ==> PointerBehind(trades, ti, candles[i - 1])))
      invariant inOrder ==> maxEq == PeakBefore(capitalStart, candles, trades, i)
      invariant inOrder ==> curve == CurveOf(capitalStart, candles, trades, i)
    {
      var ts := candles[i];
      assert inOrder ==> PointerBehind(trades, ti, ts);
      ti, cumPnl := CreditTrades(trades, ti, cumPnl, ts);
      var eq := capitalStart + cumPnl;
      curve := curve + [EquityPoint(ts, eq, DrawdownPct(maxEq, eq))];
      if eq > maxEq {
        maxEq := eq;
      }
    }
    if inOrder {
      forall i | 0 <= i < |candles|
        ensures curve[i].equity == capitalStart + CreditedBy(trades, candles[i])
        ensures LossTells(curve[i].drawdownPct, PeakBefore(capitalStart, candles, trades, i), curve[i].equity)
      {
        PointTells(capitalStart, candles, trades, i);
      }
    }
  }

  /** The peak a drawdown is measured from is the highest of the starting capital and the earlier equities. */
  lemma {:induction false} PeakIsHighest(start: real, candles: seq<int>, trades: seq<BacktestTrade>, i: nat)
    requires i <= |candles|
    ensures var peak := PeakBefore(start, candles, trades, i);
      && start <= peak
      && (forall k :: 0 <= k < i ==> PointAt(start, candles, trades, k).equity <= peak)
      && (peak == start || exists k :: 0 <= k < i && PointAt(start, candles, trades, k).equity == peak)
  {
    if i > 0 {
      PeakIsHighest(start, candles, trades, i - 1);
      assert PointAt(start, candles, trades, i - 1).equity == start + CreditedBy(trades, candles[i - 1]);
    }
  }

  // The trades of chronological fills come in the exit order the merge relies on.
  lemma TradesAreByExit(fills: seq<Fill>)
    requires Chronological(fills)
    ensures ByExit(Trades(Run(DUST, fills).matches))
    ensures fills != [] ==>
      forall t :: t in Trades(Run(DUST, fills).matches) ==> t.exitTimestamp <= fills[|fills| - 1].timestamp
  {
    ExitsInOrder(DUST, fills);
  }

  // Within half a cent per trade, and the dust.
  ghost predicate InCents(b: Book, gap: real) {
    var cents := 0.005 * |b.matches| as real;
    -cents - Total(SellDustCap(DUST), b.leftovers) <= gap <= cents + Total(LotDustCap(DUST), b.retired)
  }

  // At a time no earlier than the last fill, start capital and credited profits match the cash.
  lemma CreditMatchesCash(costs: Costs, start: real, orders: seq<Order>, ts: int)
    requires Percentages(costs) && start >= 0.0
    requires forall o :: o in orders ==> PlainOrder(o)
    requires Covered(DUST, RunOrders(costs, start, orders).fills)
    requires Chronological(RunOrders(costs, start, orders).fills)
    requires forall f :: f in RunOrders(costs, start, orders).fills ==> f.timestamp <= ts
    ensures var acct := RunOrders(costs, start, orders);
      var b := Run(DUST, acct.fills);
      InCents(b, start + CreditedBy(Trades(b.matches), ts) - (acct.capital + Total(HoldingCost, b.open)))
      && |b.matches| <= |acct.fills|
  {
    var acct := RunOrders(costs, start, orders);
    var b := Run(DUST, acct.fills);
    CashMatchesTrades(DUST, costs, start, orders);
    ReportedPnlIsClose(b.matches);
    TradesAreByExit(acct.fills);
    FewTrades(DUST, acct.fills);
    if acct.fills == [] {
      assert b.matches == [];
    }
    AllCredited(Trades(b.matches), ts);
  }

  /** The three pieces of code agree. Replay any covered orders on the paper exchange, match its fills into trades and
      merge them into a curve over candles that reach the last fill: the equity of the last point equals the exchange's
      cash plus the fee-inclusive cost of the open lots, up to half a cent per trade and the dust. */
  lemma EquityMatchesCash(costs: Costs, start: real, orders: seq<Order>, candles: seq<int>)
    requires Percentages(costs) && start >= 0.0
    requires forall o :: o in orders ==> PlainOrder(o)
    requires Covered(DUST, RunOrders(costs, start, orders).fills)
    requires Chronological(RunOrders(costs, start, orders).fills)
    requires candles != []
    requires forall f :: f in RunOrders(costs, start, orders).fills ==> f.timestamp <= candles[|candles| - 1]
    ensures var acct := RunOrders(costs, start, orders);
      var b := Run(DUST, acct.fills);
      var curve := CurveOf(start, candles, Trades(b.matches), |candles|);
      InCents(b, curve[|candles| - 1].equity - (acct.capital + Total(HoldingCost, b.open)))
      && |b.matches| <= |acct.fills|
  {
    var n := |candles|;
    CreditMatchesCash(costs, start, orders, candles[n - 1]);
    CurveIsPoints(start, candles, Trades(Run(DUST, RunOrders(costs, start, orders).fills).matches), n, n - 1);
  }
}
