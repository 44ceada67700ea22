/**
 The trades of src/forest/backtest/metrics-trades.ts: the loops that build them, and what each of them says
 about the two fills it joins.
 */
module TradeRecords {
  import opened ExchangeTypes
  import opened PaperExchange
  import opened LotMatching
  import opened LotMatchingFifo
  import opened Rounding
  import opened Totals

  // What a unit of a fill cost in fees.
  ghost function UnitFee(f: Fill): real {
    if f.quantity > 0.0 then f.fee / f.quantity else 0.0
  }

  // The lot was bought by this fill.
  ghost predicate BoughtBy(lot: OpenBuyLot, f: Fill) {
    f.side == Buy && lot.timestamp == f.timestamp && lot.price == f.price && lot.feePerUnit == UnitFee(f)
  }

  ghost predicate BoughtIn(lot: OpenBuyLot, fills: seq<Fill>) {
    exists i :: 0 <= i < |fills| && BoughtBy(lot, fills[i])
  }

  // The match joins a buy and a later sell.
  ghost predicate JoinsAt(m: Match, fills: seq<Fill>, i: nat, j: nat) {
    i < j < |fills| && BoughtBy(m.lot, fills[i]) && fills[j].side == Sell && m.exit == fills[j]
  }

  ghost predicate JoinsFills(m: Match, fills: seq<Fill>) {
    exists i, j :: JoinsAt(m, fills, i, j)
  }

  lemma JoinsMore(m: Match, fills: seq<Fill>, f: Fill)
    requires JoinsFills(m, fills)
    ensures JoinsFills(m, fills + [f])
  {
    var i: nat, j: nat :| JoinsAt(m, fills, i, j);
    assert JoinsAt(m, fills + [f], i, j);
  }

  lemma BoughtInMore(lot: OpenBuyLot, fills: seq<Fill>, f: Fill)
    requires BoughtIn(lot, fills)
    ensures BoughtIn(lot, fills + [f])
  {
    var i :| 0 <= i < |fills| && BoughtBy(lot, fills[i]);
    assert (fills + [f])[i] == fills[i];
  }

  // While the sell f after `front` is matched: the open lots were bought before it.
  ghost predicate Selling(front: seq<Fill>, f: Fill, b: Book) {
    && (forall lot :: lot in b.open ==> BoughtIn(lot, front))
    && (forall m :: m in b.matches ==> JoinsFills(m, front + [f]))
  }

  lemma HeadJoins(cutoff: real, front: seq<Fill>, f: Fill, b: Book, left: real)
    requires b.open != [] && f.side == Sell && Selling(front, f, b)
    ensures Selling(front, f, MatchHead(cutoff, b, f, left))
  {
    var lot := b.open[0];
    assert lot in b.open;
    var qty := MinReal(lot.remainingQty, left);
    var m := Match(|b.retired|, lot, f, qty);
    var i :| 0 <= i < |front| && BoughtBy(lot, front[i]);
    assert JoinsAt(m, front + [f], i, |front|);
    assert BoughtBy(lot.(remainingQty := lot.remainingQty - qty), front[i]);
  }

  lemma {:induction false} SellJoins(cutoff: real, front: seq<Fill>, f: Fill, b: Book, left: real)
    requires cutoff >= 0.0 && f.side == Sell && Selling(front, f, b)
    ensures Selling(front, f, MatchSell(cutoff, b, f, left).0)
    decreases |b.open|, if left > cutoff then 1 else 0
  {
    if left > cutoff && b.open != [] {
      HeadJoins(cutoff, front, f, b, left);
      SellJoins(cutoff, front, f, MatchHead(cutoff, b, f, left), left - MinReal(b.open[0].remainingQty, left));
    }
  }

  ghost predicate FromFills(fills: seq<Fill>, b: Book) {
    && (forall lot :: lot in b.open ==> BoughtIn(lot, fills))
    && (forall m :: m in b.matches ==> JoinsFills(m, fills))
  }

  lemma StepFromFills(cutoff: real, front: seq<Fill>, f: Fill, b: Book)
    requires cutoff >= 0.0 && FromFills(front, b)
    ensures FromFills(front + [f], Step(cutoff, b, f))
  {
    forall m | m in b.matches ensures JoinsFills(m, front + [f]) {
      JoinsMore(m, front, f);
    }
    if f.side == Buy {
      forall lot | lot in b.open ensures BoughtIn(lot, front + [f]) {
        BoughtInMore(lot, front, f);
      }
      assert BoughtBy(NewLot(f), (front + [f])[|front|]);
    } else {
      SellJoins(cutoff, front, f, b, f.quantity);
      var after := MatchSell(cutoff, b, f, f.quantity).0;
      forall lot | lot in after.open ensures BoughtIn(lot, front + [f]) {
        BoughtInMore(lot, front, f);
      }
    }
  }

  // Every match joins a buy and a later sell of the log.
  lemma {:induction false} MatchesJoinFills(cutoff: real, fills: seq<Fill>)
    requires cutoff >= 0.0
    ensures FromFills(fills, Run(cutoff, fills))
  {
    if fills != [] {
      var front := fills[..|fills| - 1];
      MatchesJoinFills(cutoff, front);
      StepFromFills(cutoff, front, fills[|fills| - 1], Run(cutoff, front));
      assert front + [fills[|fills| - 1]] == fills;
    }
  }

  // The fees and the profit, to the cent, of `qty` units with these unit fees and prices.
  ghost predicate MoneyTells(fee: real, pnl: real, buyFee: real, sellFee: real, buyPrice: real, sellPrice: real,
                             qty: real)
  {
    && Near(fee, (buyFee + sellFee) * qty, 0.005)
    && Near(pnl, (sellPrice - buyPrice) * qty - (buyFee + sellFee) * qty, 0.005)
  }

  // The profit of a unit in per cent, to four decimals; none without a price.
  ghost predicate PercentTells(pct: real, buyPrice: real, sellPrice: real) {
    if buyPrice > 0.0 then Near(pct, (sellPrice - buyPrice) / buyPrice * 100.0, 0.00005) else pct == 0.0
  }

  // The minutes between the two fills, to the nearest, and never negative.
  ghost predicate MinutesTell(minutes: int, bought: int, sold: int) {
    minutes >= 0 && (sold >= bought ==> Near(minutes as real, (sold - bought) as real / 60000.0, 0.5))
  }

  // What a trade says about its two fills.
  ghost predicate TellsPair(t: BacktestTrade, buy: Fill, sell: Fill) {
    && t.entryTimestamp == buy.timestamp && t.entryPrice == buy.price
    && t.exitTimestamp == sell.timestamp && t.exitPrice == sell.price
    && MoneyTells(t.fee, t.pnl, UnitFee(buy), UnitFee(sell), buy.price, sell.price, t.quantity)
    && PercentTells(t.pnlPct, buy.price, sell.price)
    && MinutesTell(t.holdingMinutes, buy.timestamp, sell.timestamp)
  }

  lemma MoneyIsTold(buyFee: real, sellFee: real, buyPrice: real, sellPrice: real, qty: real)
    ensures var fees := Fees(buyFee, sellFee, qty);
      MoneyTells(ToFixed2(fees), ToFixed2(Pnl(buyPrice, sellPrice, qty, fees)), buyFee, sellFee, buyPrice, sellPrice,
                 qty)
  {
    CentsError(Fees(buyFee, sellFee, qty));
    CentsError(Pnl(buyPrice, sellPrice, qty, Fees(buyFee, sellFee, qty)));
  }

  lemma PercentIsTold(buyPrice: real, sellPrice: real)
    ensures var pct := if buyPrice > 0.0 then ((sellPrice - buyPrice) / buyPrice) * 100.0 else 0.0;
      PercentTells(ToFixed4(pct), buyPrice, sellPrice)
  {
    if buyPrice > 0.0 {
      BpsError(((sellPrice - buyPrice) / buyPrice) * 100.0);
    } else {
      assert ToFixed4(0.0) == 0.0;
    }
  }

  lemma TradeTells(m: Match, buy: Fill)
    requires BoughtBy(m.lot, buy)
    ensures TellsPair(TradeOf(m), buy, m.exit) && TradeOf(m).quantity == m.qty
  {
    MoneyIsTold(m.lot.feePerUnit, FeePerUnit(m.exit), m.lot.price, m.exit.price, m.qty);
    PercentIsTold(m.lot.price, m.exit.price);
  }

  // The trade joins a buy and a later sell of the log.
  ghost predicate IsReal(fills: seq<Fill>, t: BacktestTrade) {
    exists i, j :: IsRealAt(fills, t, i, j)
  }

  ghost predicate IsRealAt(fills: seq<Fill>, t: BacktestTrade, i: nat, j: nat) {
    i < j < |fills| && fills[i].side == Buy && fills[j].side == Sell && TellsPair(t, fills[i], fills[j])
  }

  lemma RealAt(fills: seq<Fill>, t: BacktestTrade, i: nat, j: nat)
    requires i < j < |fills| && fills[i].side == Buy && fills[j].side == Sell && TellsPair(t, fills[i], fills[j])
    ensures IsReal(fills, t)
  {
    assert IsRealAt(fills, t, i, j);
  }

  lemma MatchIsReal(m: Match, fills: seq<Fill>)
    requires JoinsFills(m, fills)
    ensures IsReal(fills, TradeOf(m))
  {
    var i: nat, j: nat :| JoinsAt(m, fills, i, j);
    TradeTells(m, fills[i]);
    RealAt(fills, TradeOf(m), i, j);
  }

  lemma TradesAreReal(cutoff: real, fills: seq<Fill>)
    requires cutoff >= 0.0
    ensures forall t :: t in Trades(Run(cutoff, fills).matches) ==> IsReal(fills, t)
  {
    var ms := Run(cutoff, fills).matches;
    MatchesJoinFills(cutoff, fills);
    forall k | 0 <= k < |ms| ensures IsReal(fills, TradeOf(ms[k])) {
      assert ms[k] in ms;
      MatchIsReal(ms[k], fills);
    }
    forall t | t in Trades(ms) ensures IsReal(fills, t) {
      var k :| 0 <= k < |ms| && t == TradeOf(ms[k]);
    }
  }

  ghost function TradeQty(t: BacktestTrade): real {
    t.quantity
  }

  lemma {:induction false} QuantitiesOfTrades(matches: seq<Match>)
    ensures Total(TradeQty, Trades(matches)) == Total(MatchQty, matches)
  {
    if matches != [] {
      var front, last := matches[..|matches| - 1], matches[|matches| - 1];
      QuantitiesOfTrades(front);
      assert Trades(matches) == Trades(front) + [TradeOf(last)];
      TotalPush(TradeQty, Trades(front), TradeOf(last));
    }
  }

  // The units traded are the units sold but for the leftovers.
  lemma TradedUnits(cutoff: real, fills: seq<Fill>)
    requires cutoff >= 0.0
    ensures Total(TradeQty, Trades(Run(cutoff, fills).matches))
         == Total(SoldQty, fills) - Total(LeftoverQty, Run(cutoff, fills).leftovers)
  {
    FewTrades(cutoff, fills);
    QuantitiesOfTrades(Run(cutoff, fills).matches);
  }

  // The two nested loops. The local variables are those of the code; the ghost book follows them.
  method BuildTradesFromFills(fills: seq<Fill>) returns (trades: seq<BacktestTrade>)
    ensures forall t :: t in trades ==> IsReal(fills, t)
    ensures Total(TradeQty, trades) == Total(SoldQty, fills) - Total(LeftoverQty, Run(0.00000001, fills).leftovers)
    ensures trades == Trades(Run(0.00000001, fills).matches)
  {
    trades := [];
    var openBuys: seq<OpenBuyLot> := [];
    ghost var book := EMPTY_BOOK;
    for i := 0 to |fills|
      invariant book == Run(DUST, fills[..i])
      invariant openBuys == book.open && trades == Trades(book.matches)
    {
      assert fills[..i + 1][..i] == fills[..i];
      var f := fills[i];
      ghost var before := book;
      if f.side == Buy {
        var feePerUnit := if f.quantity > 0.0 then f.fee / f.quantity else 0.0;
        openBuys := openBuys + [OpenBuyLot(f.timestamp, f.price, f.quantity, f.quantity, feePerUnit)];
        book := Step(DUST, before, f);
      } else if |openBuys| > 0 {
        var sellFeePerUnit := if f.quantity > 0.0 then f.fee / f.quantity else 0.0;
        assert sellFeePerUnit == FeePerUnit(f);
        var sellQtyRemaining := f.quantity;
        while sellQtyRemaining > DUST && |openBuys| > 0
          invariant openBuys == book.open && trades == Trades(book.matches)
          invariant MatchSell(DUST, book, f, sellQtyRemaining) == MatchSell(DUST, before, f, f.quantity)
          decreases |openBuys|, if sellQtyRemaining > DUST then 1 else 0
        {
          var buyLot := openBuys[0];
          var matchedQty := MinReal(buyLot.remainingQty, sellQtyRemaining);
          var allocatedFees := Fees(buyLot.feePerUnit, sellFeePerUnit, matchedQty);
          var pnl := Pnl(buyLot.price, f.price, matchedQty, allocatedFees);
          ghost var paired := Match(|book.retired|, buyLot, f, matchedQty);
          assert allocatedFees == AllocatedFees(paired) && pnl == RawPnl(paired);
          trades := trades + [Record(buyLot, f, matchedQty, allocatedFees, pnl)];
          book := MatchHead(DUST, book, f, sellQtyRemaining);

          buyLot := buyLot.(remainingQty := buyLot.remainingQty - matchedQty);
          sellQtyRemaining := sellQtyRemaining - matchedQty;
          if buyLot.remainingQty <= DUST {
            openBuys := openBuys[1..];
          } else {
            openBuys := openBuys[0 := buyLot];
          }
        }
        book := Step(DUST, before, f);
      } else {
        book := Step(DUST, before, f);
      }
    }
    assert fills[..|fills|] == fills;
    TradesAreReal(DUST, fills);
    TradedUnits(DUST, fills);
  }
}
