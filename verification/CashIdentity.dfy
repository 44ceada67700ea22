/**
 The cash of the paper exchange and the profits of the matched trades tell the same story: cash plus
 the cost of the lots still held is the starting capital plus the realised profit, up to the dust
 the matcher drops.
 */
module CashIdentity {
  import opened ExchangeTypes
  import opened PaperExchange
  import opened LotMatching
  import opened LotMatchingFifo
  import opened Rounding
  import opened Totals
  import opened Arithmetic

  // What a unit of a lot cost and what a unit of a sell earned, fees included.
  ghost function UnitCost(lot: OpenBuyLot): real {
    lot.price + lot.feePerUnit
  }

  ghost function UnitProceeds(f: Fill): real {
    f.price - FeePerUnit(f)
  }

  // Fee-inclusive cost of what remains of a lot.
  ghost function HoldingCost(lot: OpenBuyLot): real {
    UnitCost(lot) * lot.remainingQty
  }

  // Net proceeds of the units of a sell that matched no lot.
  ghost function StrayProceeds(l: Leftover): real {
    UnitProceeds(l.exit) * l.qty
  }

  // The part of a fee that no unit carries: the whole fee of a fill without a positive quantity.
  ghost function OrphanFee(f: Fill): real {
    f.fee - FeePerUnit(f) * f.quantity
  }

  // Realised profit and stray proceeds, less the cost of everything bought and not yet sold.
  ghost function EarnedBy(pnl: Match -> real, hold: OpenBuyLot -> real, b: Book): real {
    Total(pnl, b.matches) - Total(hold, b.retired) - Total(hold, b.open)
  }

  ghost function Earned(b: Book): real {
    EarnedBy(RawPnl, HoldingCost, b) + Total(StrayProceeds, b.leftovers)
  }

  // What q units sold by f bring in.
  ghost function Proceeds(f: Fill): real -> real {
    (q: real) => UnitProceeds(f) * q
  }

  ghost predicate Splits(worth: real -> real, x: real, y: real) {
    worth(x) == worth(y) + worth(x - y)
  }

  // A measure of profit and one of cost fit the sell f when selling q units of a lot gains their
  // proceeds and loses their cost.
  ghost predicate Fits(pnl: Match -> real, hold: OpenBuyLot -> real, f: Fill, worth: real -> real) {
    && (forall n: nat, lot, q ::
          pnl(Match(n, lot, f, q)) == worth(q) - hold(lot) + hold(lot.(remainingQty := lot.remainingQty - q)))
    && (forall x, y :: Splits(worth, x, y))
  }

  lemma PnlSplits(p: real, sellFee: real, cost: real, buyFee: real, held: real, q: real)
    ensures (p - cost) * q - (buyFee + sellFee) * q
         == (p - sellFee) * q - (cost + buyFee) * held + (cost + buyFee) * (held - q)
  {
  }

  lemma Distribute(u: real, x: real, y: real)
    ensures u * x == u * y + u * (x - y)
  {
  }

  lemma PnlFits(f: Fill)
    ensures Fits(RawPnl, HoldingCost, f, Proceeds(f))
  {
    forall n: nat, lot: OpenBuyLot, q: real
      ensures RawPnl(Match(n, lot, f, q))
           == Proceeds(f)(q) - HoldingCost(lot) + HoldingCost(lot.(remainingQty := lot.remainingQty - q))
    {
      PnlSplits(f.price, FeePerUnit(f), lot.price, lot.feePerUnit, lot.remainingQty, q);
    }
    forall x, y ensures Splits(Proceeds(f), x, y) {
      Distribute(UnitProceeds(f), x, y);
    }
  }

  // Matching qty units earns their proceeds, wherever the lot ends up.
  lemma HeadEarns(pnl: Match -> real, hold: OpenBuyLot -> real, cutoff: real, b: Book, f: Fill, left: real,
                  worth: real -> real)
    requires b.open != [] && Fits(pnl, hold, f, worth)
    ensures EarnedBy(pnl, hold, MatchHead(cutoff, b, f, left))
         == EarnedBy(pnl, hold, b) + worth(MinReal(b.open[0].remainingQty, left))
  {
    var lot := b.open[0];
    var qty := MinReal(lot.remainingQty, left);
    var rest := lot.(remainingQty := lot.remainingQty - qty);
    var paired := Match(|b.retired|, lot, f, qty);
    assert pnl(paired) == worth(qty) - hold(lot) + hold(rest);
    TotalPush(pnl, b.matches, paired);
    if rest.remainingQty <= cutoff {
      TotalPush(hold, b.retired, rest);
      TotalHead(hold, b.open);
    } else {
      TotalUpdate(hold, b.open, 0, rest);
    }
  }

  // A measure of the book that each turn of the inner loop raises by the worth of the units it matches.
  ghost predicate Earns(earned: Book -> real, cutoff: real, f: Fill, worth: real -> real) {
    && (forall b: Book, left: real | b.open != [] ::
          earned(MatchHead(cutoff, b, f, left)) == earned(b) + worth(MinReal(b.open[0].remainingQty, left)))
    && (forall x, y :: Splits(worth, x, y))
  }

  // The whole sell then raises it by the worth of the units it matched.
  lemma {:induction false} SellRaises(earned: Book -> real, cutoff: real, b: Book, f: Fill, left: real,
                                      worth: real -> real)
    requires cutoff >= 0.0 && Earns(earned, cutoff, f, worth)
    ensures var (b', left') := MatchSell(cutoff, b, f, left);
      earned(b') + worth(left') == earned(b) + worth(left) && b'.leftovers == b.leftovers
    decreases |b.open|, if left > cutoff then 1 else 0
  {
    if left > cutoff && b.open != [] {
      var qty := MinReal(b.open[0].remainingQty, left);
      SellRaises(earned, cutoff, MatchHead(cutoff, b, f, left), f, left - qty, worth);
      assert Splits(worth, left, qty);
    }
  }

  lemma SellEarns(pnl: Match -> real, hold: OpenBuyLot -> real, cutoff: real, b: Book, f: Fill, left: real,
                  worth: real -> real)
    requires cutoff >= 0.0 && Fits(pnl, hold, f, worth)
    ensures var (b', left') := MatchSell(cutoff, b, f, left);
      EarnedBy(pnl, hold, b') + worth(left') == EarnedBy(pnl, hold, b) + worth(left) && b'.leftovers == b.leftovers
  {
    var earned := (b: Book) => EarnedBy(pnl, hold, b);
    forall b: Book, left | b.open != []
      ensures earned(MatchHead(cutoff, b, f, left)) == earned(b) + worth(MinReal(b.open[0].remainingQty, left))
    {
      HeadEarns(pnl, hold, cutoff, b, f, left, worth);
    }
    SellRaises(earned, cutoff, b, f, left, worth);
  }

  lemma SellFlow(f: Fill)
    requires f.side == Sell
    ensures Proceeds(f)(f.quantity) == CashFlow(f) + OrphanFee(f)
  {
    Distribute(f.quantity, f.price, FeePerUnit(f));
  }

  lemma BuyFlow(f: Fill)
    requires f.side == Buy
    ensures -HoldingCost(NewLot(f)) == CashFlow(f) + OrphanFee(f)
  {
    Distribute(f.quantity, f.price + FeePerUnit(f), FeePerUnit(f));
  }

  lemma SellStepEarns(pnl: Match -> real, hold: OpenBuyLot -> real, stray: Leftover -> real, cutoff: real, b: Book,
                      f: Fill, worth: real -> real)
    requires cutoff >= 0.0 && f.side == Sell && Fits(pnl, hold, f, worth)
    requires forall q :: stray(Leftover(f, q)) == worth(q)
    ensures var b' := Step(cutoff, b, f);
      EarnedBy(pnl, hold, b') + Total(stray, b'.leftovers)
      == EarnedBy(pnl, hold, b) + Total(stray, b.leftovers) + worth(f.quantity)
  {
    var (b', left) := MatchSell(cutoff, b, f, f.quantity);
    SellEarns(pnl, hold, cutoff, b, f, f.quantity, worth);
    TotalPush(stray, b'.leftovers, Leftover(f, left));
    assert stray(Leftover(f, left)) == worth(left);
  }

  lemma BuyStepEarns(pnl: Match -> real, hold: OpenBuyLot -> real, cutoff: real, b: Book, f: Fill)
    requires cutoff >= 0.0 && f.side == Buy
    ensures EarnedBy(pnl, hold, Step(cutoff, b, f)) == EarnedBy(pnl, hold, b) - hold(NewLot(f))
  {
    TotalPush(hold, b.open, NewLot(f));
  }

  // Every fill moves the cash by what it moves the book, but for an orphan fee.
  lemma StepEarns(cutoff: real, b: Book, f: Fill)
    requires cutoff >= 0.0
    ensures Earned(Step(cutoff, b, f)) == Earned(b) + CashFlow(f) + OrphanFee(f)
  {
    if f.side == Buy {
      BuyStepEarns(RawPnl, HoldingCost, cutoff, b, f);
      BuyFlow(f);
    } else {
      PnlFits(f);
      SellStepEarns(RawPnl, HoldingCost, StrayProceeds, cutoff, b, f, Proceeds(f));
      SellFlow(f);
    }
  }

  // A measure of the book that every fill raises by its flow is the total of the flows.
  lemma {:induction false} EarnedIsFlow(earned: Book -> real, cash: Fill -> real, orphan: Fill -> real, cutoff: real,
                                        fills: seq<Fill>)
    requires cutoff >= 0.0
    requires forall b, f :: earned(Step(cutoff, b, f)) == earned(b) + cash(f) + orphan(f)
    ensures earned(Run(cutoff, fills)) == earned(EMPTY_BOOK) + Total(cash, fills) + Total(orphan, fills)
  {
    if fills != [] {
      EarnedIsFlow(earned, cash, orphan, cutoff, fills[..|fills| - 1]);
    }
  }

  /** The exact ledger, for every list of fills and every cutoff: no requirement on signs, order or coverage. */
  lemma LedgerBalances(cutoff: real, fills: seq<Fill>)
    requires cutoff >= 0.0
    ensures var b := Run(cutoff, fills);
      Total(CashFlow, fills) + Total(HoldingCost, b.open) + Total(HoldingCost, b.retired) + Total(OrphanFee, fills)
      == Total(RawPnl, b.matches) + Total(StrayProceeds, b.leftovers)
  {
    var earned := (b: Book) => Earned(b);
    forall b, f ensures earned(Step(cutoff, b, f)) == earned(b) + CashFlow(f) + OrphanFee(f) {
      StepEarns(cutoff, b, f);
    }
    EarnedIsFlow(earned, CashFlow, OrphanFee, cutoff, fills);
    assert earned(EMPTY_BOOK) == 0.0;
  }

  lemma NoOrphan(f: Fill)
    requires PlainFill(f)
    ensures OrphanFee(f) == 0.0 && FeePerUnit(f) >= 0.0 && UnitProceeds(f) >= 0.0
  {
    if f.quantity > 0.0 {
      assert FeePerUnit(f) * f.quantity == f.fee;
      RatioBound(f.fee, f.quantity, f.price);
    } else {
      assert f.price * f.quantity == 0.0;
    }
  }

  lemma RatioBound(fee: real, qty: real, price: real)
    requires qty > 0.0 && 0.0 <= fee <= price * qty
    ensures 0.0 <= fee / qty <= price
  {
    var ratio := fee / qty;
    assert ratio * qty == fee;
    assert (ratio - price) * qty == fee - price * qty;
    assert ratio > price ==> (ratio - price) * qty > 0.0;
    assert ratio < 0.0 ==> ratio * qty < 0.0;
  }

  // Lots keep the price and the unit fee they were bought at.
  ghost predicate PlainBook(b: Book) {
    && (forall lot :: lot in b.open ==> UnitCost(lot) >= 0.0)
    && (forall lot :: lot in b.retired ==> UnitCost(lot) >= 0.0)
    && (forall l :: l in b.leftovers ==> UnitProceeds(l.exit) >= 0.0)
  }

  lemma HeadKeepsPlain(cutoff: real, b: Book, f: Fill, left: real)
    requires b.open != [] && PlainBook(b)
    ensures PlainBook(MatchHead(cutoff, b, f, left))
  {
    var lot := b.open[0];
    var rest := lot.(remainingQty := lot.remainingQty - MinReal(lot.remainingQty, left));
    assert lot in b.open;
    assert UnitCost(rest) == UnitCost(lot);
  }

  lemma {:induction false} SellKeepsPlain(cutoff: real, b: Book, f: Fill, left: real)
    requires cutoff >= 0.0 && PlainBook(b)
    ensures PlainBook(MatchSell(cutoff, b, f, left).0)
    decreases |b.open|, if left > cutoff then 1 else 0
  {
    if left > cutoff && b.open != [] {
      HeadKeepsPlain(cutoff, b, f, left);
      SellKeepsPlain(cutoff, MatchHead(cutoff, b, f, left), f, left - MinReal(b.open[0].remainingQty, left));
    }
  }

  lemma {:induction false} BookIsPlain(cutoff: real, fills: seq<Fill>)
    requires cutoff >= 0.0 && forall f :: f in fills ==> PlainFill(f)
    ensures PlainBook(Run(cutoff, fills)) && Total(OrphanFee, fills) == 0.0
  {
    if fills != [] {
      var front := fills[..|fills| - 1];
      var last := fills[|fills| - 1];
      BookIsPlain(cutoff, front);
      NoOrphan(last);
      TotalPush(OrphanFee, front, last);
      assert front + [last] == fills;
      if last.side == Sell {
        SellKeepsPlain(cutoff, Run(cutoff, front), last, last.quantity);
      }
    }
  }

  // The most a dropped lot or a sell remainder of at most `cutoff` units can be worth.
  ghost function LotDustCap(cutoff: real): OpenBuyLot -> real {
    (lot: OpenBuyLot) => cutoff * UnitCost(lot)
  }

  ghost function SellDustCap(cutoff: real): Leftover -> real {
    (l: Leftover) => cutoff * UnitProceeds(l.exit)
  }

  lemma DustIsSmall(cutoff: real, b: Book)
    requires PlainBook(b) && NonNegative(cutoff, b)
    requires forall l :: l in b.leftovers ==> l.qty <= cutoff
    ensures 0.0 <= Total(HoldingCost, b.retired) <= Total(LotDustCap(cutoff), b.retired)
    ensures 0.0 <= Total(StrayProceeds, b.leftovers) <= Total(SellDustCap(cutoff), b.leftovers)
  {
    forall lot | lot in b.retired ensures 0.0 <= HoldingCost(lot) <= LotDustCap(cutoff)(lot) {
      ProductNonNegative(UnitCost(lot), lot.remainingQty);
      ProductMonotone(lot.remainingQty, cutoff, UnitCost(lot));
    }
    forall l | l in b.leftovers ensures 0.0 <= StrayProceeds(l) <= SellDustCap(cutoff)(l) {
      ProductNonNegative(UnitProceeds(l.exit), l.qty);
      ProductMonotone(l.qty, cutoff, UnitProceeds(l.exit));
    }
    TotalNonNegative(HoldingCost, b.retired);
    TotalNonNegative(StrayProceeds, b.leftovers);
    TotalAtMost(HoldingCost, LotDustCap(cutoff), b.retired);
    TotalAtMost(StrayProceeds, SellDustCap(cutoff), b.leftovers);
  }

  // Cash and the cost of the open lots, less the starting capital and the unrounded profits.
  ghost function Gap(cutoff: real, costs: Costs, start: real, orders: seq<Order>): real
    requires cutoff >= 0.0
  {
    var acct := RunOrders(costs, start, orders);
    var b := Run(cutoff, acct.fills);
    acct.capital + Total(HoldingCost, b.open) - start - Total(RawPnl, b.matches)
  }

  /** The gap, exactly, for every order stream: what units sold without a lot brought in, less the cost of the dust
      dropped and the fees that no unit carries. */
  lemma GapIsStraysLessDust(cutoff: real, costs: Costs, start: real, orders: seq<Order>)
    requires cutoff >= 0.0
    ensures var acct := RunOrders(costs, start, orders);
      var b := Run(cutoff, acct.fills);
      Gap(cutoff, costs, start, orders)
      == Total(StrayProceeds, b.leftovers) - Total(HoldingCost, b.retired) - Total(OrphanFee, acct.fills)
  {
    CapitalFollowsFills(costs, start, orders);
    LedgerBalances(cutoff, RunOrders(costs, start, orders).fills);
  }

  // Selling what one does not hold opens a gap of all it brings in, at any cutoff.
  lemma NakedSellOpensGap(cutoff: real, costs: Costs, start: real, o: Order)
    requires cutoff >= 0.0 && o.side == Sell
    ensures RunOrders(costs, start, [o]).fills == [Quote(costs, o)]
    ensures Run(cutoff, [Quote(costs, o)]).matches == []
    ensures Gap(cutoff, costs, start, [o]) == CashFlow(Quote(costs, o))
  {
    var f := Quote(costs, o);
    assert [o][..0] == [] && [f][..0] == [];
    assert RunOrders(costs, start, [o]) == Account(start + CashFlow(f), [f]);
    assert Run(cutoff, []) == EMPTY_BOOK && MatchSell(cutoff, EMPTY_BOOK, f, f.quantity) == (EMPTY_BOOK, f.quantity);
    assert Run(cutoff, [f]) == Book([], [], [], [] + [Leftover(f, f.quantity)]);
  }

  /** The cash identity over order streams. For any orders the exchange may get, rejected ones included, whose sells
      are covered by open lots: cash plus the cost of the open lots differs from the starting capital plus the
      unrounded profits by less than the dust, that is at most `cutoff` units for each dropped lot (below) and
      `cutoff` units for each sell (above). */
  lemma CashMatchesTrades(cutoff: real, costs: Costs, start: real, orders: seq<Order>)
    requires cutoff >= 0.0 && Percentages(costs) && start >= 0.0
    requires forall o :: o in orders ==> PlainOrder(o)
    requires Covered(cutoff, RunOrders(costs, start, orders).fills)
    ensures var b := Run(cutoff, RunOrders(costs, start, orders).fills);
      var gap := Gap(cutoff, costs, start, orders);
      && gap == Total(StrayProceeds, b.leftovers) - Total(HoldingCost, b.retired)
      && -Total(LotDustCap(cutoff), b.retired) <= gap <= Total(SellDustCap(cutoff), b.leftovers)
  {
    var acct := RunOrders(costs, start, orders);
    GapIsStraysLessDust(cutoff, costs, start, orders);
    CapitalNeverNegative(costs, start, orders);
    BookIsPlain(cutoff, acct.fills);
    QuantitiesNonNegative(cutoff, acct.fills);
    CoveredLeavesDust(cutoff, acct.fills);
    DustIsSmall(cutoff, Run(cutoff, acct.fills));
  }

  // Without the cutoff the identity is exact.
  lemma CashMatchesTradesExactly(costs: Costs, start: real, orders: seq<Order>)
    requires Percentages(costs) && start >= 0.0
    requires forall o :: o in orders ==> PlainOrder(o)
    requires Covered(0.0, RunOrders(costs, start, orders).fills)
    ensures var acct := RunOrders(costs, start, orders);
      var b := Run(0.0, acct.fills);
      acct.capital + Total(HoldingCost, b.open) == start + Total(RawPnl, b.matches)
  {
    var b := Run(0.0, RunOrders(costs, start, orders).fills);
    CashMatchesTrades(0.0, costs, start, orders);
    ZeroTotal(LotDustCap(0.0), b.retired);
    ZeroTotal(SellDustCap(0.0), b.leftovers);
  }

  lemma NothingRetired(b: Book)
    requires NonNegative(0.0, b)
    ensures Total(HoldingCost, b.retired) == 0.0
  {
    forall lot | lot in b.retired ensures HoldingCost(lot) == 0.0 {
      assert lot.remainingQty == 0.0;
    }
    ZeroTotal(HoldingCost, b.retired);
  }

  lemma StraysNonNegative(cutoff: real, b: Book)
    requires PlainBook(b) && NonNegative(cutoff, b)
    ensures forall l :: l in b.leftovers ==> StrayProceeds(l) >= 0.0
  {
    forall l | l in b.leftovers ensures StrayProceeds(l) >= 0.0 {
      ProductNonNegative(UnitProceeds(l.exit), l.qty);
    }
  }

  // Without a cutoff the gap is what the units sold without a lot brought in.
  lemma GapIsStrays(costs: Costs, start: real, orders: seq<Order>, gap: real, strays: real)
    requires Percentages(costs) && start >= 0.0
    requires forall o :: o in orders ==> PlainOrder(o)
    requires gap == Gap(0.0, costs, start, orders)
    requires strays == Total(StrayProceeds, Run(0.0, RunOrders(costs, start, orders).fills).leftovers)
    ensures gap == strays
  {
    var fills := RunOrders(costs, start, orders).fills;
    GapIsStraysLessDust(0.0, costs, start, orders);
    CapitalNeverNegative(costs, start, orders);
    BookIsPlain(0.0, fills);
    QuantitiesNonNegative(0.0, fills);
    NothingRetired(Run(0.0, fills));
  }

  lemma NoStrayNoUnits(l: Leftover)
    requires UnitProceeds(l.exit) > 0.0 && StrayProceeds(l) == 0.0
    ensures l.qty == 0.0
  {
  }

  /** When the identity holds: if every unit sold brings in something, exactly for the order streams whose sells are
      covered by open lots. */
  lemma CashMatchesTradesExactlyWhenCovered(costs: Costs, start: real, orders: seq<Order>)
    requires Percentages(costs) && start >= 0.0
    requires forall o :: o in orders ==> PlainOrder(o)
    requires forall f :: f in RunOrders(costs, start, orders).fills && f.side == Sell ==> UnitProceeds(f) > 0.0
    ensures Gap(0.0, costs, start, orders) == 0.0 <==> Covered(0.0, RunOrders(costs, start, orders).fills)
  {
    var fills := RunOrders(costs, start, orders).fills;
    var b := Run(0.0, fills);
    if Covered(0.0, fills) {
      CashMatchesTradesExactly(costs, start, orders);
    }
    if Gap(0.0, costs, start, orders) == 0.0 {
      GapIsStrays(costs, start, orders, 0.0, Total(StrayProceeds, b.leftovers));
      CapitalNeverNegative(costs, start, orders);
      BookIsPlain(0.0, fills);
      QuantitiesNonNegative(0.0, fills);
      StraysNonNegative(0.0, b);
      LeftoversAreOfSells(0.0, fills);
      forall l | l in b.leftovers ensures l.qty <= 0.0 {
        TermOfZeroTotal(StrayProceeds, b.leftovers, l);
        NoStrayNoUnits(l);
      }
      NothingLeftMeansCovered(0.0, fills);
    }
  }

  ghost function TradePnl(t: BacktestTrade): real {
    t.pnl
  }

  lemma {:induction false} TradesTotal(matches: seq<Match>)
    ensures Total(TradePnl, Trades(matches)) == Total(ReportedPnl, matches)
  {
    if matches != [] {
      var front := matches[..|matches| - 1];
      TradesTotal(front);
      assert Trades(matches) == Trades(front) + [TradeOf(matches[|matches| - 1])];
      TotalPush(TradePnl, Trades(front), TradeOf(matches[|matches| - 1]));
    }
  }

  lemma RoundedTotal(rounded: Match -> real, raw: Match -> real, matches: seq<Match>)
    requires forall m :: rounded(m) == ToFixed2(raw(m))
    ensures -0.005 * |matches| as real <= Total(rounded, matches) - Total(raw, matches) <= 0.005 * |matches| as real
  {
    forall m | m in matches ensures -0.005 <= rounded(m) - raw(m) <= 0.005 {
      CentsError(raw(m));
    }
    TotalsClose(rounded, raw, matches, 0.005);
  }

  // Reporting in whole cents costs at most half a cent per trade.
  lemma ReportedPnlIsClose(matches: seq<Match>)
    ensures -0.005 * |matches| as real
         <= Total(TradePnl, Trades(matches)) - Total(RawPnl, matches)
         <= 0.005 * |matches| as real
  {
    RoundedTotal(ReportedPnl, RawPnl, matches);
    TradesTotal(matches);
  }
}
