/**
 The paper exchange of a backtest (src/forest/backtest/paper-exchange.ts): cash, a fee and a
 slippage percentage, and a log of the fills that later become trades.
 */
module PaperExchange {
  import opened Wrappers
  import opened ExchangeTypes
  import opened Totals
  import opened Arithmetic

  datatype Fill = Fill(candleIndex: int, timestamp: int, side: Side, price: real, quantity: real, fee: real)

  datatype Costs = Costs(feePct: real, slipPct: real)

  datatype Account = Account(capital: real, fills: seq<Fill>)

  // An order as it reaches the exchange, at the candle being replayed.
  datatype Order = Order(candleIndex: int, timestamp: int, side: Side, quantity: real, price: real)

  // req.price ?? 0
  function PriceOf(req: OrderRequest): (price: real)
    ensures Some(price) == req.price || (req.price == None && price == 0.0)
  {
    if req.price.Some? then req.price.value else 0.0
  }

  // The fill an order would get: slippage moves the price against the trader.
  function Quote(costs: Costs, o: Order): Fill {
    var slip := if o.side == Buy then 1.0 + costs.slipPct / 100.0 else 1.0 - costs.slipPct / 100.0;
    var price := o.price * slip;
    Fill(o.candleIndex, o.timestamp, o.side, price, o.quantity, price * o.quantity * (costs.feePct / 100.0))
  }

  // What a fill adds to the cash.
  function CashFlow(f: Fill): real {
    if f.side == Buy then -(f.price * f.quantity + f.fee) else f.price * f.quantity - f.fee
  }

  // A buy that costs more than the cash is rejected and leaves no trace; nothing else is.
  predicate Accepts(acct: Account, f: Fill) {
    f.side == Sell || f.price * f.quantity + f.fee <= acct.capital
  }

  function Settle(acct: Account, f: Fill): Account {
    if Accepts(acct, f) then Account(acct.capital + CashFlow(f), acct.fills + [f]) else acct
  }

  function Receipt(acct: Account, f: Fill, symbol: string, kind: OrderType): OrderResult {
    if Accepts(acct, f) then
      OrderResult(PaperId(f.side, |acct.fills| + 1), "", symbol, f.side, kind, f.price, f.quantity, f.quantity, Filled,
                  Some(f.fee), Some(""), f.timestamp, Some(0.0))
    else
      OrderResult(NoId, "", "", f.side, kind, 0.0, 0.0, 0.0, Rejected, Some(0.0), Some(""), f.timestamp, Some(0.0))
  }

  // The receipt of a filled order tells the fill that was logged: the price is the quoted one moved against the
  // trader by the slippage, and the fee its percentage of what was traded.
  ghost predicate TellsFill(costs: Costs, side: Side, price: real, quantity: real, r: OrderResult, f: Fill) {
    && r.status == Filled && r.side == side && r.quantity == quantity == r.filled && r.fee.Some?
    && r.price * 100.0 == price * (if side == Buy then 100.0 + costs.slipPct else 100.0 - costs.slipPct)
    && r.fee.value * 100.0 == r.price * quantity * costs.feePct
    && f.side == side && f.price == r.price && f.quantity == quantity && f.fee == r.fee.value
    && f.timestamp == r.timestamp
  }

  // The cash a filled order leaves.
  ghost predicate Paid(side: Side, before: real, r: OrderResult, after: real)
    requires r.fee.Some?
  {
    after == if side == Buy then before - (r.price * r.quantity + r.fee.value)
             else before + (r.price * r.quantity - r.fee.value)
  }

  // A buy is refused exactly if its price and fee exceed the cash.
  ghost predicate RefusedExactly(costs: Costs, side: Side, price: real, quantity: real, capital: real, r: OrderResult) {
    var slipped := price * (100.0 + costs.slipPct) / 100.0;
    && (r.status == Rejected <==> side == Buy && slipped * quantity * (100.0 + costs.feePct) / 100.0 > capital)
    && (r.status == Rejected ==>
          && r.id == NoId && r.side == side && r.price == 0.0 && r.quantity == 0.0 == r.filled
          && r.fee == Some(0.0) == r.pnl)
  }

  lemma CostFigures(costs: Costs, o: Order)
    requires o.side == Buy
    ensures var f := Quote(costs, o);
      f.price * f.quantity + f.fee
      == o.price * (100.0 + costs.slipPct) / 100.0 * o.quantity * (100.0 + costs.feePct) / 100.0
  {
    var f := Quote(costs, o);
    assert f.price == o.price * (100.0 + costs.slipPct) / 100.0;
  }

  // What an order does, read off the request, the receipt and the account.
  ghost predicate Executed(costs: Costs, o: Order, symbol: string, kind: OrderType, before: Account, after: Account,
                           r: OrderResult) {
    && RefusedExactly(costs, o.side, o.price, o.quantity, before.capital, r)
    && r.kind == kind && r.timestamp == o.timestamp
    && (r.status == Rejected ==> after == before)
    && (r.status != Rejected ==>
          && |after.fills| == |before.fills| + 1 && after.fills[..|before.fills|] == before.fills
          && after.fills[|before.fills|].candleIndex == o.candleIndex
          && r.id == PaperId(o.side, |after.fills|) && r.symbol == symbol && r.pnl == Some(0.0)
          && TellsFill(costs, o.side, o.price, o.quantity, r, after.fills[|before.fills|])
          && Paid(o.side, before.capital, r, after.capital))
  }

  lemma OrderIsExecuted(costs: Costs, acct: Account, o: Order, symbol: string, kind: OrderType)
    ensures Executed(costs, o, symbol, kind, acct, Settle(acct, Quote(costs, o)),
                     Receipt(acct, Quote(costs, o), symbol, kind))
  {
    if o.side == Buy {
      CostFigures(costs, o);
    }
  }

  ghost function RunOrders(costs: Costs, start: real, orders: seq<Order>): Account {
    if orders == [] then Account(start, [])
    else Settle(RunOrders(costs, start, orders[..|orders| - 1]), Quote(costs, orders[|orders| - 1]))
  }

  class PaperExchange {
    var fills: seq<Fill>
    var capital: real
    var feePct: real
    var slipPct: real
    var candleTs: int
    var candleIdx: int

    constructor (capital: real, feePct: real, slipPct: real)
      ensures State() == Account(capital, [])
      ensures Rates() == Costs(feePct, slipPct)
      ensures candleTs == 0 && candleIdx == 0
    {
      this.capital, this.feePct, this.slipPct := capital, feePct, slipPct;
      fills, candleTs, candleIdx := [], 0, 0;
    }

    function State(): Account
      reads this
    {
      Account(capital, fills)
    }

    function Rates(): Costs
      reads this
    {
      Costs(feePct, slipPct)
    }

    method SetTimestamp(ts: int)
      modifies this`candleTs
      ensures candleTs == ts
    {
      candleTs := ts;
    }

    method SetCandleIndex(idx: int)
      modifies this`candleIdx
      ensures candleIdx == idx
    {
      candleIdx := idx;
    }

    // A request without a price is quoted at price zero.
    method PlaceOrder(req: OrderRequest) returns (r: OrderResult)
      modifies this`capital, this`fills
      ensures
        var f := Quote(Rates(), Order(candleIdx, candleTs, req.side, req.quantity, PriceOf(req)));
        && State() == Settle(old(State()), f)
        && r == Receipt(old(State()), f, req.symbol, req.kind)
      ensures Executed(Rates(), Order(candleIdx, candleTs, req.side, req.quantity, PriceOf(req)), req.symbol, req.kind,
                       old(State()), State(), r)
    {
      ghost var order := Order(candleIdx, candleTs, req.side, req.quantity, PriceOf(req));
      OrderIsExecuted(Rates(), State(), order, req.symbol, req.kind);
      var slip := if req.side == Buy then 1.0 + slipPct / 100.0 else 1.0 - slipPct / 100.0;
      var price := PriceOf(req) * slip;
      var qty := req.quantity;
      var fee := price * qty * (feePct / 100.0);
      var fill := Fill(candleIdx, candleTs, req.side, price, qty, fee);
      assert fill == Quote(Rates(), order);
      if req.side == Buy {
        var cost := price * qty + fee;
        if cost > capital {
          return OrderResult(NoId, "", "", req.side, req.kind, 0.0, 0.0, 0.0, Rejected, Some(0.0), Some(""), candleTs,
                             Some(0.0));
        }
        capital := capital - cost;
      } else {
        capital := capital + (price * qty - fee);
      }
      fills := fills + [fill];
      return OrderResult(PaperId(req.side, |fills|), "", req.symbol, req.side, req.kind, price, qty, qty, Filled,
                         Some(fee), Some(""), candleTs, Some(0.0));
    }

    method PlaceMarketOrder(side: Side, quantity: real, price: real) returns (r: OrderResult)
      modifies this`capital, this`fills
      ensures
        var f := Quote(Rates(), Order(candleIdx, candleTs, side, quantity, price));
        && State() == Settle(old(State()), f)
        && r == Receipt(old(State()), f, "", Market)
      ensures Executed(Rates(), Order(candleIdx, candleTs, side, quantity, price), "", Market, old(State()), State(), r)
    {
      ghost var order := Order(candleIdx, candleTs, side, quantity, price);
      OrderIsExecuted(Rates(), State(), order, "", Market);
      var slip := if side == Buy then 1.0 + slipPct / 100.0 else 1.0 - slipPct / 100.0;
      var fillPrice := price * slip;
      var fee := fillPrice * quantity * (feePct / 100.0);
      var fill := Fill(candleIdx, candleTs, side, fillPrice, quantity, fee);
      assert fill == Quote(Rates(), order);
      if side == Buy {
        var cost := fillPrice * quantity + fee;
        if cost > capital {
          return OrderResult(NoId, "", "", side, Market, 0.0, 0.0, 0.0, Rejected, Some(0.0), Some(""), candleTs,
                             Some(0.0));
        }
        capital := capital - cost;
      } else {
        capital := capital + (fillPrice * quantity - fee);
      }
      fills := fills + [fill];
      return OrderResult(PaperId(side, |fills|), "", "", side, Market, fillPrice, quantity, quantity, Filled,
                         Some(fee), Some(""), candleTs, Some(0.0));
    }
  }

  // The cash is at every moment what the fill log says it is.
  lemma {:induction false} CapitalFollowsFills(costs: Costs, start: real, orders: seq<Order>)
    ensures var acct := RunOrders(costs, start, orders);
      acct.capital == start + Total(CashFlow, acct.fills)
  {
    if orders != [] {
      var front := orders[..|orders| - 1];
      CapitalFollowsFills(costs, start, front);
      TotalPush(CashFlow, RunOrders(costs, start, front).fills, Quote(costs, orders[|orders| - 1]));
    }
  }

  ghost predicate Percentages(costs: Costs) {
    0.0 <= costs.feePct <= 100.0 && 0.0 <= costs.slipPct <= 100.0
  }

  ghost predicate PlainOrder(o: Order) {
    o.quantity >= 0.0 && o.price >= 0.0
  }

  // A fill with no negative amounts whose fee does not exceed its notional value.
  ghost predicate PlainFill(f: Fill) {
    f.quantity >= 0.0 && f.price >= 0.0 && 0.0 <= f.fee <= f.price * f.quantity
  }

  lemma QuoteIsPlain(costs: Costs, o: Order)
    requires Percentages(costs) && PlainOrder(o)
    ensures PlainFill(Quote(costs, o))
  {
    var f := Quote(costs, o);
    var slip := if o.side == Buy then 1.0 + costs.slipPct / 100.0 else 1.0 - costs.slipPct / 100.0;
    ProductNonNegative(o.price, slip);
    ProductNonNegative(f.price, f.quantity);
    var notional := f.price * f.quantity;
    ProductNonNegative(notional, costs.feePct / 100.0);
    ProductNonNegative(notional, 1.0 - costs.feePct / 100.0);
    assert f.fee == notional * (costs.feePct / 100.0);
    assert notional - f.fee == notional * (1.0 - costs.feePct / 100.0);
  }

  // No order stream can drive the cash below zero, naked sells and rejected buys included.
  lemma {:induction false} CapitalNeverNegative(costs: Costs, start: real, orders: seq<Order>)
    requires Percentages(costs) && start >= 0.0
    requires forall o :: o in orders ==> PlainOrder(o)
    ensures var acct := RunOrders(costs, start, orders);
      acct.capital >= 0.0 && forall f :: f in acct.fills ==> PlainFill(f)
  {
    if orders != [] {
      var last := orders[|orders| - 1];
      CapitalNeverNegative(costs, start, orders[..|orders| - 1]);
      QuoteIsPlain(costs, last);
    }
  }

  lemma SlippedNotional(price: real, slip: real, quantity: real)
    requires price >= 0.0 && quantity >= 0.0
    ensures slip >= 1.0 ==> price * quantity <= price * slip * quantity
    ensures slip <= 1.0 ==> price * slip * quantity <= price * quantity
  {
    if slip >= 1.0 {
      ProductMonotone(1.0, slip, price);
      ProductMonotone(price, price * slip, quantity);
    }
    if slip <= 1.0 {
      ProductMonotone(slip, 1.0, price);
      ProductMonotone(price * slip, price, quantity);
    }
  }

  lemma QuotedNotional(costs: Costs, o: Order)
    requires Percentages(costs) && PlainOrder(o)
    ensures var traded := Quote(costs, o).price * o.quantity;
      if o.side == Buy then o.price * o.quantity <= traded else traded <= o.price * o.quantity
  {
    if o.side == Buy {
      SlippedNotional(o.price, 1.0 + costs.slipPct / 100.0, o.quantity);
    } else {
      SlippedNotional(o.price, 1.0 - costs.slipPct / 100.0, o.quantity);
    }
  }

  // A buy moves cash by at least the quoted notional, a sell by at most that.
  lemma CostsHurt(costs: Costs, o: Order)
    requires Percentages(costs) && PlainOrder(o)
    ensures CashFlow(Quote(costs, o)) <= if o.side == Buy then -(o.price * o.quantity) else o.price * o.quantity
  {
    QuoteIsPlain(costs, o);
    QuotedNotional(costs, o);
  }

  /** Trading there and back at one price never gains: slippage and fees are against the trader in both directions. */
  lemma RoundTripNeverGains(costs: Costs, acct: Account, buy: Order)
    requires Percentages(costs) && PlainOrder(buy) && buy.side == Buy
    requires Accepts(acct, Quote(costs, buy))
    ensures Settle(Settle(acct, Quote(costs, buy)), Quote(costs, buy.(side := Sell))).capital <= acct.capital
  {
    CostsHurt(costs, buy);
    CostsHurt(costs, buy.(side := Sell));
  }
}
