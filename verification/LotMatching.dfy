/**
 FIFO lot matching (src/forest/backtest/metrics-trades.ts): each sell is matched against the open
 buy lots in purchase order, and a lot whose remainder is at most a cutoff is dropped.
 */
module LotMatching {
  import opened Rounding
  import opened ExchangeTypes
  import opened PaperExchange

  datatype OpenBuyLot = OpenBuyLot(timestamp: int, price: real, quantity: real, remainingQty: real, feePerUnit: real)

  datatype BacktestTrade = BacktestTrade(entryTimestamp: int, exitTimestamp: int, entryPrice: real, exitPrice: real,
                                         quantity: real, pnl: real, fee: real, pnlPct: real, holdingMinutes: int)

  // qty units of the lot bought as number lotNo, in the state `lot`, sold by the fill `exit`.
  datatype Match = Match(lotNo: nat, lot: OpenBuyLot, exit: Fill, qty: real)

  // The units of a sell that found no lot.
  datatype Leftover = Leftover(exit: Fill, qty: real)

  // The bookkeeping behind the matching. Lots leave `open` only at the front and then stand, in
  // their final state, in `retired`; lot number k is therefore (retired + open)[k].
  datatype Book = Book(retired: seq<OpenBuyLot>, open: seq<OpenBuyLot>, matches: seq<Match>, leftovers: seq<Leftover>)

  const EMPTY_BOOK := Book([], [], [], [])

  // The quantity at which the code regards a lot or a sell as used up.
  const DUST: real := 0.00000001

  function FeePerUnit(f: Fill): real {
    if f.quantity > 0.0 then f.fee / f.quantity else 0.0
  }

  function NewLot(f: Fill): OpenBuyLot {
    OpenBuyLot(f.timestamp, f.price, f.quantity, f.quantity, FeePerUnit(f))
  }

  function Fees(buyFeePerUnit: real, sellFeePerUnit: real, qty: real): real {
    (buyFeePerUnit + sellFeePerUnit) * qty
  }

  function Pnl(buyPrice: real, sellPrice: real, qty: real, fees: real): real {
    (sellPrice - buyPrice) * qty - fees
  }

  function AllocatedFees(m: Match): real {
    Fees(m.lot.feePerUnit, FeePerUnit(m.exit), m.qty)
  }

  // The profit of a match before it is rounded.
  function RawPnl(m: Match): real {
    Pnl(m.lot.price, m.exit.price, m.qty, AllocatedFees(m))
  }

  function ReportedPnl(m: Match): real {
    ToFixed2(RawPnl(m))
  }

  // The trade record, with its reported figures rounded.
  function Record(lot: OpenBuyLot, exit: Fill, qty: real, fees: real, pnl: real): BacktestTrade {
    var pnlPct := if lot.price > 0.0 then ((exit.price - lot.price) / lot.price) * 100.0 else 0.0;
    var minutes := RoundHalfUp((exit.timestamp - lot.timestamp) as real / 60000.0);
    BacktestTrade(lot.timestamp, exit.timestamp, lot.price, exit.price, qty, ToFixed2(pnl), ToFixed2(fees),
                  ToFixed4(pnlPct), if minutes < 0 then 0 else minutes)
  }

  function TradeOf(m: Match): BacktestTrade {
    Record(m.lot, m.exit, m.qty, AllocatedFees(m), RawPnl(m))
  }

  function Trades(matches: seq<Match>): seq<BacktestTrade> {
    seq(|matches|, i requires 0 <= i < |matches| => TradeOf(matches[i]))
  }

  // One turn of the inner loop: `left` units of the sell f meet the oldest open lot.
  function MatchHead(cutoff: real, b: Book, f: Fill, left: real): Book
    requires b.open != []
  {
    var lot := b.open[0];
    var qty := MinReal(lot.remainingQty, left);
    var rest := lot.(remainingQty := lot.remainingQty - qty);
    var matches := b.matches + [Match(|b.retired|, lot, f, qty)];
    if rest.remainingQty <= cutoff then b.(retired := b.retired + [rest], open := b.open[1..], matches := matches)
    else b.(open := b.open[0 := rest], matches := matches)
  }

  // The inner loop and what it leaves of the sell.
  function MatchSell(cutoff: real, b: Book, f: Fill, left: real): (Book, real)
    requires cutoff >= 0.0
    decreases |b.open|, if left > cutoff then 1 else 0
  {
    if left <= cutoff || b.open == [] then (b, left)
    else MatchSell(cutoff, MatchHead(cutoff, b, f, left), f, left - MinReal(b.open[0].remainingQty, left))
  }

  function Step(cutoff: real, b: Book, f: Fill): Book
    requires cutoff >= 0.0
  {
    if f.side == Buy then b.(open := b.open + [NewLot(f)])
    else
      var (b', left) := MatchSell(cutoff, b, f, f.quantity);
      b'.(leftovers := b'.leftovers + [Leftover(f, left)])
  }

  function Run(cutoff: real, fills: seq<Fill>): Book
    requires cutoff >= 0.0
  {
    if fills == [] then EMPTY_BOOK else Step(cutoff, Run(cutoff, fills[..|fills| - 1]), fills[|fills| - 1])
  }
}
