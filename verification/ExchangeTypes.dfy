/** What the exchange adapters and the bots share (src/tree/exchange/types.ts). */
module ExchangeTypes {
  import opened Wrappers

  datatype Side = Buy | Sell

  datatype OrderType = Market | Limit

  datatype OrderStatus = Open | Filled | PartiallyFilled | Cancelled | Rejected | Expired

  datatype OrderRequest = OrderRequest(symbol: string, side: Side, kind: OrderType, quantity: real,
                                       price: Option<real>, exchange: Option<string>)

  // An empty id, `paper_<side>_<number of fills>`, `rejected-<time>`, or an exchange's own.
  datatype OrderId =
    | NoId
    | PaperId(side: Side, number: nat)
    | RejectedId(at: int)
    | ExchangeOrderId(text: string)

  datatype OrderResult = OrderResult(id: OrderId, exchangeId: string, symbol: string, side: Side, kind: OrderType,
                                     price: real, quantity: real, filled: real, status: OrderStatus,
                                     fee: Option<real>, feeCurrency: Option<string>, timestamp: int,
                                     pnl: Option<real>)
}
