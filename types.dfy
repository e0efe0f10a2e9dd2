/** The value types the matching engine works on: the side, type and status
    enumerations, an order and a trade. Prices and quantities are integers. */
module Types {

  datatype Option<T> = None | Some(value: T)

  /** An order is either a bid (Buy) or an ask (Sell). */
  datatype Side = Buy | Sell

  /** A market order trades at whatever the opposing book offers; a limit
      order only at its own price or better. */
  datatype OrderType = Market | Limit

  datatype Status = Open | Filled | Partial | Cancelled

  /** An order. `price` is present for market orders too (the engine reads
      it only for limit orders). `filledQuantity` is not bounded by
      `quantity`: nothing in the engine enforces that. */
  datatype Order = Order(
    id: string,
    userId: string,
    symbol: string,
    side: Side,
    orderType: OrderType,
    price: int,
    quantity: int,
    filledQuantity: int,
    timestamp: int,
    status: Status)

  /** One execution. It names the side of the incoming order but neither
      order's id. */
  datatype Trade = Trade(
    id: string,
    symbol: string,
    price: int,
    quantity: int,
    timestamp: int,
    takerSide: Side,
    txHash: string)

  function Min(a: int, b: int): (m: int)
    ensures m <= a && m <= b
    ensures m == a || m == b
  {
    if a <= b then a else b
  }
}
