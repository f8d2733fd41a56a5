/**
 * Plain data shapes shared by the order books, the exchanges and the
 * allocator: the side of a request, a resting order and one fill of an
 * execution plan.
 */
module CoreTypes {

  /** The user's side of the trade. */
  datatype OrderType = Buy | Sell

  /** A resting order of an order book: a price per coin and an amount of coin. */
  datatype Order = Order(price: real, amount: real)

  /** One fill of an execution plan. */
  datatype ExecutionOrder = ExecutionOrder(
    orderType: OrderType,
    amount: real,
    price: real,
    cryptoExchangeId: int)

  /** `Math.Min` on decimals. */
  function Min(a: real, b: real): (r: real)
    ensures r <= a && r <= b
    ensures r == a || r == b
  {
    if a <= b then a else b
  }

  /**
   * Price `p` is at least as good as price `q` for a request of `side`:
   * no higher for Buy (a min-heap on asks), no lower for Sell (a max-heap on bids).
   */
  predicate AtLeastAsGood(side: OrderType, p: real, q: real)
  {
    if side == Buy then p <= q else q <= p
  }
}
