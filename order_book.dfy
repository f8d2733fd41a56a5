/** The order book of one exchange and the side selector used by the allocator. */
module OrderBooks {
  import opened CoreTypes

  /**
   * Asks (offers to sell, consumed by Buy requests) and bids (offers to buy,
   * consumed by Sell requests) of the exchange `cryptoExchangeId`.
   */
  datatype OrderBook = OrderBook(asks: seq<Order>, bids: seq<Order>, cryptoExchangeId: int)
  {
    /** The side of the book a request of `orderType` consumes. */
    function GetOrders(orderType: OrderType): (r: seq<Order>)
      ensures orderType == Buy ==> r == asks
      ensures orderType == Sell ==> r == bids
    {
      if orderType == Buy then asks else bids
    }
  }

  /** A freshly constructed book: both sides empty, the exchange id at its default. */
  function NewOrderBook(): (b: OrderBook)
    ensures b.GetOrders(Buy) == [] && b.GetOrders(Sell) == []
    ensures b.cryptoExchangeId == 0
  {
    OrderBook([], [], 0)
  }

  /** A side of a book is sorted best price first for requests of `side`. */
  predicate SortedBestFirst(side: OrderType, orders: seq<Order>)
  {
    forall i, j :: 0 <= i < j < |orders| ==> AtLeastAsGood(side, orders[i].price, orders[j].price)
  }

  /** Every book's relevant side is sorted best price first. */
  predicate AllSorted(side: OrderType, books: seq<OrderBook>)
  {
    forall b :: 0 <= b < |books| ==> SortedBestFirst(side, books[b].GetOrders(side))
  }

  /** Every order on the relevant side of every book has a positive price and amount. */
  predicate PositiveOrders(side: OrderType, books: seq<OrderBook>)
  {
    forall b, j :: 0 <= b < |books| && 0 <= j < |books[b].GetOrders(side)| ==>
      books[b].GetOrders(side)[j].price > 0.0 && books[b].GetOrders(side)[j].amount > 0.0
  }

  /** Some order on the relevant side of some book has price zero. */
  predicate HasZeroPrice(side: OrderType, books: seq<OrderBook>)
  {
    exists b, j :: 0 <= b < |books| && 0 <= j < |books[b].GetOrders(side)| &&
      books[b].GetOrders(side)[j].price == 0.0
  }
}
