/**
 * The best-execution allocator: validates the request, seeds the frontier
 * with the best order of every book, then repeatedly fills against the
 * globally best-priced order, books the trade on its exchange and re-admits
 * that book's next order while the exchange can still trade.
 */
module MetaExchangeService {
  import opened CoreTypes
  import opened OrderBooks
  import opened CryptoExchanges
  import opened Ledger
  import opened Frontier
  import opened ExecutionPlan

  /** The exceptions the allocator raises. */
  datatype Error = InvalidArgument(message: string) | DivideByZero

  datatype Outcome = Pass | Fail(error: Error)

  datatype Result<T> = Success(value: T) | Failure(error: Error)

  /** The argument checks, in the order the service makes them. */
  function Validate(amount: real, orderBooks: seq<OrderBook>, balance: seq<CryptoExchange>): (r: Outcome)
    ensures r.Pass? <==> amount > 0.0 && 0 < |orderBooks| <= |balance|
    ensures r.Fail? ==> r.error.InvalidArgument?
    ensures amount <= 0.0 ==> r == Fail(InvalidArgument("Amount must be greater than zero."))
    ensures amount > 0.0 && |orderBooks| == 0 ==> r == Fail(InvalidArgument("Order books data null or empty."))
    ensures amount > 0.0 && |orderBooks| > 0 && |balance| == 0 ==> r == Fail(InvalidArgument("Crypto exchange data null or empty."))
    ensures amount > 0.0 && 0 < |balance| < |orderBooks| ==> r == Fail(InvalidArgument("Mismatch: more order books than balance entries."))
  {
    if amount <= 0.0 then Fail(InvalidArgument("Amount must be greater than zero."))
    else if |orderBooks| == 0 then Fail(InvalidArgument("Order books data null or empty."))
    else if |balance| == 0 then Fail(InvalidArgument("Crypto exchange data null or empty."))
    else if |orderBooks| > |balance| then Fail(InvalidArgument("Mismatch: more order books than balance entries."))
    else Pass
  }

  /**
   * The amount to execute against the top order: the least of what its
   * exchange can trade at the order's price, the order's own amount, and the
   * amount still to be executed.
   */
  function GetExecutionAmount(amount: real, bestOrderBalance: CryptoExchange, orderType: OrderType, bestOrder: BestOrder): (r: real)
    reads bestOrderBalance
    requires orderType == Sell ==> bestOrder.order.price != 0.0
    ensures r <= amount && r <= bestOrder.order.amount
    ensures r <= Available(bestOrderBalance.Snapshot(), orderType, bestOrder.order.price)
    ensures r == amount || r == bestOrder.order.amount ||
            r == Available(bestOrderBalance.Snapshot(), orderType, bestOrder.order.price)
  {
    var availableBalanceAmount := bestOrderBalance.GetAvailableAmount(orderType, bestOrder.order.price);
    var availableAmount := Min(availableBalanceAmount, bestOrder.order.amount);
    Min(availableAmount, amount)
  }

  /** `balance.ToDictionary(x => x.Id, x => x)`: each exchange id maps to its balance record. */
  function ToDictionary(balance: seq<CryptoExchange>): (dict: map<int, CryptoExchange>)
    reads balance
    requires DistinctIds(Snapshots(balance))
    ensures forall id :: id in dict <==> id in IdPositions(Snapshots(balance))
    ensures forall id :: id in dict ==> dict[id] == balance[IdPositions(Snapshots(balance))[id]]
  {
    map x | 0 <= x < |balance| :: balance[x].id := balance[x]
  }

  /** Balance records with distinct ids are distinct objects. */
  lemma DistinctRecords(balance: seq<CryptoExchange>)
    requires DistinctIds(Snapshots(balance))
    ensures forall x, y :: 0 <= x < y < |balance| ==> balance[x] != balance[y]
  {
    forall x, y | 0 <= x < y < |balance|
      ensures balance[x] != balance[y]
    {
      assert Snapshots(balance)[x].id != Snapshots(balance)[y].id;
    }
  }

  /** Each balance record holds its initial value in `init` settled with `fills`. */
  ghost predicate Settled(balance: seq<CryptoExchange>, init: seq<Balance>, fills: seq<ExecutionOrder>)
    reads balance
  {
    |init| == |balance| &&
    forall x :: 0 <= x < |balance| ==> balance[x].Snapshot() == Settle(init[x], fills)
  }

  /** `Settled` is the list of current balances agreeing with the ledger. */
  lemma SettledIff(balance: seq<CryptoExchange>, init: seq<Balance>, fills: seq<ExecutionOrder>)
    ensures Settled(balance, init, fills) <==> |init| == |balance| && Snapshots(balance) == SettleAll(init, fills)
  {
    if |init| == |balance| && Snapshots(balance) == SettleAll(init, fills) {
      forall x | 0 <= x < |balance|
        ensures balance[x].Snapshot() == Settle(init[x], fills)
      {
        assert Snapshots(balance)[x] == SettleAll(init, fills)[x];
      }
    }
  }

  /**
   * The initial frontier: the first order of every book whose relevant side is
   * non-empty, one entry per book. (The source walks the books with a
   * `foreach` and a separate counter that always equals the loop position.)
   */
  method FillPriorityQueue(orderType: OrderType, orderBooks: seq<OrderBook>) returns (bestOrders: seq<BestOrder>)
    ensures OnePerBook(bestOrders) && |bestOrders| <= |orderBooks|
    ensures forall k :: 0 <= k < |bestOrders| ==>
      PointsIntoBook(orderType, orderBooks, bestOrders[k]) && bestOrders[k].orderIndex == 0
    ensures forall b :: 0 <= b < |orderBooks| ==>
      (Holds(bestOrders, b) <==> orderBooks[b].GetOrders(orderType) != [])
  {
    var currentOrderBookIndex := 0;
    bestOrders := [];
    while currentOrderBookIndex < |orderBooks|
      invariant 0 <= currentOrderBookIndex <= |orderBooks|
      invariant OnePerBook(bestOrders)
      invariant forall k :: 0 <= k < |bestOrders| ==>
        PointsIntoBook(orderType, orderBooks, bestOrders[k]) && bestOrders[k].orderIndex == 0 &&
        bestOrders[k].orderBookIndex < currentOrderBookIndex
      invariant forall b :: 0 <= b < currentOrderBookIndex ==>
        (Holds(bestOrders, b) <==> orderBooks[b].GetOrders(orderType) != [])
    {
      var orderBook := orderBooks[currentOrderBookIndex];
      var orders := orderBook.GetOrders(orderType);
      if |orders| == 0 {
        currentOrderBookIndex := currentOrderBookIndex + 1;
        continue;
      }
      var bestOrder := orders[0];
      var entry := BestOrder(bestOrder, currentOrderBookIndex, 0, orderBook.cryptoExchangeId);
      forall b | 0 <= b < |orderBooks|
        ensures Holds(bestOrders + [entry], b) <==> Holds(bestOrders, b) || b == currentOrderBookIndex
      {
        HoldsAppend(bestOrders, entry, b);
      }
      bestOrders := bestOrders + [entry];
      currentOrderBookIndex := currentOrderBookIndex + 1;
    }
    OnePerBookBound(bestOrders, |orderBooks|);
  }

  //////////////////////////////////////////////////////////////////////////
  // The allocator

  /**
   * The rest of an iteration after a fill that leaves something to execute:
   * book the trade on `bestOrderBalance` (record `xe` of `balance`), so that the
   * exchange's remaining balance is known; dequeue the top entry; and, when the
   * exchange can still trade and the book has a next order, enqueue that order.
   * The balance records follow the ledger, the loop invariant is kept, and the
   * loop measure decreases.
   */
  method BookAndAdvance(orderType: OrderType, orderBooks: seq<OrderBook>, bestOrderBalance: CryptoExchange,
                        bestOrders: seq<BestOrder>, top: nat, fill: ExecutionOrder,
                        ghost amount: real, ghost balance: seq<CryptoExchange>, ghost init: seq<Balance>,
                        ghost remaining: real, ghost fills: seq<ExecutionOrder>, ghost sources: seq<Source>,
                        ghost admitted: seq<nat>, ghost xe: nat)
    returns (bestOrders': seq<BestOrder>, ghost admitted': seq<nat>)
    requires LoopInv(orderType, amount, orderBooks, init, remaining, fills, sources, admitted, bestOrders)
    requires Settled(balance, init, fills) && DistinctIds(init)
    requires forall x, y :: 0 <= x < y < |balance| ==> balance[x] != balance[y]
    requires top < |bestOrders| && IsTop(orderType, bestOrders, top)
    requires xe < |balance| && bestOrderBalance == balance[xe] && init[xe].id == bestOrders[top].cryptoExchangeId
    requires orderType == Sell ==> bestOrders[top].order.price != 0.0
    requires PointsIntoBook(orderType, orderBooks, bestOrders[top])
    requires var e := bestOrders[top];
             fill == ExecutionOrder(orderType, fill.amount, e.order.price, e.cryptoExchangeId) &&
             fill.amount > 0.0 && remaining - fill.amount > 0.0 &&
             fill.amount == Min(Min(Available(Settle(init[xe], fills), orderType, e.order.price), e.order.amount), remaining)
    modifies bestOrderBalance
    ensures Settled(balance, init, fills + [fill])
    ensures var e := bestOrders[top];
            LoopInv(orderType, amount, orderBooks, init, remaining - fill.amount, fills + [fill],
                    sources + [Source(e.orderBookIndex, e.orderIndex, xe)], admitted', bestOrders')
    ensures var e := bestOrders[top];
            var orders, j := orderBooks[e.orderBookIndex].GetOrders(orderType), e.orderIndex + 1;
            var readmit := HasRemaining(Settle(init[xe], fills + [fill]), orderType) && j < |orders|;
            && bestOrders' == Without(bestOrders, top) + (if readmit then [BestOrder(orders[j], e.orderBookIndex, j, e.cryptoExchangeId)] else [])
            && admitted' == if readmit then admitted[e.orderBookIndex := j + 1] else admitted
    ensures Unadmitted(orderType, orderBooks, admitted') < Unadmitted(orderType, orderBooks, admitted) ||
            (admitted' == admitted && |bestOrders'| < |bestOrders|)
  {
    var bestOrder := bestOrders[top];
    EntryInBook(orderType, orderBooks, sources, admitted, bestOrders, top);
    bestOrderBalance.UpdateBalance(orderType, fill.amount, bestOrder.order.price);
    forall x | 0 <= x < |balance|
      ensures balance[x].Snapshot() == Settle(init[x], fills + [fill])
    {
      SettleAppend(init[x], fills, fill);
    }

    // dequeue the entry; there is at most one entry per order book
    bestOrders' := Without(bestOrders, top);
    ghost var dequeued := bestOrders';
    ghost var next := bestOrder;
    admitted' := admitted;

    // re-admit the book's next order if the exchange can still trade and the book has one
    var orders := orderBooks[bestOrder.orderBookIndex].GetOrders(orderType);
    var hasNextOrderInBook := |orders| > bestOrder.orderIndex + 1;
    var readmit := bestOrderBalance.HasRemainingBalance(orderType) && hasNextOrderInBook;
    if readmit {
      MeasureAfterReadmit(orderType, orderBooks, sources, admitted, bestOrders, top);
      var nextIndex := bestOrder.orderIndex + 1;
      var nextBestOrderInOrderBook := orders[nextIndex];
      var entry := BestOrder(nextBestOrderInOrderBook, bestOrder.orderBookIndex, nextIndex, bestOrder.cryptoExchangeId);
      bestOrders' := bestOrders' + [entry];
      next := entry;
      admitted' := admitted[bestOrder.orderBookIndex := nextIndex + 1];
    }
    InvFill(orderType, amount, orderBooks, init, remaining, fills, sources, admitted, bestOrders, top, xe, fill.amount, readmit,
            remaining - fill.amount, fills + [fill], sources + [Source(bestOrder.orderBookIndex, bestOrder.orderIndex, xe)],
            admitted', dequeued, next, bestOrders');
  }

  /**
   * The best execution of a request to `orderType` `amount` coin against
   * `orderBooks`, with `balance` the balance records of the exchanges, which
   * it updates in place.
   *
   * It fails with an argument error exactly when `Validate` does, before any
   * change, and with a division by zero only on a zero-priced bid. Otherwise
   * it returns a plan whose fills are each explained (`Explained`; `sources`
   * names the order, book and balance record of each fill), whose total never
   * exceeds `amount`, whose prices never get better along the plan when the
   * books are sorted, and after which every balance record holds its initial
   * value with exactly the booked fills applied (all but a completing last
   * fill). A plan short of `amount` leaves, for positive orders, every book
   * retired (`admitted` counts the orders each book put into the frontier).
   */
  method GetBestExecution(orderType: OrderType, amount: real, orderBooks: seq<OrderBook>, balance: seq<CryptoExchange>)
    returns (r: Result<seq<ExecutionOrder>>, ghost sources: seq<Source>)
    requires DistinctIds(Snapshots(balance))
    modifies balance
    ensures Validate(amount, orderBooks, balance).Fail? ==>
      r == Failure(Validate(amount, orderBooks, balance).error) && Snapshots(balance) == old(Snapshots(balance))
    ensures Validate(amount, orderBooks, balance).Pass? ==> r.Success? || r == Failure(DivideByZero)
    ensures r == Failure(DivideByZero) ==> orderType == Sell && HasZeroPrice(orderType, orderBooks)
    ensures r.Success? ==>
      Planned(orderType, amount, orderBooks, old(Snapshots(balance)), Snapshots(balance), r.value, sources)
  {
    sources := [];
    var validation := Validate(amount, orderBooks, balance);
    if validation.Fail? {
      return Failure(validation.error), sources;
    }
    var init := Snapshots(balance);
    DistinctRecords(balance);

    // `ToDictionary` by exchange id, and the position of each id in `balance`
    var balanceDict := ToDictionary(balance);
    ghost var position := IdPositions(init);

    var executionOrders: seq<ExecutionOrder> := [];
    var bestOrders := FillPriorityQueue(orderType, orderBooks);
    ghost var admitted := InitiallyAdmitted(orderType, orderBooks);
    InvInitial(orderType, amount, orderBooks, init, bestOrders);
    SettledIff(balance, init, []);
    var remaining := amount;

    while remaining > 0.0
      invariant LoopInv(orderType, amount, orderBooks, init, remaining, executionOrders, sources, admitted, bestOrders)
      invariant Settled(balance, init, executionOrders)
      decreases Unadmitted(orderType, orderBooks, admitted), |bestOrders|
    {
      // no more orders in the frontier: return the partial plan
      if |bestOrders| == 0 {
        PlannedWhenEmpty(orderType, amount, orderBooks, init, remaining, executionOrders, sources, admitted);
        SettledIff(balance, init, executionOrders);
        return Success(executionOrders), sources;
      }

      // Peek: an entry with the best price
      ghost var someTop := TopIndex(orderType, bestOrders);
      var top :| 0 <= top < |bestOrders| && IsTop(orderType, bestOrders, top);
      var bestOrder := bestOrders[top];
      EntryInBook(orderType, orderBooks, sources, admitted, bestOrders, top);

      // the book has no matching exchange: dequeue the entry
      if bestOrder.cryptoExchangeId !in balanceDict {
        RetiredWithoutExchange(orderType, orderBooks, init, executionOrders, sources, bestOrder.orderBookIndex);
        InvDrop(orderType, amount, orderBooks, init, remaining, executionOrders, sources, admitted, bestOrders, top);
        bestOrders := Without(bestOrders, top);
        continue;
      }
      var bestOrderBalance := balanceDict[bestOrder.cryptoExchangeId];
      ghost var xe := position[bestOrder.cryptoExchangeId];
      assert bestOrderBalance == balance[xe];
      assert bestOrderBalance.Snapshot() == Settle(init[xe], executionOrders);

      // `MoneyBalance / price` throws on a zero-priced bid
      if orderType == Sell && bestOrder.order.price == 0.0 {
        ZeroPriceWitness(orderType, orderBooks, bestOrder);
        return Failure(DivideByZero), sources;
      }

      var executionAmount := GetExecutionAmount(remaining, bestOrderBalance, orderType, bestOrder);

      // nothing can be executed against this entry: dequeue it
      if executionAmount <= 0.0 {
        if PositiveOrders(orderType, orderBooks) {
          RetiredWhenDrained(orderType, orderBooks, init, executionOrders, sources, bestOrder, xe, remaining, executionAmount);
        }
        InvDrop(orderType, amount, orderBooks, init, remaining, executionOrders, sources, admitted, bestOrders, top);
        bestOrders := Without(bestOrders, top);
        continue;
      }

      var fill := ExecutionOrder(orderType, executionAmount, bestOrder.order.price, bestOrder.cryptoExchangeId);
      ghost var fills0, sources0, admitted0, queue0, remaining0 := executionOrders, sources, admitted, bestOrders, remaining;
      if remaining - executionAmount <= 0.0 {
        PlannedWhenComplete(orderType, amount, orderBooks, init, remaining, executionOrders, sources, admitted, bestOrders, top, xe, executionAmount);
        SettledIff(balance, init, executionOrders);
      }
      executionOrders := executionOrders + [fill];
      sources := sources + [Source(bestOrder.orderBookIndex, bestOrder.orderIndex, xe)];

      // decrease what is still to be executed
      remaining := remaining - executionAmount;
      if remaining <= 0.0 {
        return Success(executionOrders), sources;
      }

      // book the trade, dequeue the entry and re-admit its book's next order
      bestOrders, admitted := BookAndAdvance(orderType, orderBooks, bestOrderBalance, bestOrders, top, fill,
                                             amount, balance, init, remaining0, fills0, sources0, admitted0, xe);
    }
    // the loop only ends through one of its returns
    assert false;
  }
}
