# Best-execution allocator of meta-exchange-demo, in Dafny

This project models the allocator at the heart of `MetaExchangeService.GetBestExecution`.
A user wants to buy or sell an amount of coin. The allocator splits that request across the order books of several crypto exchanges:

- It takes asks for a Buy and bids for a Sell.
- It always fills against the globally best price.
- No single fill exceeds what the owning exchange can trade with its current balance: coin for a Buy, money for a Sell.

It works on a priority queue, the *frontier*, which holds at most one order per book. After each fill it books the trade on the exchange's balance record in place. It then drops the consumed entry and re-admits the next order of that book, as long as the exchange can still trade.

Modules, one file each:

- `CoreTypes` (`core_types.dfy`): the side of a request, a resting `Order`, one `ExecutionOrder` fill, and `Math.Min`.
- `OrderBooks` (`order_book.dfy`): `OrderBook` as a value, with `GetOrders` selecting asks or bids.
- `CryptoExchanges` (`crypto_exchange.dfy`): the balance rules, stated on a value `Balance` (`Available`, `Apply`, `HasRemaining`), and the class `CryptoExchange` whose `UpdateBalance` changes its fields in place.
- `Ledger` (`ledger.dfy`): the total of a list of fills, the balance a record holds after the fills booked on it (`Settle`), and how many fills came from one book (`Count`).
- `Frontier` (`frontier.dfy`): a frontier entry (`BestOrder`) and the priority queue as a sequence of entries.
  - `Peek` picks any entry whose price is at least as good as every other, so no property depends on how .NET's heap breaks ties.
  - `Dequeue` removes that entry; `Enqueue` appends one.
- `ExecutionPlan` (`execution_plan.dfy`): what a returned plan satisfies (`Planned`), the invariant of the fill loop (`LoopInv`), its termination measure (`Unadmitted`), and the lemmas that carry the invariant through each branch of the loop.
- `MetaExchangeService` (`meta_exchange_service.dfy`): `Validate`, `GetExecutionAmount`, the id lookup, `FillPriorityQueue`, and `GetBestExecution` itself. The last two are methods with loops, as in the source.
- `PlanExamples` (`plan_examples.dfy`): concrete requests. Some show plans `Planned` rules out. One shows that, for the unit test's single-book Buy of 9, `Planned` admits exactly the answer the test expects.

The code calls `GetAvailableAmount` and `HasRemainingBalance` on the records, as the source does. The contracts of `GetBestExecution`, `GetExecutionAmount` and `BookAndAdvance` are stated with `Available` and `HasRemaining` on each record's value view `Snapshot()`. The ensures of the two class functions tie them to those.

The main contract is `GetBestExecution`'s. It returns the plan together with a ghost list `sources`, naming the book, order and balance record of each fill. An argument error comes back exactly when `Validate` fails, and then no balance has changed. A division by zero comes back only for a Sell against a zero-priced bid. Otherwise the plan satisfies `Planned`:

- every fill is explained by the order it was taken from. That order is the next unconsumed order of its book. The fill is at that order's price, on that book's exchange, for the requested side. Its amount is positive and equals the least of three values: what the exchange could trade at that moment, the order's amount, and what was still to execute.
- the fills total at most the requested amount;
- if every book is sorted best price first, prices never get better along the plan;
- with positive orders, every fill is at the best price available when it was made. No book offered a better price with its next unfilled order while its exchange could still trade.
- every balance record ends as its initial value with each booked fill applied, in order. The fill that completes the request is applied to no record, because the source returns before booking it.
- with positive orders, a plan short of the amount leaves every book unable to contribute: every order of the book has been filled, or its exchange has no balance left, or it has no matching balance record.

The loop terminates because each iteration either returns, drops an entry, or admits a book's next order. The decreasing measure is the number of orders not yet admitted, then the size of the frontier.

C# `decimal` is modelled as `real`. A thrown exception is modelled as a `Failure` result.

## Model

| member | source | states |
|---|---|---|
| CoreTypes.Min | BSD.Services/Implementations/MetaExchangeService.cs:143-145 | `Math.Min`: the result is one of its arguments and no larger than either |
| OrderBooks.OrderBook.GetOrders | BSD.Core/Models/OrderBook.cs:11-14 | a Buy consumes the asks, a Sell the bids |
| OrderBooks.NewOrderBook | BSD.Core/Models/OrderBook.cs:7-8 | a fresh book has no orders on either side |
| CryptoExchanges.Available | BSD.Core/Models/CryptoExchange.cs:19-31 | for a Buy an exchange can trade exactly its coin, whatever the price; for a Sell, the coin its money pays for at that price (result times price is the money); a Sell needs a non-zero price |
| CryptoExchanges.Apply | BSD.Core/Models/CryptoExchange.cs:41-59 | a trade keeps the id and keeps money plus coin valued at the trade price; coin goes up by the amount on a Sell and down by it on a Buy |
| CryptoExchanges.CryptoExchange.UpdateBalance | BSD.Core/Models/CryptoExchange.cs:41-59 | the record's new fields are its old fields with the trade applied (`Apply`) |
| CryptoExchanges.CryptoExchange.constructor | BSD.Core/Models/CryptoExchange.cs:5-9 | a record holds the id, money and coin it was created with |
| CryptoExchanges.CryptoExchange.GetAvailableAmount | BSD.Core/Models/CryptoExchange.cs:19-31 | on the record's fields: for a Buy the record's coin, for a Sell the coin its money pays for (result times price is the money) |
| CryptoExchanges.HasRemaining | BSD.Core/Models/CryptoExchange.cs:68-80 | the definition on a `Balance`: money for a Sell, coin for a Buy; what it promises is `RemainingIffAvailable` |
| CryptoExchanges.RemainingIffAvailable | BSD.Core/Models/CryptoExchange.cs:19-80 | at a positive price: an exchange has remaining balance (`HasRemaining`) exactly when it can trade a positive amount (both directions) |
| CryptoExchanges.RemainingAtEveryPrice | BSD.Core/Models/CryptoExchange.cs:19-80 | the same equivalence, at every positive price at once |
| CryptoExchanges.CryptoExchange.HasRemainingBalance | BSD.Core/Models/CryptoExchange.cs:68-80 | the record can still trade exactly when `GetAvailableAmount` is positive at every positive price |
| CryptoExchanges.TradeKeepsBalanceNonNegative | BSD.Core/Models/CryptoExchange.cs:19-59 | trading no more than is available keeps the constraining balance non-negative: coin for a Buy, money for a Sell |
| CryptoExchanges.TradingAllExhausts | BSD.Core/Models/CryptoExchange.cs:19-80 | trading everything available leaves no remaining balance |
| CryptoExchanges.ExhaustedStaysExhausted | BSD.Core/Models/CryptoExchange.cs:41-80 | an exchange without remaining balance has none after another trade of a positive amount at a positive price |
| Ledger.SumAppend | BSD.Services/Implementations/MetaExchangeService.cs:86-95 | appending a fill adds its amount to the plan's total |
| Ledger.Settle | BSD.Services/Implementations/MetaExchangeService.cs:102-103 | replaying fills on a balance record never changes its id |
| Ledger.SettleAppend | BSD.Services/Implementations/MetaExchangeService.cs:102-103 | booking one more fill applies `UpdateBalance` to the fill's own exchange and leaves every other record unchanged |
| Ledger.SettleOthers | BSD.Services/Implementations/MetaExchangeService.cs:102-103 | fills on other exchanges leave a record as it was |
| Ledger.CountAppend | BSD.Services/Implementations/MetaExchangeService.cs:86-92 | a new fill adds one to the count of its own book and nothing to the others |
| Ledger.CountIncreases | BSD.Services/Implementations/MetaExchangeService.cs:119-128 | of two fills from one book, the later one has seen strictly more fills of that book, so it took a later order |
| Frontier.TopIndex | BSD.Services/Implementations/MetaExchangeService.cs:155-159 | every non-empty queue has an entry with the best price: lowest for a Buy, highest for a Sell (`Peek` does not fail) |
| Frontier.Without | BSD.Services/Implementations/MetaExchangeService.cs:105-107 | `Dequeue` removes exactly the chosen entry and keeps the others in order |
| Frontier.HoldsAppend | BSD.Services/Implementations/MetaExchangeService.cs:122-130 | `Enqueue` adds exactly the new entry's book to the books the queue holds |
| Frontier.OnePerBookBound | BSD.Services/Implementations/MetaExchangeService.cs:105-106 | a queue with one entry per book, over n books, holds at most n entries |
| ExecutionPlan.HoldsWithout | BSD.Services/Implementations/MetaExchangeService.cs:105-107 | with one entry per book, dequeuing an entry leaves its book without an entry and the one-per-book property intact, and no other book's status changes |
| ExecutionPlan.InvInitial | BSD.Services/Implementations/MetaExchangeService.cs:52-54 | the frontier built by `FillPriorityQueue`, with no fills and the full amount remaining, satisfies the loop invariant |
| ExecutionPlan.UnadmittedStep | BSD.Services/Implementations/MetaExchangeService.cs:119-130 | admitting one more order of a book lowers the number of unadmitted orders by exactly one |
| ExecutionPlan.MeasureAfterReadmit | BSD.Services/Implementations/MetaExchangeService.cs:116-130 | re-admitting the next order of the top entry's book lowers the loop measure |
| ExecutionPlan.EntryInBook | BSD.Services/Implementations/MetaExchangeService.cs:66 | the peeked entry is a real order of its book, and its index is the number of orders that book has admitted, minus one |
| ExecutionPlan.ZeroPriceWitness | BSD.Services/Implementations/MetaExchangeService.cs:77 | a zero-priced entry shows that the books hold a zero-priced order |
| ExecutionPlan.InvDrop | BSD.Services/Implementations/MetaExchangeService.cs:69-84 | dequeuing the top entry without a fill keeps the loop invariant when its book can contribute nothing more |
| ExecutionPlan.RetiredWhenDrained | BSD.Services/Implementations/MetaExchangeService.cs:77-84 | with positive orders, an entry with a zero execution amount has an exchange with no remaining balance, so its book can contribute nothing more |
| ExecutionPlan.RetiredWithoutExchange | BSD.Services/Implementations/MetaExchangeService.cs:69-75 | a book whose exchange id has no balance record can contribute nothing |
| ExecutionPlan.IdleBookContributesNothing | BSD.Services/Implementations/MetaExchangeService.cs:69-75 | an explained plan takes no fill from a book whose exchange has no balance record, nor from a book whose relevant side is empty (the skip at lines 165-171) |
| ExecutionPlan.ExplainedAppend | BSD.Services/Implementations/MetaExchangeService.cs:86-92 | an explained plan extended by an explained fill stays explained |
| ExecutionPlan.PlanAfterFill | BSD.Services/Implementations/MetaExchangeService.cs:77-95 | the fill against the top entry is explained by that entry and keeps `remaining` equal to the amount minus the total |
| ExecutionPlan.OrderAfterFill | BSD.Services/Implementations/MetaExchangeService.cs:86-92 | with sorted books, a fill at the top entry's price keeps the plan's prices ordered |
| ExecutionPlan.OrderAfterRequeue | BSD.Services/Implementations/MetaExchangeService.cs:105-131 | with sorted books, dequeuing the top entry and enqueuing the next order of its book keep every frontier price no better than any price already filled |
| ExecutionPlan.RetiredAfterFill | BSD.Services/Implementations/MetaExchangeService.cs:102-103 | a book that could contribute nothing still cannot after a further trade from another book |
| ExecutionPlan.RetireAfterFill | BSD.Services/Implementations/MetaExchangeService.cs:102-131 | after a fill, the filled book either holds a new entry or can contribute nothing: its exchange has no remaining balance, or the book has no next order, so all its orders are now filled; every other book keeps its status |
| ExecutionPlan.BestAtTop | BSD.Services/Implementations/MetaExchangeService.cs:65-66 | with positive orders, a fill at the peeked entry's price is at the best price available: every book whose exchange can still trade and which has an unfilled order holds an entry for that order, and the peeked entry is at least as good |
| ExecutionPlan.BestAfterFill | BSD.Services/Implementations/MetaExchangeService.cs:65-92 | appending the fill against the peeked entry keeps every fill of the plan at the best price available when it was made |
| ExecutionPlan.RetireStep | BSD.Services/Implementations/MetaExchangeService.cs:102-131 | the fill-and-requeue step keeps the invariant that every book without an entry can contribute nothing |
| ExecutionPlan.FrontierAfterDequeue | BSD.Services/Implementations/MetaExchangeService.cs:105-107 | after the fill and the dequeue, the filled book has as many fills as admitted orders and no entry |
| ExecutionPlan.FrontierAfterReadmit | BSD.Services/Implementations/MetaExchangeService.cs:109-131 | enqueuing a book's next order, once all its admitted orders are filled, keeps one entry per book and each entry the next order after the ones already filled |
| ExecutionPlan.FrontierStep | BSD.Services/Implementations/MetaExchangeService.cs:105-131 | the fill-and-requeue step keeps the frontier invariant |
| ExecutionPlan.InvFill | BSD.Services/Implementations/MetaExchangeService.cs:86-131 | a fill that leaves something to execute, followed by the dequeue and a re-admission made exactly when the exchange can still trade and the book has a next order, keeps the whole loop invariant |
| ExecutionPlan.PlannedWhenEmpty | BSD.Services/Implementations/MetaExchangeService.cs:58-63 | returning when the frontier is empty gives a plan that satisfies `Planned`, with every fill booked |
| ExecutionPlan.PlannedWhenComplete | BSD.Services/Implementations/MetaExchangeService.cs:94-100 | returning after a fill that covers what remained gives a plan that totals exactly the amount and satisfies `Planned`, with the completing fill not booked |
| MetaExchangeService.Validate | BSD.Services/Implementations/MetaExchangeService.cs:188-207 | the request passes exactly when the amount is positive, there is at least one book and no more books than balance records; each failure is an argument error carrying the message of the first check that failed |
| MetaExchangeService.GetExecutionAmount | BSD.Services/Implementations/MetaExchangeService.cs:137-148 | the execution amount is at most the remaining amount, the order's amount and what the exchange can trade, and equals one of the three |
| MetaExchangeService.ToDictionary | BSD.Services/Implementations/MetaExchangeService.cs:50 | with distinct ids, each exchange id maps to the record that carries it, and only ids that occur are keys |
| MetaExchangeService.FillPriorityQueue | BSD.Services/Implementations/MetaExchangeService.cs:150-186 | the initial frontier holds one entry per book, each the first order of its book with the book's exchange id, and holds an entry for a book exactly when the book's relevant side is non-empty; so it has at most as many entries as there are books |
| MetaExchangeService.BookAndAdvance | BSD.Services/Implementations/MetaExchangeService.cs:102-131 | books the trade on the owning record, so the records equal the replay of the fills. The new frontier is the old one without the top entry, plus the book's next order exactly when the exchange still has remaining balance after the trade and the book has a next order. The loop invariant is kept and the loop measure goes down |
| MetaExchangeService.GetBestExecution | BSD.Services/Implementations/MetaExchangeService.cs:41-135 | an argument error exactly when `Validate` fails, with no balance changed; a division by zero only for a Sell against a zero-priced order; otherwise a plan that satisfies `Planned` (each fill explained and, for positive orders, best-priced; at most the amount; a short plan only when no book can contribute), with the balance records afterwards the initial ones with the booked fills replayed |
| PlanExamples.EmptyPlanRejected | BSD.Services/Implementations/MetaExchangeService.cs:56-99 | buying 5 coin against a single ask of 7 at 3000, on an exchange holding 10 coin, the empty plan does not satisfy `Planned` |
| PlanExamples.MissingLastOrderRejected | BSD.Services/Implementations/MetaExchangeService.cs:56-131 | buying 20 coin against asks of 7 at 3000 and 4 at 3300, on an exchange holding 100 coin, stopping after the first ask does not satisfy `Planned` |
| PlanExamples.WorsePriceRejected | BSD.Services/Implementations/MetaExchangeService.cs:65-92 | buying 1 coin against an ask at 100 and an ask at 200 on two exchanges with coin, filling at 200 does not satisfy `Planned` |
| PlanExamples.SingleBookBuyPlan | BSD.Tests/MetaExchangeTests.cs:78-89 | for the unit test's Buy of 9 against the first book of the fixture and its exchange (10 coin), a plan satisfies `Planned` exactly when it is 7 at 3000 then 2 at 3300, taken from the first two asks, with the exchange left at 3 coin and 29750 money (the completing fill is not booked) |
| PlanExamples.TwoFillPlanned | BSD.Tests/MetaExchangeTests.cs:78-89 | the expected two-fill answer satisfies `Planned` exactly with the first two asks as its sources and the expected final balance |
| PlanExamples.TwoFillExplained | BSD.Services/Implementations/MetaExchangeService.cs:65-92 | the expected answer is explained by the first two asks, and each of its fills is at the best price then available |
| PlanExamples.FirstFillForced | BSD.Services/Implementations/MetaExchangeService.cs:66-92 | in that request the first fill is forced: the whole first ask, 7 at 3000 |
| PlanExamples.SecondFillForced | BSD.Services/Implementations/MetaExchangeService.cs:66-92 | after it the second fill is forced: 2 at 3300, the least of the exchange's 3 coin, the ask's 4 and the 2 still to buy |
| PlanExamples.NoThirdFill | BSD.Services/Implementations/MetaExchangeService.cs:77-100 | once 9 coin are bought no further fill can be explained |
| PlanExamples.EmptyTestPlanRejected | BSD.Services/Implementations/MetaExchangeService.cs:56-99 | in that request the empty plan does not satisfy `Planned` |
| PlanExamples.OneFillTestPlanRejected | BSD.Services/Implementations/MetaExchangeService.cs:102-131 | in that request stopping after the first fill does not satisfy `Planned`, since the exchange still has coin and the book further asks |

## Left out

- Null lists: a Dafny `seq` cannot be null, so `GetBestExecution`'s null-list checks and `FillPriorityQueue`'s null-side skip coincide with the empty cases.
- `decimal` arithmetic is exact `real` arithmetic. The 28-digit precision, the rounding of `MoneyBalance / price` and `OverflowException` on huge products and quotients are not modelled. A quotient overflows, for example, when the price is tiny.
- The .NET `PriorityQueue`'s heap layout and its order among equal prices are not modelled: `Peek` may pick any best-priced entry.
- Concurrent calls sharing balance records, and the service being a singleton, are out of scope.
- File loading, JSON parsing, the console program, the HTTP controller and exception handler, and logging are not modelled. They are I/O around the allocator.
- The source file of the `Order` class (`BSD.Core/Models/Order.cs`) is not part of this model; `CoreTypes.Order` models it as a price and an amount.
- `ToDictionary` throws when two balance records share an id. The model requires distinct ids instead (`DistinctIds`), so that exception is not modelled.
- The frontier indices `OrderBookIndex` and `OrderIndex` are `nat`, not 32-bit `int`. Overflow at 2^31 orders is not modelled.
- `FillPriorityQueue`'s separate `currentOrderBookIndex` counter always equals the `foreach` position. The model uses one loop index for both.
- The final `return executionOrders;` after the loop cannot be reached, because the loop only ends through one of its returns. The model states this with `assert false`.
- MetaExchangeService.BookAndAdvance: this is the second half of the loop body of `GetBestExecution` (lines 102-131), split into its own method. Nothing else in the source is restructured.
- MetaExchangeService.GetBestExecution: two claims are stated only when every order has a positive price and amount: that each fill is at the best price then available, and that a short plan leaves every book unable to contribute. Both are false in general. An order with amount zero gives an execution amount of zero, and the source then drops that book's entry (lines 80-84) without admitting its next order, even if the exchange could still trade. So the book's later orders are never used, and later fills may be at worse prices.
- MetaExchangeService.GetBestExecution: the division-by-zero outcome is characterised only as a Sell whose books hold a zero-priced bid somewhere. The contract does not say that the allocator reached that bid before completing the request. For example, a Sell of 1 against bids at 100 and 0, on an exchange with 1000 money, completes at 100 in the source, yet the contract would also allow the error. It also does not state the balances booked before the error was raised.
- MetaExchangeService.GetBestExecution: the contract does not say which `return` was taken. A plan that totals less than the amount came from the empty-frontier return, and `PlannedWhenComplete` shows that the other return yields exactly the amount.
