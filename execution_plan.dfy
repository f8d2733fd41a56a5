/**
 * What the allocator promises, on values: the properties a returned plan has,
 * the loop invariant of the allocation loop, its termination measure, and the
 * lemmas that carry the invariant from one iteration to the next.
 */
module ExecutionPlan {
  import opened CoreTypes
  import opened OrderBooks
  import opened CryptoExchanges
  import opened Ledger
  import opened Frontier

  /** Entry `e` holds order `orderIndex` of its book's relevant side, tagged with the book's exchange. */
  predicate PointsIntoBook(side: OrderType, books: seq<OrderBook>, e: BestOrder)
  {
    && e.orderBookIndex < |books|
    && e.orderIndex < |books[e.orderBookIndex].GetOrders(side)|
    && e.order == books[e.orderBookIndex].GetOrders(side)[e.orderIndex]
    && e.cryptoExchangeId == books[e.orderBookIndex].cryptoExchangeId
  }

  //////////////////////////////////////////////////////////////////////////
  // What a returned plan satisfies

  /**
   * Fill `i` is explained by `sources[i]`: it was taken from order
   * `sources[i].order` of book `sources[i].book`, which is the next order of that
   * book after the ones earlier fills took; it is on that book's exchange, at the
   * order's price, for the requested side; and its amount is positive and the
   * least of what the exchange could trade after the earlier fills were booked,
   * the order's amount, and what was still to be executed.
   */
  ghost predicate FillExplained(side: OrderType, amount: real, books: seq<OrderBook>, init: seq<Balance>,
                                fills: seq<ExecutionOrder>, sources: seq<Source>, i: nat)
    requires i < |fills| && i < |sources|
  {
    var s := sources[i];
    && s.book < |books|
    && s.order < |books[s.book].GetOrders(side)|
    && s.exchange < |init|
    && init[s.exchange].id == books[s.book].cryptoExchangeId
    && s.order == Count(sources[..i], s.book)
    && var o := books[s.book].GetOrders(side)[s.order];
    && (side == Sell ==> o.price != 0.0)
    && fills[i] == ExecutionOrder(side, fills[i].amount, o.price, books[s.book].cryptoExchangeId)
    && fills[i].amount > 0.0
    && fills[i].amount ==
         Min(Min(Available(Settle(init[s.exchange], fills[..i]), side, o.price), o.amount), amount - Sum(fills[..i]))
  }

  ghost predicate Explained(side: OrderType, amount: real, books: seq<OrderBook>, init: seq<Balance>,
                            fills: seq<ExecutionOrder>, sources: seq<Source>)
  {
    |sources| == |fills| &&
    forall i :: 0 <= i < |fills| ==> FillExplained(side, amount, books, init, fills, sources, i)
  }

  /** Prices never get better along the plan: non-decreasing for Buy, non-increasing for Sell. */
  predicate PriceOrdered(side: OrderType, fills: seq<ExecutionOrder>)
  {
    forall i, j :: 0 <= i < j < |fills| ==> AtLeastAsGood(side, fills[i].price, fills[j].price)
  }

  /**
   * The fills whose balance update is booked: all of them, except the last one
   * when it completed the request (the service returns before booking it).
   */
  function Booked(fills: seq<ExecutionOrder>, amount: real): seq<ExecutionOrder>
  {
    if fills != [] && Sum(fills) == amount then fills[..|fills| - 1] else fills
  }

  /**
   * Book `b` can contribute nothing more: it has no matching exchange, every
   * order of its relevant side has been filled (`sources` names the order of
   * each fill), or its exchange has no remaining balance in `cur`.
   */
  ghost predicate Retired(side: OrderType, books: seq<OrderBook>, cur: seq<Balance>, sources: seq<Source>, b: nat)
    requires b < |books|
  {
    forall x :: 0 <= x < |cur| && cur[x].id == books[b].cryptoExchangeId ==>
      Count(sources, b) == |books[b].GetOrders(side)| || !HasRemaining(cur[x], side)
  }

  /** Every book is retired. */
  ghost predicate Exhausted(side: OrderType, books: seq<OrderBook>, cur: seq<Balance>, sources: seq<Source>)
  {
    forall b :: 0 <= b < |books| ==> Retired(side, books, cur, sources, b)
  }

  /**
   * Fill `i` is at the best price available when it was made: no book whose
   * exchange could still trade and which still had an unfilled order offered
   * a better price with its next order (the order after those earlier fills
   * took).
   */
  ghost predicate FillBest(side: OrderType, books: seq<OrderBook>, init: seq<Balance>,
                           fills: seq<ExecutionOrder>, sources: seq<Source>, i: nat)
    requires i < |fills| && i < |sources|
  {
    forall c, x :: 0 <= c < |books| && 0 <= x < |init| && init[x].id == books[c].cryptoExchangeId &&
                   Count(sources[..i], c) < |books[c].GetOrders(side)| &&
                   HasRemaining(Settle(init[x], fills[..i]), side) ==>
      AtLeastAsGood(side, fills[i].price, books[c].GetOrders(side)[Count(sources[..i], c)].price)
  }

  /** With positive orders, every fill is at the best price available when it was made. */
  ghost predicate BestPriced(side: OrderType, books: seq<OrderBook>, init: seq<Balance>,
                             fills: seq<ExecutionOrder>, sources: seq<Source>)
  {
    |sources| == |fills| &&
    (PositiveOrders(side, books) ==>
       forall i :: 0 <= i < |fills| ==> FillBest(side, books, init, fills, sources, i))
  }

  /** `admitted[b]` orders of book `b` entered the frontier: the ones fills took, plus at most one more. */
  ghost predicate AdmittedCounts(side: OrderType, books: seq<OrderBook>, sources: seq<Source>, admitted: seq<nat>)
  {
    |admitted| == |books| &&
    forall b :: 0 <= b < |books| ==>
      Count(sources, b) <= admitted[b] <= Count(sources, b) + 1 && admitted[b] <= |books[b].GetOrders(side)|
  }

  /**
   * What a successful GetBestExecution promises about its plan `plan`, on
   * values: `init` holds the balance records before the call and `cur` after
   * it. Every fill is explained, the plan executes at most `amount`, each
   * balance record holds its initial value with the booked fills applied,
   * prices never get better along the plan when the books are sorted, and,
   * for positive orders, every fill is at the best price then available and a
   * plan short of `amount` leaves every book retired.
   */
  ghost predicate Planned(side: OrderType, amount: real, books: seq<OrderBook>, init: seq<Balance>, cur: seq<Balance>,
                          plan: seq<ExecutionOrder>, sources: seq<Source>)
  {
    && Explained(side, amount, books, init, plan, sources)
    && BestPriced(side, books, init, plan, sources)
    && Sum(plan) <= amount
    && cur == SettleAll(init, Booked(plan, amount))
    && (AllSorted(side, books) ==> PriceOrdered(side, plan))
    && (Sum(plan) < amount && PositiveOrders(side, books) ==> Exhausted(side, books, cur, sources))
  }

  //////////////////////////////////////////////////////////////////////////
  // The loop invariant of GetBestExecution, on values

  /** Number of orders not yet admitted, over all books (the loop's termination measure). */
  function Unadmitted(side: OrderType, books: seq<OrderBook>, admitted: seq<nat>): nat
    requires |admitted| == |books|
    requires forall b :: 0 <= b < |books| ==> admitted[b] <= |books[b].GetOrders(side)|
  {
    if books == [] then 0
    else
      var n := |books| - 1;
      Unadmitted(side, books[..n], admitted[..n]) + (|books[n].GetOrders(side)| - admitted[n])
  }

  /** Admitting one more order of book `b` lowers the measure by one. */
  lemma {:induction false} UnadmittedStep(side: OrderType, books: seq<OrderBook>, admitted: seq<nat>, b: nat)
    requires |admitted| == |books| && b < |books|
    requires forall c :: 0 <= c < |books| ==> admitted[c] <= |books[c].GetOrders(side)|
    requires admitted[b] < |books[b].GetOrders(side)|
    ensures Unadmitted(side, books, admitted[b := admitted[b] + 1]) == Unadmitted(side, books, admitted) - 1
  {
    var n := |books| - 1;
    var a' := admitted[b := admitted[b] + 1];
    if b == n {
      assert a'[..n] == admitted[..n];
    } else {
      assert a'[..n] == admitted[..n][b := admitted[b] + 1];
      UnadmittedStep(side, books[..n], admitted[..n], b);
    }
  }

  /**
   * The frontier `q` holds one entry per book, each the next order of its book
   * after those fills already took, and `admitted` counts the orders each book
   * has put into the frontier.
   */
  ghost predicate FrontierInv(side: OrderType, books: seq<OrderBook>, sources: seq<Source>,
                              admitted: seq<nat>, q: seq<BestOrder>)
  {
    && AdmittedCounts(side, books, sources, admitted)
    && OnePerBook(q)
    && forall k :: 0 <= k < |q| ==>
         PointsIntoBook(side, books, q[k]) &&
         q[k].orderIndex + 1 == admitted[q[k].orderBookIndex] &&
         q[k].orderIndex == Count(sources, q[k].orderBookIndex)
  }

  /** `remaining` is what is still to be executed, and every fill so far is explained and best-priced. */
  ghost predicate PlanInv(side: OrderType, amount: real, books: seq<OrderBook>, init: seq<Balance>,
                          remaining: real, fills: seq<ExecutionOrder>, sources: seq<Source>)
  {
    && remaining > 0.0
    && remaining == amount - Sum(fills)
    && Explained(side, amount, books, init, fills, sources)
    && BestPriced(side, books, init, fills, sources)
  }

  /** With sorted books, the plan is price-ordered and no frontier entry beats a price already filled. */
  ghost predicate OrderInv(side: OrderType, books: seq<OrderBook>, fills: seq<ExecutionOrder>, q: seq<BestOrder>)
  {
    AllSorted(side, books) ==>
      PriceOrdered(side, fills) &&
      forall i, k :: 0 <= i < |fills| && 0 <= k < |q| ==> AtLeastAsGood(side, fills[i].price, q[k].order.price)
  }

  /** With positive orders, every book without a frontier entry is retired. */
  ghost predicate RetireInv(side: OrderType, books: seq<OrderBook>, init: seq<Balance>, fills: seq<ExecutionOrder>,
                            sources: seq<Source>, q: seq<BestOrder>)
  {
    PositiveOrders(side, books) ==>
      forall b :: 0 <= b < |books| && !Holds(q, b) ==> Retired(side, books, SettleAll(init, fills), sources, b)
  }

  /** The state of the fill loop of GetBestExecution. */
  ghost predicate LoopInv(side: OrderType, amount: real, books: seq<OrderBook>, init: seq<Balance>,
                          remaining: real, fills: seq<ExecutionOrder>, sources: seq<Source>,
                          admitted: seq<nat>, q: seq<BestOrder>)
  {
    && FrontierInv(side, books, sources, admitted, q)
    && PlanInv(side, amount, books, init, remaining, fills, sources)
    && OrderInv(side, books, fills, q)
    && RetireInv(side, books, init, fills, sources, q)
  }

  /** Removing entry `k` leaves the entries of every other book where they were. */
  lemma HoldsWithout(q: seq<BestOrder>, k: nat, b: nat)
    requires k < |q| && OnePerBook(q)
    ensures b != q[k].orderBookIndex ==> (Holds(Without(q, k), b) <==> Holds(q, b))
    ensures !Holds(Without(q, k), q[k].orderBookIndex)
    ensures OnePerBook(Without(q, k))
  {
    var r := Without(q, k);
    if b != q[k].orderBookIndex && Holds(q, b) {
      var j :| 0 <= j < |q| && q[j].orderBookIndex == b;
      assert r[if j < k then j else j - 1] == q[j];
    }
  }

  /** Orders each book has put into the initial frontier: its first one, if it has any. */
  function InitiallyAdmitted(side: OrderType, books: seq<OrderBook>): (admitted: seq<nat>)
    ensures |admitted| == |books|
    ensures forall b :: 0 <= b < |books| ==> admitted[b] == if books[b].GetOrders(side) != [] then 1 else 0
  {
    seq(|books|, b requires 0 <= b < |books| => if books[b].GetOrders(side) != [] then 1 else 0)
  }

  /** The frontier built by FillPriorityQueue satisfies the loop invariant before any fill. */
  lemma InvInitial(side: OrderType, amount: real, books: seq<OrderBook>, init: seq<Balance>, q: seq<BestOrder>)
    requires amount > 0.0
    requires OnePerBook(q)
    requires forall k :: 0 <= k < |q| ==> PointsIntoBook(side, books, q[k]) && q[k].orderIndex == 0
    requires forall b :: 0 <= b < |books| ==> (Holds(q, b) <==> books[b].GetOrders(side) != [])
    ensures LoopInv(side, amount, books, init, amount, [], [], InitiallyAdmitted(side, books), q)
  {
    var admitted := InitiallyAdmitted(side, books);
    forall k | 0 <= k < |q|
      ensures q[k].orderIndex + 1 == admitted[q[k].orderBookIndex]
    {
      assert Holds(q, q[k].orderBookIndex);
    }
    assert SettleAll(init, []) == init;
  }

  /** Re-admitting the next order of frontier entry `e`'s book lowers the loop measure. */
  lemma MeasureAfterReadmit(side: OrderType, books: seq<OrderBook>, sources: seq<Source>, admitted: seq<nat>,
                            q: seq<BestOrder>, top: nat)
    requires FrontierInv(side, books, sources, admitted, q) && top < |q|
    requires q[top].orderIndex + 1 < |books[q[top].orderBookIndex].GetOrders(side)|
    ensures var b := q[top].orderBookIndex;
            Unadmitted(side, books, admitted[b := q[top].orderIndex + 2]) < Unadmitted(side, books, admitted)
  {
    UnadmittedStep(side, books, admitted, q[top].orderBookIndex);
  }

  /** A frontier entry points into its book, and its book has put exactly that many orders into the frontier. */
  lemma EntryInBook(side: OrderType, books: seq<OrderBook>, sources: seq<Source>, admitted: seq<nat>,
                    q: seq<BestOrder>, top: nat)
    requires FrontierInv(side, books, sources, admitted, q) && top < |q|
    ensures PointsIntoBook(side, books, q[top])
    ensures q[top].orderIndex + 1 == admitted[q[top].orderBookIndex]
  {
  }

  /** A frontier entry at price zero witnesses a zero-priced order. */
  lemma ZeroPriceWitness(side: OrderType, books: seq<OrderBook>, e: BestOrder)
    requires PointsIntoBook(side, books, e) && e.order.price == 0.0
    ensures HasZeroPrice(side, books)
  {
    assert books[e.orderBookIndex].GetOrders(side)[e.orderIndex].price == 0.0;
  }

  /** Dequeuing the top entry without a fill keeps the invariant, provided its book is then retired. */
  lemma InvDrop(side: OrderType, amount: real, books: seq<OrderBook>, init: seq<Balance>,
                remaining: real, fills: seq<ExecutionOrder>, sources: seq<Source>,
                admitted: seq<nat>, q: seq<BestOrder>, top: nat)
    requires LoopInv(side, amount, books, init, remaining, fills, sources, admitted, q)
    requires top < |q|
    requires PositiveOrders(side, books) ==>
      Retired(side, books, SettleAll(init, fills), sources, q[top].orderBookIndex)
    ensures LoopInv(side, amount, books, init, remaining, fills, sources, admitted, Without(q, top))
  {
    var q' := Without(q, top);
    forall b | 0 <= b < |books|
      ensures b != q[top].orderBookIndex ==> (Holds(q', b) <==> Holds(q, b))
    {
      HoldsWithout(q, top, b);
    }
    HoldsWithout(q, top, 0);
  }

  /**
   * With positive orders, a top entry against which nothing can be executed
   * has an exchange without remaining balance, so its book is retired.
   */
  lemma RetiredWhenDrained(side: OrderType, books: seq<OrderBook>, init: seq<Balance>, fills: seq<ExecutionOrder>,
                           sources: seq<Source>, e: BestOrder, xe: nat, remaining: real, exec: real)
    requires PositiveOrders(side, books) && PointsIntoBook(side, books, e)
    requires DistinctIds(init) && xe < |init| && init[xe].id == e.cryptoExchangeId
    requires remaining > 0.0
    requires exec == Min(Min(Available(Settle(init[xe], fills), side, e.order.price), e.order.amount), remaining)
    requires exec <= 0.0
    ensures Retired(side, books, SettleAll(init, fills), sources, e.orderBookIndex)
  {
    var cur := SettleAll(init, fills);
    RemainingIffAvailable(cur[xe], side, e.order.price);
    forall x | 0 <= x < |cur| && cur[x].id == books[e.orderBookIndex].cryptoExchangeId
      ensures !HasRemaining(cur[x], side)
    {
      assert init[x].id == init[xe].id;
    }
  }

  /** A book whose exchange has no balance record is retired. */
  lemma RetiredWithoutExchange(side: OrderType, books: seq<OrderBook>, init: seq<Balance>, fills: seq<ExecutionOrder>,
                               sources: seq<Source>, b: nat)
    requires b < |books| && DistinctIds(init)
    requires books[b].cryptoExchangeId !in IdPositions(init)
    ensures Retired(side, books, SettleAll(init, fills), sources, b)
  {
  }

  /**
   * An explained plan takes nothing from a book whose relevant side is empty
   * or whose exchange has no balance record.
   */
  lemma IdleBookContributesNothing(side: OrderType, amount: real, books: seq<OrderBook>, init: seq<Balance>,
                                   fills: seq<ExecutionOrder>, sources: seq<Source>, b: nat)
    requires Explained(side, amount, books, init, fills, sources)
    requires b < |books|
    requires books[b].GetOrders(side) == [] ||
             forall x :: 0 <= x < |init| ==> init[x].id != books[b].cryptoExchangeId
    ensures forall i :: 0 <= i < |fills| ==> sources[i].book != b
  {
    forall i | 0 <= i < |fills|
      ensures sources[i].book != b
    {
      assert FillExplained(side, amount, books, init, fills, sources, i);
    }
  }

  /** A plan extended by one explained fill stays explained. */
  lemma ExplainedAppend(side: OrderType, amount: real, books: seq<OrderBook>, init: seq<Balance>,
                        fills: seq<ExecutionOrder>, sources: seq<Source>, f: ExecutionOrder, s: Source)
    requires Explained(side, amount, books, init, fills, sources)
    requires FillExplained(side, amount, books, init, fills + [f], sources + [s], |fills|)
    ensures Explained(side, amount, books, init, fills + [f], sources + [s])
  {
    var fs, ss := fills + [f], sources + [s];
    forall i | 0 <= i < |fills|
      ensures FillExplained(side, amount, books, init, fs, ss, i)
    {
      assert FillExplained(side, amount, books, init, fills, sources, i);
      assert fs[..i] == fills[..i];
      assert ss[..i] == sources[..i];
      assert fs[i] == fills[i] && ss[i] == sources[i];
    }
  }

  /**
   * A fill against the top entry `q[top]`, on balance record `xe`, is explained
   * and keeps the admitted counts in step with the fills.
   */
  lemma PlanAfterFill(side: OrderType, amount: real, books: seq<OrderBook>, init: seq<Balance>,
                      remaining: real, fills: seq<ExecutionOrder>, sources: seq<Source>,
                      admitted: seq<nat>, q: seq<BestOrder>, top: nat, xe: nat, exec: real)
    requires FrontierInv(side, books, sources, admitted, q)
    requires PlanInv(side, amount, books, init, remaining, fills, sources)
    requires top < |q|
    requires xe < |init| && init[xe].id == q[top].cryptoExchangeId
    requires side == Sell ==> q[top].order.price != 0.0
    requires exec > 0.0
    requires exec == Min(Min(Available(Settle(init[xe], fills), side, q[top].order.price), q[top].order.amount), remaining)
    ensures var e := q[top];
            var fills' := fills + [ExecutionOrder(side, exec, e.order.price, e.cryptoExchangeId)];
            var sources' := sources + [Source(e.orderBookIndex, e.orderIndex, xe)];
            && Explained(side, amount, books, init, fills', sources')
            && Sum(fills') == Sum(fills) + exec
            && AdmittedCounts(side, books, sources', admitted)
            && admitted[e.orderBookIndex] == Count(sources', e.orderBookIndex)
            && (forall c :: Count(sources', c) == Count(sources, c) + (if c == e.orderBookIndex then 1 else 0))
  {
    var e := q[top];
    var f := ExecutionOrder(side, exec, e.order.price, e.cryptoExchangeId);
    var s := Source(e.orderBookIndex, e.orderIndex, xe);
    var fills', sources' := fills + [f], sources + [s];
    SumAppend(fills, f);
    assert fills'[..|fills|] == fills;
    assert sources'[..|fills|] == sources;
    assert FillExplained(side, amount, books, init, fills', sources', |fills|);
    ExplainedAppend(side, amount, books, init, fills, sources, f, s);
    forall c
      ensures Count(sources', c) == Count(sources, c) + (if c == e.orderBookIndex then 1 else 0)
    {
      CountAppend(sources, s, c);
    }
  }

  /**
   * With positive orders, a fill at the top entry's price is at the best price
   * available: every book whose exchange can still trade and which has an
   * unfilled order holds an entry, which is that next order, and the top entry
   * is at least as good as every entry.
   */
  lemma BestAtTop(side: OrderType, books: seq<OrderBook>, init: seq<Balance>, fills: seq<ExecutionOrder>,
                  sources: seq<Source>, admitted: seq<nat>, q: seq<BestOrder>, top: nat, f: ExecutionOrder, s: Source)
    requires PositiveOrders(side, books) && |sources| == |fills|
    requires FrontierInv(side, books, sources, admitted, q)
    requires RetireInv(side, books, init, fills, sources, q)
    requires IsTop(side, q, top) && f.price == q[top].order.price
    ensures FillBest(side, books, init, fills + [f], sources + [s], |fills|)
  {
    var fs, ss := fills + [f], sources + [s];
    assert fs[..|fills|] == fills && ss[..|fills|] == sources;
    forall c, x | 0 <= c < |books| && 0 <= x < |init| && init[x].id == books[c].cryptoExchangeId &&
                  Count(sources, c) < |books[c].GetOrders(side)| && HasRemaining(Settle(init[x], fills), side)
      ensures AtLeastAsGood(side, f.price, books[c].GetOrders(side)[Count(sources, c)].price)
    {
      assert SettleAll(init, fills)[x] == Settle(init[x], fills);
      assert Holds(q, c);
      var k :| 0 <= k < |q| && q[k].orderBookIndex == c;
      assert AtLeastAsGood(side, q[top].order.price, q[k].order.price);
    }
  }

  /** Appending a fill at the top entry's price keeps every fill best-priced. */
  lemma BestAfterFill(side: OrderType, books: seq<OrderBook>, init: seq<Balance>, fills: seq<ExecutionOrder>,
                      sources: seq<Source>, admitted: seq<nat>, q: seq<BestOrder>, top: nat, f: ExecutionOrder, s: Source)
    requires BestPriced(side, books, init, fills, sources)
    requires FrontierInv(side, books, sources, admitted, q)
    requires RetireInv(side, books, init, fills, sources, q)
    requires IsTop(side, q, top) && f.price == q[top].order.price
    ensures BestPriced(side, books, init, fills + [f], sources + [s])
  {
    var fs, ss := fills + [f], sources + [s];
    if PositiveOrders(side, books) {
      forall i | 0 <= i < |fs|
        ensures FillBest(side, books, init, fs, ss, i)
      {
        if i < |fills| {
          assert FillBest(side, books, init, fills, sources, i);
          assert fs[..i] == fills[..i];
          assert ss[..i] == sources[..i];
          assert fs[i] == fills[i];
        } else {
          BestAtTop(side, books, init, fills, sources, admitted, q, top, f, s);
        }
      }
    }
  }

  /** A fill at the top entry's price keeps the plan price-ordered. */
  lemma OrderAfterFill(side: OrderType, books: seq<OrderBook>, fills: seq<ExecutionOrder>, q: seq<BestOrder>,
                       top: nat, f: ExecutionOrder)
    requires OrderInv(side, books, fills, q)
    requires IsTop(side, q, top) && f.price == q[top].order.price
    ensures AllSorted(side, books) ==>
      PriceOrdered(side, fills + [f]) &&
      forall i :: 0 <= i < |fills| + 1 ==> AtLeastAsGood(side, (fills + [f])[i].price, f.price)
  {
  }

  /** Dequeuing the top entry and possibly enqueuing the next order of its book keeps the order invariant. */
  lemma OrderAfterRequeue(side: OrderType, books: seq<OrderBook>, fills: seq<ExecutionOrder>, q: seq<BestOrder>,
                          top: nat, readmit: bool, q0: seq<BestOrder>, next: BestOrder, q': seq<BestOrder>)
    requires IsTop(side, q, top) && PointsIntoBook(side, books, q[top])
    requires AllSorted(side, books) ==>
      PriceOrdered(side, fills) &&
      forall i :: 0 <= i < |fills| ==> AtLeastAsGood(side, fills[i].price, q[top].order.price)
    requires var e := q[top];
             var b, j := e.orderBookIndex, e.orderIndex + 1;
             && q0 == Without(q, top)
             && (readmit ==> j < |books[b].GetOrders(side)| && next == BestOrder(books[b].GetOrders(side)[j], b, j, e.cryptoExchangeId))
             && q' == if readmit then q0 + [next] else q0
    ensures OrderInv(side, books, fills, q')
  {
    var e := q[top];
    var b, j := e.orderBookIndex, e.orderIndex + 1;
    if readmit && AllSorted(side, books) {
      assert SortedBestFirst(side, books[b].GetOrders(side));
      assert AtLeastAsGood(side, e.order.price, books[b].GetOrders(side)[j].price);
      assert q'[|q0|] == next;
    }
  }

  /**
   * A book that was retired stays retired after a fill from another book, with
   * positive amount and price, on any exchange.
   */
  lemma RetiredAfterFill(side: OrderType, books: seq<OrderBook>, init: seq<Balance>, fills: seq<ExecutionOrder>,
                         sources: seq<Source>, f: ExecutionOrder, s: Source, b: nat)
    requires f.amount > 0.0 && f.price > 0.0 && f.orderType == side
    requires b < |books| && s.book != b
    requires Retired(side, books, SettleAll(init, fills), sources, b)
    ensures Retired(side, books, SettleAll(init, fills + [f]), sources + [s], b)
  {
    var cur, cur' := SettleAll(init, fills), SettleAll(init, fills + [f]);
    CountAppend(sources, s, b);
    forall x | 0 <= x < |cur'| && cur'[x].id == books[b].cryptoExchangeId
      ensures Count(sources + [s], b) == |books[b].GetOrders(side)| || !HasRemaining(cur'[x], side)
    {
      SettleAppend(init[x], fills, f);
      if !HasRemaining(cur[x], side) && f.cryptoExchangeId == init[x].id {
        ExhaustedStaysExhausted(cur[x], side, f.amount, f.price);
      }
    }
  }

  /**
   * After a fill of book `b`'s entry on balance record `xe`: the book keeps an
   * entry when its next order is re-admitted, and otherwise it is retired,
   * because its exchange has no remaining balance or the book has no next order.
   */
  lemma RetireAfterFill(side: OrderType, books: seq<OrderBook>, init: seq<Balance>, fills: seq<ExecutionOrder>,
                        sources: seq<Source>, q: seq<BestOrder>, top: nat, xe: nat, f: ExecutionOrder,
                        q': seq<BestOrder>)
    requires DistinctIds(init)
    requires RetireInv(side, books, init, fills, sources, q)
    requires OnePerBook(q) && top < |q| && PointsIntoBook(side, books, q[top])
    requires q[top].orderIndex == Count(sources, q[top].orderBookIndex)
    requires xe < |init| && init[xe].id == q[top].cryptoExchangeId == f.cryptoExchangeId
    requires f.amount > 0.0 && f.price == q[top].order.price && f.orderType == side
    requires var b := q[top].orderBookIndex;
             (forall c :: 0 <= c < |books| && c != b ==> (Holds(q', c) <==> Holds(Without(q, top), c))) &&
             (!Holds(q', b) ==>
                !HasRemaining(Settle(init[xe], fills + [f]), side) ||
                q[top].orderIndex + 1 >= |books[b].GetOrders(side)|)
    ensures var s := Source(q[top].orderBookIndex, q[top].orderIndex, xe);
            RetireInv(side, books, init, fills + [f], sources + [s], q')
  {
    var b := q[top].orderBookIndex;
    var s := Source(b, q[top].orderIndex, xe);
    var cur' := SettleAll(init, fills + [f]);
    if PositiveOrders(side, books) {
      forall c | 0 <= c < |books| && !Holds(q', c)
        ensures Retired(side, books, cur', sources + [s], c)
      {
        if c == b {
          CountAppend(sources, s, b);
          forall x | 0 <= x < |cur'| && cur'[x].id == books[c].cryptoExchangeId
            ensures Count(sources + [s], c) == |books[c].GetOrders(side)| || !HasRemaining(cur'[x], side)
          {
            assert init[x].id == init[xe].id;
          }
        } else {
          HoldsWithout(q, top, c);
          assert Retired(side, books, SettleAll(init, fills), sources, c);
          RetiredAfterFill(side, books, init, fills, sources, f, s, c);
        }
      }
    }
  }

  /**
   * A fill against the top entry that leaves something to execute, followed by
   * booking it, dequeuing the entry and re-admitting the book's next order
   * exactly when the exchange can still trade and the book has one, keeps the
   * invariant.
   */
  lemma InvFill(side: OrderType, amount: real, books: seq<OrderBook>, init: seq<Balance>,
                remaining: real, fills: seq<ExecutionOrder>, sources: seq<Source>,
                admitted: seq<nat>, q: seq<BestOrder>, top: nat, xe: nat, exec: real, readmit: bool,
                remaining': real, fills': seq<ExecutionOrder>, sources': seq<Source>,
                admitted': seq<nat>, q0: seq<BestOrder>, next: BestOrder, q': seq<BestOrder>)
    requires LoopInv(side, amount, books, init, remaining, fills, sources, admitted, q)
    requires IsTop(side, q, top) && DistinctIds(init)
    requires xe < |init| && init[xe].id == q[top].cryptoExchangeId
    requires side == Sell ==> q[top].order.price != 0.0
    requires exec > 0.0 && remaining - exec > 0.0
    requires exec == Min(Min(Available(Settle(init[xe], fills), side, q[top].order.price), q[top].order.amount), remaining)
    requires var e := q[top];
             readmit <==>
               HasRemaining(Settle(init[xe], fills + [ExecutionOrder(side, exec, e.order.price, e.cryptoExchangeId)]), side) &&
               e.orderIndex + 1 < |books[e.orderBookIndex].GetOrders(side)|
    requires var e := q[top];
             var b, j := e.orderBookIndex, e.orderIndex + 1;
             && remaining' == remaining - exec
             && fills' == fills + [ExecutionOrder(side, exec, e.order.price, e.cryptoExchangeId)]
             && sources' == sources + [Source(b, e.orderIndex, xe)]
             && q0 == Without(q, top)
             && (readmit ==> next == BestOrder(books[b].GetOrders(side)[j], b, j, e.cryptoExchangeId))
             && admitted' == (if readmit then admitted[b := j + 1] else admitted)
             && q' == if readmit then q0 + [next] else q0
    ensures LoopInv(side, amount, books, init, remaining', fills', sources', admitted', q')
  {
    var e := q[top];
    var f := ExecutionOrder(side, exec, e.order.price, e.cryptoExchangeId);
    EntryInBook(side, books, sources, admitted, q, top);
    PlanAfterFill(side, amount, books, init, remaining, fills, sources, admitted, q, top, xe, exec);
    BestAfterFill(side, books, init, fills, sources, admitted, q, top, f, Source(e.orderBookIndex, e.orderIndex, xe));
    assert PlanInv(side, amount, books, init, remaining', fills', sources');
    OrderAfterFill(side, books, fills, q, top, f);
    OrderAfterRequeue(side, books, fills', q, top, readmit, q0, next, q');
    RetireStep(side, books, init, fills, sources, q, top, xe, f, readmit, q0, next, q');
    FrontierStep(side, books, sources, admitted, q, top, xe, readmit, sources', admitted', q0, next, q');
  }

  /** The retire invariant after a fill against the top entry, its dequeue and a possible re-admission. */
  lemma RetireStep(side: OrderType, books: seq<OrderBook>, init: seq<Balance>, fills: seq<ExecutionOrder>,
                   sources: seq<Source>, q: seq<BestOrder>, top: nat, xe: nat, f: ExecutionOrder, readmit: bool,
                   q0: seq<BestOrder>, next: BestOrder, q': seq<BestOrder>)
    requires DistinctIds(init)
    requires RetireInv(side, books, init, fills, sources, q)
    requires OnePerBook(q) && top < |q| && PointsIntoBook(side, books, q[top])
    requires q[top].orderIndex == Count(sources, q[top].orderBookIndex)
    requires xe < |init| && init[xe].id == q[top].cryptoExchangeId == f.cryptoExchangeId
    requires f.amount > 0.0 && f.price == q[top].order.price && f.orderType == side
    requires var e := q[top];
             var b, j := e.orderBookIndex, e.orderIndex + 1;
             && (readmit <==> HasRemaining(Settle(init[xe], fills + [f]), side) && j < |books[b].GetOrders(side)|)
             && q0 == Without(q, top)
             && (readmit ==> next.orderBookIndex == b)
             && q' == if readmit then q0 + [next] else q0
    ensures RetireInv(side, books, init, fills + [f], sources + [Source(q[top].orderBookIndex, q[top].orderIndex, xe)], q')
  {
    var b := q[top].orderBookIndex;
    forall c | 0 <= c < |books|
      ensures c != b ==> (Holds(q', c) <==> Holds(q0, c))
      ensures Holds(q', c) <==> (readmit && c == b) || Holds(q0, c)
    {
      HoldsWithout(q, top, c);
      if readmit {
        HoldsAppend(q0, next, c);
      }
    }
    HoldsWithout(q, top, b);
    RetireAfterFill(side, books, init, fills, sources, q, top, xe, f, q');
  }

  /** The frontier invariant after a fill against the top entry, its dequeue and a possible re-admission. */
  lemma FrontierStep(side: OrderType, books: seq<OrderBook>, sources: seq<Source>, admitted: seq<nat>,
                     q: seq<BestOrder>, top: nat, xe: nat, readmit: bool,
                     sources': seq<Source>, admitted': seq<nat>, q0: seq<BestOrder>, next: BestOrder, q': seq<BestOrder>)
    requires FrontierInv(side, books, sources, admitted, q) && top < |q|
    requires var e := q[top];
             var b, j := e.orderBookIndex, e.orderIndex + 1;
             && sources' == sources + [Source(b, e.orderIndex, xe)]
             && q0 == Without(q, top)
             && (readmit ==> j < |books[b].GetOrders(side)| && next == BestOrder(books[b].GetOrders(side)[j], b, j, e.cryptoExchangeId))
             && admitted' == (if readmit then admitted[b := j + 1] else admitted)
             && q' == if readmit then q0 + [next] else q0
    ensures FrontierInv(side, books, sources', admitted', q')
  {
    FrontierAfterDequeue(side, books, sources, admitted, q, top, xe, sources', q0);
    if readmit {
      FrontierAfterReadmit(side, books, sources', admitted, q0, next, admitted', q');
    }
  }

  /**
   * Filling against the top entry `q[top]` and dequeuing it keeps the frontier
   * invariant: its book now has as many fills as admitted orders, and no entry.
   */
  lemma FrontierAfterDequeue(side: OrderType, books: seq<OrderBook>, sources: seq<Source>, admitted: seq<nat>,
                             q: seq<BestOrder>, top: nat, xe: nat, sources': seq<Source>, q0: seq<BestOrder>)
    requires FrontierInv(side, books, sources, admitted, q) && top < |q|
    requires sources' == sources + [Source(q[top].orderBookIndex, q[top].orderIndex, xe)]
    requires q0 == Without(q, top)
    ensures FrontierInv(side, books, sources', admitted, q0)
    ensures Count(sources', q[top].orderBookIndex) == admitted[q[top].orderBookIndex] == q[top].orderIndex + 1
    ensures forall k :: 0 <= k < |q0| ==> q0[k].orderBookIndex != q[top].orderBookIndex
  {
    var e := q[top];
    var b := e.orderBookIndex;
    var s := Source(b, e.orderIndex, xe);
    forall c
      ensures Count(sources', c) == Count(sources, c) + (if c == b then 1 else 0)
    {
      CountAppend(sources, s, c);
    }
    HoldsWithout(q, top, b);
    forall k | 0 <= k < |q0|
      ensures q0[k].orderBookIndex != b
    {
      assert q0[k] == q[if k < top then k else k + 1];
    }
  }

  /** Enqueuing the next order of a book without an entry, all of whose admitted orders were filled, keeps the frontier invariant. */
  lemma FrontierAfterReadmit(side: OrderType, books: seq<OrderBook>, sources: seq<Source>, admitted: seq<nat>,
                             q: seq<BestOrder>, entry: BestOrder, admitted': seq<nat>, q': seq<BestOrder>)
    requires FrontierInv(side, books, sources, admitted, q)
    requires PointsIntoBook(side, books, entry)
    requires forall k :: 0 <= k < |q| ==> q[k].orderBookIndex != entry.orderBookIndex
    requires Count(sources, entry.orderBookIndex) == admitted[entry.orderBookIndex] == entry.orderIndex
    requires admitted' == admitted[entry.orderBookIndex := entry.orderIndex + 1] && q' == q + [entry]
    ensures FrontierInv(side, books, sources, admitted', q')
  {
    assert q'[|q|] == entry;
    assert OnePerBook(q');
  }

  /** An empty frontier ends the loop with the plan so far, every book retired. */
  lemma PlannedWhenEmpty(side: OrderType, amount: real, books: seq<OrderBook>, init: seq<Balance>,
                         remaining: real, fills: seq<ExecutionOrder>, sources: seq<Source>,
                         admitted: seq<nat>)
    requires LoopInv(side, amount, books, init, remaining, fills, sources, admitted, [])
    ensures Planned(side, amount, books, init, SettleAll(init, fills), fills, sources)
  {
    assert Booked(fills, amount) == fills;
  }

  /**
   * A fill against the top entry `q[top]` that covers what remained ends the
   * loop: the plan executes exactly `amount`, and the completing fill is not booked.
   */
  lemma PlannedWhenComplete(side: OrderType, amount: real, books: seq<OrderBook>, init: seq<Balance>,
                            remaining: real, fills: seq<ExecutionOrder>, sources: seq<Source>,
                            admitted: seq<nat>, q: seq<BestOrder>, top: nat, xe: nat, exec: real)
    requires LoopInv(side, amount, books, init, remaining, fills, sources, admitted, q)
    requires top < |q| && IsTop(side, q, top)
    requires xe < |init| && init[xe].id == q[top].cryptoExchangeId
    requires side == Sell ==> q[top].order.price != 0.0
    requires exec > 0.0
    requires exec == Min(Min(Available(Settle(init[xe], fills), side, q[top].order.price), q[top].order.amount), remaining)
    requires remaining - exec <= 0.0
    ensures var e := q[top];
            Planned(side, amount, books, init, SettleAll(init, fills),
                    fills + [ExecutionOrder(side, exec, e.order.price, e.cryptoExchangeId)],
                    sources + [Source(e.orderBookIndex, e.orderIndex, xe)])
  {
    var e := q[top];
    var f := ExecutionOrder(side, exec, e.order.price, e.cryptoExchangeId);
    PlanAfterFill(side, amount, books, init, remaining, fills, sources, admitted, q, top, xe, exec);
    BestAfterFill(side, books, init, fills, sources, admitted, q, top, f, Source(e.orderBookIndex, e.orderIndex, xe));
    OrderAfterFill(side, books, fills, q, top, f);
    assert Sum(fills + [f]) == amount;
    assert Booked(fills + [f], amount) == fills;
  }
}
