/**
 * Small concrete requests showing that `Planned` rules out plans the
 * allocator never returns: a plan that stops while an exchange can still
 * trade against an unfilled order, and a fill at a worse price than another
 * book offers. For the single-book Buy of the unit tests, `Planned` admits
 * exactly the answer the test expects.
 */
module PlanExamples {
  import opened CoreTypes
  import opened OrderBooks
  import opened CryptoExchanges
  import opened Ledger
  import opened ExecutionPlan

  /**
   * Buying 5 coin against one ask of 7 coin at 3000, on an exchange holding
   * 10 coin: the empty plan is not a plan the allocator may return.
   */
  lemma EmptyPlanRejected(sources: seq<Source>)
    ensures var books := [OrderBook([Order(3000.0, 7.0)], [], 1)];
            var init := [Balance(1, 0.0, 10.0)];
            !Planned(Buy, 5.0, books, init, init, [], sources)
  {
    var books := [OrderBook([Order(3000.0, 7.0)], [], 1)];
    var init := [Balance(1, 0.0, 10.0)];
    assert PositiveOrders(Buy, books);
    if sources == [] {
      assert !Retired(Buy, books, init, sources, 0) by {
        assert init[0].id == books[0].cryptoExchangeId;
      }
    }
  }

  /**
   * Buying 20 coin against asks of 7 coin at 3000 and 4 coin at 3300, on an
   * exchange holding 100 coin: stopping after the first ask is ruled out.
   */
  lemma MissingLastOrderRejected(sources: seq<Source>)
    ensures var books := [OrderBook([Order(3000.0, 7.0), Order(3300.0, 4.0)], [], 1)];
            var init := [Balance(1, 0.0, 100.0)];
            var plan := [ExecutionOrder(Buy, 7.0, 3000.0, 1)];
            !Planned(Buy, 20.0, books, init, SettleAll(init, plan), plan, sources)
  {
    var books := [OrderBook([Order(3000.0, 7.0), Order(3300.0, 4.0)], [], 1)];
    var init := [Balance(1, 0.0, 100.0)];
    var plan := [ExecutionOrder(Buy, 7.0, 3000.0, 1)];
    var cur := SettleAll(init, plan);
    assert PositiveOrders(Buy, books);
    assert Sum(plan) == 7.0 by { assert plan[..0] == []; }
    assert Booked(plan, 20.0) == plan;
    assert cur[0] == Balance(1, 21000.0, 93.0) by {
      SettleAppend(init[0], [], plan[0]);
      assert [] + [plan[0]] == plan;
    }
    if |sources| == 1 {
      assert Count(sources, 0) <= 1 by { assert sources[..0] == []; }
      assert !Retired(Buy, books, cur, sources, 0);
    }
  }

  /**
   * Buying 1 coin against an ask at 100 on one exchange and an ask at 200 on
   * another, both exchanges holding 10 coin: filling at 200 is ruled out.
   */
  lemma WorsePriceRejected(sources: seq<Source>)
    ensures var books := [OrderBook([Order(100.0, 1.0)], [], 1), OrderBook([Order(200.0, 1.0)], [], 2)];
            var init := [Balance(1, 0.0, 10.0), Balance(2, 0.0, 10.0)];
            var plan := [ExecutionOrder(Buy, 1.0, 200.0, 2)];
            !Planned(Buy, 1.0, books, init, init, plan, sources)
  {
    var books := [OrderBook([Order(100.0, 1.0)], [], 1), OrderBook([Order(200.0, 1.0)], [], 2)];
    var init := [Balance(1, 0.0, 10.0), Balance(2, 0.0, 10.0)];
    var plan := [ExecutionOrder(Buy, 1.0, 200.0, 2)];
    assert PositiveOrders(Buy, books);
    if |sources| == 1 {
      assert sources[..0] == [] && plan[..0] == [];
      assert Count(sources[..0], 0) == 0;
      assert Settle(init[0], plan[..0]) == init[0];
      assert !FillBest(Buy, books, init, plan, sources, 0);
    }
  }

  //////////////////////////////////////////////////////////////////////////
  // The single-book Buy of the unit tests: the first order book and the
  // first balance record of the test fixture, and a Buy of 9 coin.

  const TestBooks: seq<OrderBook> :=
    [OrderBook([Order(3000.0, 7.0), Order(3300.0, 4.0), Order(3500.0, 9.0)],
               [Order(2950.0, 1.0), Order(2900.0, 2.0), Order(2850.0, 10.0)], 1)]
  const TestBalance: seq<Balance> := [Balance(1, 8750.0, 10.0)]
  const FirstFill: ExecutionOrder := ExecutionOrder(Buy, 7.0, 3000.0, 1)
  const SecondFill: ExecutionOrder := ExecutionOrder(Buy, 2.0, 3300.0, 1)

  /** The first fill must take the whole first ask: 7 coin at 3000. */
  lemma FirstFillForced(plan: seq<ExecutionOrder>, sources: seq<Source>)
    requires 1 <= |plan| && 1 <= |sources|
    requires FillExplained(Buy, 9.0, TestBooks, TestBalance, plan, sources, 0)
    ensures plan[0] == FirstFill && sources[0] == Source(0, 0, 0)
  {
    assert sources[..0] == [] && plan[..0] == [];
  }

  /** After it, the exchange has 3 coin left and 2 coin remain to buy: 2 coin at 3300. */
  lemma SecondFillForced(plan: seq<ExecutionOrder>, sources: seq<Source>)
    requires 2 <= |plan| && 2 <= |sources|
    requires plan[0] == FirstFill && sources[0] == Source(0, 0, 0)
    requires FillExplained(Buy, 9.0, TestBooks, TestBalance, plan, sources, 1)
    ensures plan[1] == SecondFill && sources[1] == Source(0, 1, 0)
  {
    assert sources[..1] == [] + [sources[0]];
    CountAppend([], sources[0], 0);
    assert plan[..1] == [] + [FirstFill];
    SettleAppend(TestBalance[0], [], FirstFill);
    assert Settle(TestBalance[0], plan[..1]).coin == 3.0;
    assert Sum(plan[..1]) == 7.0 by { assert plan[..1][..0] == []; }
  }

  /** Once 9 coin are bought nothing remains, so no third fill can be explained. */
  lemma NoThirdFill(plan: seq<ExecutionOrder>, sources: seq<Source>)
    requires 3 <= |plan| && 3 <= |sources|
    requires plan[0] == FirstFill && plan[1] == SecondFill
    ensures !FillExplained(Buy, 9.0, TestBooks, TestBalance, plan, sources, 2)
  {
    SumAppend([], FirstFill);
    SumAppend([FirstFill], SecondFill);
    assert plan[..2] == [FirstFill] + [SecondFill];
    assert Sum(plan[..2]) == 9.0;
  }

  /** The empty plan leaves the exchange with coin and the book with orders. */
  lemma EmptyTestPlanRejected(cur: seq<Balance>, sources: seq<Source>)
    ensures !Planned(Buy, 9.0, TestBooks, TestBalance, cur, [], sources)
  {
    assert PositiveOrders(Buy, TestBooks);
    if sources == [] && cur == SettleAll(TestBalance, []) {
      assert cur[0] == TestBalance[0];
      assert !Retired(Buy, TestBooks, cur, sources, 0);
    }
  }

  /** Stopping after the first fill leaves the exchange 3 coin and the book two orders. */
  lemma OneFillTestPlanRejected(cur: seq<Balance>, sources: seq<Source>)
    ensures !Planned(Buy, 9.0, TestBooks, TestBalance, cur, [FirstFill], sources)
  {
    var plan := [FirstFill];
    assert PositiveOrders(Buy, TestBooks);
    assert Sum(plan) == 7.0 by { assert plan[..0] == []; }
    assert Booked(plan, 9.0) == plan;
    if |sources| == 1 && cur == SettleAll(TestBalance, plan) {
      SettleAppend(TestBalance[0], [], FirstFill);
      assert [] + [FirstFill] == plan;
      assert cur[0].coin == 3.0;
      assert !Retired(Buy, TestBooks, cur, sources, 0);
    }
  }

  /**
   * The answer the unit test expects, 7 coin at 3000 then 2 coin at 3300,
   * is the only plan `Planned` admits for this request, and the only
   * explanation of it. The completing fill is not booked, so the exchange
   * ends with the first fill applied.
   */
  lemma SingleBookBuyPlan(cur: seq<Balance>, plan: seq<ExecutionOrder>, sources: seq<Source>)
    ensures Planned(Buy, 9.0, TestBooks, TestBalance, cur, plan, sources) <==>
              && plan == [FirstFill, SecondFill]
              && sources == [Source(0, 0, 0), Source(0, 1, 0)]
              && cur == [Balance(1, 29750.0, 3.0)]
  {
    if plan == [] {
      EmptyTestPlanRejected(cur, sources);
    } else if |sources| == |plan| && FillExplained(Buy, 9.0, TestBooks, TestBalance, plan, sources, 0) {
      FirstFillForced(plan, sources);
      if |plan| == 1 {
        assert plan == [FirstFill];
        OneFillTestPlanRejected(cur, sources);
      } else if FillExplained(Buy, 9.0, TestBooks, TestBalance, plan, sources, 1) {
        SecondFillForced(plan, sources);
        if |plan| >= 3 {
          NoThirdFill(plan, sources);
        } else {
          assert plan == [FirstFill, SecondFill];
          TwoFillPlanned(cur, plan, sources);
        }
      }
    }
  }

  /** The expected trace is explained by the first two asks. */
  lemma TwoFillExplained(plan: seq<ExecutionOrder>, sources: seq<Source>)
    requires plan == [FirstFill, SecondFill] && sources == [Source(0, 0, 0), Source(0, 1, 0)]
    ensures Explained(Buy, 9.0, TestBooks, TestBalance, plan, sources)
    ensures BestPriced(Buy, TestBooks, TestBalance, plan, sources)
  {
    assert plan[..1] == [] + [FirstFill] && plan[..0] == [];
    assert sources[..1] == [] + [sources[0]] && sources[..0] == [];
    CountAppend([], sources[0], 0);
    SumAppend([], FirstFill);
    SettleAppend(TestBalance[0], [], FirstFill);
    assert Settle(TestBalance[0], plan[..1]).coin == 3.0;
    assert FillExplained(Buy, 9.0, TestBooks, TestBalance, plan, sources, 0);
    assert FillExplained(Buy, 9.0, TestBooks, TestBalance, plan, sources, 1);
    assert FillBest(Buy, TestBooks, TestBalance, plan, sources, 0);
    assert FillBest(Buy, TestBooks, TestBalance, plan, sources, 1);
  }

  /** The expected trace, with its explanation, satisfies `Planned` exactly for the expected final balance. */
  lemma TwoFillPlanned(cur: seq<Balance>, plan: seq<ExecutionOrder>, sources: seq<Source>)
    requires plan == [FirstFill, SecondFill]
    ensures Planned(Buy, 9.0, TestBooks, TestBalance, cur, plan, sources) <==>
              sources == [Source(0, 0, 0), Source(0, 1, 0)] && cur == [Balance(1, 29750.0, 3.0)]
  {
    SumAppend([], FirstFill);
    SumAppend([FirstFill], SecondFill);
    assert plan == [FirstFill] + [SecondFill];
    assert Sum(plan) == 9.0;
    assert Booked(plan, 9.0) == [FirstFill];
    SettleAppend(TestBalance[0], [], FirstFill);
    assert SettleAll(TestBalance, [FirstFill]) == [Balance(1, 29750.0, 3.0)];
    if sources == [Source(0, 0, 0), Source(0, 1, 0)] {
      TwoFillExplained(plan, sources);
      assert PriceOrdered(Buy, plan);
    } else if |sources| == 2 && FillExplained(Buy, 9.0, TestBooks, TestBalance, plan, sources, 0) {
      FirstFillForced(plan, sources);
      if FillExplained(Buy, 9.0, TestBooks, TestBalance, plan, sources, 1) {
        SecondFillForced(plan, sources);
      }
    }
  }
}
