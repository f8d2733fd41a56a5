/**
 * The allocator's frontier: the priority queue of candidate orders, at most
 * one per order book, ordered by price (a min-heap for Buy, a max-heap for
 * Sell). It is modelled as a sequence of entries; the top is any entry whose
 * price is at least as good as every other, so nothing depends on how the
 * queue breaks ties between equal prices.
 */
module Frontier {
  import opened CoreTypes

  /** A frontier entry: an order, the book it came from, its position in that book, and the book's exchange. */
  datatype BestOrder = BestOrder(order: Order, orderBookIndex: nat, orderIndex: nat, cryptoExchangeId: int)

  /** Entry `k` is a top of the queue: no other entry has a better price. */
  predicate IsTop(side: OrderType, q: seq<BestOrder>, k: int)
  {
    0 <= k < |q| && forall j :: 0 <= j < |q| ==> AtLeastAsGood(side, q[k].order.price, q[j].order.price)
  }

  /** Every non-empty queue has a top (the queue's `Peek` never fails on a non-empty queue). */
  function TopIndex(side: OrderType, q: seq<BestOrder>): (k: nat)
    requires |q| > 0
    ensures IsTop(side, q, k)
  {
    if |q| == 1 then 0
    else
      var k := TopIndex(side, q[..|q| - 1]);
      if AtLeastAsGood(side, q[|q| - 1].order.price, q[k].order.price) then |q| - 1 else k
  }

  /** The queue after `Dequeue` of entry `k`. */
  function Without(q: seq<BestOrder>, k: nat): (r: seq<BestOrder>)
    requires k < |q|
    ensures |r| == |q| - 1
    ensures forall j :: 0 <= j < |r| ==> r[j] == q[if j < k then j else j + 1]
  {
    q[..k] + q[k + 1..]
  }

  /** The queue holds an entry of book `b`. */
  predicate Holds(q: seq<BestOrder>, b: nat)
  {
    exists k :: 0 <= k < |q| && q[k].orderBookIndex == b
  }

  /** Enqueuing `e` adds exactly its book to the books held. */
  lemma HoldsAppend(q: seq<BestOrder>, e: BestOrder, b: nat)
    ensures Holds(q + [e], b) <==> Holds(q, b) || e.orderBookIndex == b
  {
    var r := q + [e];
    assert r[|q|] == e;
    if Holds(q, b) {
      var k :| 0 <= k < |q| && q[k].orderBookIndex == b;
      assert r[k] == q[k];
    }
  }

  /** The queue holds at most one entry per order book. */
  predicate OnePerBook(q: seq<BestOrder>)
  {
    forall i, j :: 0 <= i < j < |q| ==> q[i].orderBookIndex != q[j].orderBookIndex
  }

  /** The books that have an entry in the queue. */
  function Books(q: seq<BestOrder>): set<nat>
  {
    set k | 0 <= k < |q| :: q[k].orderBookIndex
  }

  /** With one entry per book over `n` books, the queue holds at most `n` entries. */
  lemma OnePerBookBound(q: seq<BestOrder>, n: nat)
    requires OnePerBook(q)
    requires forall k :: 0 <= k < |q| ==> q[k].orderBookIndex < n
    ensures |q| <= n
  {
    BooksCardinality(q);
    BoundedSetCardinality(Books(q), n);
  }

  lemma {:induction false} BooksCardinality(q: seq<BestOrder>)
    requires OnePerBook(q)
    ensures |Books(q)| == |q|
  {
    if q != [] {
      var m := |q| - 1;
      var p := q[..m];
      assert OnePerBook(p);
      BooksCardinality(p);
      assert Books(q) == Books(p) + {q[m].orderBookIndex};
      assert q[m].orderBookIndex !in Books(p);
    }
  }

  lemma {:induction false} BoundedSetCardinality(s: set<nat>, n: nat)
    requires forall x :: x in s ==> x < n
    ensures |s| <= n
  {
    if n > 0 {
      var s' := s - {n - 1};
      BoundedSetCardinality(s', n - 1);
    } else {
      assert s == {};
    }
  }
}
