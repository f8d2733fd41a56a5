/**
 * Bookkeeping over a list of fills: the total amount executed, the number of
 * fills taken from one order book, and the balance an exchange has after the
 * fills booked on it.
 */
module Ledger {
  import opened CoreTypes
  import opened CryptoExchanges

  /** Total coin amount of the fills. */
  function Sum(fills: seq<ExecutionOrder>): real
  {
    if fills == [] then 0.0 else Sum(fills[..|fills| - 1]) + fills[|fills| - 1].amount
  }

  /** Appending a fill adds its amount to the total. */
  lemma SumAppend(fills: seq<ExecutionOrder>, f: ExecutionOrder)
    ensures Sum(fills + [f]) == Sum(fills) + f.amount
  {
    assert (fills + [f])[..|fills|] == fills;
  }

  /**
   * The balance `b` after booking, in order, every fill on its exchange id
   * (`UpdateBalance` with the fill's side, amount and price).
   */
  function Settle(b: Balance, fills: seq<ExecutionOrder>): (r: Balance)
    ensures r.id == b.id
  {
    if fills == [] then b
    else
      var f := fills[|fills| - 1];
      var before := Settle(b, fills[..|fills| - 1]);
      if f.cryptoExchangeId == b.id then Apply(before, f.orderType, f.amount, f.price) else before
  }

  /** Booking one more fill: it changes the balance of its own exchange only. */
  lemma SettleAppend(b: Balance, fills: seq<ExecutionOrder>, f: ExecutionOrder)
    ensures Settle(b, fills + [f]) ==
      if f.cryptoExchangeId == b.id then Apply(Settle(b, fills), f.orderType, f.amount, f.price)
      else Settle(b, fills)
  {
    assert (fills + [f])[..|fills|] == fills;
  }

  /** Fills on other exchanges leave a balance as it was. */
  lemma {:induction false} SettleOthers(b: Balance, fills: seq<ExecutionOrder>)
    requires forall k :: 0 <= k < |fills| ==> fills[k].cryptoExchangeId != b.id
    ensures Settle(b, fills) == b
  {
    if fills != [] {
      SettleOthers(b, fills[..|fills| - 1]);
    }
  }

  /** `Settle` applied to every balance record of a list. */
  function SettleAll(bs: seq<Balance>, fills: seq<ExecutionOrder>): (r: seq<Balance>)
    ensures |r| == |bs|
    ensures forall x :: 0 <= x < |bs| ==> r[x] == Settle(bs[x], fills)
  {
    seq(|bs|, x requires 0 <= x < |bs| => Settle(bs[x], fills))
  }

  /** Book and position of the order a fill was taken from, and the index of its exchange's balance. */
  datatype Source = Source(book: nat, order: nat, exchange: nat)

  /** Number of fills taken from order book `book`. */
  function Count(sources: seq<Source>, book: nat): (n: nat)
    ensures n <= |sources|
  {
    if sources == [] then 0
    else Count(sources[..|sources| - 1], book) + (if sources[|sources| - 1].book == book then 1 else 0)
  }

  lemma CountAppend(sources: seq<Source>, s: Source, book: nat)
    ensures Count(sources + [s], book) == Count(sources, book) + (if s.book == book then 1 else 0)
  {
    assert (sources + [s])[..|sources|] == sources;
  }

  /** Fills taken from one book at positions i < k: the later one has the strictly larger order index. */
  lemma {:induction false} CountIncreases(sources: seq<Source>, i: nat, k: nat)
    requires i < k < |sources| && sources[i].book == sources[k].book
    ensures Count(sources[..i], sources[i].book) < Count(sources[..k], sources[i].book)
  {
    var b := sources[i].book;
    if k == i + 1 {
      assert sources[..k] == sources[..i] + [sources[i]];
      CountAppend(sources[..i], sources[i], b);
    } else {
      CountMonotone(sources, i + 1, k, b);
      assert sources[..i + 1] == sources[..i] + [sources[i]];
      CountAppend(sources[..i], sources[i], b);
    }
  }

  lemma {:induction false} CountMonotone(sources: seq<Source>, i: nat, k: nat, book: nat)
    requires i <= k <= |sources|
    ensures Count(sources[..i], book) <= Count(sources[..k], book)
    decreases k - i
  {
    if i < k {
      CountMonotone(sources, i, k - 1, book);
      assert sources[..k] == sources[..k - 1] + [sources[k - 1]];
      CountAppend(sources[..k - 1], sources[k - 1], book);
    }
  }
}
