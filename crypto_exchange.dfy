/**
 * The balance record of one exchange: how much coin it can trade at a price,
 * how a trade changes its money and coin, and whether it can trade any more.
 * The rules are stated on a value snapshot `Balance`; the class
 * `CryptoExchange` holds the same three fields and updates them in place.
 */
module CryptoExchanges {
  import opened CoreTypes

  /** The state of an exchange's balance record at one moment. */
  datatype Balance = Balance(id: int, money: real, coin: real)

  /**
   * The most coin the exchange can trade against an order at `price`: the coin
   * it holds when the user buys, the coin its money pays for when the user sells.
   */
  function Available(b: Balance, orderType: OrderType, price: real): (r: real)
    requires orderType == Sell ==> price != 0.0
    ensures orderType == Buy ==> r == b.coin
    ensures orderType == Sell ==> r * price == b.money
  {
    if orderType == Sell then b.money / price else b.coin
  }

  /**
   * The balance after the exchange trades `coinAmount` coin at `pricePerCoin`:
   * for a user's Sell the exchange pays money and receives coin, for a user's
   * Buy it delivers coin and receives money.
   */
  function Apply(b: Balance, orderType: OrderType, coinAmount: real, pricePerCoin: real): (r: Balance)
    ensures r.id == b.id
    ensures r.money + r.coin * pricePerCoin == b.money + b.coin * pricePerCoin
    ensures r.coin - b.coin == if orderType == Sell then coinAmount else -coinAmount
  {
    if orderType == Sell then
      Balance(b.id, b.money - coinAmount * pricePerCoin, b.coin + coinAmount)
    else
      Balance(b.id, b.money + coinAmount * pricePerCoin, b.coin - coinAmount)
  }

  /** The exchange can still trade: it has money when the user sells, coin when the user buys. */
  predicate HasRemaining(b: Balance, orderType: OrderType)
  {
    if orderType == Sell then b.money > 0.0 else b.coin > 0.0
  }

  /** At a positive price, having remaining balance means being able to trade a positive amount. */
  lemma RemainingIffAvailable(b: Balance, orderType: OrderType, price: real)
    requires price > 0.0
    ensures HasRemaining(b, orderType) <==> Available(b, orderType, price) > 0.0
  {
    if orderType == Sell {
      var r := Available(b, orderType, price);
      assert r * price == b.money;
      if r > 0.0 { PositiveProduct(r, price); }
      if b.money > 0.0 && r <= 0.0 { NonPositiveProduct(r, price); }
    }
  }

  /** `RemainingIffAvailable` at every positive price. */
  lemma RemainingAtEveryPrice(b: Balance, orderType: OrderType)
    ensures forall p :: p > 0.0 ==> (HasRemaining(b, orderType) <==> Available(b, orderType, p) > 0.0)
  {
    forall p | p > 0.0
      ensures HasRemaining(b, orderType) <==> Available(b, orderType, p) > 0.0
    {
      RemainingIffAvailable(b, orderType, p);
    }
  }

  /**
   * Trading no more than the exchange can trade keeps its constraining balance
   * (coin for Buy, money for Sell) non-negative.
   */
  lemma TradeKeepsBalanceNonNegative(b: Balance, orderType: OrderType, a: real, p: real)
    requires p > 0.0 && 0.0 <= a <= Available(b, orderType, p)
    requires orderType == Buy ==> b.coin >= 0.0
    requires orderType == Sell ==> b.money >= 0.0
    ensures orderType == Buy ==> Apply(b, orderType, a, p).coin >= 0.0
    ensures orderType == Sell ==> Apply(b, orderType, a, p).money >= 0.0
  {
    if orderType == Sell {
      var r := Available(b, orderType, p);
      MonotoneProduct(a, r, p);
      assert a * p <= b.money;
    }
  }

  /** Trading everything the exchange can trade leaves it with no remaining balance. */
  lemma TradingAllExhausts(b: Balance, orderType: OrderType, p: real)
    requires p > 0.0
    ensures !HasRemaining(Apply(b, orderType, Available(b, orderType, p), p), orderType)
  {
    if orderType == Sell {
      var r := Available(b, orderType, p);
      assert Apply(b, orderType, r, p).money == b.money - r * p;
    }
  }

  /** An exchange with no remaining balance keeps none after a further trade of a positive amount. */
  lemma ExhaustedStaysExhausted(b: Balance, orderType: OrderType, a: real, p: real)
    requires a > 0.0 && p > 0.0
    requires !HasRemaining(b, orderType)
    ensures !HasRemaining(Apply(b, orderType, a, p), orderType)
  {
    if orderType == Sell {
      PositiveProduct(a, p);
    }
  }

  lemma PositiveProduct(x: real, y: real)
    requires x > 0.0 && y > 0.0
    ensures x * y > 0.0
  {
  }

  lemma NonPositiveProduct(x: real, y: real)
    requires x <= 0.0 && y > 0.0
    ensures x * y <= 0.0
  {
  }

  lemma MonotoneProduct(x: real, y: real, p: real)
    requires x <= y && p > 0.0
    ensures x * p <= y * p
  {
  }

  /** The balance record of one exchange, updated in place by the allocator. */
  class CryptoExchange {
    var id: int
    var moneyBalance: real
    var coinBalance: real

    constructor (id: int, moneyBalance: real, coinBalance: real)
      ensures Snapshot() == Balance(id, moneyBalance, coinBalance)
    {
      this.id := id;
      this.moneyBalance := moneyBalance;
      this.coinBalance := coinBalance;
    }

    /** The current field values as a `Balance`. */
    function Snapshot(): Balance
      reads this
    {
      Balance(id, moneyBalance, coinBalance)
    }

    /** The most coin this exchange can trade at `pricePerBtc` (see `Available`). */
    function GetAvailableAmount(orderType: OrderType, pricePerBtc: real): (r: real)
      reads this
      requires orderType == Sell ==> pricePerBtc != 0.0
      ensures orderType == Buy ==> r == coinBalance
      ensures orderType == Sell ==> r * pricePerBtc == moneyBalance
    {
      Available(Snapshot(), orderType, pricePerBtc)
    }

    /**
     * Whether this exchange can trade any more on this side (see `HasRemaining`):
     * exactly when it can trade a positive amount at every positive price.
     */
    function HasRemainingBalance(orderType: OrderType): (r: bool)
      reads this
      ensures forall p :: p > 0.0 ==> (r <==> GetAvailableAmount(orderType, p) > 0.0)
    {
      RemainingAtEveryPrice(Snapshot(), orderType);
      HasRemaining(Snapshot(), orderType)
    }

    /** Books a trade of `coinAmount` coin at `pricePerCoin` on this exchange. */
    method UpdateBalance(orderType: OrderType, coinAmount: real, pricePerCoin: real)
      modifies this
      ensures Snapshot() == Apply(old(Snapshot()), orderType, coinAmount, pricePerCoin)
    {
      if orderType == Sell {
        var cost := coinAmount * pricePerCoin;
        moneyBalance := moneyBalance - cost;
        coinBalance := coinBalance + coinAmount;
      } else {
        var moneyReceived := coinAmount * pricePerCoin;
        coinBalance := coinBalance - coinAmount;
        moneyBalance := moneyBalance + moneyReceived;
      }
    }
  }

  /** Snapshots of a list of balance records. */
  function Snapshots(balance: seq<CryptoExchange>): (r: seq<Balance>)
    reads balance
    ensures |r| == |balance|
    ensures forall x :: 0 <= x < |balance| ==> r[x] == balance[x].Snapshot()
  {
    seq(|balance|, x reads balance requires 0 <= x < |balance| => balance[x].Snapshot())
  }

  /** No two balance records share an exchange id. */
  predicate DistinctIds(bs: seq<Balance>)
  {
    forall x, y :: 0 <= x < y < |bs| ==> bs[x].id != bs[y].id
  }

  /** Where each exchange id stands in a list of balance records with distinct ids. */
  ghost function IdPositions(bs: seq<Balance>): (position: map<int, nat>)
    requires DistinctIds(bs)
    ensures forall x :: 0 <= x < |bs| ==> bs[x].id in position && position[bs[x].id] == x
    ensures forall id :: id in position ==> position[id] < |bs| && bs[position[id]].id == id
  {
    map x | 0 <= x < |bs| :: bs[x].id := x
  }
}
