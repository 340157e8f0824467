/** The trading rule evaluator: the column-by-column update of one joined
    (account, quote) row into the next account state. */
module Evaluator {
  import opened Tables

  /** The buy rule: the price fell more than the buy threshold below the last trade price. */
  predicate BuyFires(a: Account, price: int) {
    a.previousPrice - price > a.buy
  }

  /** The sell rule: the price rose more than the sell threshold above the last trade price. */
  predicate SellFires(a: Account, price: int) {
    price - a.previousPrice > a.sell
  }

  predicate Fires(a: Account, price: int) {
    BuyFires(a, price) || SellFires(a, price)
  }

  /** `floor(cash / price)`: for a positive divisor Dafny's division is floor division. */
  function SharesAffordable(cash: int, price: int): int
    requires price > 0
  {
    cash / price
  }

  // The nine column updates, in the order they are applied. Each one re-reads the
  // row as the previous update left it, as a column expression over a data frame does.

  function BuySharesColumn(r: Row): Row
    requires r.price > 0
  {
    if BuyFires(r.acct, r.price)
    then r.(acct := r.acct.(numbShare := r.acct.numbShare + SharesAffordable(r.acct.cash, r.price)))
    else r
  }

  function BuyTotalValueColumn(r: Row): Row
    requires r.price > 0
  {
    if BuyFires(r.acct, r.price)
    then r.(acct := r.acct.(totalValue := r.acct.totalValue + SharesAffordable(r.acct.cash, r.price) * r.price))
    else r
  }

  function BuyCashColumn(r: Row): Row
    requires r.price > 0
  {
    if BuyFires(r.acct, r.price)
    then r.(acct := r.acct.(cash := r.acct.cash - SharesAffordable(r.acct.cash, r.price) * r.price))
    else r
  }

  function SellProfitColumn(r: Row): Row {
    if SellFires(r.acct, r.price)
    then r.(acct := r.acct.(profit := r.acct.profit + r.acct.numbShare * r.price - r.acct.totalValue))
    else r
  }

  function SellCashColumn(r: Row): Row {
    if SellFires(r.acct, r.price)
    then r.(acct := r.acct.(cash := r.acct.cash + r.acct.totalValue))
    else r
  }

  function SellTotalValueColumn(r: Row): Row {
    if SellFires(r.acct, r.price) then r.(acct := r.acct.(totalValue := 0)) else r
  }

  function SellSharesColumn(r: Row): Row {
    if SellFires(r.acct, r.price) then r.(acct := r.acct.(numbShare := 0)) else r
  }

  function TimeColumn(r: Row): Row {
    if Fires(r.acct, r.price) then r.(acct := r.acct.(time := r.timeNew)) else r
  }

  function PreviousPriceColumn(r: Row): Row {
    if Fires(r.acct, r.price) then r.(acct := r.acct.(previousPrice := r.price)) else r
  }

  /** `calculation` for one row: the nine column updates in order, then the quote
      columns `time_new`, `volume` and `price` are dropped. */
  function Calculation(r: Row): (a: Account)
    requires r.price > 0
    // the key and the thresholds are never written
    ensures a.ticker == r.acct.ticker && a.user == r.acct.user
    ensures a.buy == r.acct.buy && a.sell == r.acct.sell
    // a trade moves money between cash and position, never creates or destroys it
    ensures a.cash + a.totalValue == r.acct.cash + r.acct.totalValue
    // stamping happens exactly on a trade
    ensures Fires(r.acct, r.price) ==> a.time == r.timeNew && a.previousPrice == r.price
    ensures !Fires(r.acct, r.price) ==> a == r.acct
    // sell arithmetic, whether or not a buy ran first in the same pass
    ensures SellFires(r.acct, r.price) ==>
      && a.numbShare == 0 && a.totalValue == 0
      && a.cash == r.acct.cash + r.acct.totalValue
      && a.profit == r.acct.profit + r.acct.numbShare * r.price - r.acct.totalValue
    // buy arithmetic when the sell rule stays quiet
    ensures BuyFires(r.acct, r.price) && !SellFires(r.acct, r.price) ==>
      && 0 <= a.cash < r.price
      && a.numbShare - r.acct.numbShare == r.acct.cash / r.price
      && a.totalValue - r.acct.totalValue == (a.numbShare - r.acct.numbShare) * r.price
      && a.profit == r.acct.profit
  {
    var r1 := BuySharesColumn(r);
    var r2 := BuyTotalValueColumn(r1);
    var r3 := BuyCashColumn(r2);
    var r4 := SellProfitColumn(r3);
    var r5 := SellCashColumn(r4);
    var r6 := SellTotalValueColumn(r5);
    var r7 := SellSharesColumn(r6);
    var r8 := TimeColumn(r7);
    var r9 := PreviousPriceColumn(r8);
    BuyThenSellProfit(r.acct.numbShare, r.acct.totalValue, SharesAffordable(r.acct.cash, r.price), r.price);
    r9.acct
  }

  /** Buying `k` shares at `price` before selling everything at `price` leaves the
      realised profit of the original position unchanged. */
  lemma {:induction false} BuyThenSellProfit(shares: int, value: int, k: int, price: int)
    ensures (shares + k) * price - (value + k * price) == shares * price - value
  {
    assert (shares + k) * price == shares * price + k * price;
  }

  /** The decision taken from one snapshot of the account. When both rules fire
      (only possible with negative thresholds) the column order settles as a sell. */
  datatype Action = Buy | Sell | Hold

  function Decide(a: Account, price: int): (d: Action)
    ensures d == Sell <==> SellFires(a, price)
    ensures d == Buy <==> BuyFires(a, price) && !SellFires(a, price)
    ensures d == Hold <==> !Fires(a, price)
  {
    if SellFires(a, price) then Sell
    else if BuyFires(a, price) then Buy
    else Hold
  }

  /** Spend as much cash as whole shares at `price` allow, and stamp the trade. */
  function ApplyBuy(a: Account, price: int, timeNew: int): (b: Account)
    requires price > 0
    ensures 0 <= b.cash < price
    ensures b.cash + b.totalValue == a.cash + a.totalValue
    ensures b.totalValue - a.totalValue == (b.numbShare - a.numbShare) * price
    ensures a.cash >= 0 ==> b.numbShare >= a.numbShare
    ensures b.profit == a.profit && KeyOf(b) == KeyOf(a)
    ensures b.time == timeNew && b.previousPrice == price
    ensures b.buy == a.buy && b.sell == a.sell
  {
    var k := SharesAffordable(a.cash, price);
    a.(numbShare := a.numbShare + k, totalValue := a.totalValue + k * price,
       cash := a.cash - k * price, time := timeNew, previousPrice := price)
  }

  /** Close the position at `price`, book its profit, and stamp the trade. */
  function ApplySell(a: Account, price: int, timeNew: int): (s: Account)
    ensures s.numbShare == 0 && s.totalValue == 0
    ensures s.cash + s.totalValue == a.cash + a.totalValue
    ensures s.profit - a.profit == a.numbShare * price - a.totalValue
    ensures KeyOf(s) == KeyOf(a)
    ensures s.time == timeNew && s.previousPrice == price
    ensures s.buy == a.buy && s.sell == a.sell
  {
    a.(profit := a.profit + a.numbShare * price - a.totalValue, cash := a.cash + a.totalValue,
       totalValue := 0, numbShare := 0, time := timeNew, previousPrice := price)
  }

  /** The snapshot evaluator: decide once from the unmodified account, then apply
      exactly one outcome. */
  function Snapshot(r: Row): (a: Account)
    requires r.price > 0
    ensures KeyOf(a) == KeyOf(r.acct) && a.buy == r.acct.buy && a.sell == r.acct.sell
    ensures a.cash + a.totalValue == r.acct.cash + r.acct.totalValue
    ensures SellFires(r.acct, r.price) ==> a.numbShare == 0 && a.totalValue == 0
    ensures !Fires(r.acct, r.price) ==> a == r.acct
    ensures Fires(r.acct, r.price) ==> a.time == r.timeNew && a.previousPrice == r.price
  {
    match Decide(r.acct, r.price)
    case Buy => ApplyBuy(r.acct, r.price, r.timeNew)
    case Sell => ApplySell(r.acct, r.price, r.timeNew)
    case Hold => r.acct
  }

  /** With non-negative thresholds the two rules exclude each other. */
  lemma {:induction false} MutualExclusion(a: Account, price: int)
    requires a.buy >= 0 && a.sell >= 0
    ensures !(BuyFires(a, price) && SellFires(a, price))
  {
  }

  /** With non-negative thresholds the snapshot decision is buy xor sell xor neither,
      each exactly when its own rule fires. */
  lemma {:induction false} DecideIsExclusive(a: Account, price: int)
    requires a.buy >= 0 && a.sell >= 0
    ensures Decide(a, price) == Buy <==> BuyFires(a, price)
    ensures Decide(a, price) == Sell <==> SellFires(a, price)
    ensures Decide(a, price) == Hold <==> !Fires(a, price)
  {
    MutualExclusion(a, price);
  }

  /** The sequential column chain equals the snapshot evaluator, for every threshold:
      a sell that reads the buy-updated share count and value still books the profit
      and cash of the original position. */
  lemma {:induction false} ColumnOrderIsSnapshot(r: Row)
    requires r.price > 0
    ensures Calculation(r) == Snapshot(r)
  {
    var a := r.acct;
    var k := SharesAffordable(a.cash, r.price);
    if SellFires(a, r.price) && BuyFires(a, r.price) {
      BuyThenSellProfit(a.numbShare, a.totalValue, k, r.price);
    }
  }

  /** The account invariant: no negative cash, shares or value, and a position is
      either fully open or fully closed. */
  predicate Consistent(a: Account) {
    && a.cash >= 0 && a.numbShare >= 0 && a.totalValue >= 0
    && (a.numbShare == 0 <==> a.totalValue == 0)
  }

  /** `calculation` keeps a consistent account consistent. */
  lemma {:induction false} CalculationKeepsConsistent(r: Row)
    requires r.price > 0 && Consistent(r.acct)
    ensures Consistent(Calculation(r))
  {
    var a := r.acct;
    var b := Calculation(r);
    if BuyFires(a, r.price) && !SellFires(a, r.price) {
      var k := a.cash / r.price;
      assert k >= 0;
      assert b.totalValue - a.totalValue == k * r.price;
      if k > 0 {
        assert k * r.price > 0;
      }
    }
  }

  /** Selling a closed position touches neither cash nor profit. */
  lemma {:induction false} SellClosedPosition(r: Row)
    requires r.price > 0 && SellFires(r.acct, r.price)
    requires r.acct.numbShare == 0 && r.acct.totalValue == 0
    ensures Calculation(r).cash == r.acct.cash && Calculation(r).profit == r.acct.profit
    ensures Calculation(r).numbShare == 0 && Calculation(r).totalValue == 0
  {
  }

  /** Worked example: a fall of 10 against a buy threshold of 5 buys 11 shares at 90. */
  lemma {:induction false} BuyExample()
    ensures var a := Account("T", "u", 5, 1000, 0, 100, 0, 5, 0, 0);
            Calculation(Row(a, 1, 10, 90)) == a.(numbShare := 11, cash := 10, totalValue := 990, previousPrice := 90, time := 1)
  {
  }

  /** Worked example: the bought position, sold at 120, books 11 * 120 - 990 = 330. */
  lemma {:induction false} SellExample()
    ensures var a := Account("T", "u", 5, 10, 11, 90, 0, 5, 1, 990);
            Calculation(Row(a, 2, 10, 120)) == a.(numbShare := 0, cash := 1000, totalValue := 0, profit := 330, previousPrice := 120, time := 2)
  {
  }

  /** Worked example: a move of 5 against thresholds of 10 changes nothing. */
  lemma {:induction false} HoldExample()
    ensures var a := Account("T", "u", 10, 1000, 0, 100, 0, 10, 0, 0);
            Calculation(Row(a, 3, 10, 95)) == a
  {
  }
}
