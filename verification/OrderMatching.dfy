// frontend-chart/src/components/DOMSidebar.tsx: the simulated limit-order matching of one price tick.
// Prices, sizes and cash are exact reals.

module OrderMatching {

  datatype OrderSide = Buy | Sell

  datatype Order = Order(id: string, price: real, size: real, side: OrderSide, symbol: string)

  datatype Account = Account(balance: real, position: real, entryPrice: real)

  function Min(a: real, b: real): real {
    if b < a then b else a
  }

  function Max(a: real, b: real): real {
    if b > a then b else a
  }

  function Magnitude(x: real): real {
    if x < 0.0 then -x else x
  }

  // ----- which orders a tick triggers -----

  predicate Triggered(o: Order, symbol: string, prev: real, current: real) {
    && o.symbol == symbol
    && match o.side
       case Buy => o.price >= current || (o.price >= Min(prev, current) && o.price <= Max(prev, current))
       case Sell => o.price <= current || (o.price >= Min(prev, current) && o.price <= Max(prev, current))
  }

  /** A buy triggers from the lower of the two prices up, a sell from the higher one down. */
  lemma TriggerMeaning(o: Order, symbol: string, prev: real, current: real)
    requires o.symbol == symbol
    ensures o.side == Buy ==> (Triggered(o, symbol, prev, current) <==> o.price >= Min(prev, current))
    ensures o.side == Sell ==> (Triggered(o, symbol, prev, current) <==> o.price <= Max(prev, current))
  {
  }

  function Untriggered(orders: seq<Order>, symbol: string, prev: real, current: real): seq<Order> {
    if orders == [] then []
    else
      var rest, o := Untriggered(orders[..|orders| - 1], symbol, prev, current), orders[|orders| - 1];
      if Triggered(o, symbol, prev, current) then rest else rest + [o]
  }

  // ----- what filling one order means -----

  function Signed(o: Order): real {
    match o.side
    case Buy => o.size
    case Sell => -o.size
  }

  /** How much of an opposite position the order closes. */
  function Covered(position: real, o: Order): real {
    match o.side
    case Buy => if position >= 0.0 then 0.0 else Min(-position, o.size)
    case Sell => if position <= 0.0 then 0.0 else Min(position, o.size)
  }

  /** The position moves by the order. Adding averages the entry price by size, reducing keeps it,
      crossing zero restarts it at the fill price, and a flat position has none. */
  ghost predicate Fills(before: Account, o: Order, after: Account) {
    var covered := Covered(before.position, o);
    && after.position == before.position + Signed(o)
    && (o.size > 0.0 && covered == 0.0 ==>
          after.entryPrice * Magnitude(after.position)
          == before.entryPrice * Magnitude(before.position) + o.price * o.size)
    && (o.size > 0.0 && 0.0 < covered < o.size ==> after.entryPrice == o.price)
    && (o.size > 0.0 && covered == o.size ==>
          after.entryPrice == if after.position == 0.0 then 0.0 else before.entryPrice)
    && after.balance == before.balance + match o.side
         case Buy => covered * (before.entryPrice - o.price) - o.price * o.size
         case Sell => covered * (o.price - before.entryPrice) + covered * o.price
  }

  /** A triggered buy is filled only when the cash at that moment pays for it; a sell always is. */
  predicate Filled(a: Account, o: Order, symbol: string, prev: real, current: real) {
    Triggered(o, symbol, prev, current) && (o.side == Sell || a.balance >= o.price * o.size)
  }

  /** One account per order, each following from the one before. */
  ghost predicate IsRun(trace: seq<Account>, orders: seq<Order>, symbol: string, prev: real, current: real) {
    && |trace| == |orders| + 1
    && forall i :: 0 <= i < |orders| ==>
         if Filled(trace[i], orders[i], symbol, prev, current) then Fills(trace[i], orders[i], trace[i + 1])
         else trace[i + 1] == trace[i]
  }

  // ----- the matching itself -----

  method FillBuy(a: Account, o: Order) returns (r: Account)
    requires o.side == Buy
    ensures Fills(a, o, r)
  {
    var balance, position, entryPrice := a.balance, a.position, a.entryPrice;
    balance := balance - o.price * o.size;
    if position >= 0.0 {
      var prevSize := position;
      var nextSize := prevSize + o.size;
      if nextSize > 0.0 {
        Quotient(prevSize * entryPrice + o.price * o.size, nextSize);
      }
      entryPrice := if nextSize > 0.0 then (prevSize * entryPrice + o.price * o.size) / nextSize else 0.0;
      position := nextSize;
    } else {
      var shortCovered := Min(-position, o.size);
      var remainingAdd := o.size - shortCovered;
      var shortProfit := shortCovered * (entryPrice - o.price);
      balance := balance + shortProfit;
      if remainingAdd > 0.0 {
        position := remainingAdd;
        entryPrice := o.price;
      } else {
        position := position + shortCovered;
        if position == 0.0 {
          entryPrice := 0.0;
        }
      }
    }
    r := Account(balance, position, entryPrice);
  }

  method FillSell(a: Account, o: Order) returns (r: Account)
    requires o.side == Sell
    ensures Fills(a, o, r)
  {
    var balance, position, entryPrice := a.balance, a.position, a.entryPrice;
    if position <= 0.0 {
      var prevSize := Magnitude(position);
      var nextSize := prevSize + o.size;
      if nextSize > 0.0 {
        Quotient(prevSize * entryPrice + o.price * o.size, nextSize);
      }
      entryPrice := if nextSize > 0.0 then (prevSize * entryPrice + o.price * o.size) / nextSize else 0.0;
      position := -nextSize;
    } else {
      var longCovered := Min(position, o.size);
      var remainingShort := o.size - longCovered;
      var longProfit := longCovered * (o.price - entryPrice);
      balance := balance + longProfit;
      balance := balance + longCovered * o.price;
      if remainingShort > 0.0 {
        position := -remainingShort;
        entryPrice := o.price;
      } else {
        position := position - longCovered;
        if position == 0.0 {
          entryPrice := 0.0;
        }
      }
    }
    r := Account(balance, position, entryPrice);
  }

  lemma Quotient(x: real, y: real)
    requires y > 0.0
    ensures x / y * y == x
  {
  }

  class Simulator {
    var account: Account
    var limitOrders: seq<Order>
    var prevPrice: real

    constructor (account: Account, limitOrders: seq<Order>, price: real)
      ensures this.account == account && this.limitOrders == limitOrders && prevPrice == price
    {
      this.account, this.limitOrders, prevPrice := account, limitOrders, price;
    }

    /** One price tick of the active symbol. */
    method OnPrice(symbol: string, currentPrice: real) returns (ghost trace: seq<Account>)
      modifies this
      ensures prevPrice == currentPrice
      ensures trace != [] && trace[0] == old(account) && account == trace[|trace| - 1]
      ensures currentPrice == old(prevPrice) ==> trace == [old(account)] && limitOrders == old(limitOrders)
      ensures currentPrice != old(prevPrice) ==>
                && IsRun(trace, old(limitOrders), symbol, old(prevPrice), currentPrice)
                && limitOrders == Untriggered(old(limitOrders), symbol, old(prevPrice), currentPrice)
    {
      trace := [account];
      if currentPrice == prevPrice {
        return;
      }
      if |limitOrders| == 0 {
        prevPrice := currentPrice;
        return;
      }
      hide Triggered, Fills, Filled, IsRun, Untriggered;
      NothingRun(account, symbol, prevPrice, currentPrice);
      var remaining: seq<Order> := [];
      var updated := account;
      var anyFilled := false;
      for i := 0 to |limitOrders|
        invariant account == old(account) && limitOrders == old(limitOrders) && prevPrice == old(prevPrice)
        invariant IsRun(trace, limitOrders[..i], symbol, prevPrice, currentPrice)
        invariant |trace| == i + 1 && trace[0] == account && updated == trace[i]
        invariant remaining == Untriggered(limitOrders[..i], symbol, prevPrice, currentPrice)
        invariant !anyFilled ==> remaining == limitOrders[..i] && updated == account
      {
        var order := limitOrders[i];
        assert limitOrders[..i + 1] == limitOrders[..i] + [order];
        UntriggeredAppend(limitOrders[..i], order, symbol, prevPrice, currentPrice);
        if !Triggered(order, symbol, prevPrice, currentPrice) {
          remaining := remaining + [order];
        } else {
          anyFilled := true;
          if order.side == Buy {
            if updated.balance >= order.price * order.size {
              updated := FillBuy(updated, order);
            }
          } else {
            updated := FillSell(updated, order);
          }
        }
        FilledMeans(trace[i], order, symbol, prevPrice, currentPrice);
        RunStep(trace, limitOrders[..i], order, updated, symbol, prevPrice, currentPrice);
        trace := trace + [updated];
      }
      assert limitOrders[..|limitOrders|] == limitOrders;
      if anyFilled {
        account, limitOrders := updated, remaining;
      }
      prevPrice := currentPrice;
    }
  }

  lemma NothingRun(a: Account, symbol: string, prev: real, current: real)
    ensures IsRun([a], [], symbol, prev, current) && Untriggered([], symbol, prev, current) == []
  {
  }

  lemma UntriggeredAppend(orders: seq<Order>, o: Order, symbol: string, prev: real, current: real)
    ensures Untriggered(orders + [o], symbol, prev, current)
         == Untriggered(orders, symbol, prev, current) + if Triggered(o, symbol, prev, current) then [] else [o]
  {
    hide Triggered;
    assert (orders + [o])[..|orders + [o]| - 1] == orders;
  }

  lemma FilledMeans(a: Account, o: Order, symbol: string, prev: real, current: real)
    ensures Filled(a, o, symbol, prev, current)
            <==> Triggered(o, symbol, prev, current) && (o.side == Sell || a.balance >= o.price * o.size)
  {
    hide Triggered;
  }

  lemma RunStep(trace: seq<Account>, orders: seq<Order>, o: Order, after: Account,
                symbol: string, prev: real, current: real)
    requires |trace| == |orders| + 1 && IsRun(trace, orders, symbol, prev, current)
    requires var a := trace[|orders|];
             if Filled(a, o, symbol, prev, current) then Fills(a, o, after) else after == a
    ensures IsRun(trace + [after], orders + [o], symbol, prev, current)
  {
    hide Filled, Fills;
  }

  // ----- what a tick leaves behind -----

  /** Exactly the untriggered orders remain, and none of the active symbol is touched by the new price. */
  lemma {:induction false} NothingCrossedRemains(orders: seq<Order>, symbol: string, prev: real, current: real,
                                                 o: Order)
    ensures o in Untriggered(orders, symbol, prev, current) <==> o in orders && !Triggered(o, symbol, prev, current)
    ensures o in Untriggered(orders, symbol, prev, current) && o.symbol == symbol ==>
              if o.side == Buy then o.price < Min(prev, current) else o.price > Max(prev, current)
  {
    hide Triggered;
    if orders != [] {
      var init, last := orders[..|orders| - 1], orders[|orders| - 1];
      assert orders == init + [last];
      NothingCrossedRemains(init, symbol, prev, current, o);
    }
    if o.symbol == symbol {
      TriggerMeaning(o, symbol, prev, current);
    }
  }

  /** Signed size of the orders a run fills. */
  ghost function NetFilled(trace: seq<Account>, orders: seq<Order>, symbol: string, prev: real, current: real): real
    requires |trace| == |orders| + 1
  {
    if orders == [] then 0.0
    else
      var n := |orders| - 1;
      NetFilled(trace[..n + 1], orders[..n], symbol, prev, current)
      + if Filled(trace[n], orders[n], symbol, prev, current) then Signed(orders[n]) else 0.0
  }

  lemma RunPrefix(trace: seq<Account>, orders: seq<Order>, symbol: string, prev: real, current: real)
    requires IsRun(trace, orders, symbol, prev, current) && orders != []
    ensures var n := |orders| - 1;
            && IsRun(trace[..n + 1], orders[..n], symbol, prev, current)
            && if Filled(trace[n], orders[n], symbol, prev, current) then Fills(trace[n], orders[n], trace[n + 1])
               else trace[n + 1] == trace[n]
  {
    hide Filled, Fills;
  }

  /** The position is conserved: it moves by filled buys minus filled sells and by nothing else. */
  lemma {:induction false} PositionIsConserved(trace: seq<Account>, orders: seq<Order>, symbol: string, prev: real,
                                               current: real)
    requires IsRun(trace, orders, symbol, prev, current)
    ensures trace[|orders|].position == trace[0].position + NetFilled(trace, orders, symbol, prev, current)
  {
    hide Filled;
    if orders != [] {
      RunPrefix(trace, orders, symbol, prev, current);
      PositionIsConserved(trace[..|orders|], orders[..|orders| - 1], symbol, prev, current);
    }
  }

  // ----- the entry price -----

  /** Sizes and prices the order form accepts. */
  ghost predicate Accepted(o: Order) {
    o.size > 0.0 && o.price > 0.0
  }

  /** A flat account has entry price zero; any other lies within the given prices. */
  ghost predicate EntryWithin(a: Account, low: real, high: real) {
    if a.position == 0.0 then a.entryPrice == 0.0 else low <= a.entryPrice <= high
  }

  lemma StrictScale(a: real, b: real, n: real)
    requires a < b && n > 0.0
    ensures a * n < b * n
  {
    assert (b - a) * n > 0.0;
  }

  lemma Unscale(a: real, b: real, n: real)
    requires a * n <= b * n && n > 0.0
    ensures a <= b
  {
    if a > b {
      StrictScale(b, a, n);
    }
  }

  /** The product of a nonnegative difference and size. */
  lemma Gain(d: real, n: real)
    requires d >= 0.0 && n >= 0.0
    ensures d * n >= 0.0
  {
  }

  lemma Spread(a: real, b: real, n: real)
    ensures (a - b) * n == a * n - b * n
  {
  }

  lemma Parts(a: real, p: real, s: real, n: real)
    requires n == p + s
    ensures a * n == a * p + a * s
  {
  }

  /** A weighted average is at least what its parts are at least. */
  lemma AverageAbove(e: real, p: real, x: real, s: real, avg: real, n: real, low: real)
    requires p >= 0.0 && s > 0.0 && n == p + s && low <= x && (p > 0.0 ==> low <= e)
    requires avg * n == e * p + x * s
    ensures low <= avg
  {
    var lp, ls, ep, xs := low * p, low * s, e * p, x * s;
    assert lp <= ep by {
      ScaledPart(low, e, p);
    }
    assert ls <= xs by {
      ScaledPart(low, x, s);
    }
    assert low * n == lp + ls by {
      Parts(low, p, s, n);
    }
    Unscale(low, avg, n);
  }

  lemma AverageBelow(e: real, p: real, x: real, s: real, avg: real, n: real, high: real)
    requires p >= 0.0 && s > 0.0 && n == p + s && x <= high && (p > 0.0 ==> e <= high)
    requires avg * n == e * p + x * s
    ensures avg <= high
  {
    var hp, hs, ep, xs := high * p, high * s, e * p, x * s;
    assert ep <= hp by {
      ScaledPart(e, high, p);
    }
    assert xs <= hs by {
      ScaledPart(x, high, s);
    }
    assert high * n == hp + hs by {
      Parts(high, p, s, n);
    }
    Unscale(avg, high, n);
  }

  lemma ScaledPart(a: real, b: real, n: real)
    requires n >= 0.0 && (n > 0.0 ==> a <= b)
    ensures a * n <= b * n
  {
    if n > 0.0 {
      Gain(b - a, n);
      Spread(b, a, n);
    }
  }

  lemma FillKeepsEntryWithin(before: Account, o: Order, after: Account, low: real, high: real)
    requires Fills(before, o, after) && Accepted(o) && EntryWithin(before, low, high)
    requires low <= o.price <= high
    ensures EntryWithin(after, low, high)
  {
    var covered := Covered(before.position, o);
    if covered == 0.0 {
      var p, n := Magnitude(before.position), Magnitude(after.position);
      assert n == p + o.size;
      AverageAbove(before.entryPrice, p, o.price, o.size, after.entryPrice, n, low);
      AverageBelow(before.entryPrice, p, o.price, o.size, after.entryPrice, n, high);
    }
  }

  /** Over a whole run the entry price stays within the prices of the filled orders and the price it
      started from. */
  lemma {:induction false} EntryStaysWithin(trace: seq<Account>, orders: seq<Order>, symbol: string, prev: real,
                                            current: real, low: real, high: real)
    requires IsRun(trace, orders, symbol, prev, current) && EntryWithin(trace[0], low, high)
    requires forall o :: o in orders ==> Accepted(o)
    requires forall i :: 0 <= i < |orders| && Filled(trace[i], orders[i], symbol, prev, current) ==>
               low <= orders[i].price <= high
    ensures EntryWithin(trace[|orders|], low, high)
  {
    hide Filled, Fills, EntryWithin, Accepted;
    if orders != [] {
      var n := |orders| - 1;
      var init := orders[..n];
      RunPrefix(trace, orders, symbol, prev, current);
      forall o | o in init ensures Accepted(o) {
        assert o in orders;
      }
      EntryStaysWithin(trace[..n + 1], init, symbol, prev, current, low, high);
      assert orders[n] in orders;
      if Filled(trace[n], orders[n], symbol, prev, current) {
        FillKeepsEntryWithin(trace[n], orders[n], trace[n + 1], low, high);
      }
    }
  }

  /** An entry price is zero exactly when the position is flat, and never negative. */
  ghost predicate Coherent(a: Account) {
    a.entryPrice >= 0.0 && (a.entryPrice == 0.0 <==> a.position == 0.0)
  }

  lemma FillKeepsCoherent(before: Account, o: Order, after: Account)
    requires Fills(before, o, after) && Accepted(o) && Coherent(before)
    ensures Coherent(after)
  {
    hide Fills;
    var low := if before.position == 0.0 then o.price else Min(before.entryPrice, o.price);
    var high := Max(before.entryPrice, o.price);
    FillKeepsEntryWithin(before, o, after, low, high);
  }

  lemma {:induction false} RunKeepsCoherent(trace: seq<Account>, orders: seq<Order>, symbol: string, prev: real,
                                            current: real)
    requires IsRun(trace, orders, symbol, prev, current) && Coherent(trace[0])
    requires forall o :: o in orders ==> Accepted(o)
    ensures Coherent(trace[|orders|])
  {
    hide Filled, Fills, Coherent, Accepted;
    if orders != [] {
      var n := |orders| - 1;
      var init := orders[..n];
      RunPrefix(trace, orders, symbol, prev, current);
      forall o | o in init ensures Accepted(o) {
        assert o in orders;
      }
      RunKeepsCoherent(trace[..n + 1], init, symbol, prev, current);
      assert orders[n] in orders;
      if Filled(trace[n], orders[n], symbol, prev, current) {
        FillKeepsCoherent(trace[n], orders[n], trace[n + 1]);
      }
    }
  }

  /** Selling more than the long position, or buying more than the short one, starts the other side at the
      fill price; selling or buying less keeps the entry price; exactly as much leaves nothing. */
  lemma ClosingFills(before: Account, o: Order, after: Account)
    requires Fills(before, o, after) && o.size > 0.0
    requires if o.side == Sell then before.position > 0.0 else before.position < 0.0
    ensures var held := if before.position < 0.0 then -before.position else before.position;
            var left := if after.position < 0.0 then -after.position else after.position;
            && (o.size > held ==> after.entryPrice == o.price && left == o.size - held)
            && (o.size < held ==> after.entryPrice == before.entryPrice && left == held - o.size)
            && (o.size == held ==> after.entryPrice == 0.0 && after.position == 0.0)
            && (o.size != held ==> (after.position > 0.0 <==> (o.size > held) == (o.side == Buy)))
    ensures var held := if before.position < 0.0 then -before.position else before.position;
            var closed := if o.size < held then o.size else held;
            && (o.side == Buy ==>
                  after.balance == before.balance + closed * (before.entryPrice - o.price) - o.price * o.size)
            && (o.side == Sell ==>
                  after.balance == before.balance + closed * (o.price - before.entryPrice) + closed * o.price)
  {
  }

  /** Adding to a position, or opening one, averages the entry price by size. */
  lemma AddingFills(before: Account, o: Order, after: Account)
    requires Fills(before, o, after) && o.size > 0.0
    requires if o.side == Buy then before.position >= 0.0 else before.position <= 0.0
    ensures var held := if before.position < 0.0 then -before.position else before.position;
            && after.position == before.position + (if o.side == Buy then o.size else -o.size)
            && after.entryPrice * (held + o.size) == before.entryPrice * held + o.price * o.size
            && after.balance == before.balance - (if o.side == Buy then o.price * o.size else 0.0)
  {
    assert Magnitude(after.position) == Magnitude(before.position) + o.size;
  }

  // ----- cash -----

  /** Opening a long and closing it again changes the cash by twice the profit. */
  lemma LongRoundTripDoublesProfit(start: Account, buy: Order, middle: Account, sell: Order, end: Account)
    requires start.position == 0.0 && buy.side == Buy && sell.side == Sell && buy.size == sell.size > 0.0
    requires Fills(start, buy, middle) && Fills(middle, sell, end)
    ensures end.position == 0.0 && end.entryPrice == 0.0
    ensures end.balance - start.balance == 2.0 * (buy.size * (sell.price - buy.price))
    ensures end.balance - start.balance == buy.size * (sell.price - buy.price) <==> buy.price == sell.price
  {
    Cancel(middle.entryPrice, buy.price, buy.size);
    if buy.size * (sell.price - buy.price) == 0.0 {
      Cancel(sell.price - buy.price, 0.0, buy.size);
    }
  }

  lemma Cancel(a: real, b: real, n: real)
    requires a * n == b * n && n > 0.0
    ensures a == b
  {
    Unscale(a, b, n);
    Unscale(b, a, n);
  }

  /** A short round trip never credits the sale, so it ends one full buy-back below its profit. */
  lemma ShortRoundTripPaysForTheCover(start: Account, sell: Order, middle: Account, buy: Order, end: Account)
    requires start.position == 0.0 && buy.side == Buy && sell.side == Sell && buy.size == sell.size > 0.0
    requires Fills(start, sell, middle) && Fills(middle, buy, end)
    ensures end.position == 0.0 && end.entryPrice == 0.0
    ensures end.balance - start.balance == buy.size * (sell.price - buy.price) - buy.price * buy.size
    ensures end.balance - start.balance == buy.size * (sell.price - buy.price) <==> buy.price == 0.0
  {
    Cancel(middle.entryPrice, sell.price, sell.size);
    if buy.price * buy.size == 0.0 {
      Cancel(buy.price, 0.0, buy.size);
    }
  }
}
