/**
 * The Frequent Batch Auction market: the order book object with its two sides
 * and batch counter, the inbound message handler, and the batch step that
 * clears the book, publishes the result and reschedules itself on a fixed grid.
 */
module Market {
  import opened Wrappers
  import opened Orders
  import opened Clearing
  import opened Messages

  /**
   * The outbound BATCH notification: both sides with their transacted flags,
   * the batch that was cleared, and the doubled equilibrium price (`None` for
   * no trade).
   */
  datatype Batch = Batch(buys: seq<Order>, sells: seq<Order>, batchNumber: int, equilibrium: Option<int>)

  /** The next deadline of the batch timer: one batch length after the current one. */
  function NextBatchTime(batchTime: int, batchLength: int): int
  {
    batchTime + batchLength
  }

  /** The deadline after `n` firings of the timer started at `firstBatchTime`. */
  function BatchTimeAfter(firstBatchTime: int, batchLength: int, n: nat): int
  {
    if n == 0 then firstBatchTime
    else NextBatchTime(BatchTimeAfter(firstBatchTime, batchLength, n - 1), batchLength)
  }

  /** Grid alignment: the n-th deadline is exactly n batch lengths after the first. */
  lemma {:induction false} GridAligned(firstBatchTime: int, batchLength: int, n: nat)
    ensures BatchTimeAfter(firstBatchTime, batchLength, n) == firstBatchTime + n * batchLength
  {
    if n > 0 {
      GridAligned(firstBatchTime, batchLength, n - 1);
      assert (n - 1) * batchLength + batchLength == n * batchLength;
    }
  }

  /** No order of the side is priced above `p`. */
  predicate PricedAtMost(s: seq<Order>, p: int)
  {
    forall k :: 0 <= k < |s| ==> s[k].price <= p
  }

  /** No order of the side is priced below `p`. */
  predicate PricedAtLeast(s: seq<Order>, p: int)
  {
    forall k :: 0 <= k < |s| ==> s[k].price >= p
  }

  /** Every order of the side lies in the range an entry message can produce. */
  predicate WithinMarketBounds(s: seq<Order>)
  {
    PricedAtMost(s, MarketBuyPrice) && PricedAtLeast(s, MarketSellPrice)
  }

  /**
   * A market buy transacts against any non-empty sell side, provided no order
   * of the book is priced above the market-buy price.
   */
  lemma MarketBuyClears(buys: seq<Order>, sells: seq<Order>, i: int)
    requires |sells| > 0 && 0 <= i < |buys| && buys[i].price == MarketBuyPrice
    requires PricedAtMost(buys, MarketBuyPrice) && PricedAtMost(sells, MarketBuyPrice)
    ensures Clear(buys, sells).buys[i].transacted
  {
    forall o | o in buys + sells ensures o.price <= buys[i].price {
      var k :| 0 <= k < |buys + sells| && (buys + sells)[k] == o;
      if k >= |buys| { assert o == sells[k - |buys|]; }
    }
    HighestBuyClears(buys, sells, i);
  }

  /**
   * A market sell transacts against any non-empty buy side, provided no order
   * of the book is priced below the market-sell price.
   */
  lemma MarketSellClears(buys: seq<Order>, sells: seq<Order>, j: int)
    requires |buys| > 0 && 0 <= j < |sells| && sells[j].price == MarketSellPrice
    requires PricedAtLeast(buys, MarketSellPrice) && PricedAtLeast(sells, MarketSellPrice)
    ensures Clear(buys, sells).sells[j].transacted
  {
    forall o | o in buys + sells ensures o.price >= sells[j].price {
      var k :| 0 <= k < |buys + sells| && (buys + sells)[k] == o;
      if k >= |buys| { assert o == sells[k - |buys|]; }
    }
    LowestSellClears(buys, sells, j);
  }

  /** Appending an order decoded from an entry message keeps a side within the entry-message range. */
  lemma EntryInsertKeepsBounds(s: seq<Order>, message: Message, now: int, batchNumber: int)
    requires WithinMarketBounds(s) && IsEntry(message.msgType) && Decode(message, now).Insert?
    ensures WithinMarketBounds(Inserted(s, NewOrder(Decode(message, now), batchNumber)))
  {
    EntryPricesWithinMarketBounds(message, now);
    var o := NewOrder(Decode(message, now), batchNumber);
    var r := Inserted(s, o);
    forall k | 0 <= k < |r| ensures MarketSellPrice <= r[k].price <= MarketBuyPrice {
      if r[k] != o {
        assert r[k] in s;
        var m :| 0 <= m < |s| && s[m] == r[k];
      }
    }
  }

  /**
   * An update message is neither validated nor expanded: a UBUY carrying the
   * market-order sentinel rests as a limit buy above the market-buy price, so
   * a later market buy is no longer the highest order of the book.
   */
  lemma UpdateCanExceedMarketBuyPrice(now: int)
    ensures var a := Decode(Message("UBUY", MsgData(1, MarketOrderSentinel, false, now, None)), now);
      a.Insert? && a.side == Buy && a.price > MarketBuyPrice
  {
  }

  /**
   * With such an update order resting at the sentinel price, a market buy
   * against a single sell at 10 is not flagged: the equilibrium is the
   * midpoint of the update order and the market buy.
   */
  lemma MarketBuyMissedAfterUpdate(u: Order, m: Order, s1: Order)
    requires u == Order(1, MarketOrderSentinel, 0, 0, false, None, false, 1)
    requires m == Order(2, MarketBuyPrice, 0, 0, true, None, false, 1)
    requires s1 == Order(3, 100000, 0, 0, false, None, false, 1)
    ensures var c := Clear([u, m], [s1]);
      c.equilibrium == Some(MarketOrderSentinel + MarketBuyPrice) && !c.buys[1].transacted
  {
    assert [s1][1..] == [];
    assert SortByPriceDesc([s1]) == [s1];
    InsertStep(m, [s1], [m, s1]);
    InsertStep(u, [m, s1], [u, m] + [s1]);
  }

  /** The notification one firing of the batch step publishes for the sides `buys` and `sells` in batch `batchNumber`. */
  function Notification(buys: seq<Order>, sells: seq<Order>, batchNumber: int): Batch
  {
    var c := Clear(buys, sells);
    Batch(c.buys, c.sells, batchNumber, c.equilibrium)
  }

  /** The two sides one firing of the batch step leaves for the next batch. */
  function NextSides(buys: seq<Order>, sells: seq<Order>): (seq<Order>, seq<Order>)
  {
    var c := Clear(buys, sells);
    (CarryOver(c.buys), CarryOver(c.sells))
  }

  /** Sets `transacted` on every buy at or above the doubled equilibrium `e`, as the source's in-place loop does. */
  method FlagBuyOrders(orders: seq<Order>, e: int) returns (flagged: seq<Order>)
    ensures flagged == FlagBuys(orders, e)
  {
    flagged := orders;
    var i := 0;
    while i < |flagged|
      invariant 0 <= i <= |flagged| == |orders|
      invariant forall k :: 0 <= k < i ==> flagged[k] == MarkBuy(orders[k], e)
      invariant forall k :: i <= k < |flagged| ==> flagged[k] == orders[k]
    {
      if 2 * flagged[i].price >= e {
        flagged := flagged[i := flagged[i].(transacted := true)];
      }
      i := i + 1;
    }
  }

  /** Sets `transacted` on every sell at or below the doubled equilibrium `e`, as the source's in-place loop does. */
  method FlagSellOrders(orders: seq<Order>, e: int) returns (flagged: seq<Order>)
    ensures flagged == FlagSells(orders, e)
  {
    flagged := orders;
    var i := 0;
    while i < |flagged|
      invariant 0 <= i <= |flagged| == |orders|
      invariant forall k :: 0 <= k < i ==> flagged[k] == MarkSell(orders[k], e)
      invariant forall k :: i <= k < |flagged| ==> flagged[k] == orders[k]
    {
      if 2 * flagged[i].price <= e {
        flagged := flagged[i := flagged[i].(transacted := true)];
      }
      i := i + 1;
    }
  }

  /** Builds the next batch's side: each order neither IOC nor transacted, with its batch number incremented. */
  method CarryOverOrders(orders: seq<Order>) returns (next: seq<Order>)
    ensures next == CarryOver(orders)
  {
    next := [];
    var j := 0;
    while j < |orders|
      invariant 0 <= j <= |orders|
      invariant next == CarryOver(orders[..j])
    {
      assert orders[..j + 1] == orders[..j] + [orders[j]];
      CarryOverAppend(orders[..j], [orders[j]]);
      assert [orders[j]][1..] == [];
      if !orders[j].ioc && !orders[j].transacted {
        next := next + [NextBatch(orders[j])];
      }
      j := j + 1;
    }
    assert orders[..j] == orders;
  }

  /**
   * `batches` and `sides` trace consecutive firings of the batch step from
   * batch number `first`: the k-th notification is the one published for
   * `sides[k]`, and `sides[k + 1]` is what that firing leaves.
   */
  ghost predicate Traces(sides: seq<(seq<Order>, seq<Order>)>, batches: seq<Batch>, first: int)
  {
    && |sides| == |batches| + 1
    && forall k :: 0 <= k < |batches| ==>
      batches[k] == Notification(sides[k].0, sides[k].1, first + k) &&
      sides[k + 1] == NextSides(sides[k].0, sides[k].1)
  }

  /** One more firing extends a trace by its notification and the sides it leaves. */
  lemma TracesExtend(sides: seq<(seq<Order>, seq<Order>)>, batches: seq<Batch>, first: int, batch: Batch, next: (seq<Order>, seq<Order>))
    requires Traces(sides, batches, first)
    requires batch == Notification(sides[|batches|].0, sides[|batches|].1, first + |batches|)
    requires next == NextSides(sides[|batches|].0, sides[|batches|].1)
    ensures Traces(sides + [next], batches + [batch], first)
  {
    var s, b := sides + [next], batches + [batch];
    forall k | 0 <= k < |b|
      ensures b[k] == Notification(s[k].0, s[k].1, first + k) && s[k + 1] == NextSides(s[k].0, s[k].1)
    {
      if k < |batches| {
        assert b[k] == batches[k] && s[k] == sides[k] && s[k + 1] == sides[k + 1];
      } else {
        assert b[k] == batch && s[k] == sides[k] && s[k + 1] == next;
      }
    }
  }

  class FBABook {
    var buyContracts: seq<Order>
    var sellContracts: seq<Order>
    var batchNumber: int
    const batchLength: int

    /**
     * At most one order per participant (other than the investor) on each
     * side, and every resident order untransacted and in the current batch.
     */
    ghost predicate Valid()
      reads this
    {
      && UniqueIds(buyContracts) && UniqueIds(sellContracts)
      && Resident(buyContracts, batchNumber) && Resident(sellContracts, batchNumber)
    }

    constructor (batchLength: int)
      ensures Valid()
      ensures buyContracts == [] && sellContracts == [] && batchNumber == 1
      ensures this.batchLength == batchLength
    {
      buyContracts := [];
      sellContracts := [];
      batchNumber := 1;
      this.batchLength := batchLength;
    }

    method InsertBuy(newId: int, newPrice: int, timestamp: int, originTimestamp: int, ioc: bool, state: Option<AuxState>)
      requires Valid()
      modifies this
      ensures Valid()
      ensures buyContracts ==
        Inserted(old(buyContracts), Order(newId, newPrice, timestamp, originTimestamp, ioc, state, false, old(batchNumber)))
      ensures sellContracts == old(sellContracts) && batchNumber == old(batchNumber)
    {
      var order := Order(newId, newPrice, timestamp, originTimestamp, ioc, state, false, batchNumber);
      InsertedKeepsUnique(buyContracts, order);
      InsertedKeepsResident(buyContracts, order, batchNumber);
      if newId != 0 {
        var index := IndexOf(buyContracts, newId);
        if index != -1 {
          if buyContracts[index].originTimestamp > originTimestamp {
            return;
          } else {
            buyContracts := buyContracts[..index] + buyContracts[index + 1..];
          }
        }
      }
      buyContracts := buyContracts + [order];
    }

    method InsertSell(newId: int, newPrice: int, timestamp: int, originTimestamp: int, ioc: bool, state: Option<AuxState>)
      requires Valid()
      modifies this
      ensures Valid()
      ensures sellContracts ==
        Inserted(old(sellContracts), Order(newId, newPrice, timestamp, originTimestamp, ioc, state, false, old(batchNumber)))
      ensures buyContracts == old(buyContracts) && batchNumber == old(batchNumber)
    {
      var order := Order(newId, newPrice, timestamp, originTimestamp, ioc, state, false, batchNumber);
      InsertedKeepsUnique(sellContracts, order);
      InsertedKeepsResident(sellContracts, order, batchNumber);
      if newId != 0 {
        var index := IndexOf(sellContracts, newId);
        if index != -1 {
          if sellContracts[index].originTimestamp > originTimestamp {
            return;
          } else {
            sellContracts := sellContracts[..index] + sellContracts[index + 1..];
          }
        }
      }
      sellContracts := sellContracts + [order];
    }

    method RemoveBuy(idToRemove: int)
      requires Valid()
      modifies this
      ensures Valid()
      ensures buyContracts == Removed(old(buyContracts), idToRemove)
      ensures sellContracts == old(sellContracts) && batchNumber == old(batchNumber)
    {
      RemovedKeepsUnique(buyContracts, idToRemove);
      var index := IndexOf(buyContracts, idToRemove);
      if index != -1 {
        buyContracts := buyContracts[..index] + buyContracts[index + 1..];
      }
    }

    method RemoveSell(idToRemove: int)
      requires Valid()
      modifies this
      ensures Valid()
      ensures sellContracts == Removed(old(sellContracts), idToRemove)
      ensures buyContracts == old(buyContracts) && batchNumber == old(batchNumber)
    {
      RemovedKeepsUnique(sellContracts, idToRemove);
      var index := IndexOf(sellContracts, idToRemove);
      if index != -1 {
        sellContracts := sellContracts[..index] + sellContracts[index + 1..];
      }
    }

    /**
     * Handles one participant message received at time `now`: the decoded
     * operation is applied to its side and nothing else changes; a rejected
     * message leaves the book as it was.
     */
    method RecvMessage(message: Message, now: int)
      requires Valid()
      modifies this
      ensures Valid()
      ensures batchNumber == old(batchNumber)
      ensures var a := Decode(message, now);
        if a.Insert? && a.side == Buy then
          buyContracts == Inserted(old(buyContracts), NewOrder(a, old(batchNumber))) && sellContracts == old(sellContracts)
        else if a.Insert? then
          sellContracts == Inserted(old(sellContracts), NewOrder(a, old(batchNumber))) && buyContracts == old(buyContracts)
        else if a.Remove? && a.side == Buy then
          buyContracts == Removed(old(buyContracts), a.id) && sellContracts == old(sellContracts)
        else if a.Remove? then
          sellContracts == Removed(old(sellContracts), a.id) && buyContracts == old(buyContracts)
        else
          buyContracts == old(buyContracts) && sellContracts == old(sellContracts)
    {
      var a := Decode(message, now);
      match a {
        case Insert(side, id, price, timestamp, originTimestamp, ioc, state) =>
          if side == Buy {
            InsertBuy(id, price, timestamp, originTimestamp, ioc, state);
          } else {
            InsertSell(id, price, timestamp, originTimestamp, ioc, state);
          }
        case Remove(side, id) =>
          if side == Buy {
            RemoveBuy(id);
          } else {
            RemoveSell(id);
          }
        case Reject(_) =>
      }
    }

    /**
     * One firing of the batch timer for the deadline `batchTime`, at wall-clock
     * time `now`. Clears the book, returns the BATCH notification, keeps the
     * surviving orders for the next batch, advances the counter, and returns
     * the next deadline together with the timer delay that reaches it.
     */
    method ProcessBatch(batchTime: int, now: int) returns (batch: Batch, nextBatchTime: int, delay: int)
      requires Valid()
      modifies this
      ensures Valid()
      ensures batch == Notification(old(buyContracts), old(sellContracts), old(batchNumber))
      ensures (buyContracts, sellContracts) == NextSides(old(buyContracts), old(sellContracts))
      ensures batchNumber == old(batchNumber) + 1
      ensures nextBatchTime == NextBatchTime(batchTime, batchLength)
      ensures delay == nextBatchTime - now
    {
      var buys, sells := buyContracts, sellContracts;
      var equilibrium: Option<int> := None;
      if |buys| > 0 && |sells| > 0 {
        var e := EquilibriumDoubled(buys, sells);
        equilibrium := Some(e);
        buys := FlagBuyOrders(buys, e);
        sells := FlagSellOrders(sells, e);
      }
      ghost var c := Clear(buyContracts, sellContracts);
      assert buys == c.buys && sells == c.sells && equilibrium == c.equilibrium;
      batch := Batch(buys, sells, batchNumber, equilibrium);

      var newBuys := CarryOverOrders(buys);
      var newSells := CarryOverOrders(sells);
      AdvanceKeepsInvariant(buyContracts, c.buys, batchNumber);
      AdvanceKeepsInvariant(sellContracts, c.sells, batchNumber);
      assert newBuys == CarryOver(c.buys) && newSells == CarryOver(c.sells);
      buyContracts := newBuys;
      sellContracts := newSells;
      batchNumber := batchNumber + 1;

      nextBatchTime := NextBatchTime(batchTime, batchLength);
      delay := nextBatchTime - now;
    }

    /**
     * The chain of timer firings that `ProcessBatch` sets up for itself: the
     * k-th firing handles the deadline `firstBatchTime + k * batchLength`,
     * whatever the wall-clock times `nows` at which the firings run. The ghost
     * `sides` records the book before each firing and after the last: each
     * notification is the one for the sides before its firing, and each
     * firing leaves `NextSides` of them.
     */
    method RunBatches(firstBatchTime: int, nows: seq<int>) returns (batches: seq<Batch>, pending: int, ghost sides: seq<(seq<Order>, seq<Order>)>)
      requires Valid()
      modifies this
      ensures Valid()
      ensures |batches| == |nows| && |sides| == |nows| + 1
      ensures sides[0] == (old(buyContracts), old(sellContracts))
      ensures forall k :: 0 <= k < |nows| ==>
        batches[k] == Notification(sides[k].0, sides[k].1, old(batchNumber) + k) &&
        sides[k + 1] == NextSides(sides[k].0, sides[k].1)
      ensures (buyContracts, sellContracts) == sides[|nows|]
      ensures batchNumber == old(batchNumber) + |nows|
      ensures pending == firstBatchTime + |nows| * batchLength
    {
      batches := [];
      sides := [(buyContracts, sellContracts)];
      pending := firstBatchTime;
      var k := 0;
      while k < |nows|
        invariant Valid()
        invariant 0 <= k <= |nows| && |batches| == k && |sides| == k + 1
        invariant sides[0] == (old(buyContracts), old(sellContracts))
        invariant Traces(sides, batches, old(batchNumber))
        invariant (buyContracts, sellContracts) == sides[k]
        invariant batchNumber == old(batchNumber) + k
        invariant pending == BatchTimeAfter(firstBatchTime, batchLength, k)
      {
        var batch, next, delay := ProcessBatch(pending, nows[k]);
        TracesExtend(sides, batches, old(batchNumber), batch, (buyContracts, sellContracts));
        batches := batches + [batch];
        sides := sides + [(buyContracts, sellContracts)];
        pending := next;
        k := k + 1;
      }
      GridAligned(firstBatchTime, batchLength, |nows|);
    }
  }

  /** With one buy and one sell, the doubled equilibrium is the sum of their prices. */
  lemma PairEquilibrium(b: Order, s: Order)
    requires b.price >= s.price
    ensures EquilibriumDoubled([b], [s]) == b.price + s.price
  {
    assert [s][1..] == [] && SortByPriceDesc([s]) == [s];
    InsertStep(b, [s], [b] + [s]);
  }

  /** One buy priced at or above one sell: the clearing flags both at the doubled equilibrium `b.price + s.price`. */
  lemma CrossedPairClears(b: Order, s: Order)
    requires b.price >= s.price
    ensures Clear([b], [s]) == Clearing([b.(transacted := true)], [s.(transacted := true)], Some(b.price + s.price))
  {
    PairEquilibrium(b, s);
  }

  /**
   * The batch on a crossed pair publishes both orders as transacted and
   * leaves both sides empty.
   */
  lemma CrossedPairBatch(b: Order, s: Order, batchNumber: int)
    requires b.price >= s.price
    ensures Notification([b], [s], batchNumber)
      == Batch([b.(transacted := true)], [s.(transacted := true)], batchNumber, Some(b.price + s.price))
    ensures NextSides([b], [s]) == ([], [])
  {
    CrossedPairClears(b, s);
    var tb, ts := b.(transacted := true), s.(transacted := true);
    assert [tb][1..] == [] && [ts][1..] == [];
    assert CarryOver([tb]) == [] && CarryOver([ts]) == [];
  }

  /** A fresh book holding a buy at 50 (at time `t`) and a sell at 40 (at `t + 1`), both for batch 1. */
  method OpenCrossedBook(batchLength: int, t: int) returns (book: FBABook)
    ensures fresh(book) && book.Valid() && book.batchLength == batchLength && book.batchNumber == 1
    ensures book.buyContracts == [Order(1, 500000, t, t, false, None, false, 1)]
    ensures book.sellContracts == [Order(2, 400000, t + 1, t, false, None, false, 1)]
  {
    book := new FBABook(batchLength);
    book.RecvMessage(Message("EBUY", MsgData(1, 500000, false, t, None)), t);
    book.RecvMessage(Message("ESELL", MsgData(2, 400000, false, t, None)), t + 1);
  }

  /**
   * A buy at 50 and a sell at 40 from two participants clear against each
   * other in the next batch: both are flagged, both leave the book, and the
   * counter advances by one.
   */
  method EndToEnd(batchLength: int, t: int) returns (batch: Batch, buysLeft: seq<Order>, sellsLeft: seq<Order>, batchNumber: int)
    ensures batch.batchNumber == 1 && batch.equilibrium == Some(900000)
    ensures |batch.buys| == 1 && batch.buys[0].id == 1 && batch.buys[0].transacted
    ensures |batch.sells| == 1 && batch.sells[0].id == 2 && batch.sells[0].transacted
    ensures buysLeft == [] && sellsLeft == [] && batchNumber == 2
  {
    var book := OpenCrossedBook(batchLength, t);
    CrossedPairBatch(book.buyContracts[0], book.sellContracts[0], 1);
    var next, delay;
    batch, next, delay := book.ProcessBatch(t + batchLength, t + batchLength);
    buysLeft, sellsLeft, batchNumber := book.buyContracts, book.sellContracts, book.batchNumber;
  }
}
