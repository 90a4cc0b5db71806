/**
 * Inbound participant messages and the decoding of a message into an order
 * book operation, with the price validation and market-order expansion that
 * apply to the entry messages.
 */
module Messages {
  import opened Wrappers
  import opened Orders

  /** The price that marks a market order (214748.3647 in ticks of 1/10000). */
  const MarketOrderSentinel := 2147483647
  /** The largest valid limit price (199999.99). */
  const MaxPrice := 1999999900
  /** The price a market buy is inserted at (200000). */
  const MarketBuyPrice := 2000000000
  /** The price a market sell is inserted at. */
  const MarketSellPrice := 0

  /**
   * The message payload, indexed as the source indexes it: [0] participant id,
   * [1] price, [2] immediate-or-cancel flag, [3] origin timestamp, [4] state.
   * A remove message uses only the id.
   */
  datatype MsgData = MsgData(id: int, price: int, ioc: bool, originTimestamp: int, state: Option<AuxState>)

  datatype Message = Message(msgType: string, msgData: MsgData)

  datatype Side = Buy | Sell

  datatype Rejection = InvalidPrice(price: int) | UnknownType(msgType: string)

  /** The order book operation a message stands for. */
  datatype Action =
    | Insert(side: Side, id: int, price: int, timestamp: int, originTimestamp: int, ioc: bool, state: Option<AuxState>)
    | Remove(side: Side, id: int)
    | Reject(reason: Rejection)

  predicate PriceInBounds(price: int)
  {
    0 < price <= MaxPrice
  }

  predicate IsEntry(msgType: string)
  {
    msgType == "EBUY" || msgType == "ESELL"
  }

  predicate IsUpdate(msgType: string)
  {
    msgType == "UBUY" || msgType == "USELL"
  }

  predicate IsRemoval(msgType: string)
  {
    msgType == "RBUY" || msgType == "RSELL"
  }

  predicate IsBuySide(msgType: string)
  {
    msgType == "EBUY" || msgType == "UBUY" || msgType == "RBUY"
  }

  /**
   * Entry messages (EBUY, ESELL) expand the market-order sentinel into an IOC
   * order at the extreme price and reject other prices outside (0, MaxPrice];
   * update messages (UBUY, USELL) insert whatever price they carry; remove
   * messages (RBUY, RSELL) remove by id; every other kind is rejected.
   * `now` is the time of receipt, stored as the order's `timestamp`.
   */
  function Decode(message: Message, now: int): (a: Action)
    ensures a.Reject? <==>
      !(IsEntry(message.msgType) || IsUpdate(message.msgType) || IsRemoval(message.msgType)) ||
      (IsEntry(message.msgType) && message.msgData.price != MarketOrderSentinel && !PriceInBounds(message.msgData.price))
    ensures a.Remove? <==> IsRemoval(message.msgType)
    ensures !a.Reject? ==> a.id == message.msgData.id && (a.side == Buy <==> IsBuySide(message.msgType))
    ensures a.Insert? ==> a.timestamp == now && a.originTimestamp == message.msgData.originTimestamp
    ensures a.Insert? && IsEntry(message.msgType) && message.msgData.price == MarketOrderSentinel ==>
      a.price == (if a.side == Buy then MarketBuyPrice else MarketSellPrice) && a.ioc && a.state == None
    ensures a.Insert? && IsEntry(message.msgType) && message.msgData.price != MarketOrderSentinel ==>
      PriceInBounds(a.price)
    ensures a.Insert? && !(IsEntry(message.msgType) && message.msgData.price == MarketOrderSentinel) ==>
      a.price == message.msgData.price && a.ioc == message.msgData.ioc && a.state == message.msgData.state
  {
    var d := message.msgData;
    var t := message.msgType;
    if t == "EBUY" || t == "ESELL" then
      var side := if t == "EBUY" then Buy else Sell;
      if d.price == MarketOrderSentinel then
        Insert(side, d.id, if side == Buy then MarketBuyPrice else MarketSellPrice, now, d.originTimestamp, true, None)
      else if d.price > MaxPrice || d.price <= 0 then
        Reject(InvalidPrice(d.price))
      else
        Insert(side, d.id, d.price, now, d.originTimestamp, d.ioc, d.state)
    else if t == "RBUY" then Remove(Buy, d.id)
    else if t == "RSELL" then Remove(Sell, d.id)
    else if t == "UBUY" then Insert(Buy, d.id, d.price, now, d.originTimestamp, d.ioc, d.state)
    else if t == "USELL" then Insert(Sell, d.id, d.price, now, d.originTimestamp, d.ioc, d.state)
    else Reject(UnknownType(t))
  }

  /** The order an insert action puts on the book in batch `batchNumber`. */
  function NewOrder(a: Action, batchNumber: int): Order
    requires a.Insert?
  {
    Order(a.id, a.price, a.timestamp, a.originTimestamp, a.ioc, a.state, false, batchNumber)
  }

  /**
   * Every order an entry message can put on the book lies in the range
   * [MarketSellPrice, MarketBuyPrice], so a market buy is at least as high and
   * a market sell at least as low as any of them.
   */
  lemma EntryPricesWithinMarketBounds(message: Message, now: int)
    requires IsEntry(message.msgType) && Decode(message, now).Insert?
    ensures MarketSellPrice <= Decode(message, now).price <= MarketBuyPrice
  {
  }
}
