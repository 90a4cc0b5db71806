# Frequent Batch Auction order book

This project models the market side of a Frequent Batch Auction (FBA) exchange.
Participants send orders, which rest on one of two sides of an order book, a buy side
and a sell side. At most one order per participant rests on each side. The only
exception is the investor, whose id is 0.

A timer fires once per batch. Each firing does the following:

- when both sides are non-empty:
  - merges and sorts both sides by descending price;
  - takes the equilibrium price as the midpoint of the prices at ranks `S - 1` and
    `S`, where `S` is the number of sells;
  - flags every buy at or above the equilibrium and every sell at or below it as
    transacted;
- otherwise there is no equilibrium and nothing is flagged;
- publishes the result as a BATCH notification, whose equilibrium is absent when a
  side was empty;
- keeps the orders that are neither immediate-or-cancel (IOC) nor transacted, each
  with its batch number one higher;
- advances the batch counter;
- re-arms itself for one batch length later.

The modules follow the structure of the market manager:

- `Orders`: the order record and the per-side operations. These are finding a
  participant's order, removing it, and inserting with deduplication by id and a
  staleness rule on `originTimestamp`.
- `Clearing`: the batch computation as pure functions. It covers a stable sort by
  descending price, the equilibrium, the transacted flags and the carry-over into the
  next batch, together with the theorems about them.
- `Messages`: the decoding of a participant message into a book operation. This
  includes price validation and the expansion of the market-order sentinel on entry
  messages.
- `Market`: the class `FBABook`, whose fields the source updates in place. Its fields
  are `buyContracts`, `sellContracts` and `batchNumber`, and it has a constant
  `batchLength`. Its methods are the inbound message handler, the insert and remove
  operations, and the batch step. The loops of the batch step appear as methods with
  loop invariants.

A market buy (price 200000, ticks 2000000000) is guaranteed to transact against a
non-empty sell side whenever no order of the book is priced above 200000. A market
sell (price 0) is guaranteed to transact against a non-empty buy side whenever no
order of the book is priced below 0. Orders on the other side of each bound do not
matter: a sell at -5 does not stop a market buy. `Market.MarketBuyClears` and
`Market.MarketSellClears` state this.
`Market.EntryInsertKeepsBounds` shows that entry messages keep a side within [0, 200000].
Update messages (UBUY, USELL) are neither validated nor expanded, so they can leave it.
A UBUY carrying the market-order sentinel rests as a limit buy above the market-buy
price, and a market buy against it can then fail to transact.
`Market.UpdateCanExceedMarketBuyPrice` and `Market.MarketBuyMissedAfterUpdate` state
that case. The model follows the code.

## Model conventions

- **Prices** are integers in ticks of 1/10000. The source's price constants become:
  - the market-order sentinel 214748.3647 is `2147483647`;
  - the largest valid limit price 199999.99 is `1999999900`;
  - a market buy is inserted at 200000, which is `2000000000`;
  - a market sell is inserted at `0`.
- **The equilibrium** is carried doubled, as the sum of the two rank prices. This
  avoids a division that would leave the integers. A buy transacts when
  `2 * price >= e`, and a sell when `2 * price <= e`.
- **Time.** The clock reading at receipt and at each timer firing is a parameter
  (`now`).
- **The next deadline** is returned as `nextBatchTime`, together with the timer delay
  `nextBatchTime - now`.
- **The BATCH notification** is the return value `batch`. It holds both flagged sides,
  the batch number and the doubled equilibrium (`None` when a side is empty).
- **Class structure.** The source keeps the batch length on the market object and the
  book on a nested object. Here both live in one class.

Price ties can flag more orders on one side than on the other. With two buys and one
sell all at the same price, the equilibrium equals that price and all three orders
are flagged. The model follows the code; `Clearing.TiesCanFlagMoreBuysThanSells`
states the case.

## Model

| member | source | states |
|---|---|---|
| Orders.Occurrences | marketManager.js:109-112 | the count of a participant's orders on a side is zero exactly when no order carries that id |
| Orders.IndexOf | marketManager.js:110-112 | `findIndex` on the id: -1 exactly when the id is absent; otherwise the first position holding the id |
| Orders.Removed | marketManager.js:178-203 | the first order with the id is spliced out and the rest keep their order; with no such order the side is unchanged; no order is introduced |
| Orders.Inserted | marketManager.js:107-139 | an investor order or an order from a participant with no resident order is appended; otherwise the side is unchanged or the resident order is replaced by the new one at the end |
| Orders.OccurrencesAppend | marketManager.js:138 | occurrence counts add over concatenation |
| Orders.OccurrencesTwice | marketManager.js:110-112 | two orders with the same id give at least two occurrences |
| Orders.UniqueIndex | marketManager.js:110-112 | once ids are unique, the order found by id is the participant's only order |
| Orders.OccurrencesRemoved | marketManager.js:178-189 | removal lowers the removed id's count by exactly one when present, and leaves every other id's count unchanged |
| Orders.OccurrencesSplice | marketManager.js:182-184 | splicing out one position lowers the count of that order's id by exactly one and leaves every other id's count unchanged |
| Orders.RemovedKeepsUnique | marketManager.js:178-203 | removal preserves at most one order per non-investor participant |
| Orders.InsertedOthers | marketManager.js:107-139 | an insert does not change any other participant's count |
| Orders.InsertedOnce | marketManager.js:109-138 | after an insert by a non-investor participant, that participant has exactly one order on the side |
| Orders.InsertedKeepsUnique | marketManager.js:107-175 | insertion preserves at most one order per non-investor participant |
| Orders.StaleInsertIsDropped | marketManager.js:114-119 | when the resident order has a strictly newer `originTimestamp`, the insert leaves the side unchanged |
| Orders.NewerInsertReplaces | marketManager.js:120-138 | when the resident order is not newer, it is spliced out and the new order appended, with the others kept in order |
| Clearing.InsertKeepsSorted | marketManager.js:214-216 | an insertion step keeps a descending list descending |
| Clearing.InsertIsPermutation | marketManager.js:214-216 | an insertion step yields exactly the old orders plus the inserted one |
| Clearing.SortByPriceDesc | marketManager.js:213-216 | the combined book sorted by descending price, as a permutation of its input |
| Clearing.InsertByPriceStable | marketManager.js:214-216 | an insertion step keeps the relative order of equal-priced orders |
| Clearing.SortIsStable | marketManager.js:214-216 | the sort is stable: orders of any one price keep their relative order |
| Clearing.CountAboveAll | marketManager.js:222-224 | when every order is at or above a threshold, the count at or above it is the full length |
| Clearing.CountBelowAll | marketManager.js:225-227 | when every order is at or below a threshold, the count at or below it is the full length |
| Clearing.CountAboveFull | marketManager.js:222-224 | a full count at or above a threshold puts every order at or above it |
| Clearing.CountBelowFull | marketManager.js:225-227 | a full count at or below a threshold puts every order at or below it |
| Clearing.CountAboveWitness | marketManager.js:222-224 | a positive count at or above a threshold yields an order at or above it |
| Clearing.CountBelowWitness | marketManager.js:225-227 | a positive count at or below a threshold yields an order at or below it |
| Clearing.CountAboveMember | marketManager.js:222-224 | an order at or above a threshold makes the count positive |
| Clearing.CountBelowMember | marketManager.js:225-227 | an order at or below a threshold makes the count positive |
| Clearing.CountsAppend | marketManager.js:213 | both counts add over the concatenation of the two sides |
| Clearing.InsertByPriceCounts | marketManager.js:214-216 | an insertion step adds exactly the inserted order to each count |
| Clearing.SortCounts | marketManager.js:214-216 | sorting changes neither count |
| Clearing.RankAbove | marketManager.js:219 | in a sorted list, more than `i` orders at or above a threshold put rank `i` at or above it |
| Clearing.RankBelow | marketManager.js:219 | in a sorted list, at least `n - i` orders at or below a threshold put rank `i` at or below it |
| Clearing.PrefixAbove | marketManager.js:219 | in a sorted list, the first `k` ranks lie at or above the price at rank `k - 1` |
| Clearing.SuffixBelow | marketManager.js:219 | in a sorted list, every rank from `k` on lies at or below the price at rank `k` |
| Clearing.EquilibriumDoubled | marketManager.js:219 | the doubled midpoint of ranks `S - 1` and `S`: at least `S` orders of the book lie at or above it and at least `B` at or below it |
| Clearing.CrossedThenBuyClears | marketManager.js:219-224 | on a crossed book some buy lies at or above the equilibrium |
| Clearing.CrossedThenSellClears | marketManager.js:219-227 | on a crossed book some sell lies at or below the equilibrium |
| Clearing.UncrossedBuyStays | marketManager.js:219-224 | when no buy meets any sell, every buy lies strictly below the equilibrium |
| Clearing.UncrossedSellStays | marketManager.js:219-227 | when no buy meets any sell, every sell lies strictly above the equilibrium |
| Clearing.Clear | marketManager.js:210-228 | there is an equilibrium exactly when both sides are non-empty, and none means nothing changes; a buy is flagged exactly when at or above the equilibrium and a sell exactly when at or below it; only `transacted` changes |
| Clearing.TradeIffCrossed | marketManager.js:210-228 | with no order flagged beforehand, some buy transacts if and only if some buy is priced at or above some sell, and likewise for sells |
| Clearing.HighestBuyClears | marketManager.js:219-224 | a buy priced at or above every order of the book lies at or above the equilibrium whenever the sell side is non-empty |
| Clearing.LowestSellClears | marketManager.js:219-227 | a sell priced at or below every order of the book lies at or below the equilibrium whenever the buy side is non-empty |
| Clearing.ClearingExample | marketManager.js:210-228 | buys at 12 and 8 against a sell at 9 clear at 10.5 (doubled 21): the buy at 12 and the sell transact, and the buy at 8 does not |
| Clearing.TiesCanFlagMoreBuysThanSells | marketManager.js:219-227 | two buys and one sell all at 10 clear at 10, and all three are flagged |
| Clearing.CarryOver | marketManager.js:233-251 | the side kept for the next batch is no longer than before and holds only orders that are neither IOC nor transacted |
| Clearing.CarryOverAppend | marketManager.js:234-248 | the carry-over keeps relative order: it distributes over concatenation |
| Clearing.CarryOverMembers | marketManager.js:234-248 | an order is carried over exactly when it is the next-batch copy of an order that is neither IOC nor transacted |
| Clearing.CarryOverOccurrences | marketManager.js:234-248 | the carry-over never increases any participant's count |
| Clearing.SameIdsOccurrences | marketManager.js:222-227 | flagging keeps every order's id, so every count is unchanged |
| Clearing.AdvanceKeepsInvariant | marketManager.js:222-253 | flagging and carry-over preserve at most one order per participant, and make every resident order untransacted and in the next batch |
| Messages.Decode | marketManager.js:30-96 | EBUY/ESELL turn the sentinel into an IOC order at 200000 or 0 and reject other prices outside (0, 199999.99]; UBUY/USELL insert unvalidated; RBUY/RSELL remove by id; other types are rejected; the receipt time becomes the timestamp |
| Messages.EntryPricesWithinMarketBounds | marketManager.js:44-71 | every order an entry message inserts is priced between the market sell and market buy prices |
| Market.MarketBuyClears | marketManager.js:46-47 | a market buy (price 200000) transacts against any non-empty sell side whenever no order of either side is priced above 200000 |
| Market.MarketSellClears | marketManager.js:61-62 | a market sell (price 0) transacts against any non-empty buy side whenever no order of either side is priced below 0 |
| Market.EntryInsertKeepsBounds | marketManager.js:44-71 | inserting an order decoded from an entry message keeps a side within [0, 200000] |
| Market.UpdateCanExceedMarketBuyPrice | marketManager.js:84-86 | a UBUY carrying the sentinel is inserted unexpanded, above the market-buy price |
| Market.MarketBuyMissedAfterUpdate | marketManager.js:84-86 | with a UBUY resting at the sentinel price, a market buy against one sell at 10 is not flagged |
| Market.GridAligned | marketManager.js:258 | the n-th timer deadline is exactly n batch lengths after the first |
| Market.FlagBuyOrders | marketManager.js:222-224 | the loop flags the buys exactly as `FlagBuys` does |
| Market.FlagSellOrders | marketManager.js:225-227 | the loop flags the sells exactly as `FlagSells` does |
| Market.CarryOverOrders | marketManager.js:234-248 | the loop builds exactly `CarryOver` of its input |
| Market.FBABook.constructor | marketManager.js:8-12 | a new book has empty sides and batch number 1, satisfies the book invariant, and keeps the batch length |
| Market.FBABook.InsertBuy | marketManager.js:107-139 | the buy side becomes `Inserted` of the new order stamped with the current batch; the sell side and the counter are unchanged; the invariant is kept |
| Market.FBABook.InsertSell | marketManager.js:142-175 | the sell side becomes `Inserted` of the new order stamped with the current batch; the buy side and the counter are unchanged; the invariant is kept |
| Market.FBABook.RemoveBuy | marketManager.js:178-189 | the buy side becomes `Removed` of the id; the rest is unchanged; the invariant is kept |
| Market.FBABook.RemoveSell | marketManager.js:192-203 | the sell side becomes `Removed` of the id; the rest is unchanged; the invariant is kept |
| Market.FBABook.RecvMessage | marketManager.js:30-96 | the decoded operation is applied to its side only; a rejected message leaves the book unchanged; the counter never changes |
| Market.FBABook.ProcessBatch | marketManager.js:205-259 | the BATCH notification is `Notification` of the old sides: both sides as `Clear` flags them, the old batch number and the equilibrium; the new sides are `NextSides`, the carry-over of the cleared sides; the counter advances by one; the next deadline is one batch length later, with the delay from `now` |
| Market.CrossedPairClears | marketManager.js:210-228 | one buy priced at or above one sell: both are flagged, at doubled equilibrium the sum of their prices |
| Market.CrossedPairBatch | marketManager.js:210-251 | the batch on such a pair publishes both orders as transacted and leaves both sides empty |
| Market.EndToEnd | marketManager.js:205-259 | an EBUY at 50 and an ESELL at 40 clear in batch 1 at doubled equilibrium 90: both are flagged in the notification, both sides are then empty, and the counter is 2 |
| Market.FBABook.RunBatches | marketManager.js:205-259 | `n` firings from the book's sides: `sides[0]` is the starting book; the k-th notification is `Notification` of `sides[k]` with batch number old+k; `sides[k + 1]` is `NextSides` of `sides[k]`; the book ends at `sides[n]` with the counter advanced by `n`; the pending deadline is `n` batch lengths after the first |

## Left out

- Graph.js, the price chart, is not part of this model.
- Logging, the debug logger, the admin send function and the group manager transport
  are I/O. The BATCH notification is returned instead of sent.
- The data store calls that record book snapshots are I/O.
- The deep copies made for those records only feed the data store, so they are left
  out too.
- `Date.now()` and `window.setTimeout` are left out. The clock is a `now` parameter.
  The timer is modelled by returning the next deadline and delay, and by `RunBatches`
  chaining firings. The browser's clamping of negative delays is not modelled.
- The first call of the batch step, whose starting deadline comes from outside the
  market manager, is not modelled. `RunBatches` takes that deadline as a parameter.
- `updateBuy` and `updateSell` are left out, because nothing in the market manager calls
  them. The source marks them unused. Were one of them called, it would remove the
  participant's order and then insert one without an origin timestamp, IOC flag or state.
- Prices as JavaScript floating point numbers are not modelled. Prices are integer ticks.
- Prices that are not numbers, such as a missing price or NaN, are not modelled. Every
  comparison with such a price is false, so the source lets it through the bounds
  test. Here every price is an integer.
- Market.FBABook.ProcessBatch: the BATCH payload holds the doubled equilibrium
  rather than the midpoint itself, so that the value stays an integer.
- Market.FBABook.ProcessBatch: object aliasing is not modelled. In the source, the
  order objects sent in the BATCH message are the same objects whose `batchNumber` is
  incremented afterwards. The model returns the orders as they stood at clearing time.
- Market.MarketBuyClears and Market.MarketSellClears require that no order lies beyond
  the market-order price on the far side of the bound. Update messages can break that,
  so no lemma states that a market order always transacts.
- Clearing.SortByPriceDesc: the engine's sort is a library call. It is modelled by a
  stable insertion sort, since the engine's `Array.prototype.sort` is stable. Only the
  resulting order is modelled, not the algorithm.
