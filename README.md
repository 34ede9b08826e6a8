# Limit order book

A model of a price-time priority limit order book (`main.cpp`). The book holds
two sides, bids and asks. Each side maps a price to the FIFO queue of the
orders resting at that price. An index maps every live order id to its order.
Orders are Good-Til-Cancel or Fill-and-Kill. The book supports:

- adding an order, which is refused for a live id or for a Fill-and-Kill
  order that cannot match, and otherwise is queued, matched, and followed by a
  sweep that cancels Fill-and-Kill orders left at the front of a level;
- cancelling an order by id;
- modifying an order, as cancel-and-replace with the same id and kind;
- the number of live orders;
- a per-level snapshot of both sides, with the total remaining quantity of
  each level.

The project has two layers.

- `BookModel` (book.dfy) is a value specification. `Book` holds the two
  ledgers and the index, and `Valid` is the invariant tying them together:
  every level is non-empty and duplicate-free, every queued id is indexed
  under that side and price, and every indexed order rests in its own level.
  `Process`, `Cancel`, `Step` (one pass of the inner matching loop), `Cross`
  (the matching loops), `Sweep` (the Fill-and-Kill pass), `Add` and `Modify`
  are functions on `Book`, and the lemmas state what they promise.
- `OrderBooks.OrderBook` (orderbook.dfy) is a class with the source's three
  fields (`bids`, `asks`, `orders`). Its methods update those fields in
  place with the source's loops. Each method is proved to leave the book
  equal to the `BookModel` function applied to the old book, and to return
  the same trades.

`Orders` (orders.dfy) holds the value types: `Order` with its guarded
`Fill`, `OrderModify`, `TradeInfo`, `Trade` and the snapshot entries.
`Ledger` (ledger.dfy) holds one side's price-to-queue map: its first
(least) key, erasing an id from a queue, and the per-side snapshot.
`Scenarios` (scenarios.dfy) proves facts about small concrete books.

### Where the code and its comments disagree

The model follows the code. The proved lemmas show where the behaviour
departs from the comments.

- **Bid order.** Both sides are ascending `std::map`s, so the first bid
  level is the lowest bid, not the highest (the comments at main.cpp:26 and
  main.cpp:85 say bids are sorted high to low).
  - `CanMatch` for a sell compares with the lowest bid.
  - The matching loop pairs the lowest bid with the lowest ask.
  - The bid side of the snapshot is in ascending price order
    (`Ledger.InfosAscending`).
- **A bid above the ask can stay.** After the crossing loop the lowest bid
  is below the lowest ask (`BookModel.Cross` ensures `!Crossed`). A higher
  bid can still sit above an ask, with no trade
  (`Scenarios.HigherBidStaysCrossed`).
- **A Fill-and-Kill order can rest.** The sweep cancels only the front
  order of each level. A Fill-and-Kill order queued behind a Good-Til-Cancel
  order at the same price survives the sweep
  (`Scenarios.FillAndKillBehindRests`).
- **Zero-quantity orders are accepted.** An order for zero units rests in
  the book already filled (`Scenarios.ZeroQuantityOrderRests`). The order
  invariant is therefore `remaining <= initial`, not `remaining > 0`.

The source's bodies are undefined in two places; the model takes the
behaviour the code evidently relies on.

- **Inner matching loop** (main.cpp:287-288): it erases an emptied level and
  then tests the erased list again. The model ends the inner loop as soon as
  either front level is erased.
- **Fill-and-Kill sweep** (main.cpp:293-307): it erases map entries (through
  `CancelOrder`) inside a range-for over the same map. The model visits the
  side's levels as they were when the sweep started, in ascending price
  order.

## Model

| member | source | states |
|---|---|---|
| Orders.Order.Fill | main.cpp:113-120 | fails (the overfill error) exactly when more than the remaining quantity is asked for; otherwise lowers `remaining` by the quantity, changes nothing else, and raises the filled quantity by the same amount |
| Orders.NewOrder | main.cpp:95-97 | a new order has the given kind, id, side, price and size, nothing filled, and is filled only if its size is zero |
| Orders.FillCompletes | main.cpp:106-120 | filling an order by all it has left succeeds and fills it; an order is filled exactly when its filled quantity equals its initial quantity |
| Orders.OrderModify.ToOrder | main.cpp:152-154 | the replacement order keeps the request's id, side and price and the given kind, and starts unfilled with the requested quantity |
| Orders.Min | main.cpp:265-268 | the match quantity is the smaller of the two remaining quantities |
| Ledger.RemoveId | main.cpp:348 | erasing an id from a queue leaves a queue without it unchanged and otherwise shortens it by one |
| Ledger.RemoveIdCount | main.cpp:348 | erasing takes exactly one occurrence of the id out of the queue and leaves every other entry |
| Ledger.RemoveIdMembers | main.cpp:348 | in a duplicate-free queue, erasing keeps exactly the other ids and no duplicate |
| Ledger.RemoveIdAt | main.cpp:348 | erasing the id at a stored position keeps the other ids in their order (FIFO order survives a cancel) |
| Ledger.Append | main.cpp:237-238 | pushing at the back of the level at a price creates the level if needed and leaves the other levels alone |
| Ledger.Erase | main.cpp:347-352 | erasing from a level changes only that level and drops it exactly when its queue becomes empty |
| Ledger.EraseAt | main.cpp:347-352 | erasing the id at position i keeps the level's other ids in order, and the level disappears exactly when it held one order |
| Ledger.InfosEntries | main.cpp:385-391 | the side's snapshot has one entry per level, each for a level of the side, carrying that level's total remaining quantity |
| Ledger.InfosAscending | main.cpp:385-399 | the side's snapshot lists the levels in strictly ascending price order, bids included |
| Ledger.InfosComplete | main.cpp:385-399 | every level of the side has an entry in its snapshot |
| BookModel.IndexIsLedger | main.cpp:213-216 | in a consistent book the indexed ids are exactly the queued ids, each queued id sits at its own side and price, and no level holds an id twice |
| BookModel.ValidEmpty | main.cpp:213-216 | the empty book is consistent and holds no order |
| BookModel.ProcessValid | main.cpp:236-241 | inserting an order with a fresh id keeps the book consistent, indexes the order, appends it to its own side only |
| BookModel.CancelValid | main.cpp:340-355 | cancelling keeps the book consistent and removes exactly that id from the index |
| BookModel.CancelKeepsOtherLevels | main.cpp:345-352 | cancelling a live order leaves the other side and every other level of its side unchanged |
| BookModel.CancelOwnLevel | main.cpp:347-352 | cancelling a live order removes it from its position in its level, keeps the others in order, and drops the level exactly when it was the last order there |
| BookModel.CancelIdempotent | main.cpp:341-342 | cancelling an unknown id changes nothing, so cancelling twice is cancelling once |
| BookModel.PopFrontIsCancel | main.cpp:278-288 | popping the front of a level and unindexing it is the same as cancelling the front order |
| BookModel.FillFrontsValid | main.cpp:265-271 | filling the two front orders by the match quantity keeps the book consistent and touches neither ledger nor the set of ids |
| BookModel.PopFrontValid | main.cpp:278-288 | popping a level's front keeps the book consistent, unindexes exactly that order and leaves the other side alone |
| BookModel.RetiredValid | main.cpp:278-288 | retiring the filled fronts keeps the book consistent, adds no id to the index and no level to either side, and shrinks the index when a front is filled |
| BookModel.StepValid | main.cpp:261-289 | each match step keeps the book consistent and removes at least one order (so the matching loops terminate) |
| BookModel.StepTrade | main.cpp:262-285 | a match step trades the front bid against the front ask for the smaller remaining quantity, each side at its own order's price, and neither fill can overfill; an order stays exactly when it was not used up, with the quantity deducted, and every surviving order keeps its identity, side and price |
| BookModel.StepKeepsOthers | main.cpp:262-285 | a match step leaves every order other than the two front orders in the book, unchanged |
| BookModel.StepBidLevels | main.cpp:278-287 | a match step changes only the first bid level: a front bid not used up stays at the front of it (time priority survives a partial fill); a used-up one is popped, and the level goes exactly when it held only that order |
| BookModel.StepAskLevels | main.cpp:278-288 | the same for the first ask level |
| BookModel.Cross | main.cpp:252-290 | the matching loops end with a consistent book whose lowest bid is below its lowest ask (or a side empty), holding no new id |
| BookModel.CrossTrades | main.cpp:252-290 | every trade of a matching pass pairs a buy order with a sell order of the book for equal quantities, each at its own order's price; surviving orders differ only in remaining quantity |
| BookModel.CrossConserves | main.cpp:252-290 | conservation over a matching pass: for every order of the book, the quantity its trades took plus what it has left afterwards (zero if it left the book) equals what it had before, so an order leaves only when its trades used it up |
| BookModel.CrossFirstTrade | main.cpp:252-276 | a matching pass trades exactly when the first levels cross, leaves an uncrossed book unchanged, and starts with the step on the first levels |
| BookModel.SweepLevelEffect | main.cpp:293-298 | visiting one level cancels its front order when that is Fill-and-Kill and changes nothing else |
| BookModel.SweepSideValid | main.cpp:293-307 | sweeping a side keeps the book consistent and leaves the other side alone |
| BookModel.SweepSideOrders | main.cpp:293-307 | sweeping a side unindexes exactly the Fill-and-Kill front orders of the visited levels |
| BookModel.SweepSideUntouched | main.cpp:293-307 | sweeping a side adds no level and leaves levels it does not visit unchanged |
| BookModel.SweepSideLevels | main.cpp:293-307 | each visited level loses its front order exactly when that is Fill-and-Kill, and disappears exactly when that leaves it empty |
| BookModel.SweepValid | main.cpp:292-307 | the whole sweep keeps the book consistent and unindexes exactly the Fill-and-Kill front orders of both sides |
| BookModel.SweepBidLevels | main.cpp:293-299 | after the sweep, each bid level is the old one without its Fill-and-Kill front order, and is gone exactly when that left it empty |
| BookModel.SweepAskLevels | main.cpp:301-307 | after the sweep, each ask level is the old one without its Fill-and-Kill front order, and is gone exactly when that left it empty |
| BookModel.AskFrontsSurvive | main.cpp:293-307 | the bid sweep leaves the asks and their front orders as they were, so the ask sweep sees the original ask fronts |
| BookModel.SweepQuiet | main.cpp:293-307 | the sweep leaves the book unchanged exactly when no level has a Fill-and-Kill order at its front |
| BookModel.Add | main.cpp:317-334 | adding an order to a consistent book leaves a consistent book |
| BookModel.AddRefusals | main.cpp:318-325 | an order with a live id, or a Fill-and-Kill order that cannot match, is refused with no trades and no change; a Fill-and-Kill order facing an empty side cannot match |
| BookModel.AddAppends | main.cpp:327-331 | an admitted order is indexed and queued at the back of its level, behind every order already there, with all other levels unchanged |
| BookModel.AddRests | main.cpp:317-334 | an admitted order that leaves the first levels uncrossed and no Fill-and-Kill order at a front just rests, with no trade |
| BookModel.Modify | main.cpp:362-369 | modifying keeps the book consistent; an unknown id changes nothing and trades nothing |
| BookModel.ModifyReplaces | main.cpp:362-369 | modifying a live order cancels it and adds an unfilled replacement of the same id and kind; a Good-Til-Cancel replacement enters at the back of its new level, even at an unchanged price |
| OrderBooks.OrderBook.constructor | main.cpp:213-216 | a new book is consistent and empty |
| OrderBooks.OrderBook.CanMatch | main.cpp:222-230 | a buy can match exactly when some ask is at or below its price; a sell can match exactly when there is a bid and its price is at or below the lowest bid |
| OrderBooks.OrderBook.ProcessOrder | main.cpp:236-241 | inserting keeps the book consistent and the new book is `Process` of the old one |
| OrderBooks.OrderBook.MatchFronts | main.cpp:262-288 | one pass of the inner loop leaves the book and trade that `Step` gives, keeps both first levels first, and removes no level key it did not have |
| OrderBooks.OrderBook.RetireFilled | main.cpp:278-288 | popping filled fronts and erasing emptied levels, in the source's order, gives `Retired` of the old book |
| OrderBooks.OrderBook.MatchLevels | main.cpp:261-289 | the inner loop emits the leading trades of the matching pass, leaves the rest of the pass to the remaining book, and removes at least one order |
| OrderBooks.OrderBook.MatchOrders | main.cpp:248-310 | the matching pass returns exactly the trades of `Cross` and leaves the swept result of `Cross`, a consistent book |
| OrderBooks.OrderBook.SweepFillAndKill | main.cpp:293-307 | the loop over one side's levels leaves the book `SweepSide` gives for that side's levels at the start |
| OrderBooks.OrderBook.AddOrder | main.cpp:317-334 | adding gives the book and trades of `Add` and keeps the book consistent |
| OrderBooks.OrderBook.CancelOrder | main.cpp:340-355 | cancelling gives the book of `Cancel` and keeps the book consistent |
| OrderBooks.OrderBook.ModifyOrder | main.cpp:362-369 | modifying gives the book and trades of `Modify` and keeps the book consistent |
| OrderBooks.OrderBook.Size | main.cpp:374-376 | the size is the number of distinct orders resting in the two ledgers |
| OrderBooks.OrderBook.GetOrderInfos | main.cpp:382-402 | the snapshot is `Snapshot` of the book: each side's levels in key order with their totals |
| OrderBooks.OrderBook.LevelInfos | main.cpp:385-391 | the loop over a side's levels builds that side's snapshot, one entry per level in ascending price order |
| OrderBooks.OrderBook.LevelTotal | main.cpp:386-389 | the summing loop over a level gives the total remaining quantity of its orders |
| Scenarios.HigherBidStaysCrossed | main.cpp:252-256 | with a bid at 5 and an ask at 10, a Good-Til-Cancel buy at 12 does not trade and leaves a bid above an ask |
| Scenarios.ZeroQuantityOrderRests | main.cpp:317-334 | an order for zero units is accepted, trades nothing and rests in the book already filled |
| Scenarios.FillAndKillBehindRests | main.cpp:293-299 | a Fill-and-Kill buy queued behind a Good-Til-Cancel order at its price passes admission, does not trade and survives the sweep |

## Left out

- `main` (main.cpp:408 onwards) only prints; it is not modelled.
- `Order` is a value kept in the index. The source shares one heap object between the index, the level list and the caller through `shared_ptr`. The model does not capture that aliasing: a caller that keeps its pointer and mutates the order afterwards is not modelled.
- Levels hold order ids instead of `shared_ptr`s. The `OrderEntry` list iterator is replaced by erasing the id from its level's queue. `Ledger.RemoveIdAt` shows this is the same as erasing at the stored position.
- The index is a map; the hashing of `std::unordered_map` is not modelled.
- `trades.reserve` (main.cpp:250) only affects allocation; it is not modelled.
- The text of the overfill exception (main.cpp:115-117) is not modelled. `Fill` returns `None` instead. `BookModel.StepTrade` proves the matching loop never triggers it.
- Integer widths are not modelled: `Price` is `int`, and `Quantity` and `OrderId` are `nat`. The source uses 32-bit signed prices and 64-bit unsigned quantities. The level totals in the snapshot (main.cpp:386-389) can wrap modulo 2^64 in the source but cannot in the model.
- OrderBooks.OrderBook.AddOrder: requires `remaining <= initial` of the added order. Every `Order` the source can construct (main.cpp:95-97) meets this, but a value built directly in the model might not.
- Concurrency: the source is single-threaded and so is the model.
- The getters of `Order`, `OrderModify`, `TradeInfo`, `Trade` and `OrderbookLevelInfos` are datatype fields. `GetFilledQuantity` is `Order.FilledQuantity`, and `IsFilled` is `Order.IsFilled`.
