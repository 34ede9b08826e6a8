/** The order book as a value: both ledgers and the id index, with every
    operation of the book as a function of the old book. The class in
    `OrderBooks` is proved to compute exactly these functions. */
module BookModel {
  import opened Orders
  import opened Ledger

  datatype Book = Book(bids: Levels, asks: Levels, orders: map<OrderId, Order>)
  {
    function LevelsOf(side: Side): Levels {
      if side == Buy then bids else asks
    }

    function WithLevels(side: Side, levels: Levels): Book {
      if side == Buy then this.(bids := levels) else this.(asks := levels)
    }
  }

  function Opposite(side: Side): Side {
    if side == Buy then Sell else Buy
  }

  const EmptyBook := Book(map[], map[], map[])

  // ---------------------------------------------------------------------
  // The index/ledger invariant
  // ---------------------------------------------------------------------

  /** Every level of a side is non-empty, has no duplicate id, and holds only
      indexed orders of that side at that price. */
  ghost predicate LevelsOk(levels: Levels, side: Side, orders: map<OrderId, Order>) {
    forall p | p in levels ::
      && levels[p] != []
      && NoDup(levels[p])
      && forall id | id in levels[p] :: id in orders && orders[id].side == side && orders[id].price == p
  }

  /** An indexed order rests in the level of its own side at its own price. */
  ghost predicate Rests(b: Book, id: OrderId)
    requires id in b.orders
  {
    var o := b.orders[id];
    o.price in b.LevelsOf(o.side) && id in b.LevelsOf(o.side)[o.price]
  }

  ghost predicate IndexOk(b: Book) {
    forall id | id in b.orders :: b.orders[id].id == id && b.orders[id].Valid() && Rests(b, id)
  }

  /** The consistency of the index with the two ledgers. */
  ghost predicate Valid(b: Book) {
    && LevelsOk(b.bids, Buy, b.orders)
    && LevelsOk(b.asks, Sell, b.orders)
    && IndexOk(b)
  }

  /** The ids resting in some level of either side. */
  ghost function RestingIds(b: Book): set<OrderId> {
    (set p, id | p in b.bids && id in b.bids[p] :: id) + (set p, id | p in b.asks && id in b.asks[p] :: id)
  }

  /** An id is indexed exactly when it rests in a level; it then rests in one
      level only, that of its own side and price, and appears there once. */
  lemma IndexIsLedger(b: Book)
    requires Valid(b)
    ensures b.orders.Keys == RestingIds(b)
    ensures forall id, side, p | id in b.orders && p in b.LevelsOf(side) && id in b.LevelsOf(side)[p] ::
              side == b.orders[id].side && p == b.orders[id].price
    ensures forall side, p | p in b.LevelsOf(side) :: NoDup(b.LevelsOf(side)[p])
  {
    forall id | id in b.orders ensures id in RestingIds(b) {
      var o := b.orders[id];
      assert Rests(b, id);
      if o.side == Buy {
        assert id in (set p, x | p in b.bids && x in b.bids[p] :: x);
      } else {
        assert id in (set p, x | p in b.asks && x in b.asks[p] :: x);
      }
    }
  }

  lemma ValidEmpty()
    ensures Valid(EmptyBook) && RestingIds(EmptyBook) == {}
  {
  }

  // ---------------------------------------------------------------------
  // How each primitive change of one side keeps LevelsOk
  // ---------------------------------------------------------------------

  lemma LevelsOkExtend(levels: Levels, side: Side, orders: map<OrderId, Order>, o: Order)
    requires LevelsOk(levels, side, orders) && o.id !in orders
    ensures LevelsOk(levels, side, orders[o.id := o])
  {
  }

  lemma LevelsOkAppend(levels: Levels, side: Side, orders: map<OrderId, Order>, o: Order)
    requires LevelsOk(levels, side, orders) && o.id !in orders && o.side == side
    ensures LevelsOk(Append(levels, o.price, o.id), side, orders[o.id := o])
  {
    LevelsOkExtend(levels, side, orders, o);
    var queue := Queue(levels, o.price);
    assert o.id !in queue;
    var q' := queue + [o.id];
    assert NoDup(q') by {
      forall i, j | 0 <= i < j < |q'| ensures q'[i] != q'[j] {
        if j == |queue| { assert q'[i] == queue[i]; assert queue[i] in queue; }
      }
    }
    assert forall x | x in q' :: x in queue || x == o.id;
  }

  lemma LevelsOkUpdate(levels: Levels, side: Side, orders: map<OrderId, Order>, o: Order)
    requires LevelsOk(levels, side, orders) && o.id in orders
    requires o.side == orders[o.id].side && o.price == orders[o.id].price
    ensures LevelsOk(levels, side, orders[o.id := o])
  {
  }

  lemma LevelsOkDrop(levels: Levels, side: Side, orders: map<OrderId, Order>, id: OrderId)
    requires LevelsOk(levels, side, orders) && (id in orders ==> orders[id].side != side)
    ensures LevelsOk(levels, side, orders - {id})
  {
  }

  lemma LevelsOkErase(levels: Levels, side: Side, orders: map<OrderId, Order>, id: OrderId)
    requires LevelsOk(levels, side, orders) && id in orders && orders[id].side == side
    ensures LevelsOk(Erase(levels, orders[id].price, id), side, orders - {id})
  {
    var p0 := orders[id].price;
    var r := Erase(levels, p0, id);
    forall p | p in r
      ensures r[p] != [] && NoDup(r[p])
      ensures forall x | x in r[p] :: x in orders - {id} && orders[x].side == side && orders[x].price == p
    {
      if p == p0 {
        RemoveIdMembers(levels[p], id);
      }
    }
  }

  // ---------------------------------------------------------------------
  // Best prices: the first key of each ordered map, i.e. the least one
  // ---------------------------------------------------------------------

  /** Whether an incoming order could trade at all against the first level
      of the opposite side. */
  ghost predicate CanMatch(b: Book, side: Side, price: Price) {
    if side == Buy then b.asks != map[] && price >= MinOf(b.asks.Keys)
    else b.bids != map[] && price <= MinOf(b.bids.Keys)
  }

  /** The first bid level and the first ask level cross. */
  ghost predicate Crossed(b: Book) {
    b.bids != map[] && b.asks != map[] && MinOf(b.bids.Keys) >= MinOf(b.asks.Keys)
  }

  // ---------------------------------------------------------------------
  // Insertion and cancellation
  // ---------------------------------------------------------------------

  /** Append an order at the back of its price level, creating the level if
      needed, and index it. */
  ghost function Process(b: Book, o: Order): Book {
    b.WithLevels(o.side, Append(b.LevelsOf(o.side), o.price, o.id)).(orders := b.orders[o.id := o])
  }

  lemma ProcessValid(b: Book, o: Order)
    requires Valid(b) && o.Valid() && o.id !in b.orders
    ensures Valid(Process(b, o))
    ensures Process(b, o).orders == b.orders[o.id := o]
    ensures Process(b, o).LevelsOf(Opposite(o.side)) == b.LevelsOf(Opposite(o.side))
    ensures Process(b, o).LevelsOf(o.side) == Append(b.LevelsOf(o.side), o.price, o.id)
  {
    if o.side == Buy {
      LevelsOkAppend(b.bids, Buy, b.orders, o);
      LevelsOkExtend(b.asks, Sell, b.orders, o);
    } else {
      LevelsOkAppend(b.asks, Sell, b.orders, o);
      LevelsOkExtend(b.bids, Buy, b.orders, o);
    }
    ProcessIndexOk(b, o);
  }

  lemma ProcessIndexOk(b: Book, o: Order)
    requires IndexOk(b) && o.Valid() && o.id !in b.orders
    ensures IndexOk(Process(b, o))
  {
    var r := Process(b, o);
    forall id | id in r.orders ensures Rests(r, id) {
      if id != o.id { assert Rests(b, id); }
    }
  }

  /** Remove a live order from its level (dropping the level if it empties)
      and from the index; an unknown id changes nothing. */
  ghost function Cancel(b: Book, id: OrderId): Book {
    if id !in b.orders then b
    else
      var o := b.orders[id];
      b.WithLevels(o.side, Erase(b.LevelsOf(o.side), o.price, id)).(orders := b.orders - {id})
  }

  /** Cancelling keeps the invariant and removes exactly that id from the
      index. */
  lemma CancelValid(b: Book, id: OrderId)
    requires Valid(b)
    ensures Valid(Cancel(b, id))
    ensures Cancel(b, id).orders == b.orders - {id}
  {
    if id in b.orders {
      var o := b.orders[id];
      var r := Cancel(b, id);
      if o.side == Buy {
        LevelsOkErase(b.bids, Buy, b.orders, id);
        LevelsOkDrop(b.asks, Sell, b.orders, id);
      } else {
        LevelsOkErase(b.asks, Sell, b.orders, id);
        LevelsOkDrop(b.bids, Buy, b.orders, id);
      }
      assert Rests(b, id);
      RemoveIdMembers(b.LevelsOf(o.side)[o.price], id);
      forall x | x in r.orders ensures Rests(r, x) {
        assert Rests(b, x);
      }
    }
  }

  /** Cancelling a live order touches only its own level: the other levels of
      its side and the whole other side stay as they were. */
  lemma CancelKeepsOtherLevels(b: Book, id: OrderId)
    requires Valid(b) && id in b.orders
    ensures Cancel(b, id).LevelsOf(Opposite(b.orders[id].side)) == b.LevelsOf(Opposite(b.orders[id].side))
    ensures forall p | p != b.orders[id].price ::
              var before, after := b.LevelsOf(b.orders[id].side), Cancel(b, id).LevelsOf(b.orders[id].side);
              (p in after <==> p in before) && (p in after ==> after[p] == before[p])
  {
  }

  /** In its own level, the cancelled order is taken out from where it stood:
      the ids before and after it keep their order, and the level disappears
      when it held only that order. */
  lemma CancelOwnLevel(b: Book, id: OrderId) returns (i: nat)
    requires Valid(b) && id in b.orders
    ensures var before := b.LevelsOf(b.orders[id].side);
            var after := Cancel(b, id).LevelsOf(b.orders[id].side);
            var p := b.orders[id].price;
            && p in before && i < |before[p]| && before[p][i] == id
            && (p in after <==> |before[p]| > 1)
            && (p in after ==> after[p] == before[p][..i] + before[p][i + 1..])
  {
    var o := b.orders[id];
    var before := b.LevelsOf(o.side);
    assert Rests(b, id);
    assert Cancel(b, id).LevelsOf(o.side) == Erase(before, o.price, id);
    i :| 0 <= i < |before[o.price]| && before[o.price][i] == id;
    EraseAt(before, o.price, i);
  }

  /** Cancelling the same id twice has the effect of cancelling it once. */
  lemma CancelIdempotent(b: Book, id: OrderId)
    ensures Cancel(Cancel(b, id), id) == Cancel(b, id)
    ensures id !in b.orders ==> Cancel(b, id) == b
  {
  }

  // ---------------------------------------------------------------------
  // One match of the two front orders
  // ---------------------------------------------------------------------

  /** Pop the front order of level `p` and unindex it, dropping the level if
      it empties. */
  ghost function PopFront(b: Book, side: Side, p: Price): Book
    requires p in b.LevelsOf(side) && b.LevelsOf(side)[p] != []
  {
    var levels := b.LevelsOf(side);
    var rest := levels[p][1..];
    b.WithLevels(side, if rest == [] then levels - {p} else levels[p := rest])
     .(orders := b.orders - {levels[p][0]})
  }

  /** Popping the front of a level is cancelling its front order. */
  lemma PopFrontIsCancel(b: Book, side: Side, p: Price)
    requires Valid(b) && p in b.LevelsOf(side)
    ensures PopFront(b, side, p) == Cancel(b, b.LevelsOf(side)[p][0])
  {
    var levels := b.LevelsOf(side);
    var id := levels[p][0];
    assert id in levels[p];
    assert b.orders[id].side == side && b.orders[id].price == p;
    RemoveIdAt(levels[p], 0);
    assert levels[p][..0] + levels[p][1..] == levels[p][1..];
  }

  /** Replace an indexed order by its filled copy. */
  ghost function SetOrder(b: Book, o: Order): Book {
    b.(orders := b.orders[o.id := o])
  }

  lemma SetOrderValid(b: Book, o: Order)
    requires Valid(b) && o.id in b.orders && o.Valid()
    requires o.(remaining := b.orders[o.id].remaining) == b.orders[o.id]
    ensures Valid(SetOrder(b, o))
  {
    var r := SetOrder(b, o);
    LevelsOkUpdate(b.bids, Buy, b.orders, o);
    LevelsOkUpdate(b.asks, Sell, b.orders, o);
    forall x | x in r.orders ensures Rests(r, x) {
      assert Rests(b, x);
    }
  }

  /** The front bid of the first bid level and the front ask of the first ask
      level. */
  ghost function FrontBid(b: Book): OrderId
    requires Crossed(b) && Valid(b)
  {
    b.bids[MinOf(b.bids.Keys)][0]
  }

  ghost function FrontAsk(b: Book): OrderId
    requires Crossed(b) && Valid(b)
  {
    b.asks[MinOf(b.asks.Keys)][0]
  }

  lemma FrontsIndexed(b: Book)
    requires Crossed(b) && Valid(b)
    ensures FrontBid(b) in b.orders && b.orders[FrontBid(b)].side == Buy
    ensures FrontAsk(b) in b.orders && b.orders[FrontAsk(b)].side == Sell
    ensures b.orders[FrontBid(b)].price == MinOf(b.bids.Keys)
    ensures b.orders[FrontAsk(b)].price == MinOf(b.asks.Keys)
  {
    assert FrontBid(b) in b.bids[MinOf(b.bids.Keys)];
    assert FrontAsk(b) in b.asks[MinOf(b.asks.Keys)];
  }

  /** The quantity of the next trade: the smaller remaining quantity of the
      two front orders. */
  ghost function MatchQuantity(b: Book): Quantity
    requires Crossed(b) && Valid(b)
  {
    FrontsIndexed(b);
    Min(b.orders[FrontBid(b)].remaining, b.orders[FrontAsk(b)].remaining)
  }

  /** Both front orders filled by the match quantity; the ledgers untouched. */
  ghost function FillFronts(b: Book): Book
    requires Crossed(b) && Valid(b)
  {
    FrontsIndexed(b);
    var q := MatchQuantity(b);
    SetOrder(SetOrder(b, b.orders[FrontBid(b)].Fill(q).value), b.orders[FrontAsk(b)].Fill(q).value)
  }

  lemma FillFrontsValid(b: Book)
    requires Crossed(b) && Valid(b)
    ensures Valid(FillFronts(b))
    ensures FillFronts(b).bids == b.bids && FillFronts(b).asks == b.asks
    ensures FillFronts(b).orders.Keys == b.orders.Keys
  {
    FrontsIndexed(b);
    var q := MatchQuantity(b);
    var bid' := b.orders[FrontBid(b)].Fill(q).value;
    SetOrderValid(b, bid');
    SetOrderValid(SetOrder(b, bid'), b.orders[FrontAsk(b)].Fill(q).value);
  }

  /** The filled front orders leave the book: the front bid of level `bp` if
      it is filled, then the front ask of level `ap` if it is filled. */
  ghost function Retired(f: Book, bp: Price, ap: Price): Book
    requires bp in f.bids && f.bids[bp] != [] && ap in f.asks && f.asks[ap] != []
    requires f.bids[bp][0] in f.orders && f.asks[ap][0] in f.orders
  {
    var b1 := if f.orders[f.bids[bp][0]].IsFilled() then PopFront(f, Buy, bp) else f;
    if f.orders[f.asks[ap][0]].IsFilled() then PopFront(b1, Sell, ap) else b1
  }

  /** Popping the front of a level keeps the invariant, unindexes exactly
      that order and leaves the other side alone. */
  lemma PopFrontValid(b: Book, side: Side, p: Price)
    requires Valid(b) && p in b.LevelsOf(side)
    ensures Valid(PopFront(b, side, p))
    ensures PopFront(b, side, p).orders == b.orders - {b.LevelsOf(side)[p][0]}
    ensures PopFront(b, side, p).LevelsOf(Opposite(side)) == b.LevelsOf(Opposite(side))
  {
    PopFrontIsCancel(b, side, p);
    CancelValid(b, b.LevelsOf(side)[p][0]);
  }

  /** Retiring keeps the invariant, adds no id and no level, and shrinks the
      index when one of the two front orders is filled. */
  lemma RetiredValid(f: Book, bp: Price, ap: Price)
    requires Valid(f) && bp in f.bids && ap in f.asks
    ensures f.bids[bp][0] in f.bids[bp] && f.asks[ap][0] in f.asks[ap]
    ensures Valid(Retired(f, bp, ap))
    ensures Retired(f, bp, ap).orders.Keys <= f.orders.Keys
    ensures Retired(f, bp, ap).bids.Keys <= f.bids.Keys && Retired(f, bp, ap).asks.Keys <= f.asks.Keys
    ensures f.orders[f.bids[bp][0]].IsFilled() || f.orders[f.asks[ap][0]].IsFilled() ==>
              |Retired(f, bp, ap).orders| < |f.orders|
  {
    var bidId, askId := f.bids[bp][0], f.asks[ap][0];
    assert bidId in f.bids[bp] && askId in f.asks[ap];
    var b1 := if f.orders[bidId].IsFilled() then PopFront(f, Buy, bp) else f;
    if f.orders[bidId].IsFilled() {
      PopFrontValid(f, Buy, bp);
      assert |f.orders - {bidId}| < |f.orders|;
    }
    assert b1.asks == f.asks && b1.orders.Keys <= f.orders.Keys;
    RetiredKeys(f, bp, ap);
    if f.orders[askId].IsFilled() {
      PopFrontValid(b1, Sell, ap);
      assert b1.orders == f.orders || askId in f.orders - {bidId};
      assert |b1.orders - {askId}| < |b1.orders|;
    }
  }

  lemma RetiredKeys(f: Book, bp: Price, ap: Price)
    requires bp in f.bids && f.bids[bp] != [] && ap in f.asks && f.asks[ap] != []
    requires f.bids[bp][0] in f.orders && f.asks[ap][0] in f.orders
    ensures Retired(f, bp, ap).bids.Keys <= f.bids.Keys && Retired(f, bp, ap).asks.Keys <= f.asks.Keys
  {
  }

  /** One iteration of the inner matching loop: fill the two front orders by
      the smaller remaining quantity, record the trade at each order's own
      price, and pop whichever order is now filled. */
  ghost function Step(b: Book): (Book, Trade)
    requires Valid(b) && Crossed(b)
  {
    FrontsIndexed(b);
    FillFrontsValid(b);
    var bidId, askId := FrontBid(b), FrontAsk(b);
    var q := MatchQuantity(b);
    (Retired(FillFronts(b), MinOf(b.bids.Keys), MinOf(b.asks.Keys)),
     Trade(TradeInfo(bidId, b.orders[bidId].price, q), TradeInfo(askId, b.orders[askId].price, q)))
  }

  /** A match step keeps the invariant and strictly shrinks the index. */
  lemma StepValid(b: Book)
    requires Valid(b) && Crossed(b)
    ensures Valid(Step(b).0)
    ensures Step(b).0.orders.Keys <= b.orders.Keys
    ensures |Step(b).0.orders| < |b.orders|
  {
    FrontsIndexed(b);
    FillFrontsValid(b);
    var f := FillFronts(b);
    RetiredValid(f, MinOf(b.bids.Keys), MinOf(b.asks.Keys));
    assert f.orders[FrontBid(b)].IsFilled() || f.orders[FrontAsk(b)].IsFilled();
  }

  /** The trade of a match step pairs the two front orders for the smaller of
      their remaining quantities, each side at its own limit price; both are
      reduced by that amount, the one that reaches zero leaves the book, and
      no other order changes. */
  lemma StepTrade(b: Book)
    requires Valid(b) && Crossed(b)
    ensures FrontBid(b) in b.orders && FrontAsk(b) in b.orders
    ensures b.orders[FrontBid(b)].Fill(MatchQuantity(b)).Some? && b.orders[FrontAsk(b)].Fill(MatchQuantity(b)).Some?
    ensures
      var bidId, askId := FrontBid(b), FrontAsk(b);
      var bid, ask := b.orders[bidId], b.orders[askId];
      var t, b' := Step(b).1, Step(b).0;
      && bid.side == Buy && ask.side == Sell
      && t.bidTrade == TradeInfo(bidId, bid.price, Min(bid.remaining, ask.remaining))
      && t.askTrade == TradeInfo(askId, ask.price, Min(bid.remaining, ask.remaining))
      && (bidId in b'.orders <==> bid.remaining > t.bidTrade.quantity)
      && (askId in b'.orders <==> ask.remaining > t.askTrade.quantity)
      && (bidId in b'.orders ==> b'.orders[bidId].remaining == bid.remaining - t.bidTrade.quantity)
      && (askId in b'.orders ==> b'.orders[askId].remaining == ask.remaining - t.askTrade.quantity)
    ensures forall id | id in Step(b).0.orders && id != FrontBid(b) && id != FrontAsk(b) ::
              Step(b).0.orders[id] == b.orders[id]
    ensures forall id | id in Step(b).0.orders ::
              id in b.orders && Step(b).0.orders[id].(remaining := b.orders[id].remaining) == b.orders[id]
  {
    FrontsIndexed(b);
  }

  /** A match step leaves every order other than the two front orders in the
      book, unchanged. */
  lemma StepKeepsOthers(b: Book)
    requires Valid(b) && Crossed(b)
    ensures forall id | id in b.orders && id != FrontBid(b) && id != FrontAsk(b) ::
              id in Step(b).0.orders && Step(b).0.orders[id] == b.orders[id]
  {
    FrontsIndexed(b);
  }

  /** A match step changes only the first bid level: a front bid that is not
      used up keeps its place at the front; a used-up one is popped, and the
      level goes exactly when it held only that order. */
  lemma StepBidLevels(b: Book)
    requires Valid(b) && Crossed(b)
    ensures var bp, after := MinOf(b.bids.Keys), Step(b).0.bids;
            && bp in b.bids && b.bids[bp] != [] && b.bids[bp][0] == FrontBid(b)
            && (forall p | p != bp :: (p in after <==> p in b.bids) && (p in after ==> after[p] == b.bids[p]))
            && (FrontBid(b) in Step(b).0.orders ==> bp in after && after[bp] == b.bids[bp])
            && (FrontBid(b) !in Step(b).0.orders ==>
                  (bp in after <==> |b.bids[bp]| > 1) && (bp in after ==> after[bp] == b.bids[bp][1..]))
  {
    FrontsIndexed(b);
    FillFrontsValid(b);
  }

  /** The same for the first ask level. */
  lemma StepAskLevels(b: Book)
    requires Valid(b) && Crossed(b)
    ensures var ap, after := MinOf(b.asks.Keys), Step(b).0.asks;
            && ap in b.asks && b.asks[ap] != [] && b.asks[ap][0] == FrontAsk(b)
            && (forall p | p != ap :: (p in after <==> p in b.asks) && (p in after ==> after[p] == b.asks[p]))
            && (FrontAsk(b) in Step(b).0.orders ==> ap in after && after[ap] == b.asks[ap])
            && (FrontAsk(b) !in Step(b).0.orders ==>
                  (ap in after <==> |b.asks[ap]| > 1) && (ap in after ==> after[ap] == b.asks[ap][1..]))
  {
    FrontsIndexed(b);
    FillFrontsValid(b);
  }

  // ---------------------------------------------------------------------
  // The crossing loop
  // ---------------------------------------------------------------------

  /** Match the first bid and first ask levels while they cross; the trades
      in the order they happen. The loop ends with the book uncrossed: a side
      is empty or the first bid is below the first ask. */
  ghost function Cross(b: Book): (r: (Book, seq<Trade>))
    requires Valid(b)
    ensures Valid(r.0) && !Crossed(r.0)
    ensures r.0.orders.Keys <= b.orders.Keys
    decreases |b.orders|
  {
    if !Crossed(b) then (b, [])
    else
      StepValid(b);
      var s := Step(b);
      var rest := Cross(s.0);
      (rest.0, [s.1] + rest.1)
  }

  /** Every trade of a crossing pass pairs a buy order with a sell order of
      the book, for the same quantity on both sides, each side at its own
      order's limit price; and orders keep their identity, side and price. */
  lemma {:induction false} CrossTrades(b: Book)
    requires Valid(b)
    ensures forall id | id in Cross(b).0.orders ::
              Cross(b).0.orders[id].(remaining := b.orders[id].remaining) == b.orders[id]
    ensures forall t | t in Cross(b).1 ::
              && t.bidTrade.quantity == t.askTrade.quantity
              && t.bidTrade.orderId in b.orders && b.orders[t.bidTrade.orderId].side == Buy
              && t.askTrade.orderId in b.orders && b.orders[t.askTrade.orderId].side == Sell
              && t.bidTrade.price == b.orders[t.bidTrade.orderId].price
              && t.askTrade.price == b.orders[t.askTrade.orderId].price
    decreases |b.orders|
  {
    if Crossed(b) {
      StepValid(b);
      StepTrade(b);
      var s := Step(b);
      CrossTrades(s.0);
      assert Cross(b).1 == [s.1] + Cross(s.0).1;
    }
  }

  /** The quantity the trades take from order `id`, on either side. */
  function Traded(trades: seq<Trade>, id: OrderId): nat {
    if trades == [] then 0
    else
      (if trades[0].bidTrade.orderId == id then trades[0].bidTrade.quantity else 0) +
      (if trades[0].askTrade.orderId == id then trades[0].askTrade.quantity else 0) +
      Traded(trades[1..], id)
  }

  lemma {:induction false} TradedNone(trades: seq<Trade>, id: OrderId)
    requires forall t | t in trades :: t.bidTrade.orderId != id && t.askTrade.orderId != id
    ensures Traded(trades, id) == 0
  {
    if trades != [] {
      assert trades[0] in trades;
      assert forall t | t in trades[1..] :: t in trades;
      TradedNone(trades[1..], id);
    }
  }

  /** Conservation over a matching pass: what an order had left equals what
      the pass's trades took from it plus what it still has; an order leaves
      the book only when its trades used it up. */
  lemma CrossConserves(b: Book)
    requires Valid(b)
    ensures forall id | id in b.orders ::
              Traded(Cross(b).1, id) + (if id in Cross(b).0.orders then Cross(b).0.orders[id].remaining else 0)
              == b.orders[id].remaining
  {
    forall id | id in b.orders
      ensures Traded(Cross(b).1, id) + (if id in Cross(b).0.orders then Cross(b).0.orders[id].remaining else 0)
              == b.orders[id].remaining
    {
      CrossConservesId(b, id);
    }
  }

  lemma {:induction false} CrossConservesId(b: Book, id: OrderId)
    requires Valid(b) && id in b.orders
    ensures Traded(Cross(b).1, id) + (if id in Cross(b).0.orders then Cross(b).0.orders[id].remaining else 0)
            == b.orders[id].remaining
    decreases |b.orders|
  {
    if Crossed(b) {
      StepValid(b);
      StepTrade(b);
      StepKeepsOthers(b);
      var s := Step(b);
      var rest := Cross(s.0);
      assert Cross(b) == (rest.0, [s.1] + rest.1);
      assert ([s.1] + rest.1)[1..] == rest.1;
      if id in s.0.orders {
        CrossConservesId(s.0, id);
      } else {
        CrossTrades(s.0);
        TradedNone(rest.1, id);
        assert id !in rest.0.orders;
      }
    }
  }

  /** The crossing pass does nothing exactly when the book is not crossed;
      otherwise its first trade is the match of the two front orders. */
  lemma CrossFirstTrade(b: Book)
    requires Valid(b)
    ensures Cross(b).1 == [] <==> !Crossed(b)
    ensures !Crossed(b) ==> Cross(b).0 == b
    ensures Crossed(b) ==> Cross(b).1[0] == Step(b).1
  {
  }

  // ---------------------------------------------------------------------
  // The Fill-and-Kill sweep
  // ---------------------------------------------------------------------

  ghost predicate FrontIsFillAndKill(queue: seq<OrderId>, orders: map<OrderId, Order>) {
    queue != [] && queue[0] in orders && orders[queue[0]].orderType == FillAndKill
  }

  /** The level as the sweep leaves it: without its front order if that one
      is Fill-and-Kill. */
  ghost function KillFront(queue: seq<OrderId>, orders: map<OrderId, Order>): seq<OrderId> {
    if FrontIsFillAndKill(queue, orders) then queue[1..] else queue
  }

  /** The ids the sweep cancels among the levels at `keys`. */
  ghost function Killed(levels: Levels, keys: set<Price>, orders: map<OrderId, Order>): set<OrderId> {
    set p | p in keys && p in levels && FrontIsFillAndKill(levels[p], orders) :: levels[p][0]
  }

  /** The sweep's visit of one level: cancel its front order when that one is
      Fill-and-Kill. */
  ghost function SweepLevel(b: Book, side: Side, p: Price): Book {
    var levels := b.LevelsOf(side);
    if p in levels && FrontIsFillAndKill(levels[p], b.orders) then Cancel(b, levels[p][0]) else b
  }

  /** Visit the levels at `keys` in ascending price order. */
  ghost function SweepSide(b: Book, side: Side, keys: set<Price>): Book
    decreases keys
  {
    if keys == {} then b
    else
      var p := MinOf(keys);
      SweepSide(SweepLevel(b, side, p), side, keys - {p})
  }

  /** The sweep after a matching pass: bid levels, then ask levels. */
  ghost function Sweep(b: Book): Book {
    var b1 := SweepSide(b, Buy, b.bids.Keys);
    SweepSide(b1, Sell, b1.asks.Keys)
  }

  /** Visiting one level changes that level only, as KillFront says, and
      unindexes only its front order if that one was killed. */
  lemma SweepLevelEffect(b: Book, side: Side, p: Price)
    requires Valid(b) && p in b.LevelsOf(side)
    ensures Valid(SweepLevel(b, side, p))
    ensures SweepLevel(b, side, p).LevelsOf(Opposite(side)) == b.LevelsOf(Opposite(side))
    ensures SweepLevel(b, side, p).orders == b.orders - Killed(b.LevelsOf(side), {p}, b.orders)
    ensures var before, after := b.LevelsOf(side), SweepLevel(b, side, p).LevelsOf(side);
            && (forall q | q != p :: (q in after <==> q in before) && (q in after ==> after[q] == before[q]))
            && (p in after <==> KillFront(before[p], b.orders) != [])
            && (p in after ==> after[p] == KillFront(before[p], b.orders))
  {
    var levels := b.LevelsOf(side);
    var kill := FrontIsFillAndKill(levels[p], b.orders);
    if kill {
      var id := levels[p][0];
      assert id in levels[p];
      CancelValid(b, id);
      CancelKeepsOtherLevels(b, id);
      var i := CancelOwnLevel(b, id);
      assert i == 0;
      assert Killed(levels, {p}, b.orders) == {id};
    } else {
      assert Killed(levels, {p}, b.orders) == {};
    }
  }

  lemma MapMinusTwice<K, V>(m: map<K, V>, a: set<K>, c: set<K>)
    ensures (m - a) - c == m - (c + a)
  {
  }

  /** The killed set splits over the visited keys. */
  lemma KilledSplit(levels: Levels, keys: set<Price>, p: Price, orders: map<OrderId, Order>)
    requires p in keys
    ensures Killed(levels, keys, orders) == Killed(levels, keys - {p}, orders) + Killed(levels, {p}, orders)
  {
    forall id | id in Killed(levels, keys, orders)
      ensures id in Killed(levels, keys - {p}, orders) + Killed(levels, {p}, orders)
    {
      var q :| q in keys && q in levels && FrontIsFillAndKill(levels[q], orders) && id == levels[q][0];
      if q != p { assert q in keys - {p}; }
    }
  }

  /** Two books that agree on the levels at `keys` and on the orders at the
      fronts of those levels kill the same orders there. */
  lemma KilledAgree(l1: Levels, o1: map<OrderId, Order>, l0: Levels, o0: map<OrderId, Order>, keys: set<Price>)
    requires forall q | q in keys :: (q in l1 <==> q in l0) && (q in l1 ==> l1[q] == l0[q])
    requires forall q | q in keys && q in l0 && l0[q] != [] ::
               (l0[q][0] in o1 <==> l0[q][0] in o0) && (l0[q][0] in o1 ==> o1[l0[q][0]] == o0[l0[q][0]])
    ensures forall q | q in keys && q in l0 :: KillFront(l1[q], o1) == KillFront(l0[q], o0)
    ensures Killed(l1, keys, o1) == Killed(l0, keys, o0)
  {
    forall id | id in Killed(l1, keys, o1) ensures id in Killed(l0, keys, o0) {
      var q :| q in keys && q in l1 && FrontIsFillAndKill(l1[q], o1) && id == l1[q][0];
      assert FrontIsFillAndKill(l0[q], o0);
    }
    forall id | id in Killed(l0, keys, o0) ensures id in Killed(l1, keys, o1) {
      var q :| q in keys && q in l0 && FrontIsFillAndKill(l0[q], o0) && id == l0[q][0];
      assert FrontIsFillAndKill(l1[q], o1);
    }
  }

  /** Visiting level `p` leaves the other levels, and the orders at their
      fronts, as they were. */
  lemma FrontsUnaffected(b: Book, side: Side, p: Price, keys: set<Price>)
    requires Valid(b) && p in b.LevelsOf(side) && keys <= b.LevelsOf(side).Keys && p !in keys
    ensures var b1 := SweepLevel(b, side, p);
            && (forall q | q in keys :: q in b1.LevelsOf(side) && b1.LevelsOf(side)[q] == b.LevelsOf(side)[q])
            && (forall q | q in keys ::
                  KillFront(b1.LevelsOf(side)[q], b1.orders) == KillFront(b.LevelsOf(side)[q], b.orders))
            && Killed(b1.LevelsOf(side), keys, b1.orders) == Killed(b.LevelsOf(side), keys, b.orders)
  {
    SweepLevelEffect(b, side, p);
    var b1 := SweepLevel(b, side, p);
    var levels := b.LevelsOf(side);
    assert levels[p][0] in levels[p];
    assert Killed(levels, {p}, b.orders) <= {levels[p][0]};
    forall q | q in keys && levels[q] != []
      ensures levels[q][0] !in Killed(levels, {p}, b.orders)
    {
      assert levels[q][0] in levels[q];
    }
    KilledAgree(b1.LevelsOf(side), b1.orders, levels, b.orders, keys);
  }

  /** Sweeping the levels at `keys` keeps the invariant and leaves the other
      side alone. */
  lemma {:induction false} SweepSideValid(b: Book, side: Side, keys: set<Price>)
    requires Valid(b) && keys <= b.LevelsOf(side).Keys
    ensures Valid(SweepSide(b, side, keys))
    ensures SweepSide(b, side, keys).LevelsOf(Opposite(side)) == b.LevelsOf(Opposite(side))
    decreases keys
  {
    if keys != {} {
      var p0 := MinOf(keys);
      SweepLevelEffect(b, side, p0);
      SweepSideValid(SweepLevel(b, side, p0), side, keys - {p0});
    }
  }

  /** Sweeping the levels at `keys` unindexes exactly the Fill-and-Kill fronts
      of those levels. */
  lemma {:induction false} SweepSideOrders(b: Book, side: Side, keys: set<Price>)
    requires Valid(b) && keys <= b.LevelsOf(side).Keys
    ensures SweepSide(b, side, keys).orders == b.orders - Killed(b.LevelsOf(side), keys, b.orders)
    decreases keys
  {
    if keys != {} {
      var p0 := MinOf(keys);
      var keys' := keys - {p0};
      var b1 := SweepLevel(b, side, p0);
      var before := b.LevelsOf(side);
      SweepLevelEffect(b, side, p0);
      FrontsUnaffected(b, side, p0, keys');
      SweepSideOrders(b1, side, keys');
      KilledSplit(before, keys, p0, b.orders);
      MapMinusTwice(b.orders, Killed(before, {p0}, b.orders), Killed(before, keys', b.orders));
    }
  }

  /** Sweeping the levels at `keys` adds no level and leaves the levels not
      visited as they were. */
  lemma {:induction false} SweepSideUntouched(b: Book, side: Side, keys: set<Price>)
    requires Valid(b) && keys <= b.LevelsOf(side).Keys
    ensures
      var before, after := b.LevelsOf(side), SweepSide(b, side, keys).LevelsOf(side);
      && after.Keys <= before.Keys
      && (forall p | p !in keys :: (p in after <==> p in before) && (p in after ==> after[p] == before[p]))
    decreases keys
  {
    if keys != {} {
      var p0 := MinOf(keys);
      var b1 := SweepLevel(b, side, p0);
      SweepLevelEffect(b, side, p0);
      SweepSideUntouched(b1, side, keys - {p0});
    }
  }

  /** Sweeping the levels at `keys` removes from each only its front order,
      and only if that is Fill-and-Kill, and drops a level it empties. */
  lemma {:induction false} SweepSideLevels(b: Book, side: Side, keys: set<Price>)
    requires Valid(b) && keys <= b.LevelsOf(side).Keys
    ensures
      var before, after := b.LevelsOf(side), SweepSide(b, side, keys).LevelsOf(side);
      forall p | p in keys ::
        && (p in after <==> KillFront(before[p], b.orders) != [])
        && (p in after ==> after[p] == KillFront(before[p], b.orders))
    decreases keys
  {
    if keys != {} {
      var p0 := MinOf(keys);
      var keys' := keys - {p0};
      var b1 := SweepLevel(b, side, p0);
      SweepLevelEffect(b, side, p0);
      FrontsUnaffected(b, side, p0, keys');
      SweepSideUntouched(b1, side, keys');
      SweepSideLevels(b1, side, keys');
      var before, mid, after := b.LevelsOf(side), b1.LevelsOf(side), SweepSide(b1, side, keys').LevelsOf(side);
      assert SweepSide(b, side, keys) == SweepSide(b1, side, keys');
      forall p | p in keys
        ensures p in after <==> KillFront(before[p], b.orders) != []
        ensures p in after ==> after[p] == KillFront(before[p], b.orders)
      {
        if p == p0 {
          assert p0 !in keys';
        } else {
          assert p in keys';
        }
      }
    }
  }

  /** The whole sweep keeps the invariant and unindexes exactly the
      Fill-and-Kill orders found at the front of a level, on both sides. */
  lemma SweepValid(b: Book)
    requires Valid(b)
    ensures Valid(Sweep(b))
    ensures Sweep(b).orders == b.orders - Killed(b.bids, b.bids.Keys, b.orders) - Killed(b.asks, b.asks.Keys, b.orders)
  {
    SweepSideValid(b, Buy, b.bids.Keys);
    SweepSideOrders(b, Buy, b.bids.Keys);
    var b1 := SweepSide(b, Buy, b.bids.Keys);
    assert b1.asks == b.asks;
    SweepSideValid(b1, Sell, b1.asks.Keys);
    SweepSideOrders(b1, Sell, b1.asks.Keys);
    forall q | q in b.asks && b.asks[q] != []
      ensures b.asks[q][0] !in Killed(b.bids, b.bids.Keys, b.orders)
    {
      assert b.asks[q][0] in b.asks[q];
    }
    KilledAgree(b.asks, b1.orders, b.asks, b.orders, b.asks.Keys);
  }

  /** On each side, the sweep removes at most one order per level, its front
      one, and only if that is Fill-and-Kill; a level it empties is dropped,
      and no level is added. */
  lemma SweepBidLevels(b: Book)
    requires Valid(b)
    ensures Sweep(b).bids.Keys <= b.bids.Keys
    ensures forall p | p in b.bids ::
              (p in Sweep(b).bids <==> KillFront(b.bids[p], b.orders) != []) &&
              (p in Sweep(b).bids ==> Sweep(b).bids[p] == KillFront(b.bids[p], b.orders))
  {
    SweepSideUntouched(b, Buy, b.bids.Keys);
    SweepSideLevels(b, Buy, b.bids.Keys);
    SweepSideValid(b, Buy, b.bids.Keys);
    var b1 := SweepSide(b, Buy, b.bids.Keys);
    SweepSideValid(b1, Sell, b1.asks.Keys);
    assert Sweep(b).bids == b1.bids;
  }

  lemma SweepAskLevels(b: Book)
    requires Valid(b)
    ensures Sweep(b).asks.Keys <= b.asks.Keys
    ensures forall p | p in b.asks ::
              (p in Sweep(b).asks <==> KillFront(b.asks[p], b.orders) != []) &&
              (p in Sweep(b).asks ==> Sweep(b).asks[p] == KillFront(b.asks[p], b.orders))
  {
    AskFrontsSurvive(b);
    var b1 := SweepSide(b, Buy, b.bids.Keys);
    SweepSideUntouched(b1, Sell, b1.asks.Keys);
    SweepSideLevels(b1, Sell, b1.asks.Keys);
    var after := SweepSide(b1, Sell, b1.asks.Keys).asks;
    assert Sweep(b).asks == after;
    assert b1.LevelsOf(Sell) == b.asks;
    assert after.Keys <= b.asks.Keys;
    forall p | p in b.asks
      ensures (p in after <==> KillFront(b.asks[p], b.orders) != [])
      ensures p in after ==> after[p] == KillFront(b.asks[p], b.orders)
    {
      assert p in b1.asks.Keys;
      assert KillFront(b1.asks[p], b1.orders) == KillFront(b.asks[p], b.orders);
    }
  }

  /** Sweeping the bids leaves the ask levels, and the kind of the orders at
      their fronts, as they were. */
  lemma AskFrontsSurvive(b: Book)
    requires Valid(b)
    ensures var b1 := SweepSide(b, Buy, b.bids.Keys);
            && Valid(b1) && b1.asks == b.asks
            && forall q | q in b.asks :: KillFront(b.asks[q], b1.orders) == KillFront(b.asks[q], b.orders)
  {
    SweepSideValid(b, Buy, b.bids.Keys);
    SweepSideOrders(b, Buy, b.bids.Keys);
    var b1 := SweepSide(b, Buy, b.bids.Keys);
    forall q | q in b.asks && b.asks[q] != []
      ensures b.asks[q][0] !in Killed(b.bids, b.bids.Keys, b.orders)
    {
      assert b.asks[q][0] in b.asks[q];
    }
    KilledAgree(b.asks, b1.orders, b.asks, b.orders, b.asks.Keys);
  }

  /** No level of either side has a Fill-and-Kill order at its front. */
  ghost predicate NoFillAndKillFront(b: Book) {
    && (forall p | p in b.bids :: !FrontIsFillAndKill(b.bids[p], b.orders))
    && (forall p | p in b.asks :: !FrontIsFillAndKill(b.asks[p], b.orders))
  }

  /** The sweep changes nothing exactly when it finds no Fill-and-Kill order
      at the front of a level. */
  lemma SweepQuiet(b: Book)
    requires Valid(b)
    ensures Sweep(b) == b <==> NoFillAndKillFront(b)
  {
    if NoFillAndKillFront(b) {
      QuietBids(b);
      QuietAsks(b);
      QuietOrders(b);
    } else {
      SweepKills(b);
    }
  }

  lemma QuietOrders(b: Book)
    requires Valid(b) && NoFillAndKillFront(b)
    ensures Sweep(b).orders == b.orders
  {
    SweepValid(b);
    NoneKilled(b.bids, b.orders);
    NoneKilled(b.asks, b.orders);
  }

  lemma NoneKilled(levels: Levels, orders: map<OrderId, Order>)
    requires forall p | p in levels :: !FrontIsFillAndKill(levels[p], orders)
    ensures Killed(levels, levels.Keys, orders) == {}
  {
  }

  lemma SweepKills(b: Book)
    requires Valid(b) && !NoFillAndKillFront(b)
    ensures Sweep(b).orders != b.orders
  {
    SweepValid(b);
    if p :| p in b.bids && FrontIsFillAndKill(b.bids[p], b.orders) {
      assert b.bids[p][0] in Killed(b.bids, b.bids.Keys, b.orders);
    } else {
      var p :| p in b.asks && FrontIsFillAndKill(b.asks[p], b.orders);
      assert b.asks[p][0] in Killed(b.asks, b.asks.Keys, b.orders);
    }
  }

  lemma QuietBids(b: Book)
    requires Valid(b) && NoFillAndKillFront(b)
    ensures Sweep(b).bids == b.bids
  {
    SweepBidLevels(b);
    forall p | p in b.bids ensures p in Sweep(b).bids && Sweep(b).bids[p] == b.bids[p] {
      assert KillFront(b.bids[p], b.orders) == b.bids[p];
    }
    assert Sweep(b).bids.Keys == b.bids.Keys;
  }

  lemma QuietAsks(b: Book)
    requires Valid(b) && NoFillAndKillFront(b)
    ensures Sweep(b).asks == b.asks
  {
    SweepAskLevels(b);
    forall p | p in b.asks ensures p in Sweep(b).asks && Sweep(b).asks[p] == b.asks[p] {
      assert KillFront(b.asks[p], b.orders) == b.asks[p];
    }
    assert Sweep(b).asks.Keys == b.asks.Keys;
  }

  // ---------------------------------------------------------------------
  // The public operations
  // ---------------------------------------------------------------------

  /** Add an order: refused (no trades, book unchanged) for a live id, or for
      a Fill-and-Kill order that cannot match; otherwise appended to its
      level, matched, and followed by the Fill-and-Kill sweep. */
  ghost function Add(b: Book, o: Order): (r: (Book, seq<Trade>))
    requires Valid(b) && o.Valid()
    ensures Valid(r.0)
  {
    if o.id in b.orders then (b, [])
    else if o.orderType == FillAndKill && !CanMatch(b, o.side, o.price) then (b, [])
    else
      ProcessValid(b, o);
      var c := Cross(Process(b, o));
      SweepValid(c.0);
      (Sweep(c.0), c.1)
  }

  /** The refusals of Add. A Fill-and-Kill order facing an empty opposite side
      is one of them. */
  lemma AddRefusals(b: Book, o: Order)
    requires Valid(b) && o.Valid()
    ensures o.id in b.orders ==> Add(b, o) == (b, [])
    ensures o.orderType == FillAndKill && !CanMatch(b, o.side, o.price) ==> Add(b, o) == (b, [])
    ensures b.LevelsOf(Opposite(o.side)) == map[] ==> !CanMatch(b, o.side, o.price)
  {
  }

  /** An admitted order enters the book at the back of its price level, behind
      every order already resting at that price, before matching starts. */
  lemma AddAppends(b: Book, o: Order)
    requires Valid(b) && o.Valid() && o.id !in b.orders
    ensures Valid(Process(b, o)) && Process(b, o).orders == b.orders[o.id := o]
    ensures var before, after := b.LevelsOf(o.side), Process(b, o).LevelsOf(o.side);
            && o.price in after
            && after[o.price] == Queue(before, o.price) + [o.id]
            && (forall p | p != o.price :: (p in after <==> p in before) && (p in after ==> after[p] == before[p]))
  {
    ProcessValid(b, o);
  }

  /** An admitted order that leaves the book uncrossed and puts no
      Fill-and-Kill order at the front of a level just rests: no trade, and
      the book is the one ProcessOrder builds. */
  lemma AddRests(b: Book, o: Order)
    requires Valid(b) && o.Valid() && o.id !in b.orders
    requires o.orderType == FillAndKill ==> CanMatch(b, o.side, o.price)
    requires !Crossed(Process(b, o)) && NoFillAndKillFront(Process(b, o))
    ensures Add(b, o) == (Process(b, o), [])
  {
    ProcessValid(b, o);
    SweepQuiet(Process(b, o));
  }

  /** Cancel-and-replace: an unknown id changes nothing; otherwise the order
      is cancelled and a fresh order with the same id and kind and the new
      side, price and quantity is added. */
  ghost function Modify(b: Book, m: OrderModify): (r: (Book, seq<Trade>))
    requires Valid(b)
    ensures Valid(r.0)
    ensures m.id !in b.orders ==> r == (b, [])
  {
    if m.id !in b.orders then (b, [])
    else
      var kind := b.orders[m.id].orderType;
      CancelValid(b, m.id);
      Add(Cancel(b, m.id), m.ToOrder(kind))
  }

  /** The replacement starts with no fill history and enters at the back of
      its new level, even when side and price are unchanged. */
  lemma ModifyReplaces(b: Book, m: OrderModify)
    requires Valid(b) && m.id in b.orders
    ensures
      var repl := m.ToOrder(b.orders[m.id].orderType);
      var c := Cancel(b, m.id);
      && repl.FilledQuantity() == 0 && repl.orderType == b.orders[m.id].orderType
      && Valid(c) && m.id !in c.orders
      && Modify(b, m) == Add(c, repl)
      && (repl.orderType == GoodTilCancel ==>
            var lv := Process(c, repl).LevelsOf(m.side);
            m.price in lv && lv[m.price][|lv[m.price]| - 1] == m.id)
  {
    CancelValid(b, m.id);
  }

  /** The aggregated snapshot of both sides. */
  ghost function Snapshot(b: Book): OrderbookLevelInfos {
    OrderbookLevelInfos(Infos(b.bids, b.orders), Infos(b.asks, b.orders))
  }
}
