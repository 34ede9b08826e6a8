/** The order book object: two ledgers and the id index, updated in place by
    its methods. Every method is proved to compute the corresponding function
    of `BookModel` on the book's abstract value `View()`. */
module OrderBooks {
  import opened Orders
  import opened Ledger
  import opened BookModel

  class OrderBook {
    /** Bid levels and ask levels, each keyed by price and iterated in
        ascending price order; each level is the FIFO queue of its ids. */
    var bids: Levels
    var asks: Levels
    /** The index: every live order by id. */
    var orders: map<OrderId, Order>

    ghost function View(): Book
      reads this
    {
      Book(bids, asks, orders)
    }

    ghost predicate Valid()
      reads this
    {
      BookModel.Valid(View())
    }

    constructor()
      ensures Valid() && View() == EmptyBook
    {
      bids := map[];
      asks := map[];
      orders := map[];
      ValidEmpty();
    }

    /** Whether an order on `side` at `price` could trade against the first
        level of the other side. */
    function CanMatch(side: Side, price: Price): (r: bool)
      reads this
      ensures r <==> BookModel.CanMatch(View(), side, price)
      ensures side == Buy ==> (r <==> exists p | p in asks :: p <= price)
      ensures side == Sell ==> (r <==> bids != map[] && forall p | p in bids :: price <= p)
    {
      if side == Buy then
        asks != map[] && exists p | p in asks :: p <= price
      else
        bids != map[] && forall p | p in bids :: price <= p
    }

    /** Append an order at the back of the level at its price on its side
        (creating the level if needed) and index it. */
    method ProcessOrder(o: Order)
      requires Valid() && o.Valid() && o.id !in orders
      modifies this
      ensures Valid()
      ensures View() == Process(old(View()), o)
    {
      ProcessValid(View(), o);
      if o.side == Buy {
        bids := Append(bids, o.price, o.id);
      } else {
        asks := Append(asks, o.price, o.id);
      }
      orders := orders[o.id := o];
    }

    /** The least key of a non-empty side, found by the loops below as the
        ordered map's first key. */
    static lemma FirstKey(levels: Levels)
      requires levels != map[]
      ensures exists k :: k in levels && forall p | p in levels :: k <= p
    {
      var m := MinOf(levels.Keys);
      assert m in levels;
    }

    /** One pass of the inner matching loop on the front orders of the first
        bid level `bp` and the first ask level `ap`. */
    method MatchFronts(bp: Price, ap: Price) returns (trade: Trade)
      requires Valid() && Crossed(View())
      requires IsMin(bp, bids.Keys) && IsMin(ap, asks.Keys)
      modifies this
      ensures Valid()
      ensures (View(), trade) == Step(old(View()))
      ensures bids.Keys <= old(bids.Keys) && asks.Keys <= old(asks.Keys)
      ensures bp in bids ==> IsMin(bp, bids.Keys)
      ensures ap in asks ==> IsMin(ap, asks.Keys)
    {
      ghost var b := View();
      MinUnique(bp, MinOf(bids.Keys), bids.Keys);
      MinUnique(ap, MinOf(asks.Keys), asks.Keys);
      FrontsIndexed(b);
      var bidId := bids[bp][0];
      var askId := asks[ap][0];
      var bid := orders[bidId];
      var ask := orders[askId];
      var quantity := Min(bid.remaining, ask.remaining);
      var bid' := bid.Fill(quantity).value;
      var ask' := ask.Fill(quantity).value;
      orders := orders[bidId := bid'][askId := ask'];
      ghost var f := View();
      assert f == FillFronts(b);
      trade := Trade(TradeInfo(bidId, bid.price, quantity), TradeInfo(askId, ask.price, quantity));
      assert Step(b) == (Retired(f, bp, ap), trade);
      RetireFilled(bp, ap);
      StepValid(b);
    }

    /** The end of one inner matching pass: pop each filled front order and
        unindex it, then erase a level that has become empty. */
    method RetireFilled(bp: Price, ap: Price)
      requires bp in bids && bids[bp] != [] && ap in asks && asks[ap] != []
      requires bids[bp][0] in orders && asks[ap][0] in orders && bids[bp][0] != asks[ap][0]
      modifies this
      ensures View() == Retired(old(View()), bp, ap)
      ensures bids.Keys <= old(bids.Keys) && asks.Keys <= old(asks.Keys)
    {
      ghost var f := View();
      var bidId := bids[bp][0];
      var askId := asks[ap][0];
      ghost var bidDone, askDone := orders[bidId].IsFilled(), orders[askId].IsFilled();
      ghost var bidRest, askRest := bids[bp][1..], asks[ap][1..];
      ghost var r := Retired(f, bp, ap);
      assert r.bids == if bidDone then (if bidRest == [] then f.bids - {bp} else f.bids[bp := bidRest]) else f.bids;
      assert r.asks == if askDone then (if askRest == [] then f.asks - {ap} else f.asks[ap := askRest]) else f.asks;
      assert r.orders == if bidDone && askDone then f.orders - {bidId} - {askId}
                         else if bidDone then f.orders - {bidId}
                         else if askDone then f.orders - {askId}
                         else f.orders;
      if orders[bidId].IsFilled() {
        bids := bids[bp := bids[bp][1..]];
        orders := orders - {bidId};
      }
      if orders[askId].IsFilled() {
        asks := asks[ap := asks[ap][1..]];
        orders := orders - {askId};
      }
      assert orders == r.orders;
      if bids[bp] == [] {
        bids := bids - {bp};
      }
      assert bids == r.bids;
      if asks[ap] == [] {
        asks := asks - {ap};
      }
      assert asks == r.asks;
    }

    /** Match while the first bid level and the first ask level cross, then
        cancel every Fill-and-Kill order left at the front of a level, bid
        levels first. */
    method MatchOrders() returns (trades: seq<Trade>)
      requires Valid()
      modifies this
      ensures Valid()
      ensures View() == Sweep(Cross(old(View())).0)
      ensures trades == Cross(old(View())).1
    {
      ghost var start := View();
      trades := [];
      assert trades + Cross(start).1 == Cross(start).1;
      while bids != map[] && asks != map[]
        invariant Valid()
        invariant Cross(start) == (Cross(View()).0, trades + Cross(View()).1)
        decreases |orders|
      {
        FirstKey(bids);
        FirstKey(asks);
        var bp :| bp in bids && forall p | p in bids :: bp <= p;
        var ap :| ap in asks && forall p | p in asks :: ap <= p;
        if bp < ap {
          MinUnique(bp, MinOf(bids.Keys), bids.Keys);
          MinUnique(ap, MinOf(asks.Keys), asks.Keys);
          break;
        }
        var levelTrades := MatchLevels(bp, ap);
        AppendAll(trades, levelTrades, Cross(View()).1);
        trades := trades + levelTrades;
      }
      assert !Crossed(View());
      SweepFillAndKill(Buy);
      SweepFillAndKill(Sell);
    }

    /** The inner loop of the matching pass: match the front orders of the
        first bid level and the first ask level until one of the two levels
        is used up and erased. */
    method MatchLevels(bp: Price, ap: Price) returns (trades: seq<Trade>)
      requires Valid() && IsMin(bp, bids.Keys) && IsMin(ap, asks.Keys) && ap <= bp
      modifies this
      ensures Valid()
      ensures Cross(old(View())) == (Cross(View()).0, trades + Cross(View()).1)
      ensures |orders| < old(|orders|)
    {
      ghost var start := View();
      ghost var n0 := |orders|;
      trades := [];
      assert trades + Cross(start).1 == Cross(start).1;
      while bp in bids && ap in asks
        invariant Valid()
        invariant Cross(start) == (Cross(View()).0, trades + Cross(View()).1)
        invariant bp in bids ==> IsMin(bp, bids.Keys)
        invariant ap in asks ==> IsMin(ap, asks.Keys)
        invariant ap <= bp
        invariant (bp in bids && ap in asks && |orders| == n0) || |orders| < n0
        decreases |orders|
      {
        ghost var b := View();
        MinUnique(bp, MinOf(bids.Keys), bids.Keys);
        MinUnique(ap, MinOf(asks.Keys), asks.Keys);
        StepValid(b);
        var trade := MatchFronts(bp, ap);
        assert Cross(b) == (Cross(View()).0, [trade] + Cross(View()).1);
        AppendAll(trades, [trade], Cross(View()).1);
        trades := trades + [trade];
      }
    }

    static lemma AppendAll<T>(s: seq<T>, t: seq<T>, u: seq<T>)
      ensures s + (t + u) == (s + t) + u
    {
    }

    /** Visit the levels of one side in ascending price order and cancel the
        front order of each level whose front order is Fill-and-Kill. */
    method SweepFillAndKill(side: Side)
      requires Valid()
      modifies this
      ensures Valid()
      ensures View() == SweepSide(old(View()), side, old(View()).LevelsOf(side).Keys)
    {
      ghost var start := View();
      var keys := if side == Buy then bids.Keys else asks.Keys;
      while keys != {}
        invariant Valid()
        invariant keys <= View().LevelsOf(side).Keys
        invariant SweepSide(start, side, start.LevelsOf(side).Keys) == SweepSide(View(), side, keys)
        decreases keys
      {
        ghost var b := View();
        var p :| p in keys && forall k | k in keys :: p <= k;
        MinUnique(p, MinOf(keys), keys);
        SweepLevelEffect(b, side, p);
        var queue := if side == Buy then bids[p] else asks[p];
        assert queue[0] in queue;
        if orders[queue[0]].orderType == FillAndKill {
          CancelOrder(queue[0]);
        }
        assert View() == SweepLevel(b, side, p);
        keys := keys - {p};
      }
    }

    /** Add an order: refused without trades when its id is live, or when it
        is Fill-and-Kill and cannot match; otherwise rested and matched. */
    method AddOrder(o: Order) returns (trades: seq<Trade>)
      requires Valid() && o.Valid()
      modifies this
      ensures Valid()
      ensures (View(), trades) == Add(old(View()), o)
    {
      if o.id in orders {
        return [];
      }
      if o.orderType == FillAndKill && !CanMatch(o.side, o.price) {
        return [];
      }
      ProcessOrder(o);
      trades := MatchOrders();
    }

    /** Remove a live order from its level and from the index; an unknown id
        is ignored. */
    method CancelOrder(id: OrderId)
      requires Valid()
      modifies this
      ensures Valid()
      ensures View() == Cancel(old(View()), id)
    {
      CancelValid(View(), id);
      if id !in orders {
        return;
      }
      var o := orders[id];
      if o.side == Buy {
        bids := Erase(bids, o.price, id);
      } else {
        asks := Erase(asks, o.price, id);
      }
      orders := orders - {id};
    }

    /** Cancel-and-replace, keeping the kind of the replaced order. */
    method ModifyOrder(m: OrderModify) returns (trades: seq<Trade>)
      requires Valid()
      modifies this
      ensures Valid()
      ensures (View(), trades) == Modify(old(View()), m)
    {
      if m.id !in orders {
        return [];
      }
      var kind := orders[m.id].orderType;
      CancelOrder(m.id);
      trades := AddOrder(m.ToOrder(kind));
    }

    /** The number of live orders, which is the number of orders resting in
        the levels. */
    function Size(): (n: nat)
      reads this
      requires Valid()
      ensures n == |RestingIds(View())|
    {
      IndexIsLedger(View());
      |orders|
    }

    /** The aggregated snapshot: per level, in ascending price order, the
        total remaining quantity. */
    method GetOrderInfos() returns (infos: OrderbookLevelInfos)
      requires Valid()
      ensures infos == Snapshot(View())
    {
      assert forall side, p, id | p in View().LevelsOf(side) && id in View().LevelsOf(side)[p] :: id in orders;
      var bidInfos := LevelInfos(bids);
      var askInfos := LevelInfos(asks);
      infos := OrderbookLevelInfos(bidInfos, askInfos);
    }

    /** The snapshot of one side. */
    method LevelInfos(levels: Levels) returns (infos: seq<LevelInfo>)
      requires forall p, id | p in levels && id in levels[p] :: id in orders
      ensures infos == Infos(levels, orders)
    {
      infos := [];
      var rest := levels;
      while rest != map[]
        invariant rest.Keys <= levels.Keys
        invariant forall p | p in rest :: rest[p] == levels[p]
        invariant infos + Infos(rest, orders) == Infos(levels, orders)
        decreases |rest|
      {
        FirstKey(rest);
        var p :| p in rest && forall k | k in rest :: p <= k;
        MinUnique(p, MinOf(rest.Keys), rest.Keys);
        var total := LevelTotal(rest[p]);
        assert (rest - {p}).Keys == rest.Keys - {p};
        assert Infos(rest, orders) == [LevelInfo(p, total)] + Infos(rest - {p}, orders);
        AppendAll(infos, [LevelInfo(p, total)], Infos(rest - {p}, orders));
        infos := infos + [LevelInfo(p, total)];
        rest := rest - {p};
      }
    }

    /** The total remaining quantity of the orders queued at one level. */
    method LevelTotal(queue: seq<OrderId>) returns (total: Quantity)
      requires forall id | id in queue :: id in orders
      ensures total == LevelQuantity(queue, orders)
    {
      total := 0;
      var i := 0;
      while i < |queue|
        invariant i <= |queue|
        invariant total == LevelQuantity(queue[..i], orders)
      {
        assert queue[..i + 1][..i] == queue[..i];
        assert queue[i] in queue;
        total := total + orders[queue[i]].remaining;
        i := i + 1;
      }
      assert queue[..i] == queue;
    }
  }
}
