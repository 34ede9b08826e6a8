/** Value types of the order book: sides, order kinds, orders, modify requests,
    trades and the per-level snapshot entries. */
module Orders {

  type OrderId = nat
  type Quantity = nat
  /** Prices are signed: non-positive limit prices are allowed. */
  type Price = int

  datatype Option<T> = None | Some(value: T)

  datatype Side = Buy | Sell

  datatype OrderType = GoodTilCancel | FillAndKill

  /** One order: its identity, side, kind and limit price never change; only
      `remaining` moves, through `Fill`. */
  datatype Order = Order(
    orderType: OrderType,
    id: OrderId,
    side: Side,
    price: Price,
    initial: Quantity,
    remaining: Quantity)
  {
    /** The invariant every order keeps: it is never filled beyond its size. */
    predicate Valid() {
      remaining <= initial
    }

    function FilledQuantity(): Quantity
      requires Valid()
    {
      initial - remaining
    }

    predicate IsFilled() {
      remaining == 0
    }

    /** Fill `quantity` units; `None` is the overfill error, raised exactly when
        more than the remaining quantity is asked for. */
    function Fill(quantity: Quantity): (r: Option<Order>)
      ensures r.None? <==> quantity > remaining
      ensures r.Some? ==> r.value.remaining + quantity == remaining
      ensures r.Some? ==> r.value.(remaining := remaining) == this
      ensures r.Some? && Valid() ==>
                r.value.Valid() && r.value.FilledQuantity() == FilledQuantity() + quantity
    {
      if quantity > remaining then None else Some(this.(remaining := remaining - quantity))
    }
  }

  /** A freshly created order: nothing filled yet. */
  function NewOrder(orderType: OrderType, id: OrderId, side: Side, price: Price, quantity: Quantity): (o: Order)
    ensures o.Valid() && o.FilledQuantity() == 0
    ensures o.orderType == orderType && o.id == id && o.side == side && o.price == price
    ensures o.initial == quantity && (o.IsFilled() <==> quantity == 0)
  {
    Order(orderType, id, side, price, quantity, quantity)
  }

  /** Filling an order by all it has left fills it completely, and an order is
      filled exactly when its filled quantity reaches its initial size. */
  lemma FillCompletes(o: Order)
    requires o.Valid()
    ensures o.Fill(o.remaining).Some? && o.Fill(o.remaining).value.IsFilled()
    ensures o.IsFilled() <==> o.FilledQuantity() == o.initial
  {
  }

  /** A cancel-and-replace request: new side, price and quantity for a live id. */
  datatype OrderModify = OrderModify(id: OrderId, side: Side, price: Price, quantity: Quantity)
  {
    /** The replacement order, of the kind the replaced order had. */
    function ToOrder(orderType: OrderType): (o: Order)
      ensures o.Valid() && o.FilledQuantity() == 0 && o.remaining == quantity
      ensures o.id == id && o.orderType == orderType && o.side == side && o.price == price
    {
      NewOrder(orderType, id, side, price, quantity)
    }
  }

  /** One side of a trade: which order, at the price that order executed, for how much. */
  datatype TradeInfo = TradeInfo(orderId: OrderId, price: Price, quantity: Quantity)

  datatype Trade = Trade(bidTrade: TradeInfo, askTrade: TradeInfo)

  /** Aggregate of one price level: its price and the total remaining quantity. */
  datatype LevelInfo = LevelInfo(price: Price, quantity: Quantity)

  datatype OrderbookLevelInfos = OrderbookLevelInfos(bids: seq<LevelInfo>, asks: seq<LevelInfo>)

  function Min(a: Quantity, b: Quantity): (m: Quantity)
    ensures m <= a && m <= b && (m == a || m == b)
  {
    if a <= b then a else b
  }
}
