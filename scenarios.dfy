/** Concrete books on which the code's behaviour departs from what its
    comments describe: the first bid level is the lowest bid, a
    zero-quantity order is accepted and rests, and a Fill-and-Kill order
    that is not at the front of its level survives the sweep. */
module Scenarios {
  import opened Orders
  import opened Ledger
  import opened BookModel

  function Gtc(id: OrderId, side: Side, price: Price): Order {
    Order(GoodTilCancel, id, side, price, 1, 1)
  }

  /** A bid at 5 and an ask at 10, one unit each. */
  const Spread := Book(map[5 := [1]], map[10 := [2]], map[1 := Gtc(1, Buy, 5), 2 := Gtc(2, Sell, 10)])

  lemma SpreadValid()
    ensures Valid(Spread)
  {
    assert forall id | id in Spread.orders :: Rests(Spread, id);
  }

  lemma MinOfPair(a: int, c: int)
    requires a < c
    ensures MinOf({a, c}) == a
  {
    assert IsMin(MinOf({a, c}), {a, c});
  }

  lemma MinOfOne(a: int)
    ensures MinOf({a}) == a
  {
    assert IsMin(MinOf({a}), {a});
  }

  /** With a bid at 5 resting, a buy at 12 against an ask at 10 does not
      trade: the matching loop compares the lowest bid with the lowest ask,
      so the book is left holding a bid above an ask. */
  lemma HigherBidStaysCrossed()
    ensures Valid(Spread)
    ensures var r := Add(Spread, Gtc(3, Buy, 12));
            && r.1 == []
            && 12 in r.0.bids && 10 in r.0.asks && 12 > 10
  {
    SpreadValid();
    SpreadPlusBidQuiet();
    AddRests(Spread, Gtc(3, Buy, 12));
  }

  lemma SpreadPlusBidQuiet()
    ensures var p := Process(Spread, Gtc(3, Buy, 12));
            && p.bids.Keys == {5, 12} && p.asks == Spread.asks
            && !Crossed(p) && NoFillAndKillFront(p)
  {
    var p := Process(Spread, Gtc(3, Buy, 12));
    assert p.bids.Keys == {5, 12} && p.asks.Keys == {10};
    MinOfPair(5, 12);
    MinOfOne(10);
    assert !FrontIsFillAndKill(p.bids[12], p.orders);
  }

  /** An order for zero units is accepted, trades nothing and rests in the
      book, already filled. */
  lemma ZeroQuantityOrderRests()
    ensures Valid(EmptyBook)
    ensures var o := Order(GoodTilCancel, 1, Buy, 10, 0, 0);
            var r := Add(EmptyBook, o);
            && r.1 == []
            && 1 in r.0.orders && r.0.orders[1].IsFilled()
            && 10 in r.0.bids && r.0.bids[10] == [1]
  {
    ValidEmpty();
    var o := Order(GoodTilCancel, 1, Buy, 10, 0, 0);
    var p := Process(EmptyBook, o);
    assert Queue(EmptyBook.bids, 10) == [];
    assert p.bids.Keys == {10} && p.bids[10] == [1] && p.asks == map[];
    AddRests(EmptyBook, o);
  }

  /** Spread with one more bid, at 12, above the ask. */
  const Layered := Book(map[5 := [1], 12 := [4]], map[10 := [2]],
                        map[1 := Gtc(1, Buy, 5), 2 := Gtc(2, Sell, 10), 4 := Gtc(4, Buy, 12)])

  lemma LayeredValid()
    ensures Valid(Layered) && CanMatch(Layered, Buy, 12)
  {
    assert forall id | id in Layered.orders :: Rests(Layered, id);
    MinOfOne(10);
    assert Layered.asks.Keys == {10};
  }

  const FakBuy := Order(FillAndKill, 3, Buy, 12, 1, 1)

  /** A Fill-and-Kill buy at 12 passes the admission test against the ask at
      10, does not trade (the lowest bid, 5, is below the ask), and survives
      the sweep because a Good-Til-Cancel order is ahead of it at 12. */
  lemma FillAndKillBehindRests()
    ensures Valid(Layered) && CanMatch(Layered, Buy, 12)
    ensures var r := Add(Layered, FakBuy);
            && r.1 == [] && 3 in r.0.orders && 12 in r.0.bids && r.0.bids[12] == [4, 3]
  {
    LayeredValid();
    LayeredPlusFakQuiet();
    AddRests(Layered, FakBuy);
  }

  lemma LayeredPlusFakQuiet()
    ensures var p := Process(Layered, FakBuy);
            && 3 in p.orders && 12 in p.bids && p.bids[12] == [4, 3]
            && !Crossed(p) && NoFillAndKillFront(p)
  {
    var p := Process(Layered, FakBuy);
    assert p.bids.Keys == {5, 12} && p.bids[12] == [4, 3] && p.asks.Keys == {10};
    MinOfPair(5, 12);
    MinOfOne(10);
    assert !FrontIsFillAndKill(p.bids[12], p.orders);
  }
}
