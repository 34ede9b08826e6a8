/** One side of the book as a ledger: a map from price to the FIFO queue of
    the ids resting at that price (front = oldest). Iteration over a side is
    in ascending key order, as for an ordered map. */
module Ledger {
  import opened Orders

  type Levels = map<Price, seq<OrderId>>

  ghost predicate IsMin(k: int, s: set<int>) {
    k in s && forall x | x in s :: k <= x
  }

  /** The first key of a non-empty ordered map: its least price. */
  ghost function MinOf(s: set<int>): (k: int)
    requires s != {}
    ensures IsMin(k, s)
  {
    HasMember(s);
    var x :| x in s;
    if s == {x} then
      x
    else
      var m := MinOf(s - {x});
      assert forall y | y in s :: y == x || y in s - {x};
      if x <= m then x else m
  }

  lemma HasMember(s: set<int>)
    ensures s == {} || exists x :: x in s
  {
    if forall x :: x !in s {
      assert s == {};
    }
  }

  lemma MinUnique(a: int, b: int, s: set<int>)
    requires IsMin(a, s) && IsMin(b, s)
    ensures a == b
  {
  }

  ghost predicate NoDup(s: seq<OrderId>) {
    forall i, j | 0 <= i < j < |s| :: s[i] != s[j]
  }

  /** Erase the first occurrence of `id` from a queue (the list erase at the
      position stored for that order). */
  function RemoveId(s: seq<OrderId>, id: OrderId): (r: seq<OrderId>)
    ensures id !in s ==> r == s
    ensures id in s ==> |r| == |s| - 1
  {
    if s == [] then []
    else if s[0] == id then s[1..]
    else [s[0]] + RemoveId(s[1..], id)
  }

  /** Erasing takes exactly one occurrence of the id out of the queue and
      nothing else. */
  lemma {:induction false} RemoveIdCount(s: seq<OrderId>, id: OrderId)
    ensures multiset(RemoveId(s, id)) == multiset(s) - multiset{id}
  {
    if s != [] {
      assert s == [s[0]] + s[1..];
      if s[0] != id {
        RemoveIdCount(s[1..], id);
      }
    }
  }

  /** The tail of a duplicate-free queue is duplicate-free and misses the head. */
  lemma NoDupTail(s: seq<OrderId>)
    requires NoDup(s) && s != []
    ensures NoDup(s[1..]) && s[0] !in s[1..]
  {
    forall i, j | 0 <= i < j < |s[1..]| ensures s[1..][i] != s[1..][j] {
      assert s[1..][i] == s[i + 1] && s[1..][j] == s[j + 1];
    }
    forall k | 0 <= k < |s[1..]| ensures s[1..][k] != s[0] {
      assert s[1..][k] == s[k + 1];
    }
  }

  lemma NoDupCons(x: OrderId, t: seq<OrderId>)
    requires NoDup(t) && x !in t
    ensures NoDup([x] + t)
  {
    var s := [x] + t;
    forall i, j | 0 <= i < j < |s| ensures s[i] != s[j] {
      assert s[j] == t[j - 1];
      if i > 0 { assert s[i] == t[i - 1]; }
    }
  }

  /** In a queue without duplicates, erasing an id keeps every other id, and
      only those, and still has no duplicates. */
  lemma {:induction false} RemoveIdMembers(s: seq<OrderId>, id: OrderId)
    requires NoDup(s)
    ensures NoDup(RemoveId(s, id))
    ensures forall x :: x in RemoveId(s, id) <==> x in s && x != id
  {
    if s != [] {
      assert s == [s[0]] + s[1..];
      NoDupTail(s);
      if s[0] != id {
        RemoveIdMembers(s[1..], id);
        var t := RemoveId(s[1..], id);
        assert RemoveId(s, id) == [s[0]] + t;
        NoDupCons(s[0], t);
      }
    }
  }

  /** Erasing the id at position `i` of a duplicate-free queue leaves the
      others in their relative order. */
  lemma {:induction false} RemoveIdAt(s: seq<OrderId>, i: nat)
    requires i < |s| && NoDup(s)
    ensures RemoveId(s, s[i]) == s[..i] + s[i + 1..]
  {
    if i == 0 {
      assert s[..0] + s[1..] == s[1..];
    } else {
      NoDupTail(s);
      assert s[1..][i - 1] == s[i];
      RemoveIdAt(s[1..], i - 1);
      RemoveIdPast(s, i);
    }
  }

  /** The step of RemoveIdAt past a head that is kept. */
  lemma RemoveIdPast(s: seq<OrderId>, i: nat)
    requires 0 < i < |s| && s[0] != s[i]
    requires RemoveId(s[1..], s[i]) == s[1..][..i - 1] + s[1..][i..]
    ensures RemoveId(s, s[i]) == s[..i] + s[i + 1..]
  {
    assert RemoveId(s, s[i]) == [s[0]] + RemoveId(s[1..], s[i]);
    SkipSplit(s, i);
  }

  lemma SkipSplit(s: seq<OrderId>, i: nat)
    requires 0 < i < |s|
    ensures [s[0]] + (s[1..][..i - 1] + s[1..][i..]) == s[..i] + s[i + 1..]
  {
    var l, r := [s[0]] + (s[1..][..i - 1] + s[1..][i..]), s[..i] + s[i + 1..];
    assert |l| == |r|;
    forall k | 0 <= k < |l| ensures l[k] == r[k] {
      if k < i {
        assert l[k] == s[k] && r[k] == s[k];
      } else {
        assert l[k] == s[k + 1] && r[k] == s[k + 1];
      }
    }
  }

  /** The queue at a price, empty when the level does not exist (the ordered
      map's subscript creates an empty level on demand). */
  function Queue(levels: Levels, p: Price): seq<OrderId> {
    if p in levels then levels[p] else []
  }

  /** Push an id at the back of the level at `p`, creating the level if needed. */
  function Append(levels: Levels, p: Price, id: OrderId): (r: Levels)
    ensures r.Keys == levels.Keys + {p}
    ensures r[p] == Queue(levels, p) + [id]
    ensures forall q | q in levels && q != p :: r[q] == levels[q]
  {
    levels[p := Queue(levels, p) + [id]]
  }

  /** Erase an id from the level at `p`, and the level itself if it empties. */
  function Erase(levels: Levels, p: Price, id: OrderId): (r: Levels)
    ensures forall q | q != p :: (q in r <==> q in levels) && (q in r ==> r[q] == levels[q])
    ensures p in r <==> RemoveId(Queue(levels, p), id) != []
    ensures p in r ==> r[p] == RemoveId(Queue(levels, p), id)
  {
    var queue := RemoveId(Queue(levels, p), id);
    if queue == [] then levels - {p} else levels[p := queue]
  }

  /** Erasing the id at position `i` of a duplicate-free level keeps the other
      ids of that level in their order, and drops the level when it was the
      only one. */
  lemma EraseAt(levels: Levels, p: Price, i: nat)
    requires p in levels && i < |levels[p]| && NoDup(levels[p])
    ensures p in Erase(levels, p, levels[p][i]) <==> |levels[p]| > 1
    ensures p in Erase(levels, p, levels[p][i]) ==>
              Erase(levels, p, levels[p][i])[p] == levels[p][..i] + levels[p][i + 1..]
  {
    RemoveIdAt(levels[p], i);
    assert levels[p][i] in levels[p];
  }

  /** Sum of the remaining quantities of the orders in a queue. */
  ghost function LevelQuantity(ids: seq<OrderId>, orders: map<OrderId, Order>): nat
  {
    if ids == [] then 0
    else
      var last := ids[|ids| - 1];
      LevelQuantity(ids[..|ids| - 1], orders) + (if last in orders then orders[last].remaining else 0)
  }

  /** The snapshot of one side: one entry per level, in ascending key order. */
  ghost function Infos(levels: Levels, orders: map<OrderId, Order>): seq<LevelInfo>
    decreases |levels|
  {
    if levels == map[] then []
    else
      var p := MinOf(levels.Keys);
      assert |levels - {p}| < |levels| by {
        assert (levels - {p}).Keys == levels.Keys - {p};
      }
      [LevelInfo(p, LevelQuantity(levels[p], orders))] + Infos(levels - {p}, orders)
  }

  /** The snapshot has one entry per level: each entry is a level of the side
      and carries the total remaining quantity of that level. */
  lemma {:induction false} InfosEntries(levels: Levels, orders: map<OrderId, Order>)
    ensures |Infos(levels, orders)| == |levels|
    ensures forall i | 0 <= i < |Infos(levels, orders)| ::
              Infos(levels, orders)[i].price in levels &&
              Infos(levels, orders)[i].quantity == LevelQuantity(levels[Infos(levels, orders)[i].price], orders)
    decreases |levels|
  {
    if levels != map[] {
      var p := MinOf(levels.Keys);
      var rest := levels - {p};
      assert rest.Keys == levels.Keys - {p};
      assert levels.Keys == rest.Keys + {p};
      InfosEntries(rest, orders);
      var r := Infos(levels, orders);
      var t := Infos(rest, orders);
      assert r == [LevelInfo(p, LevelQuantity(levels[p], orders))] + t;
      forall i | 0 <= i < |r|
        ensures r[i].price in levels && r[i].quantity == LevelQuantity(levels[r[i].price], orders)
      {
        if i > 0 { assert r[i] == t[i - 1]; }
      }
    }
  }

  /** The snapshot lists the levels in strictly ascending price order. */
  lemma {:induction false} InfosAscending(levels: Levels, orders: map<OrderId, Order>)
    ensures forall i, j | 0 <= i < j < |Infos(levels, orders)| ::
              Infos(levels, orders)[i].price < Infos(levels, orders)[j].price
    decreases |levels|
  {
    if levels != map[] {
      var p := MinOf(levels.Keys);
      var rest := levels - {p};
      assert rest.Keys == levels.Keys - {p};
      InfosAscending(rest, orders);
      InfosEntries(rest, orders);
      var r := Infos(levels, orders);
      var t := Infos(rest, orders);
      assert r == [LevelInfo(p, LevelQuantity(levels[p], orders))] + t;
      forall i, j | 0 <= i < j < |r| ensures r[i].price < r[j].price {
        assert r[j] == t[j - 1] && t[j - 1].price in rest;
        if i > 0 { assert r[i] == t[i - 1]; }
      }
    }
  }

  /** Every level of the side has its entry in the snapshot. */
  lemma {:induction false} InfosComplete(levels: Levels, orders: map<OrderId, Order>)
    ensures forall p | p in levels :: InfosHas(Infos(levels, orders), p)
    decreases |levels|
  {
    if levels != map[] {
      var p := MinOf(levels.Keys);
      var rest := levels - {p};
      assert rest.Keys == levels.Keys - {p};
      InfosComplete(rest, orders);
      var r := Infos(levels, orders);
      var t := Infos(rest, orders);
      assert r == [LevelInfo(p, LevelQuantity(levels[p], orders))] + t;
      forall q | q in levels ensures InfosHas(r, q) {
        if q == p {
          assert r[0].price == q;
        } else {
          assert q in rest && InfosHas(t, q);
          var k :| 0 <= k < |t| && t[k].price == q;
          assert r[k + 1] == t[k];
        }
      }
    }
  }

  /** Some entry of the snapshot is for price `p`. */
  ghost predicate InfosHas(infos: seq<LevelInfo>, p: Price) {
    exists i :: 0 <= i < |infos| && infos[i].price == p
  }
}
