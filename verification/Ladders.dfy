/**
 One side of the book: a queue per tick, the cached best price and the number of
 non-empty levels. The source keeps these as flat members of Orderbook, once for
 bids and once for asks; here they form one class, parametrised by the side.
 */
module Ladders {
  import opened OrderTypes
  import opened PriceTimeBook
  import opened BookLists
  import opened LevelLists
  import opened Orders

  function Views(nodes: seq<Order>): (r: seq<Resting>)
    reads nodes`id, nodes`client, nodes`side, nodes`price, nodes`initial, nodes`remaining
    ensures |r| == |nodes| && forall k :: 0 <= k < |r| ==> r[k] == nodes[k].View()
  {
    if nodes == [] then [] else [nodes[0].View()] + Views(nodes[1..])
  }

  twostate lemma ViewsKept(nodes: seq<Order>)
    requires forall o: Order :: o in nodes ==> o.View() == old(o.View())
    ensures Views(nodes) == old(Views(nodes))
  {
  }

  twostate lemma {:induction false} ViewsFilled(nodes: seq<Order>)
    requires nodes != [] && nodes[0].View() == old(nodes[0].View()).(remaining := nodes[0].remaining)
    requires forall k :: 0 < k < |nodes| ==> nodes[k].View() == old(nodes[k].View())
    ensures var s := old(Views(nodes));
      Views(nodes) == [s[0].(remaining := nodes[0].remaining)] + s[1..]
  {
    ViewsKept(nodes[1..]);
    assert Views(nodes) == [nodes[0].View()] + Views(nodes[1..]);
    assert old(Views(nodes)) == [old(nodes[0].View())] + old(Views(nodes[1..]));
  }

  lemma {:induction false} ViewsTail(nodes: seq<Order>)
    requires nodes != []
    ensures Views(nodes[1..]) == Views(nodes)[1..]
  {
  }

  lemma {:induction false} ViewsConcat(a: seq<Order>, b: seq<Order>)
    ensures Views(a + b) == Views(a) + Views(b)
  {
  }

  /** Orders ahead of level `i` are strictly better than its price, those behind strictly worse. */
  lemma {:induction false} FlatPrices(side: Side, base: Price, lists: seq<seq<Order>>, i: nat)
    requires forall j, k :: 0 <= j < |lists| && 0 <= k < |lists[j]| ==> lists[j][k].price == base + j
    requires i < |lists|
    ensures forall o: Order :: o in Flat(side, Ahead(side, lists, i)) ==> Better(side, o.price, base + i)
    ensures forall o: Order :: o in Flat(side, Behind(side, lists, i)) ==> Better(side, base + i, o.price)
  {
    var ahead, behind := Ahead(side, lists, i), Behind(side, lists, i);
    forall o: Order | o in Flat(side, ahead)
      ensures Better(side, o.price, base + i)
    {
      var k :| 0 <= k < |Flat(side, ahead)| && Flat(side, ahead)[k] == o;
      var j := FlatMember(side, ahead, k);
      var at := if side == ASK then j else j + i + 1;
      assert ahead[j] == lists[at];
    }
    forall o: Order | o in Flat(side, behind)
      ensures Better(side, base + i, o.price)
    {
      var k :| 0 <= k < |Flat(side, behind)| && Flat(side, behind)[k] == o;
      var j := FlatMember(side, behind, k);
      var at := if side == ASK then j + i + 1 else j;
      assert behind[j] == lists[at];
    }
  }

  lemma {:induction false} InsertInQueue(before: seq<Order>, behind: seq<Order>, order: Order)
    requires forall o: Order :: o in before ==> !Better(order.side, order.price, o.price)
    requires forall o: Order :: o in behind ==> Better(order.side, order.price, o.price)
    ensures Views(before + [order] + behind) == Insert(Views(before + behind), order.View())
  {
    hide Views;
    hide Insert;
    ViewsConcat(before + [order], behind);
    ViewsConcat(before, [order]);
    ViewsConcat(before, behind);
    InsertBetween(Views(before), Views(behind), order.View());
  }

  /** Appending to a level is inserting into the side. */
  lemma {:induction false} PushIsInsert(side: Side, base: Price, lists: seq<seq<Order>>, i: nat, order: Order)
    requires forall j, k :: 0 <= j < |lists| && 0 <= k < |lists[j]| ==> lists[j][k].price == base + j
    requires i < |lists| && order.price == base + i && order.side == side
    ensures Views(Flat(side, lists[i := lists[i] + [order]])) == Insert(Views(Flat(side, lists)), order.View())
  {
    var ahead, behind := Flat(side, Ahead(side, lists, i)), Flat(side, Behind(side, lists, i));
    FlatSplit(side, lists, i);
    FlatUpdate(side, lists, i, lists[i] + [order]);
    FlatPrices(side, base, lists, i);
    assert forall o: Order :: o in lists[i] ==> o.price == base + i;
    assert ahead + (lists[i] + [order]) + behind == (ahead + lists[i]) + [order] + behind;
    InsertInQueue(ahead + lists[i], behind, order);
  }

  /** Dropping node `k` of level `i` drops one node of the side, at its own place in matching order. */
  lemma {:induction false} DropFromFlat(side: Side, lists: seq<seq<Order>>, i: nat, k: nat) returns (m: nat)
    requires i < |lists| && k < |lists[i]|
    ensures m == |Flat(side, Ahead(side, lists, i))| + k
    ensures m < |Flat(side, lists)| && Flat(side, lists)[m] == lists[i][k]
    ensures Flat(side, lists[i := Drop(lists[i], k)]) == Drop(Flat(side, lists), m)
  {
    hide Flat;
    hide Ahead;
    hide Behind;
    var ahead, behind := Flat(side, Ahead(side, lists, i)), Flat(side, Behind(side, lists, i));
    FlatSplit(side, lists, i);
    FlatUpdate(side, lists, i, Drop(lists[i], k));
    m := |ahead| + k;
    var q := Flat(side, lists);
    assert q[..m] == ahead + lists[i][..k];
    assert q[m + 1..] == lists[i][k + 1..] + behind;
  }

  lemma {:induction false} DropIsWithout(queue: seq<Order>, m: nat)
    requires m < |queue| && UniqueIds(Views(queue))
    ensures Views(Drop(queue, m)) == Without(Views(queue), queue[m].id)
  {
    hide Views;
    hide Without;
    WithoutAt(Views(queue), m);
    assert Views(Drop(queue, m)) == Drop(Views(queue), m);
  }

  class Ladder {
    const side: Side
    const minPrice: Price
    const maxPrice: Price
    const levels: seq<PriceLevelQueue>
    var best: Price
    var nonEmpty: nat
    /** The nodes of every level. */
    ghost var lists: seq<seq<Order>>
    /** Every node linked into some level. */
    ghost var Linked: set<Order>

    constructor (side: Side, minPrice: Price, maxPrice: Price)
      requires minPrice <= maxPrice
      ensures this.side == side && this.minPrice == minPrice && this.maxPrice == maxPrice
      ensures Valid() && Linked == {} && List() == []
      ensures fresh(levels)
    {
      hide PriceLevelQueue.Valid;
      hide Flat;
      hide NonEmptyCount;
      var queues: seq<PriceLevelQueue> := [];
      while |queues| < maxPrice - minPrice + 1
        invariant |queues| <= maxPrice - minPrice + 1
        invariant fresh(queues)
        invariant forall i :: 0 <= i < |queues| ==> queues[i].Valid() && queues[i].Nodes == []
        invariant forall i, j :: 0 <= i < j < |queues| ==> queues[i] != queues[j]
      {
        var queue := new PriceLevelQueue();
        queues := queues + [queue];
      }
      this.side, this.minPrice, this.maxPrice := side, minPrice, maxPrice;
      levels := queues;
      lists := seq(|queues|, _ => []);
      Linked := {};
      nonEmpty := 0;
      best := if side == BID then minPrice else maxPrice;
      new;
      CountZero(lists);
      FlatEmpty(side, lists);
    }

    function Sentinel(): Price {
      if side == BID then minPrice else maxPrice
    }

    /** `lists` is what the queues hold, and each queue's links are in order. */
    ghost predicate Queues()
      reads this`lists, levels, Linked`prev, Linked`next, this`Linked
    {
      && minPrice <= maxPrice
      && |levels| == |lists| == maxPrice - minPrice + 1
      && (forall i, j :: 0 <= i < j < |levels| ==> levels[i] != levels[j])
      && (forall i, k :: 0 <= i < |lists| && 0 <= k < |lists[i]| ==> lists[i][k] in Linked)
      && (forall i {:trigger levels[i]} :: 0 <= i < |levels| ==> levels[i].Nodes == lists[i] && levels[i].Valid())
    }

    ghost predicate AtItsLevel(order: Order, rows: seq<seq<Order>>)
      reads order`side, order`price
    {
      && order.side == side
      && minPrice <= order.price <= maxPrice
      && order.price - minPrice < |rows|
      && order in rows[order.price - minPrice]
    }

    /** Each linked node is in exactly one queue: the one its own price names. */
    ghost predicate PlacedIn(rows: seq<seq<Order>>, linked: set<Order>)
      reads linked`side, linked`price
    {
      && (forall i, k :: 0 <= i < |rows| && 0 <= k < |rows[i]| ==>
            rows[i][k] in linked && rows[i][k].price == minPrice + i)
      && (forall o {:trigger AtItsLevel(o, rows)} :: o in linked ==> AtItsLevel(o, rows))
    }

    ghost predicate Placed()
      reads this`lists, this`Linked, Linked`side, Linked`price
    {
      PlacedIn(lists, Linked)
    }

    /** No level ahead of this price holds an order. */
    ghost predicate NothingAhead(rows: seq<seq<Order>>, price: Price) {
      && minPrice <= price <= maxPrice
      && |rows| == maxPrice - minPrice + 1
      && (forall i :: 0 <= i < |rows| && Better(side, minPrice + i, price) ==> rows[i] == [])
    }

    /** The true extreme price of an occupied side, the sentinel of an empty one. */
    ghost predicate IsBest(rows: seq<seq<Order>>, price: Price) {
      && NothingAhead(rows, price)
      && (if NonEmptyCount(rows) == 0 then price == Sentinel() else rows[price - minPrice] != [])
    }

    ghost predicate Valid()
      reads this`Linked, this`best, this`nonEmpty, this`lists, levels
      reads Linked`side, Linked`price, Linked`prev, Linked`next
    {
      && Queues()
      && Placed()
      && nonEmpty == NonEmptyCount(lists)
      && IsBest(lists, best)
    }

    /** All nodes of this side, in matching order. */
    ghost function Queue(): seq<Order>
      reads this`lists
    {
      Flat(side, lists)
    }

    lemma QueueIsLinked(rows: seq<seq<Order>>, linked: set<Order>)
      requires forall i, k :: 0 <= i < |rows| && 0 <= k < |rows[i]| ==> rows[i][k] in linked
      ensures forall o: Order :: o in Flat(side, rows) ==> o in linked
    {
      forall o: Order | o in Flat(side, rows)
        ensures o in linked
      {
        var k :| 0 <= k < |Flat(side, rows)| && Flat(side, rows)[k] == o;
        var i := FlatMember(side, rows, k);
      }
    }

    ghost function PlacedList(): seq<Resting>
      requires Placed()
      reads this`Linked, this`lists
      reads Linked`id, Linked`client, Linked`side, Linked`price, Linked`initial, Linked`remaining
    {
      QueueIsLinked(lists, Linked);
      Views(Queue())
    }

    /** This side of the reference book. */
    ghost function List(): seq<Resting>
      requires Valid()
      reads this`Linked, this`best, this`nonEmpty, this`lists, levels
      reads Linked`side, Linked`price, Linked`prev, Linked`next
      reads Linked`id, Linked`client, Linked`initial, Linked`remaining
    {
      PlacedList()
    }

    /** An occupied side has an occupied level. */
    lemma SomeLevelOccupied() returns (w: nat)
      requires 0 < NonEmptyCount(lists)
      ensures w < |lists| && lists[w] != []
    {
      CountZero(lists);
      w :| 0 <= w < |lists| && lists[w] != [];
    }

    /** Walks the cached best price away from emptied levels. */
    method UpdateBest()
      requires Queues() && NothingAhead(lists, best)
      requires 0 < nonEmpty == NonEmptyCount(lists)
      modifies this`best
      ensures IsBest(lists, best)
    {
      ghost var w := SomeLevelOccupied();
      if side == BID {
        UpdateBestBid(w);
      } else {
        UpdateBestAsk(w);
      }
    }

    /** `w` is some occupied level. */
    method UpdateBestBid(ghost w: nat)
      requires Queues() && NothingAhead(lists, best) && side == BID
      requires w < |lists| && lists[w] != []
      modifies this`best
      ensures NothingAhead(lists, best) && lists[best - minPrice] != []
    {
      while best > minPrice && levels[best - minPrice].Empty()
        invariant NothingAhead(lists, best) && minPrice + w <= best
      {
        best := best - 1;
      }
    }

    method UpdateBestAsk(ghost w: nat)
      requires Queues() && NothingAhead(lists, best) && side == ASK
      requires w < |lists| && lists[w] != []
      modifies this`best
      ensures NothingAhead(lists, best) && lists[best - minPrice] != []
    {
      while best < maxPrice && levels[best - minPrice].Empty()
        invariant NothingAhead(lists, best) && best <= minPrice + w
      {
        best := best + 1;
      }
    }

    lemma PlacedPush(order: Order)
      requires Placed() && order !in Linked && order.side == side
      requires minPrice <= order.price <= maxPrice && order.price - minPrice < |lists|
      ensures var at := order.price - minPrice;
        PlacedIn(lists[at := lists[at] + [order]], Linked + {order})
    {
      var at := order.price - minPrice;
      var lists' := lists[at := lists[at] + [order]];
      forall o | o in Linked + {order}
        ensures AtItsLevel(o, lists')
      {
        if o == order {
          assert lists'[at][|lists[at]|] == order;
        } else {
          assert AtItsLevel(o, lists);
        }
      }
    }

    /** Work confined to level `at` and to the nodes it held leaves every other queue alone. */
    twostate lemma OtherQueuesKept(at: nat)
      requires old(Queues()) && old(Placed()) && at < |levels|
      requires forall i :: 0 <= i < |levels| && i != at ==> unchanged(levels[i])
      requires forall o :: o in old(Linked) && o !in old(lists)[at] ==> unchanged(o)
      ensures forall i :: 0 <= i < |levels| && i != at ==> levels[i].Nodes == old(lists)[i] && levels[i].Valid()
    {
      hide PriceLevelQueue.Valid;
      forall i | 0 <= i < |levels| && i != at
        ensures levels[i].Nodes == old(lists)[i] && levels[i].Valid()
      {
        var nodes := old(lists)[i];
        forall k | 0 <= k < |nodes|
          ensures unchanged(nodes[k])
        {
          assert old(nodes[k].price) == minPrice + i;
        }
        levels[i].Kept();
      }
    }

    /** The queue of one tick after the order joined it: links, membership and nothing else. */
    method Link(order: Order)
      requires Queues() && Placed() && order !in Linked && order.prev == null && order.next == null
      requires order.side == side && minPrice <= order.price <= maxPrice
      modifies this`Linked, this`lists, levels[order.price - minPrice], Linked`next, order`prev
      ensures Queues() && Placed() && Linked == old(Linked) + {order}
      ensures var i := order.price - minPrice; lists == old(lists)[i := old(lists)[i] + [order]]
    {
      hide PriceLevelQueue.Valid;
      var at := order.price - minPrice;
      PlacedPush(order);
      levels[at].Push(order);
      OtherQueuesKept(at);
      Linked := Linked + {order};
      lists := lists[at := lists[at] + [order]];
    }

    lemma BestAfterPush(price: Price, level: seq<Order>)
      requires IsBest(lists, best) && minPrice <= price <= maxPrice && level != []
      ensures IsBest(lists[price - minPrice := level], if Better(side, price, best) then price else best)
    {
      CountUpdate(lists, price - minPrice, level);
    }

    /** What joining a level means for this side of the reference book. */
    twostate lemma JoinedList(order: Order)
      requires old(Placed()) && Placed() && order.side == side
      requires minPrice <= order.price <= maxPrice && order.price - minPrice < |old(lists)|
      requires var at := order.price - minPrice; lists == old(lists)[at := old(lists)[at] + [order]]
      requires forall o :: o in old(Linked) ==> o.View() == old(o.View())
      ensures PlacedList() == Insert(old(PlacedList()), order.View())
    {
      QueueIsLinked(old(lists), old(Linked));
      ViewsKept(old(Queue()));
      assert forall i, k :: 0 <= i < |old(lists)| && 0 <= k < |old(lists)[i]| ==>
          old(lists)[i][k].price == minPrice + i;
      PushIsInsert(side, minPrice, old(lists), order.price - minPrice, order);
    }

    /** Appends to the level the order's price names; the level may become the best one. */
    method Push(order: Order)
      requires Valid() && order !in Linked && order.prev == null && order.next == null
      requires order.side == side && minPrice <= order.price <= maxPrice
      modifies this`best, this`nonEmpty, this`lists, this`Linked
      modifies levels, Linked`next, order`prev
      ensures Valid() && Linked == old(Linked) + {order}
      ensures List() == Insert(old(List()), order.View())
    {
      hide PriceLevelQueue.Valid;
      hide Flat;
      hide NonEmptyCount;
      hide Insert;
      hide Views;
      var at := order.price - minPrice;
      CountUpdate(lists, at, lists[at] + [order]);
      BestAfterPush(order.price, lists[at] + [order]);
      if levels[at].Empty() {
        nonEmpty := nonEmpty + 1;
      }
      Link(order);
      if Better(side, order.price, best) {
        best := order.price;
      }
      ghost var kept := Queues() && Placed();
      assert kept;
      JoinedList(order);
    }

    /** After a node left the level of `price`: an emptied level is counted out and may cost the best price. */
    method Settle(price: Price)
      requires Queues() && NothingAhead(lists, best)
      requires minPrice <= price <= maxPrice
      requires nonEmpty == NonEmptyCount(lists) + (if lists[price - minPrice] == [] then 1 else 0)
      requires lists[best - minPrice] != [] || price == best
      modifies this`best, this`nonEmpty
      ensures nonEmpty == NonEmptyCount(lists) && IsBest(lists, best)
      ensures lists[price - minPrice] != [] ==> best == old(best)
    {
      if levels[price - minPrice].Empty() {
        nonEmpty := nonEmpty - 1;
        if nonEmpty == 0 {
          CountZero(lists);
          best := Sentinel();
        } else if price == best {
          UpdateBest();
        }
      } else {
        CountZero(lists);
      }
    }

    lemma PlacedDrop(at: nat, k: nat)
      requires Placed() && at < |lists| && k < |lists[at]|
      requires forall j :: 0 <= j < |lists[at]| && j != k ==> lists[at][j] != lists[at][k]
      ensures PlacedIn(lists[at := Drop(lists[at], k)], Linked - {lists[at][k]})
    {
      var lists' := lists[at := Drop(lists[at], k)];
      forall o | o in Linked - {lists[at][k]}
        ensures AtItsLevel(o, lists')
      {
        assert AtItsLevel(o, lists);
        var j :| 0 <= j < |lists[o.price - minPrice]| && lists[o.price - minPrice][j] == o;
        if o.price - minPrice == at {
          assert lists'[at][if j < k then j else j - 1] == o;
        }
      }
    }

    /** A level loses its oldest node. */
    method UnlinkFront(price: Price) returns (order: Order)
      requires Queues() && Placed() && minPrice <= price <= maxPrice && lists[price - minPrice] != []
      modifies this`Linked, this`lists, levels[price - minPrice], lists[price - minPrice]`prev
      ensures Queues() && Placed() && Linked == old(Linked) - {order}
      ensures order == old(lists)[price - minPrice][0]
      ensures lists == old(lists)[price - minPrice := Drop(old(lists)[price - minPrice], 0)]
    {
      hide PriceLevelQueue.Valid;
      hide Drop;
      var at := price - minPrice;
      levels[at].NodesDistinct();
      PlacedDrop(at, 0);
      DropFront(lists[at]);
      order := levels[at].Pop();
      OtherQueuesKept(at);
      Linked := Linked - {order};
      lists := lists[at := Drop(lists[at], 0)];
    }

    /** A level loses this node, wherever it stands. */
    method UnlinkNode(order: Order, ghost k: nat)
      requires Queues() && Placed() && order in Linked && minPrice <= order.price <= maxPrice
      requires k < |lists[order.price - minPrice]| && lists[order.price - minPrice][k] == order
      modifies this`Linked, this`lists, levels[order.price - minPrice]
      modifies lists[order.price - minPrice]`prev, lists[order.price - minPrice]`next
      ensures Queues() && Placed() && Linked == old(Linked) - {order}
      ensures var at := order.price - minPrice;
        lists == old(lists)[at := Drop(old(lists)[at], k)]
    {
      hide PriceLevelQueue.Valid;
      var at := order.price - minPrice;
      hide Drop;
      levels[at].NodesDistinct();
      PlacedDrop(at, k);
      levels[at].Remove(order, k);
      OtherQueuesKept(at);
      Linked := Linked - {order};
      lists := lists[at := Drop(lists[at], k)];
    }

    lemma BestAfterDrop(at: nat, level: seq<Order>)
      requires IsBest(lists, best) && at < |lists| && lists[at] != []
      requires |level| == |lists[at]| - 1
      ensures var lists' := lists[at := level];
        && NothingAhead(lists', best)
        && (lists'[best - minPrice] != [] || minPrice + at == best)
        && NonEmptyCount(lists) == NonEmptyCount(lists') + (if level == [] then 1 else 0)
    {
      CountUpdate(lists, at, level);
      CountZero(lists);
    }

    /** The best level's oldest node is the first of the whole side, and occurs once. */
    lemma BestIsFirst()
      requires Queues() && Placed() && IsBest(lists, best) && 0 < NonEmptyCount(lists)
      ensures lists[best - minPrice] != [] && Flat(side, Ahead(side, lists, best - minPrice)) == []
      ensures Queue() != [] && Queue()[0] == lists[best - minPrice][0]
      ensures forall k :: 0 < k < |Queue()| ==> Queue()[k] != Queue()[0]
    {
      hide PriceLevelQueue.Valid;
      hide Flat;
      hide NonEmptyCount;
      var at := best - minPrice;
      levels[at].NodesDistinct();
      FlatEmpty(side, Ahead(side, lists, at));
      FlatSplit(side, lists, at);
      FlatPrices(side, minPrice, lists, at);
      var behind := Flat(side, Behind(side, lists, at));
      FirstOnce(lists[at], behind);
    }

    lemma FirstOnce(front: seq<Order>, behind: seq<Order>)
      requires front != [] && front[0] !in behind
      requires forall k :: 0 < k < |front| ==> front[k] != front[0]
      ensures forall k :: 0 < k < |front + behind| ==> (front + behind)[k] != (front + behind)[0]
    {
      var all := front + behind;
      forall k | 0 < k < |all|
        ensures all[k] != all[0]
      {
        if k >= |front| {
          assert all[k] == behind[k - |front|];
        }
      }
    }

    lemma QueueWithoutFront(at: nat)
      requires at < |lists| && lists[at] != [] && Flat(side, Ahead(side, lists, at)) == []
      ensures Queue() != [] && Flat(side, lists[at := Drop(lists[at], 0)]) == Queue()[1..]
    {
      hide Flat;
      hide Ahead;
      var m := DropFromFlat(side, lists, at, 0);
      DropFront(Queue());
    }

    twostate lemma LeftFront()
      requires old(Placed()) && Placed()
      requires old(Queue()) != [] && Queue() == old(Queue())[1..]
      requires forall o :: o in old(Linked) ==> o.View() == old(o.View())
      ensures PlacedList() == old(PlacedList())[1..]
    {
      hide Placed;
      hide Queue;
      LinkedQueue();
      ViewsKept(old(Queue()));
      ViewsTail(old(Queue()));
    }

    twostate lemma LinkedQueue()
      requires old(Placed())
      ensures forall o :: o in old(Queue()) ==> o in old(Linked)
    {
      QueueIsLinked(old(lists), old(Linked));
    }

    /** The oldest node of the best level leaves the book. */
    method PopBest() returns (order: Order)
      requires Valid() && nonEmpty > 0
      modifies this`best, this`nonEmpty, this`lists, this`Linked
      modifies levels, Linked`prev
      ensures Valid() && order in old(Linked) && Linked == old(Linked) - {order}
      ensures old(Queue()) != [] && order == old(Queue())[0]
      ensures old(List()) != [] && List() == old(List())[1..]
      ensures BestOutlived(old(best))
    {
      hide PriceLevelQueue.Valid;
      hide Flat;
      hide NonEmptyCount;
      hide Drop;
      hide Views;
      var price := best;
      BestIsFirst();
      BestAfterDrop(best - minPrice, Drop(lists[best - minPrice], 0));
      QueueWithoutFront(price - minPrice);
      order := UnlinkFront(price);
      LeftFront();
      Settle(price);
      ghost var kept := Queues() && Placed();
      assert kept;
    }

    /** A side whose own objects were left alone is the same side. */
    twostate lemma Kept()
      requires old(Valid()) && unchanged(this)
      requires forall q :: q in levels ==> unchanged(q)
      requires forall o :: o in Linked ==> unchanged(o)
      ensures Valid() && List() == old(List())
      ensures forall price :: old(BestOutlived(price)) ==> BestOutlived(price)
    {
      hide PriceLevelQueue.Valid;
      forall i | 0 <= i < |levels|
        ensures levels[i].Valid() && levels[i].Nodes == lists[i]
      {
        assert levels[i] in levels;
        levels[i].Kept();
      }
      QueueIsLinked(lists, Linked);
      ViewsKept(Queue());
    }

    /** As long as the level of this price is occupied, it is the best one. */
    ghost predicate BestOutlived(price: Price)
      reads this`best, levels
    {
      minPrice <= price < minPrice + |levels| && levels[price - minPrice].Nodes != [] ==> best == price
    }

    lemma BestLevel()
      requires Valid()
      ensures minPrice <= best < minPrice + |levels|
      ensures levels[best - minPrice].Nodes != [] <==> nonEmpty > 0
      ensures forall q :: q in levels ==> q.Valid()
    {
      if nonEmpty == 0 {
        CountZero(lists);
      }
    }

    /** The cached fields say what the list says: whether it is empty and what its best price is. */
    lemma CacheExact()
      requires Valid()
      ensures nonEmpty > 0 <==> List() != []
      ensures minPrice <= best <= maxPrice
      ensures best == if List() == [] then Sentinel() else List()[0].price
    {
      if nonEmpty > 0 {
        BestIsFirst();
      } else {
        CountZero(lists);
        FlatEmpty(side, lists);
      }
    }

    /** The list shows each linked node, and nothing but linked nodes. */
    lemma ListShowsLinked()
      requires Valid()
      ensures forall o :: o in Linked ==> o.View() in List()
      ensures forall r :: r in List() ==> exists o :: o in Linked && o.View() == r
    {
      hide PriceLevelQueue.Valid;
      QueueIsLinked(lists, Linked);
      forall o | o in Linked
        ensures o.View() in List()
      {
        var k := Whereabouts(o);
        FlatSplit(side, lists, o.price - minPrice);
        assert o in Queue();
        var j :| 0 <= j < |Queue()| && Queue()[j] == o;
        assert List()[j] == o.View();
      }
      forall r | r in List()
        ensures exists o :: o in Linked && o.View() == r
      {
        var j :| 0 <= j < |List()| && List()[j] == r;
        assert Queue()[j] in Queue() && Queue()[j].View() == r;
      }
    }

    /** Position of a linked node in its level. */
    lemma Whereabouts(order: Order) returns (k: nat)
      requires Placed() && order in Linked
      ensures order.side == side && minPrice <= order.price <= maxPrice && order.price - minPrice < |lists|
      ensures k < |lists[order.price - minPrice]| && lists[order.price - minPrice][k] == order
    {
      assert AtItsLevel(order, lists);
      k :| 0 <= k < |lists[order.price - minPrice]| && lists[order.price - minPrice][k] == order;
    }

    /** Removes a node from wherever it stands. */
    method Remove(order: Order)
      requires Valid() && order in Linked
      modifies this`best, this`nonEmpty, this`lists, this`Linked
      modifies levels, Linked`prev, Linked`next
      ensures Valid() && Linked == old(Linked) - {order}
      ensures UniqueIds(old(List())) ==> List() == Without(old(List()), order.id)
    {
      hide PriceLevelQueue.Valid;
      hide Flat;
      hide NonEmptyCount;
      hide Views;
      hide Without;
      ghost var k := Whereabouts(order);
      var price := order.price;
      BestAfterDrop(price - minPrice, Drop(lists[price - minPrice], k));
      ghost var m := DropFromFlat(side, lists, price - minPrice, k);
      UnlinkNode(order, k);
      LeftList(m);
      Settle(price);
      ghost var kept := Queues() && Placed();
      assert kept;
    }

    /** What leaving a level means for this side of the reference book. */
    twostate lemma LeftList(m: nat)
      requires old(Placed()) && Placed()
      requires m < |old(Queue())|
      requires Queue() == old(Queue())[..m] + old(Queue())[m + 1..]
      requires forall o :: o in old(Linked) ==> o.View() == old(o.View())
      ensures UniqueIds(old(PlacedList())) ==> PlacedList() == Without(old(PlacedList()), old(Queue())[m].id)
    {
      hide Placed;
      hide Queue;
      LinkedQueue();
      ViewsKept(old(Queue()));
      if UniqueIds(old(PlacedList())) {
        DropIsWithout(old(Queue()), m);
      }
    }

    /** The order to be matched next. */
    method Front() returns (order: Order)
      requires Valid() && nonEmpty > 0
      ensures order in Linked && Queue() != [] && order == Queue()[0]
      ensures List() != [] && order.View() == List()[0]
    {
      hide PriceLevelQueue.Valid;
      BestIsFirst();
      levels[best - minPrice].NodesDistinct();
      order := levels[best - minPrice].head;
    }

    /** Only the front order lost some of its quantity. */
    twostate lemma FrontFilled(order: Order)
      requires old(Placed()) && Placed() && lists == old(lists) && Linked == old(Linked)
      requires Queue() != [] && order == Queue()[0]
      requires forall k :: 0 < k < |Queue()| ==> Queue()[k] != order
      requires order.View() == old(order.View()).(remaining := order.remaining)
      requires forall o :: o in Linked && o != order ==> o.View() == old(o.View())
      ensures var s := old(PlacedList());
        PlacedList() == [s[0].(remaining := order.remaining)] + s[1..]
    {
      hide Flat;
      QueueIsLinked(lists, Linked);
      ViewsFilled(Queue());
    }

    /** Fills the order to be matched next; nothing else of this side changes. */
    method FillFront(order: Order, q: Quantity) returns (thrown: bool)
      requires Valid() && nonEmpty > 0 && Queue() != [] && order == Queue()[0]
      modifies Linked`remaining
      ensures Valid()
      ensures old(List()) != [] && (thrown <==> q > old(List())[0].remaining)
      ensures !thrown ==>
        var s := old(List()); List() == [s[0].(remaining := s[0].remaining - q)] + s[1..]
      ensures order.View() == List()[0]
    {
      hide PriceLevelQueue.Valid;
      hide Flat;
      hide NonEmptyCount;
      hide Views;
      BestIsFirst();
      QueueIsLinked(lists, Linked);
      thrown := order.Fill(q);
      ghost var kept := Valid();
      assert kept;
      if !thrown {
        FrontFilled(order);
      }
    }
  }
}
