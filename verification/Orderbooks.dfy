/** The matching engine's book: two ladders, an id map, an order arena, and the operations on them. */
module Orderbooks {
  import opened OrderTypes
  import opened PriceTimeBook
  import opened BookLists
  import opened Sweeps
  import opened LimitMatching
  import opened BookTheorems
  import opened Orders
  import opened Ladders
  import opened OrderPools

  /** The list after its front order lost `q`, still holding it even if nothing remains. */
  function Reduced(s: seq<Resting>, q: Quantity): (r: seq<Resting>)
    requires s != [] && q <= s[0].remaining
    ensures |r| == |s|
  {
    [s[0].(remaining := s[0].remaining - q)] + s[1..]
  }

  /** The list without a front order of which nothing remains. */
  function Trimmed(s: seq<Resting>): seq<Resting>
    requires s != []
  {
    if s[0].remaining == 0 then s[1..] else s
  }

  lemma TrimmedReduced(s: seq<Resting>, q: Quantity)
    requires s != [] && q <= s[0].remaining
    ensures Trimmed(Reduced(s, q)) == PriceTimeBook.FillFront(s, q)
  {
    assert Reduced(s, q)[1..] == s[1..];
  }

  class Orderbook {
    const pool: OrderPool
    const bids: Ladder
    const asks: Ladder
    /** Order id to arena slot. */
    var orders: map<OrderId, Order>
    /** Every push attempted on the outbound ring, oldest first. */
    var out: seq<Message>
    /** Every fill, oldest first. */
    ghost var fills: seq<Fill>

    constructor (minPrice: Price, maxPrice: Price, capacity: nat)
      requires minPrice <= maxPrice
      ensures Valid() && Contents() == Book([], []) && |pool.arena| == capacity
      ensures bids.minPrice == minPrice && bids.maxPrice == maxPrice
      ensures out == [] && fills == []
      ensures fresh(pool) && fresh(bids) && fresh(asks) && fresh(pool.arena) && fresh(bids.levels) && fresh(asks.levels)
    {
      hide Ladder.Valid;
      hide Ladder.List;
      pool := new OrderPool(capacity);
      bids := new Ladder(BID, minPrice, maxPrice);
      asks := new Ladder(ASK, minPrice, maxPrice);
      orders, out, fills := map[], [], [];
      new;
      assert forall k :: 0 <= k < capacity ==> pool.arena[k] == pool.freeList[capacity - 1 - k];
    }

    function On(side: Side): Ladder {
      if side == BID then bids else asks
    }

    ghost predicate Geometry() {
      && bids.side == BID && asks.side == ASK
      && bids.minPrice == asks.minPrice && bids.maxPrice == asks.maxPrice
      && (forall q :: q in bids.levels ==> q !in asks.levels)
    }

    /**
     Every arena slot is free or live, never both, and the map holds exactly the
     live orders, each under its own id.
     */
    ghost predicate Stored(live: set<Order>)
      reads this`orders, pool, live`id
    {
      && pool.Valid()
      && (forall o :: o in pool.freeList ==> o !in live)
      && (forall o :: o in pool.arena ==> o in pool.freeList || o in live)
      && (forall o :: o in live ==> o in pool.arena)
      && (forall id :: id in orders ==> orders[id] in live && orders[id].id == id)
      && (forall o :: o in live ==> o.id in orders && orders[o.id] == o)
    }

    ghost function Live(): set<Order>
      reads bids`Linked, asks`Linked
    {
      bids.Linked + asks.Linked
    }

    /** All redundant views of the resting orders agree. */
    ghost predicate Consistent()
      reads this`orders, pool, bids, asks, bids.levels, asks.levels, bids.Linked, asks.Linked
    {
      && Geometry() && bids.Valid() && asks.Valid()
      && bids.Linked !! asks.Linked && Stored(Live())
      && |pool.freeList| + |bids.List()| + |asks.List()| == |pool.arena|
    }

    /** The reference book this object stands for. */
    ghost function Contents(): Book
      requires Consistent()
      reads this`orders, pool, bids, asks, bids.levels, asks.levels, bids.Linked, asks.Linked
    {
      Book(bids.List(), asks.List())
    }

    ghost predicate Valid()
      reads this`orders, pool, bids, asks, bids.levels, asks.levels, bids.Linked, asks.Linked
    {
      Consistent() && Inv(|pool.arena|, Contents())
    }

    /** The same consistency, seen from one side. */
    ghost predicate ConsistentFrom(own: Ladder, opp: Ladder)
      reads this`orders, pool, own, opp, own.levels, opp.levels, own.Linked, opp.Linked
    {
      && own != opp && (forall q :: q in own.levels ==> q !in opp.levels)
      && own.Valid() && opp.Valid()
      && own.Linked !! opp.Linked && Stored(own.Linked + opp.Linked)
      && |pool.freeList| + |own.List()| + |opp.List()| == |pool.arena|
    }

    lemma FromEitherSide(side: Side)
      requires Consistent() || Geometry()
      ensures Geometry()
      ensures Consistent() <==> ConsistentFrom(On(side), On(side.Opposite()))
      ensures Consistent() ==>
        && Contents().On(side) == On(side).List()
        && Contents().On(side.Opposite()) == On(side.Opposite()).List()
        && (forall b: Book :: b.On(side.Opposite()) == On(side.Opposite()).List()
              ==> Contents() == b.Set(side, On(side).List()))
    {
      hide Ladder.Valid;
      hide Ladder.List;
      hide OrderPool.Valid;
      if side == ASK {
        assert asks.Linked + bids.Linked == bids.Linked + asks.Linked;
        assert Consistent() ==> ConsistentFrom(asks, bids);
        assert ConsistentFrom(asks, bids) ==> Consistent();
      }
    }

    /** Unmaps an order that has left its ladder and returns its slot. */
    method Erase(order: Order, ghost live: set<Order>)
      requires Stored(live) && order in live
      modifies this`orders, pool`freeList
      ensures Stored(live - {order}) && pool.freeList == old(pool.freeList) + [order]
    {
      orders := orders - {order.id};
      pool.Deallocate(order);
    }

    /** The front order of a side leaves the book. */
    method Retire(side: Side)
      requires Consistent() && Contents().On(side) != []
      modifies this`orders, pool, On(side), On(side).levels, pool.arena`prev
      ensures Consistent() && Contents() == old(Contents()).Set(side, old(Contents()).On(side)[1..])
      ensures On(side).BestOutlived(old(On(side).best))
      ensures forall price :: old(On(side.Opposite()).BestOutlived(price)) ==> On(side.Opposite()).BestOutlived(price)
    {
      hide Ladder.Valid;
      hide Ladder.List;
      hide Ladder.Queue;
      hide Ladder.BestOutlived;
      hide OrderPool.Valid;
      hide Consistent;
      hide Contents;
      FromEitherSide(side);
      var ladder := On(side);
      ghost var other := On(side.Opposite());
      ghost var live := ladder.Linked + other.Linked;
      LinkedInArena(side);
      ladder.CacheExact();
      var order := ladder.PopBest();
      ghost var stored := Stored(live);
      assert stored;
      Erase(order, live);
      other.Kept();
      assert ladder.Linked + other.Linked == live - {order};
      FromEitherSide(side);
    }

    /** The order of a side to be matched next. */
    method Front(side: Side) returns (order: Order)
      requires Consistent() && Contents().On(side) != []
      ensures order in On(side).Linked && order.View() == Contents().On(side)[0]
      ensures On(side).Queue() != [] && order == On(side).Queue()[0]
    {
      hide Ladder.Valid;
      hide Ladder.List;
      On(side).CacheExact();
      order := On(side).Front();
    }

    /** Fills the front order of a side, which never asks for more than remains. */
    method FillFront(side: Side, order: Order, q: Quantity)
      requires Consistent() && Contents().On(side) != []
      requires On(side).Queue() != [] && order == On(side).Queue()[0]
      requires q <= Contents().On(side)[0].remaining
      modifies On(side).Linked`remaining
      ensures Consistent() && order.View() == Contents().On(side)[0]
      ensures Contents() == old(Contents()).Set(side, Reduced(old(Contents()).On(side), q))
    {
      hide Ladder.Valid;
      hide Ladder.List;
      hide Ladder.Queue;
      hide OrderPool.Valid;
      var ladder := On(side);
      ladder.CacheExact();
      var thrown := ladder.FillFront(order, q);
      assert !thrown;
      On(side.Opposite()).Kept();
      ghost var stored := Stored(old(Live()));
      assert stored;
    }

    /** One push on the outbound ring the book shares with the engine. */
    method Push(message: Message)
      modifies this`out
      ensures out == old(out) + [message]
    {
      out := out + [message];
    }

    /** Pushes the two messages of a fill, the party on side `lead` first. */
    method Report(lead: Side, fill: Fill)
      modifies this`out, this`fills
      ensures out == old(out) + MessagePair(lead, fill) && fills == old(fills) + [fill]
    {
      var first := if lead == BID then fill.bid else fill.ask;
      var second := if lead == BID then fill.ask else fill.bid;
      out := out + [MatchMessage(first), MatchMessage(second)];
      fills := fills + [fill];
    }

    lemma LinkedInArena(side: Side)
      requires Consistent()
      ensures forall o :: o in On(side).Linked ==> o in pool.arena
      ensures forall o :: o in On(side.Opposite()).Linked ==> o in pool.arena
      ensures forall o :: o in pool.freeList ==> o in pool.arena
      ensures On(side).Linked !! On(side.Opposite()).Linked
    {
    }

    method RetireIfFilled(side: Side, order: Order)
      requires Consistent() && Contents().On(side) != [] && order.View() == Contents().On(side)[0]
      modifies this`orders, pool, On(side), On(side).levels, pool.arena`prev
      ensures Consistent() && Contents() == old(Contents()).Set(side, Trimmed(old(Contents()).On(side)))
      ensures On(side).BestOutlived(old(On(side).best))
      ensures forall price :: old(On(side.Opposite()).BestOutlived(price)) ==> On(side.Opposite()).BestOutlived(price)
    {
      hide Consistent;
      hide Contents;
      if order.IsFilled() {
        Retire(side);
      }
    }

    /** Fills the two best orders against each other and reports it to both, the bid first. */
    method FillFronts() returns (bid: Order, ask: Order)
      requires Consistent() && Contents().bids != [] && Contents().asks != []
      modifies this`out, this`fills, bids.Linked`remaining, asks.Linked`remaining
      ensures Consistent()
      ensures var b := old(Contents());
        Contents() == Book(Reduced(b.bids, FrontQuantity(b)), Reduced(b.asks, FrontQuantity(b)))
      ensures bid.View() == Contents().bids[0] && ask.View() == Contents().asks[0]
      ensures var fill := FrontFill(old(Contents()));
        fills == old(fills) + [fill] && out == old(out) + MessagePair(BID, fill)
    {
      hide Consistent;
      hide Contents;
      hide Reduced;
      hide MessagePair;
      LinkedInArena(BID);
      bid := Front(BID);
      ask := Front(ASK);
      var quantity := Min(bid.remaining, ask.remaining);
      var fill := Fill(Party(bid.id, bid.client), Party(ask.id, ask.client), quantity);
      assert fill == FrontFill(Contents());
      FillFront(BID, bid, quantity);
      FillFront(ASK, ask, quantity);
      Report(BID, fill);
    }

    /** One fill between the two best orders; whichever it empties leaves the book. */
    method MatchFront()
      requires Consistent() && Contents().bids != [] && Contents().asks != []
      modifies this, pool, bids, asks, bids.levels, asks.levels, pool.arena
      ensures Consistent() && Contents() == PriceTimeBook.MatchFront(old(Contents()))
      ensures var fill := FrontFill(old(Contents()));
        fills == old(fills) + [fill] && out == old(out) + MessagePair(BID, fill)
      ensures bids.BestOutlived(old(bids.best)) && asks.BestOutlived(old(asks.best))
    {
      hide Consistent;
      hide Contents;
      hide Reduced;
      hide Trimmed;
      hide Ladder.BestOutlived;
      hide MessagePair;
      LinkedInArena(BID);
      TrimmedReduced(Contents().bids, FrontQuantity(Contents()));
      TrimmedReduced(Contents().asks, FrontQuantity(Contents()));
      var bid, ask := FillFronts();
      RetireIfFilled(BID, bid);
      assert On(ASK.Opposite()) == bids && bids.BestOutlived(old(bids.best));
      RetireIfFilled(ASK, ask);
    }

    /** What is done plus what matching would still do is what matching `b` does. */
    ghost predicate Matching(b: Book, fills0: seq<Fill>, out0: seq<Message>)
      reads this, pool, bids, asks, bids.levels, asks.levels, bids.Linked, asks.Linked
    {
      && Consistent()
      && MatchedBook(Contents()) == MatchedBook(b)
      && fills + MatchedFills(Contents()) == fills0 + MatchedFills(b)
      && out + MatchMessages(BID, MatchedFills(Contents())) == out0 + MatchMessages(BID, MatchedFills(b))
    }

    lemma MatchingStep(now: Book, was: Book, fills1: seq<Fill>, out1: seq<Message>,
                       b: Book, fills0: seq<Fill>, out0: seq<Message>)
      requires Crossed(was) && now == PriceTimeBook.MatchFront(was)
      requires MatchedBook(was) == MatchedBook(b)
      requires fills1 + MatchedFills(was) == fills0 + MatchedFills(b)
      requires out1 + MatchMessages(BID, MatchedFills(was)) == out0 + MatchMessages(BID, MatchedFills(b))
      ensures MatchedBook(now) == MatchedBook(b)
      ensures (fills1 + [FrontFill(was)]) + MatchedFills(now) == fills0 + MatchedFills(b)
      ensures (out1 + MessagePair(BID, FrontFill(was))) + MatchMessages(BID, MatchedFills(now)) ==
              out0 + MatchMessages(BID, MatchedFills(b))
    {
      assert MatchedFills(was) == [FrontFill(was)] + MatchedFills(now);
      assert MatchedFills(was)[1..] == MatchedFills(now);
    }

    /** One iteration of the inner matching loop. */
    method MatchStep(ghost b: Book, ghost fills0: seq<Fill>, ghost out0: seq<Message>)
      requires Matching(b, fills0, out0) && Crossed(Contents())
      modifies this, pool, bids, asks, bids.levels, asks.levels, pool.arena
      ensures Matching(b, fills0, out0) && Contents().Count() < old(Contents()).Count()
      ensures |fills| == |old(fills)| + 1
      ensures bids.BestOutlived(old(bids.best)) && asks.BestOutlived(old(asks.best))
    {
      hide Consistent;
      hide Contents;
      hide Ladder.BestOutlived;
      hide MatchedBook;
      hide MatchedFills;
      hide MatchMessages;
      MatchFront();
      MatchingStep(Contents(), old(Contents()), old(fills), old(out), b, fills0, out0);
    }

    /** The cached best prices decide whether the book is crossed. */
    lemma CrossedByCache()
      requires Consistent()
      ensures Crossed(Contents()) <==> bids.nonEmpty > 0 && asks.nonEmpty > 0 && bids.best >= asks.best
      ensures bids.minPrice == asks.minPrice
    {
      hide Ladder.Valid;
      hide Ladder.List;
      bids.CacheExact();
      asks.CacheExact();
    }

    lemma BestLevels()
      requires Consistent()
      ensures bids.minPrice <= bids.best < bids.minPrice + |bids.levels|
      ensures asks.minPrice <= asks.best < asks.minPrice + |asks.levels|
      ensures bids.levels[bids.best - bids.minPrice].Nodes != [] <==> bids.nonEmpty > 0
      ensures asks.levels[asks.best - asks.minPrice].Nodes != [] <==> asks.nonEmpty > 0
      ensures forall q :: q in bids.levels ==> q.Valid()
      ensures forall q :: q in asks.levels ==> q.Valid()
    {
      hide Ladder.Valid;
      hide Ladder.List;
      bids.BestLevel();
      asks.BestLevel();
    }

    /**
     The inner matching loop: works on the two best levels until one of them is
     emptied, if they cross at all.
     */
    method MatchBestLevels(ghost b: Book, ghost fills0: seq<Fill>, ghost out0: seq<Message>)
      returns (levelMatched: bool)
      requires Matching(b, fills0, out0) && bids.nonEmpty > 0 && asks.nonEmpty > 0
      modifies this, pool, bids, asks, bids.levels, asks.levels, pool.arena
      ensures Matching(b, fills0, out0)
      ensures levelMatched ==> Contents().Count() < old(Contents()).Count() && |fills| > |old(fills)|
      ensures !levelMatched ==> !Crossed(Contents()) && fills == old(fills)
    {
      hide Consistent;
      hide Contents;
      hide MatchedBook;
      hide MatchedFills;
      hide MatchMessages;
      hide PriceLevelQueue.Valid;
      BestLevels();
      var highestBids := bids.levels[bids.best - bids.minPrice];
      var lowestAsks := asks.levels[asks.best - asks.minPrice];
      levelMatched := false;
      while !highestBids.Empty() && !lowestAsks.Empty()
        invariant Matching(b, fills0, out0)
        invariant bids.minPrice <= bids.best < bids.minPrice + |bids.levels|
        invariant asks.minPrice <= asks.best < asks.minPrice + |asks.levels|
        invariant highestBids.Valid() && lowestAsks.Valid()
        invariant highestBids == bids.levels[bids.best - bids.minPrice]
        invariant lowestAsks == asks.levels[asks.best - asks.minPrice]
        invariant levelMatched ==> Contents().Count() < old(Contents()).Count() && |fills| > |old(fills)|
        invariant !levelMatched ==> !highestBids.Empty() && !lowestAsks.Empty() && fills == old(fills)
        invariant Contents().Count() <= old(Contents()).Count()
        decreases Contents().Count()
      {
        CrossedByCache();
        BestLevels();
        if bids.best < asks.best {
          break;
        }
        levelMatched := true;
        MatchStep(b, fills0, out0);
        BestLevels();
        var bidLevelDone := highestBids.Empty();
        var askLevelDone := lowestAsks.Empty();
        if bidLevelDone || askLevelDone {
          break;
        }
      }
    }

    /** Matches the best orders of both sides until the book is no longer crossed. */
    method MatchOrders() returns (anyFilled: bool)
      requires Consistent()
      modifies this, pool, bids, asks, bids.levels, asks.levels, pool.arena
      ensures Consistent() && Contents() == MatchedBook(old(Contents()))
      ensures fills == old(fills) + MatchedFills(old(Contents()))
      ensures out == old(out) + MatchMessages(BID, MatchedFills(old(Contents())))
      ensures anyFilled <==> MatchedFills(old(Contents())) != []
    {
      hide Consistent;
      hide Contents;
      ghost var b, fills0, out0 := Contents(), fills, out;
      anyFilled := false;
      while bids.nonEmpty > 0 && asks.nonEmpty > 0
        invariant Matching(b, fills0, out0)
        invariant |fills| >= |fills0| && (anyFilled <==> |fills| > |fills0|)
        decreases Contents().Count()
      {
        var levelMatched := MatchBestLevels(b, fills0, out0);
        if !levelMatched {
          break;
        }
        anyFilled := true;
      }
      CrossedByCache();
    }

    /** The id map finds exactly the orders the reference book finds. */
    lemma Lookup(id: OrderId)
      requires Consistent() && Orderly(Contents())
      ensures id in orders <==> Find(Contents(), id).Some?
      ensures id in orders ==> Find(Contents(), id).value == orders[id].View()
      ensures id in orders ==> orders[id].id == id && orders[id] in On(orders[id].side).Linked
      ensures id in orders ==> FindIn(Contents().On(orders[id].side), id).Some?
      ensures id in orders ==> FindIn(Contents().On(orders[id].side.Opposite()), id).None?
    {
      hide Ladder.Valid;
      hide Ladder.List;
      bids.ListShowsLinked();
      asks.ListShowsLinked();
      if id in orders {
        var order := orders[id];
        FoundOnItsSide(order, if order in bids.Linked then BID else ASK);
      } else {
        UnmappedIsAbsent(id, BID);
        UnmappedIsAbsent(id, ASK);
      }
    }

    lemma UnmappedIsAbsent(id: OrderId, side: Side)
      requires Consistent() && id !in orders
      ensures FindIn(Contents().On(side), id).None?
    {
      hide Ladder.Valid;
      hide Ladder.List;
      var s := Contents().On(side);
      On(side).ListShowsLinked();
      forall i | 0 <= i < |s|
        ensures s[i].id != id
      {
        assert s[i] in On(side).List();
        var order :| order in On(side).Linked && order.View() == s[i];
        assert order in Live();
      }
      FindNothing(s, id);
    }

    lemma FoundOnItsSide(order: Order, side: Side)
      requires Consistent() && Orderly(Contents())
      requires order in On(side).Linked && order.View() in Contents().On(side)
      ensures order.side == side
      ensures FindIn(Contents().On(side), order.id) == Some(order.View())
      ensures FindIn(Contents().On(side.Opposite()), order.id).None?
    {
      var s := Contents().On(side);
      var k :| 0 <= k < |s| && s[k] == order.View();
      FindAt(s, k);
      FindNothing(Contents().On(side.Opposite()), order.id);
    }

    /** Takes a slot for a new order and maps it; null when the arena is exhausted. */
    method Admit(req: Request, ghost live: set<Order>) returns (order: Order?)
      requires Stored(live) && req.id !in orders
      modifies this`orders, pool`freeList
      modifies if pool.freeList == [] then {} else {pool.freeList[|pool.freeList| - 1]}
      ensures order == null <==> old(pool.freeList) == []
      ensures order == null ==> Stored(live) && unchanged(this) && unchanged(pool)
      ensures order != null ==>
        && order in old(pool.freeList) && order !in live && Stored(live + {order})
        && |pool.freeList| == |old(pool.freeList)| - 1
        && order.View() == Rested(req, req.quantity)
        && order.prev == null && order.next == null
    {
      order := pool.Allocate(req.id, req);
      if order != null {
        orders := orders[req.id := order];
      }
    }

    /** Puts a new limit order on its ladder, before any matching. */
    method Insert(req: Request) returns (inserted: bool)
      requires Consistent() && req.id !in orders
      requires Contents().Count() < |pool.arena| ==> PriceInRange(req)
      modifies this`orders, pool, pool.arena, On(req.side), On(req.side).levels
      ensures Consistent()
      ensures inserted <==> old(Contents()).Count() < |pool.arena|
      ensures !inserted ==> Contents() == old(Contents())
      ensures inserted ==>
        Contents() == old(Contents()).Set(req.side,
          PriceTimeBook.Insert(old(Contents()).On(req.side), Rested(req, req.quantity)))
    {
      hide Ladder.Valid;
      hide Ladder.List;
      hide OrderPool.Valid;
      hide Consistent;
      hide Contents;
      hide PriceTimeBook.Insert;
      FromEitherSide(req.side);
      var ladder := On(req.side);
      ghost var other := On(req.side.Opposite());
      ghost var live := ladder.Linked + other.Linked;
      LinkedInArena(req.side);
      assert pool.freeList != [] ==> pool.freeList[|pool.freeList| - 1] in pool.arena;
      var order := Admit(req, live);
      ladder.Kept();
      other.Kept();
      if order == null {
        FromEitherSide(req.side);
        return false;
      }
      ladder.Push(order);
      InsertLength(old(Contents()).On(req.side), Rested(req, req.quantity));
      other.Kept();
      ghost var stored := Stored(live + {order});
      assert stored;
      assert ladder.Linked + other.Linked == live + {order};
      FromEitherSide(req.side);
      inserted := true;
    }

    /** An order leaves the book from wherever it stands on its side. */
    method Discard(side: Side, order: Order)
      requires Consistent() && order in On(side).Linked && ListInv(side, Contents().On(side))
      requires FindIn(Contents().On(side), order.id).Some?
      modifies this`orders, pool, On(side), On(side).levels, pool.arena
      ensures Consistent() && Contents() == old(Contents()).Set(side, Without(old(Contents()).On(side), old(order.id)))
    {
      hide Ladder.Valid;
      hide Ladder.List;
      hide OrderPool.Valid;
      hide Consistent;
      hide Contents;
      hide Without;
      hide FindIn;
      FromEitherSide(side);
      var ladder := On(side);
      ghost var other := On(side.Opposite());
      ghost var live := ladder.Linked + other.Linked;
      LinkedInArena(side);
      WithoutKeepsListInv(side, Contents().On(side), order.id);
      ladder.Remove(order);
      ghost var stored := Stored(live);
      assert stored;
      Erase(order, live);
      other.Kept();
      assert ladder.Linked + other.Linked == live - {order};
      FromEitherSide(side);
    }

    /** Unlinks, unmaps and frees the order of this id. */
    method CancelOrder(id: OrderId)
      requires Consistent() && Orderly(Contents()) && id in orders
      modifies this`orders, pool, bids, asks, bids.levels, asks.levels, pool.arena
      ensures Consistent() && Contents() == Cancelled(old(Contents()), id)
    {
      hide Consistent;
      hide Contents;
      Lookup(id);
      var order := orders[id];
      WithoutAbsent(Contents().On(order.side.Opposite()), id);
      Discard(order.side, order);
    }

    /** The object now stands for the outcome's book, and has reported its fills and messages. */
    twostate predicate Did(o: Outcome, suppressAck: bool)
      reads this, pool, bids, asks, bids.levels, asks.levels, bids.Linked, asks.Linked
    {
      && Valid() && Contents() == o.book
      && fills == old(fills) + o.fills
      && out == old(out) + o.messages
      && suppressAck == o.result.suppressAck
    }

    /** The ladder is indexed by price without a check; this matters to requests that reach it. */
    predicate PriceInRange(req: Request) {
      bids.minPrice <= req.price <= bids.maxPrice
    }

    /** Adds an order: a market order sweeps, a limit order joins its level and then matches. */
    method AddOrder(req: Request) returns (suppressAck: bool)
      requires Valid()
      requires req.kind == LIMIT && Find(Contents(), req.id).None? && Contents().Count() < |pool.arena| ==>
                 PriceInRange(req)
      modifies this, pool, bids, asks, bids.levels, asks.levels, pool.arena
      ensures Did(Add(|pool.arena|, old(Contents()), req), suppressAck)
    {
      hide Consistent;
      hide Contents;
      ghost var b := Contents();
      AddKeepsInv(|pool.arena|, b, req);
      if req.kind == MARKET {
        suppressAck := MatchMarket(req);
        return;
      }
      Lookup(req.id);
      if req.id in orders {
        return false;
      }
      var inserted := Insert(req);
      if !inserted {
        return false;
      }
      InsertThenMatch(b, req);
      suppressAck := MatchOrders();
    }

    /** One fill of a market order against the best resting order, the market order reported first. */
    method MarketStep(req: Request, remaining: Quantity) returns (left: Quantity)
      requires Consistent() && Contents().On(req.side.Opposite()) != []
      modifies this, pool, bids, asks, bids.levels, asks.levels, pool.arena
      ensures Consistent()
      ensures var opp := req.side.Opposite();
        var s := old(Contents()).On(opp);
        var f := Min(remaining, s[0].remaining);
        var fill := MakeFill(req.side, Taker(req), s[0].Who(), f);
        && left == remaining - f
        && Contents() == old(Contents()).Set(opp, PriceTimeBook.FillFront(s, f))
        && fills == old(fills) + [fill] && out == old(out) + MessagePair(req.side, fill)
    {
      hide Consistent;
      hide Contents;
      hide Reduced;
      hide Trimmed;
      hide MessagePair;
      LinkedInArena(req.side);
      var opp := req.side.Opposite();
      var order := Front(opp);
      var quantity := Min(remaining, order.remaining);
      TrimmedReduced(Contents().On(opp), quantity);
      left := remaining - quantity;
      FillFront(opp, order, quantity);
      Report(req.side, MakeFill(req.side, Taker(req), Party(order.id, order.client), quantity));
      RetireIfFilled(opp, order);
    }

    /** What is done plus what `remaining` would still take is what the whole market order takes. */
    ghost predicate Sweeping(req: Request, remaining: Quantity, b: Book, fills0: seq<Fill>, out0: seq<Message>)
      reads this, pool, bids, asks, bids.levels, asks.levels, bids.Linked, asks.Linked
    {
      var opp := req.side.Opposite();
      && Consistent()
      && Contents() == b.Set(opp, Contents().On(opp))
      && var whole := TakeMarket(req.side, Taker(req), req.quantity, b.On(opp));
         var rest := TakeMarket(req.side, Taker(req), remaining, Contents().On(opp));
         && rest.rest == whole.rest && rest.left == whole.left
         && fills + rest.fills == fills0 + whole.fills
         && out + MatchMessages(req.side, rest.fills) == out0 + MatchMessages(req.side, whole.fills)
    }

    /** One iteration of the market loop. */
    method SweepStep(req: Request, remaining: Quantity,
                     ghost b: Book, ghost fills0: seq<Fill>, ghost out0: seq<Message>)
      returns (left: Quantity)
      requires Sweeping(req, remaining, b, fills0, out0)
      requires remaining > 0 && Contents().On(req.side.Opposite()) != []
      modifies this, pool, bids, asks, bids.levels, asks.levels, pool.arena
      ensures Sweeping(req, left, b, fills0, out0)
      ensures var opp := req.side.Opposite();
        |Contents().On(opp)| + left < |old(Contents()).On(opp)| + remaining
    {
      hide Consistent;
      hide Contents;
      hide TakeMarket;
      hide PriceTimeBook.FillFront;
      ghost var opp := req.side.Opposite();
      ghost var s := Contents().On(opp);
      MarketSweepStep(req.side, Taker(req), remaining, s);
      left := MarketStep(req, remaining);
      ghost var now := TakeMarket(req.side, Taker(req), remaining, s).fills;
      ghost var later := TakeMarket(req.side, Taker(req), left, Contents().On(opp)).fills;
      assert now[1..] == later;
    }

    lemma OccupiedByCache(side: Side)
      requires Consistent()
      ensures On(side).nonEmpty > 0 <==> Contents().On(side) != []
    {
      hide Ladder.Valid;
      hide Ladder.List;
      On(side).CacheExact();
    }

    lemma NothingToSweep(req: Request, remaining: Quantity, b: Book, fills0: seq<Fill>, out0: seq<Message>)
      requires Sweeping(req, remaining, b, fills0, out0)
      requires remaining == 0 || Contents().On(req.side.Opposite()) == []
      ensures var o := MarketAdd(b, req);
        && Contents() == o.book && fills == fills0 + o.fills && out == out0 + o.messages
        && (o.result.suppressAck <==> remaining == 0)
    {
      hide Consistent;
      hide Contents;
    }

    /** A market order trades against the opposite side at any price until it is filled or that side is empty. */
    method MatchMarket(req: Request) returns (filled: bool)
      requires Valid()
      modifies this, pool, bids, asks, bids.levels, asks.levels, pool.arena
      ensures Did(MarketAdd(old(Contents()), req), filled)
    {
      hide Consistent;
      hide Contents;
      hide TakeMarket;
      ghost var b, fills0, out0 := Contents(), fills, out;
      var opp := req.side.Opposite();
      MarketAddKeepsInv(|pool.arena|, b, req);
      OccupiedByCache(opp);
      var remaining := req.quantity;
      while On(opp).nonEmpty > 0 && remaining > 0
        invariant Sweeping(req, remaining, b, fills0, out0)
        invariant On(opp).nonEmpty > 0 <==> Contents().On(opp) != []
        decreases |Contents().On(opp)| + remaining
      {
        BestLevels();
        // the source also returns early when the best level is empty: it never is
        assert On(opp).levels[On(opp).best - On(opp).minPrice].Nodes != [];
        remaining := SweepStep(req, remaining, b, fills0, out0);
        OccupiedByCache(opp);
      }
      NothingToSweep(req, remaining, b, fills0, out0);
      filled := remaining == 0;
    }

    /** Changes an order: a new price or quantity costs it its place, otherwise only matching runs. */
    method ModifyOrder(req: Request) returns (suppressAck: bool)
      requires Valid() && req.id in orders
      requires req.kind == LIMIT && Changes(Contents(), req) ==> PriceInRange(req)
      modifies this, pool, bids, asks, bids.levels, asks.levels, pool.arena
      ensures Find(old(Contents()), req.id).Some?
      ensures Did(Modify(|pool.arena|, old(Contents()), req, Find(old(Contents()), req.id).value), suppressAck)
    {
      hide Consistent;
      hide Contents;
      Lookup(req.id);
      var order := orders[req.id];
      if req.price != order.price || req.quantity != order.initial {
        CancelKeepsInv(|pool.arena|, Contents(), req.id);
        CancelOrder(req.id);
        suppressAck := AddOrder(req);
        return;
      }
      if req.kind == MARKET {
        suppressAck := MatchMarket(req);
        return;
      }
      MatchNothing(Contents());
      suppressAck := MatchOrders();
    }

    /** The single entry point. */
    method Process(req: Request) returns (result: ProcessResult)
      requires Valid()
      requires Inserts(|pool.arena|, Contents(), req) ==> PriceInRange(req)
      modifies this, pool, bids, asks, bids.levels, asks.levels, pool.arena
      ensures var o := PriceTimeBook.Process(|pool.arena|, old(Contents()), req);
        Did(o, result.suppressAck) && result == o.result
    {
      hide Consistent;
      hide Contents;
      Lookup(req.id);
      match req.message
      case NEW =>
        var suppressAck := AddOrder(req);
        result := ProcessResult(SUCCESS, suppressAck);
      case CANCEL =>
        if req.id !in orders || orders[req.id].client != req.client {
          return ProcessResult(FAILURE, false);
        }
        CancelKeepsInv(|pool.arena|, Contents(), req.id);
        CancelOrder(req.id);
        result := ProcessResult(SUCCESS, false);
      case MODIFY =>
        if req.id !in orders || orders[req.id].client != req.client || orders[req.id].side != req.side {
          return ProcessResult(FAILURE, false);
        }
        var suppressAck := ModifyOrder(req);
        result := ProcessResult(SUCCESS, suppressAck);
      case MATCH =>
        result := ProcessResult(FAILURE, false);
    }

    /** Whether an order at this price would trade at once, read off the cached fields alone. */
    method CanMatch(side: Side, price: Price) returns (can: bool)
      requires Valid()
      ensures can <==> Sweeps.CanMatch(side, Some(price), Contents().On(side.Opposite()))
    {
      hide Ladder.Valid;
      hide Ladder.List;
      bids.CacheExact();
      asks.CacheExact();
      if side == BID {
        if asks.nonEmpty == 0 {
          return false;
        }
        return price >= asks.best;
      }
      if bids.nonEmpty == 0 {
        return false;
      }
      return price <= bids.best;
    }

    // ----- what the cached fields and the links say after every request -----

    /** Each cached best price is the true one, or the sentinel of an empty side, and they do not cross. */
    lemma BestPricesExact()
      requires Valid()
      ensures var b := Contents();
        && bids.best == (if b.bids == [] then bids.minPrice else b.bids[0].price)
        && asks.best == (if b.asks == [] then asks.maxPrice else b.asks[0].price)
        && (bids.nonEmpty > 0 <==> b.bids != []) && (asks.nonEmpty > 0 <==> b.asks != [])
        && (bids.nonEmpty > 0 && asks.nonEmpty > 0 ==> bids.best < asks.best)
    {
      hide Ladder.Valid;
      hide Ladder.List;
      bids.CacheExact();
      asks.CacheExact();
    }

    /** Every arena slot is either free, once, or mapped under its own id; and the free slots make up the difference. */
    lemma SlotsPartitioned(order: Order)
      requires Valid() && order in pool.arena
      ensures order in pool.freeList <==> !(order.id in orders && orders[order.id] == order)
      ensures |pool.freeList| == |pool.arena| - Contents().Count()
    {
      hide Ladder.Valid;
      hide Ladder.List;
    }

    /** A mapped order is linked in exactly one place: its own side, its own price's level, once. */
    lemma LinkedOnce(id: OrderId, side: Side, i: nat, k: nat)
      requires Valid() && id in orders
      requires i < |On(side).levels| && k < |On(side).levels[i].Nodes| && On(side).levels[i].Nodes[k] == orders[id]
      ensures side == orders[id].side && i == orders[id].price - On(side).minPrice
      ensures forall j :: 0 <= j < |On(side).levels[i].Nodes| && j != k ==> On(side).levels[i].Nodes[j] != orders[id]
    {
      hide PriceLevelQueue.Valid;
      var ladder := On(side);
      assert ladder.lists[i][k] in ladder.Linked;
      ladder.levels[i].NodesDistinct();
      var at := ladder.Whereabouts(orders[id]);
    }

    /** And it is linked there. */
    lemma LinkedSomewhere(id: OrderId) returns (k: nat)
      requires Valid() && id in orders
      ensures var ladder := On(orders[id].side);
        && ladder.minPrice <= orders[id].price < ladder.minPrice + |ladder.levels|
        && k < |ladder.levels[orders[id].price - ladder.minPrice].Nodes|
        && ladder.levels[orders[id].price - ladder.minPrice].Nodes[k] == orders[id]
    {
      hide PriceLevelQueue.Valid;
      Lookup(id);
      k := On(orders[id].side).Whereabouts(orders[id]);
    }
  }
}
