/** What one request does to the reference book. */
module BookTheorems {
  import opened OrderTypes
  import opened PriceTimeBook
  import opened BookLists
  import opened Sweeps
  import opened LimitMatching

  // ----- limit and market orders -----

  predicate Reports(messages: seq<Message>, p: Party) {
    exists k :: 0 <= k < |messages| && messages[k] == MatchMessage(p)
  }

  /** A list of fills reports its taker exactly when it is not empty. */
  lemma TakerReported(side: Side, taker: Party, opp: seq<Resting>, fills: seq<Fill>, lead: Side)
    requires InQueueOrder(side, taker, opp, fills)
    ensures fills != [] ==> Reports(MatchMessages(lead, fills), taker)
    ensures fills == [] ==> MatchMessages(lead, fills) == []
  {
    if fills != [] {
      MatchMessagesAt(lead, fills, 0);
      var m := MatchMessages(lead, fills);
      assert m[0..2] == MessagePair(lead, fills[0]);
      assert m[0] == m[0..2][0] && m[1] == m[0..2][1];
    }
  }

  /**
   A limit order fills the smaller of its quantity and everything resting at
   prices that cross it. It is answered by fills alone exactly when it crossed the
   best opposite price, and exactly then its own id is reported. Unless a fill
   emptied it, it rests with what is left, behind its price level.
   */
  lemma LimitAddExact(b: Book, req: Request)
    requires Orderly(b)
    ensures var out := LimitAdd(b, req);
      var opp := b.On(req.side.Opposite());
      var available := Available(req.side, Some(req.price), opp);
      var crosses := CanMatch(req.side, Some(req.price), opp);
      && FillTotal(out.fills) == Min(req.quantity, available)
      && (out.result.suppressAck <==> crosses)
      && (Reports(out.messages, Taker(req)) <==> crosses)
      && InQueueOrder(req.side, Taker(req), opp, out.fills)
      && Total(out.book.On(req.side.Opposite())) == Total(opp) - FillTotal(out.fills)
      && out.book.On(req.side) ==
         if crosses && req.quantity <= available then b.On(req.side)
         else Insert(b.On(req.side), Rested(req, req.quantity - FillTotal(out.fills)))
  {
    var opp := b.On(req.side.Opposite());
    TakeQuantity(req.side, Taker(req), Some(req.price), req.quantity, opp);
    TakeMakers(req.side, Taker(req), Some(req.price), req.quantity, opp);
    TakerReported(req.side, Taker(req), opp, LimitAdd(b, req).fills, BID);
  }

  lemma {:induction false} AvailableToMarket(side: Side, opp: seq<Resting>)
    ensures Available(side, None, opp) == Total(opp)
  {
    if opp != [] {
      AvailableToMarket(side, opp[1..]);
    }
  }

  /**
   A market order fills the smaller of its quantity and the whole opposite side,
   and suppresses its acknowledgement exactly when that is all it wanted. Fills
   come in queue order, two messages each, the market order first.
   */
  lemma MarketAddExact(b: Book, req: Request)
    requires Orderly(b)
    ensures var out := MarketAdd(b, req);
      var opp := b.On(req.side.Opposite());
      && FillTotal(out.fills) == Min(req.quantity, Total(opp))
      && (out.result.suppressAck <==> req.quantity <= Total(opp))
      && InQueueOrder(req.side, Taker(req), opp, out.fills)
      && |out.messages| == 2 * |out.fills|
      && (forall k :: 0 <= k < |out.fills| ==>
            out.messages[2 * k..2 * k + 2] == [MatchMessage(Taker(req)), MatchMessage(opp[k].Who())])
      && out.book.On(req.side) == b.On(req.side)
      && Total(out.book.On(req.side.Opposite())) == Total(opp) - FillTotal(out.fills)
  {
    var opp := b.On(req.side.Opposite());
    var out := MarketAdd(b, req);
    if req.quantity > 0 {
      TakeQuantity(req.side, Taker(req), None, req.quantity, opp);
      TakeMakers(req.side, Taker(req), None, req.quantity, opp);
      AvailableToMarket(req.side, opp);
    }
    MatchMessagesLength(req.side, out.fills);
    forall k | 0 <= k < |out.fills|
      ensures out.messages[2 * k..2 * k + 2] == [MatchMessage(Taker(req)), MatchMessage(opp[k].Who())]
    {
      MatchMessagesAt(req.side, out.fills, k);
    }
  }

  // ----- the invariant -----

  lemma CancelKeepsInv(capacity: nat, b: Book, id: OrderId)
    requires Inv(capacity, b)
    ensures var c := Cancelled(b, id);
      && Inv(capacity, c) && Find(c, id).None?
      && c.Count() == b.Count() - (if Find(b, id).Some? then 1 else 0)
  {
    WithoutKeepsListInv(BID, b.bids, id);
    WithoutKeepsListInv(ASK, b.asks, id);
    var c := Cancelled(b, id);
    if FindIn(b.bids, id).Some? && FindIn(b.asks, id).Some? {
      var i := FoundAt(b.bids, id);
      var j := FoundAt(b.asks, id);
      assert false;
    }
    forall i, j | 0 <= i < |c.bids| && 0 <= j < |c.asks|
      ensures c.bids[i].id != c.asks[j].id && c.bids[i].price < c.asks[j].price
    {
      assert c.bids[i] in b.bids && c.asks[j] in b.asks;
      UncrossedThroughout(b, c.bids[i], c.asks[j]);
    }
  }

  /** In an uncrossed book every bid is below every ask. */
  lemma UncrossedThroughout(b: Book, bid: Resting, ask: Resting)
    requires Orderly(b) && !Crossed(b) && bid in b.bids && ask in b.asks
    ensures bid.price < ask.price
  {
    var i :| 0 <= i < |b.bids| && b.bids[i] == bid;
    var j :| 0 <= j < |b.asks| && b.asks[j] == ask;
    if i > 0 { assert !Better(BID, b.bids[i].price, b.bids[0].price); }
    if j > 0 { assert !Better(ASK, b.asks[j].price, b.asks[0].price); }
  }

  lemma SweptKeepsInv(capacity: nat, b: Book, side: Side, taker: Party, limit: Option<Price>, q: Quantity)
    requires Inv(capacity, b)
    ensures var opp := side.Opposite();
      var s := Take(side, taker, limit, q, b.On(opp));
      Inv(capacity, b.Set(opp, s.rest)) && |s.rest| <= |b.On(opp)|
  {
    TakeKeepsListInv(side, taker, limit, q, b.On(side.Opposite()));
  }

  lemma MarketAddKeepsInv(capacity: nat, b: Book, req: Request)
    requires Inv(capacity, b)
    ensures Inv(capacity, MarketAdd(b, req).book)
  {
    if req.quantity == 0 {
      assert MarketAdd(b, req).book == b;
    } else {
      SweptKeepsInv(capacity, b, req.side, Taker(req), None, req.quantity);
    }
  }

  lemma InsertKeepsApart(own: seq<Resting>, r: Resting, opp: seq<Resting>)
    requires Sorted(r.side, own) && Apart(own, opp) && forall i :: 0 <= i < |opp| ==> opp[i].id != r.id
    ensures Apart(Insert(own, r), opp)
  {
    hide Insert;
    InsertPlace(own, r);
    forall i, j | 0 <= i < |Insert(own, r)| && 0 <= j < |opp|
      ensures Insert(own, r)[i].id != opp[j].id
    {
      var k := Rank(own, r);
      if i != k {
        assert Insert(own, r)[i] == own[if i < k then i else i - 1];
      }
    }
  }

  /** An order that crosses nothing can be inserted. */
  lemma RestingKeepsInv(capacity: nat, b: Book, r: Resting)
    requires Inv(capacity, b) && b.Count() < capacity && Find(b, r.id).None?
    requires Proper(r.side, r) && !CanMatch(r.side, Some(r.price), b.On(r.side.Opposite()))
    ensures Inv(capacity, b.Set(r.side, Insert(b.On(r.side), r)))
  {
    var own, opp := b.On(r.side), b.On(r.side.Opposite());
    InsertKeepsListInv(own, r);
    InsertPlace(own, r);
    FindNothing(opp, r.id);
    InsertKeepsApart(own, r, opp);
    assert Apart(opp, Insert(own, r));
  }

  lemma LimitAddKeepsInv(capacity: nat, b: Book, req: Request)
    requires Inv(capacity, b) && b.Count() < capacity && Find(b, req.id).None?
    ensures Inv(capacity, LimitAdd(b, req).book)
  {
    var opp := b.On(req.side.Opposite());
    var s := Take(req.side, Taker(req), Some(req.price), req.quantity, opp);
    SweptKeepsInv(capacity, b, req.side, Taker(req), Some(req.price), req.quantity);
    if !s.done {
      TakeRest(req.side, Taker(req), Some(req.price), req.quantity, opp);
      TakeQuantity(req.side, Taker(req), Some(req.price), req.quantity, opp);
      FindNothing(opp, req.id);
      FindNothing(s.rest, req.id);
      RestingKeepsInv(capacity, b.Set(req.side.Opposite(), s.rest), Rested(req, s.left));
    }
  }

  lemma AddKeepsInv(capacity: nat, b: Book, req: Request)
    requires Inv(capacity, b)
    ensures Inv(capacity, Add(capacity, b, req).book)
  {
    if req.kind == MARKET {
      MarketAddKeepsInv(capacity, b, req);
    } else if Find(b, req.id).None? && b.Count() < capacity {
      LimitAddKeepsInv(capacity, b, req);
    }
  }

  lemma ModifyKeepsInv(capacity: nat, b: Book, req: Request, r: Resting)
    requires Inv(capacity, b)
    ensures Inv(capacity, Modify(capacity, b, req, r).book)
  {
    if req.price != r.price || req.quantity != r.initial {
      CancelKeepsInv(capacity, b, req.id);
      AddKeepsInv(capacity, Cancelled(b, req.id), req);
    } else if req.kind == MARKET {
      MarketAddKeepsInv(capacity, b, req);
    }
  }

  /** Every request leaves the book sorted, uncrossed, free of duplicates and within the arena. */
  lemma ProcessKeepsInv(capacity: nat, b: Book, req: Request)
    requires Inv(capacity, b)
    ensures Inv(capacity, Process(capacity, b, req).book)
  {
    match req.message
    case NEW =>
      AddKeepsInv(capacity, b, req);
    case CANCEL =>
      CancelKeepsInv(capacity, b, req.id);
    case MODIFY =>
      if Find(b, req.id).Some? {
        ModifyKeepsInv(capacity, b, req, Find(b, req.id).value);
      }
    case MATCH =>
  }

  // ----- lookup by side -----

  /** Looking an order up only depends on the side it rests on. */
  lemma FindSided(b: Book, side: Side, id: OrderId)
    requires Orderly(b)
    ensures FindIn(b.On(side), id).Some? ==>
              FindIn(b.On(side.Opposite()), id).None? && Find(b, id) == FindIn(b.On(side), id)
    ensures FindIn(b.On(side), id).None? ==> Find(b, id) == FindIn(b.On(side.Opposite()), id)
  {
    if FindIn(b.On(side), id).Some? {
      var k := FoundAt(b.On(side), id);
      FindNothing(b.On(side.Opposite()), id);
    }
  }

  /** An order rests on the side it was entered for. */
  lemma OnItsOwnSide(capacity: nat, b: Book, id: OrderId)
    requires Inv(capacity, b) && Find(b, id).Some?
    ensures FindIn(b.On(Find(b, id).value.side), id).Some?
    ensures FindIn(b.On(Find(b, id).value.side.Opposite()), id).None?
  {
    FindSided(b, BID, id);
    if FindIn(b.bids, id).Some? {
      var k := FoundAt(b.bids, id);
    } else {
      var k := FoundAt(b.asks, id);
    }
  }

  // ----- modification -----

  /** The book owns the order and the request may change it. */
  predicate Accepted(b: Book, req: Request) {
    match req.message
    case NEW => true
    case CANCEL => Find(b, req.id).Some? && Find(b, req.id).value.client == req.client
    case MODIFY => Find(b, req.id).Some? && Find(b, req.id).value.client == req.client
                   && Find(b, req.id).value.side == req.side
    case MATCH => false
  }

  predicate Changes(b: Book, req: Request) {
    && Find(b, req.id).Some?
    && (req.price != Find(b, req.id).value.price || req.quantity != Find(b, req.id).value.initial)
  }

  /** The request puts a limit order into the book's care under its id. */
  predicate Inserts(capacity: nat, b: Book, req: Request) {
    && req.kind == LIMIT
    && match req.message
       case NEW => Find(b, req.id).None? && b.Count() < capacity
       case MODIFY => Accepted(b, req) && Changes(b, req)
       case _ => false
  }

  /** A market MODIFY that changes nothing: the order keeps resting while a market order trades under its id. */
  predicate TradesBeside(b: Book, req: Request) {
    req.message == MODIFY && Accepted(b, req) && !Changes(b, req) && req.kind == MARKET
  }

  /** The request takes the order of its id out of the book for good. */
  predicate Withdraws(b: Book, req: Request) {
    && Accepted(b, req)
    && (req.message == CANCEL || (req.message == MODIFY && Changes(b, req) && req.kind == MARKET))
  }

  /**
   A limit MODIFY that changes price or quantity is a cancel followed by an add
   that cannot fail, however full the arena was; so the order loses its place and
   queues behind its new level. One that changes neither does nothing.
   */
  lemma LimitModify(capacity: nat, b: Book, req: Request)
    requires Inv(capacity, b) && Accepted(b, req) && req.message == MODIFY && req.kind == LIMIT
    ensures Changes(b, req) ==> Process(capacity, b, req) == LimitAdd(Cancelled(b, req.id), req)
    ensures !Changes(b, req) ==> Process(capacity, b, req) == Unchanged(b, SUCCESS)
  {
    CancelKeepsInv(capacity, b, req.id);
  }

  // ----- every request in closed form -----

  /** Success means that the book owns what the request is about, and nothing else does. */
  lemma StatusIsAcceptance(capacity: nat, b: Book, req: Request)
    ensures Process(capacity, b, req).result.status == SUCCESS <==> Accepted(b, req)
  {
  }

  /** The book a request's order meets: its own earlier self has been withdrawn. */
  function Met(b: Book, req: Request): Book {
    if req.message == MODIFY && Changes(b, req) then Cancelled(b, req.id) else b
  }

  /** What a request that trades does to the other side and says about it. */
  ghost predicate Trades(b: Book, req: Request, limit: Option<Price>, lead: Side, out: Outcome) {
    var opp := b.On(req.side.Opposite());
    && FillTotal(out.fills) == Min(req.quantity, Available(req.side, limit, opp))
    && InQueueOrder(req.side, Taker(req), opp, out.fills)
    && (forall k :: 0 <= k < |out.fills| ==> Accepts(req.side, limit, opp[k].price))
    && (out.fills != [] ==> LastQuantity(out.fills) <= opp[|out.fills| - 1].remaining)
    && out.book.On(req.side.Opposite()) == Consumed(opp, |out.fills|, LastQuantity(out.fills))
    && Reported(lead, out)
  }

  /** Two messages a fill, the party on side `lead` first. */
  ghost predicate Reported(lead: Side, out: Outcome) {
    && |out.messages| == 2 * |out.fills|
    && (forall k :: 0 <= k < |out.fills| ==>
          var bid, ask := out.fills[k].bid, out.fills[k].ask;
          var first, second := if lead == BID then bid else ask, if lead == BID then ask else bid;
          && out.messages[2 * k] == Message(first.id, first.client, MATCH, SUCCESS)
          && out.messages[2 * k + 1] == Message(second.id, second.client, MATCH, SUCCESS))
  }

  lemma FillsReported(lead: Side, out: Outcome)
    requires out.messages == MatchMessages(lead, out.fills)
    ensures Reported(lead, out)
  {
    MatchMessagesLength(lead, out.fills);
    forall k | 0 <= k < |out.fills|
      ensures out.messages[2 * k..2 * k + 2] == MessagePair(lead, out.fills[k])
      ensures out.messages[2 * k] == MessagePair(lead, out.fills[k])[0]
      ensures out.messages[2 * k + 1] == MessagePair(lead, out.fills[k])[1]
    {
      MatchMessagesAt(lead, out.fills, k);
      assert out.messages[2 * k] == out.messages[2 * k..2 * k + 2][0];
      assert out.messages[2 * k + 1] == out.messages[2 * k..2 * k + 2][1];
    }
  }

  lemma MarketAddTrades(b: Book, req: Request)
    requires Orderly(b)
    ensures Trades(b, req, None, req.side, MarketAdd(b, req))
  {
    var opp := b.On(req.side.Opposite());
    MarketAddExact(b, req);
    AvailableToMarket(req.side, opp);
    TakeMakers(req.side, Taker(req), None, req.quantity, opp);
    TakeRest(req.side, Taker(req), None, req.quantity, opp);
    FillsReported(req.side, MarketAdd(b, req));
  }

  lemma LimitAddTrades(b: Book, req: Request)
    requires Orderly(b)
    ensures Trades(b, req, Some(req.price), BID, LimitAdd(b, req))
  {
    var opp := b.On(req.side.Opposite());
    LimitAddExact(b, req);
    TakeMakers(req.side, Taker(req), Some(req.price), req.quantity, opp);
    TakeRest(req.side, Taker(req), Some(req.price), req.quantity, opp);
    FillsReported(BID, LimitAdd(b, req));
  }

  /**
   Every request, by guards on the book it meets. A market order trades at any price, its
   own message first, and never rests. A limit order that is inserted trades at prices
   that cross, bids first, and rests behind its level unless a fill emptied it. No other
   request trades or says anything, and all it can do to the book is to withdraw an order.
   */
  lemma ProcessExact(capacity: nat, b: Book, req: Request)
    requires Inv(capacity, b)
    ensures var out := Process(capacity, b, req);
      var met := Met(b, req);
      var opp, own := met.On(req.side.Opposite()), met.On(req.side);
      if GoesToMarket(b, req) then
        Trades(met, req, None, req.side, out) && out.book.On(req.side) == own
      else if Inserts(capacity, b, req) then
        && Trades(met, req, Some(req.price), BID, out)
        && out.book.On(req.side) ==
           if CanMatch(req.side, Some(req.price), opp) && req.quantity <= Available(req.side, Some(req.price), opp)
           then own
           else Insert(own, Rested(req, req.quantity - FillTotal(out.fills)))
      else
        && out.fills == [] && out.messages == []
        && out.book == if Withdraws(b, req) then Cancelled(b, req.id) else b
  {
    if GoesToMarket(b, req) || Inserts(capacity, b, req) {
      CancelKeepsInv(capacity, b, req.id);
      var met := Met(b, req);
      ProcessAdds(capacity, b, req);
      if GoesToMarket(b, req) {
        MarketAddTrades(met, req);
        MarketAddExact(met, req);
      } else {
        LimitAddTrades(met, req);
        LimitAddExact(met, req);
      }
    }
  }

  lemma ProcessAdds(capacity: nat, b: Book, req: Request)
    requires Inv(capacity, b)
    ensures GoesToMarket(b, req) ==> Process(capacity, b, req) == MarketAdd(Met(b, req), req)
    ensures Inserts(capacity, b, req) ==> Process(capacity, b, req) == LimitAdd(Met(b, req), req)
  {
    CancelKeepsInv(capacity, b, req.id);
  }

  /** What the book pushes itself are fills. */
  lemma OnlyFills(capacity: nat, b: Book, req: Request)
    ensures forall m :: m in Process(capacity, b, req).messages ==> m.message == MATCH
  {
    forall side: Side, fills: seq<Fill> | true
      ensures forall m :: m in MatchMessages(side, fills) ==> m.message == MATCH
    {
      FillsOnly(side, fills);
    }
  }

  lemma {:induction false} FillsOnly(lead: Side, fills: seq<Fill>)
    ensures forall m :: m in MatchMessages(lead, fills) ==> m.message == MATCH
  {
    if fills != [] {
      FillsOnly(lead, fills[1..]);
    }
  }

  // ----- acknowledging and reporting -----

  /** An acknowledgement is suppressed when the request produced fills, and only then. */
  predicate AckForFills(out: Outcome) {
    out.result.suppressAck <==> out.messages != []
  }

  /** The request runs as a market order. */
  predicate GoesToMarket(b: Book, req: Request) {
    Accepted(b, req) && req.message in {NEW, MODIFY} && req.kind == MARKET
  }

  lemma MarketAckForFills(b: Book, req: Request)
    requires Orderly(b)
    ensures var opp := b.On(req.side.Opposite());
      AckForFills(MarketAdd(b, req)) <==> !(req.quantity == 0 || (opp != [] && Total(opp) < req.quantity))
  {
    MarketAddExact(b, req);
    if req.quantity > 0 {
      TakeQuantity(req.side, Taker(req), None, req.quantity, b.On(req.side.Opposite()));
    }
  }

  lemma LimitAckForFills(b: Book, req: Request)
    requires Orderly(b)
    ensures AckForFills(LimitAdd(b, req))
  {
    MatchMessagesLength(BID, LimitAdd(b, req).fills);
  }

  /** A withdrawn order leaves the other side of the book as it was. */
  lemma CancelKeepsOpposite(capacity: nat, b: Book, req: Request)
    requires Inv(capacity, b) && Accepted(b, req) && req.message == MODIFY
    ensures Cancelled(b, req.id).On(req.side.Opposite()) == b.On(req.side.Opposite())
  {
    OnItsOwnSide(capacity, b, req.id);
    WithoutAbsent(b.On(req.side.Opposite()), req.id);
  }

  /**
   Suppression follows the fills for every request except a market order that wants
   nothing, or more than an occupied other side has.
   */
  lemma AckForFillsUnless(capacity: nat, b: Book, req: Request)
    requires Inv(capacity, b)
    ensures var opp := b.On(req.side.Opposite());
      AckForFills(Process(capacity, b, req)) <==>
      !(GoesToMarket(b, req) && (req.quantity == 0 || (opp != [] && Total(opp) < req.quantity)))
  {
    if Accepted(b, req) && req.message in {NEW, MODIFY} {
      var at := if req.message == MODIFY && Changes(b, req) then Cancelled(b, req.id) else b;
      CancelKeepsInv(capacity, b, req.id);
      if req.message == MODIFY {
        CancelKeepsOpposite(capacity, b, req);
      }
      MarketAckForFills(at, req);
      LimitAckForFills(at, req);
    }
  }

  /** A market order the other side can fill, even one for nothing, or a limit order that crosses as it is inserted. */
  predicate TakenUp(capacity: nat, b: Book, req: Request) {
    var opp := b.On(req.side.Opposite());
    || (GoesToMarket(b, req) && req.quantity <= Total(opp))
    || (Inserts(capacity, b, req) && CanMatch(req.side, Some(req.price), opp))
  }

  lemma AddTakenUp(capacity: nat, b: Book, req: Request)
    requires Orderly(b)
    ensures var opp := b.On(req.side.Opposite());
      Add(capacity, b, req).result.suppressAck <==>
      if req.kind == MARKET then req.quantity <= Total(opp)
      else Find(b, req.id).None? && b.Count() < capacity && CanMatch(req.side, Some(req.price), opp)
  {
    MarketAddExact(b, req);
    LimitAddExact(b, req);
  }

  /** Whether a request will be acknowledged can be told from the book it meets. */
  lemma UnacknowledgedIfTakenUp(capacity: nat, b: Book, req: Request)
    requires Inv(capacity, b)
    ensures Process(capacity, b, req).result.suppressAck <==> TakenUp(capacity, b, req)
  {
    hide Add;
    hide CanMatch;
    hide Total;
    AddTakenUp(capacity, b, req);
    if req.message == MODIFY && Accepted(b, req) {
      hide Cancelled;
      CancelKeepsInv(capacity, b, req.id);
      CancelKeepsOpposite(capacity, b, req);
      AddTakenUp(capacity, Cancelled(b, req.id), req);
      MarketAddExact(b, req);
      hide Inv;
    }
  }

  /** A bid for 5 that finds 2: two messages report the fill, and it is acknowledged as well. */
  lemma PartlyFilledIsAcknowledged()
    ensures var b := Book([], [Resting(0, 1, ASK, 10, 2, 2)]);
      var out := Process(8, b, Request(NEW, 1, 2, BID, MARKET, 0, 5));
      && out.messages == [MatchMessage(Party(1, 2)), MatchMessage(Party(0, 1))]
      && !out.result.suppressAck && !AckForFills(out)
  {
    var ask := Resting(0, 1, ASK, 10, 2, 2);
    var req := Request(NEW, 1, 2, BID, MARKET, 0, 5);
    var fill := Fill(Taker(req), ask.Who(), 2);
    assert Take(BID, Taker(req), None, 3, [ask][1..]) == Sweep([], 3, false, []);
    assert TakeMarket(BID, Taker(req), 5, [ask]) == Sweep([], 3, false, [fill]);
    assert [fill][1..] == [];
    assert MatchMessages(BID, [fill]) == MessagePair(BID, fill);
  }

  // ----- responses -----

  function Ack(req: Request, result: ProcessResult): seq<Message> {
    if result.suppressAck then [] else [Message(req.id, req.client, req.message, result.status)]
  }

  /** Everything pushed for one request: the fills, then the acknowledgement if it is not suppressed. */
  function Sent(req: Request, out: Outcome): seq<Message> {
    out.messages + Ack(req, out.result)
  }

  /** The acknowledgement comes last, if at all, behind nothing but fills, and says whether the book accepted. */
  predicate AckTells(capacity: nat, b: Book, req: Request, sent: seq<Message>) {
    var ack := Message(req.id, req.client, req.message, if Accepted(b, req) then SUCCESS else FAILURE);
    && (forall i :: 0 <= i < |sent| && sent[i].message != MATCH ==> i == |sent| - 1 && sent[i] == ack)
    && (TakenUp(capacity, b, req) <==> ack !in sent)
    && (!Accepted(b, req) ==> sent == [ack])
  }

  lemma SentTellsAcceptance(capacity: nat, b: Book, req: Request)
    requires Inv(capacity, b) && req.message != MATCH
    ensures var out := Process(capacity, b, req);
      AckTells(capacity, b, req, Sent(req, out)) && (!Accepted(b, req) ==> out.book == b)
  {
    var out := Process(capacity, b, req);
    StatusIsAcceptance(capacity, b, req);
    UnacknowledgedIfTakenUp(capacity, b, req);
    OnlyFills(capacity, b, req);
    ProcessExact(capacity, b, req);
    hide Process;
    hide Inv;
    hide TakenUp;
    hide Trades;
    assert forall i :: 0 <= i < |out.messages| ==> out.messages[i] in out.messages;
    if !out.result.suppressAck {
      assert Sent(req, out)[|out.messages|] == Ack(req, out.result)[0];
    }
  }

  predicate Answers(sent: seq<Message>, req: Request) {
    exists k :: 0 <= k < |sent| && sent[k].id == req.id && sent[k].client == req.client
  }

  /** A market order for nothing. */
  predicate Silent(b: Book, req: Request) {
    Accepted(b, req) && req.message in {NEW, MODIFY} && req.kind == MARKET && req.quantity == 0
  }

  lemma AddAnswers(capacity: nat, b: Book, req: Request)
    requires Inv(capacity, b)
    ensures var out := Add(capacity, b, req);
      && (out.result.suppressAck && !(req.kind == MARKET && req.quantity == 0) ==> Reports(out.messages, Taker(req)))
      && (req.kind == MARKET && req.quantity == 0 ==> out.result.suppressAck && out.messages == [])
  {
    if req.kind == MARKET {
      MarketAddExact(b, req);
      var opp := b.On(req.side.Opposite());
      var out := MarketAdd(b, req);
      TakerReported(req.side, Taker(req), opp, out.fills, req.side);
    } else {
      LimitAddExact(b, req);
    }
  }

  /** One message under the request's own id is an answer. */
  lemma AnsweredBy(req: Request, out: Outcome)
    requires !out.result.suppressAck || Reports(out.messages, Taker(req))
    ensures Answers(Sent(req, out), req)
  {
    var sent := Sent(req, out);
    if out.result.suppressAck {
      var k :| 0 <= k < |out.messages| && out.messages[k] == MatchMessage(Taker(req));
      assert sent[k] == out.messages[k];
    } else {
      assert sent[|out.messages|] == Ack(req, out.result)[0];
    }
  }

  /**
   Every request is answered by at least one message carrying its id and client,
   with one family of exceptions: an accepted market order of quantity 0 gets none.
   */
  lemma AnsweredUnlessSilent(capacity: nat, b: Book, req: Request)
    requires Inv(capacity, b)
    ensures var sent := Sent(req, Process(capacity, b, req));
      && (Answers(sent, req) <==> !Silent(b, req))
      && (Silent(b, req) ==> sent == [])
  {
    var out := Process(capacity, b, req);
    if Accepted(b, req) && req.message in {NEW, MODIFY} {
      var at := if req.message == MODIFY && Changes(b, req) then Cancelled(b, req.id) else b;
      CancelKeepsInv(capacity, b, req.id);
      AddAnswers(capacity, at, req);
      assert out == Add(capacity, at, req) || out == Unchanged(b, SUCCESS);
    }
    if !Silent(b, req) {
      AnsweredBy(req, out);
    }
  }
}
