/** The engine as a machine over inbound messages, and what holds of every run of it. */
module EngineRuns {
  import opened OrderTypes
  import opened PriceTimeBook
  import opened BookLists
  import opened Sweeps
  import opened BookTheorems
  import opened Conservation

  datatype State = State(book: Book, nextId: OrderId)

  const START := State(Book([], []), 0)

  /** A NEW order gets the next id; any other message names one. */
  function Assigned(st: State, msg: Request): Request {
    if msg.message == NEW then msg.(id := st.nextId) else msg
  }

  function Executed(capacity: nat, st: State, msg: Request): Outcome {
    Process(capacity, st.book, Assigned(st, msg))
  }

  function Next(capacity: nat, st: State, msg: Request): State {
    State(Executed(capacity, st, msg).book, if msg.message == NEW then st.nextId + 1 else st.nextId)
  }

  function Run(capacity: nat, st: State, msgs: seq<Request>): State
    decreases |msgs|
  {
    if msgs == [] then st else Run(capacity, Next(capacity, st, msgs[0]), msgs[1..])
  }

  /** All pushes attempted by a run. */
  function SentBy(capacity: nat, st: State, msgs: seq<Request>): seq<Message>
    decreases |msgs|
  {
    if msgs == [] then []
    else Sent(Assigned(st, msgs[0]), Executed(capacity, st, msgs[0])) +
         SentBy(capacity, Next(capacity, st, msgs[0]), msgs[1..])
  }

  lemma {:induction false} RunSplit(capacity: nat, st: State, a: seq<Request>, b: seq<Request>)
    ensures Run(capacity, st, a + b) == Run(capacity, Run(capacity, st, a), b)
    ensures SentBy(capacity, st, a + b) == SentBy(capacity, st, a) + SentBy(capacity, Run(capacity, st, a), b)
    decreases |a|
  {
    if a == [] {
      assert a + b == b;
    } else {
      assert (a + b)[1..] == a[1..] + b;
      RunSplit(capacity, Next(capacity, st, a[0]), a[1..], b);
    }
  }

  // ----- safety of every run -----

  ghost predicate AllBelow(s: seq<Resting>, bound: OrderId) {
    forall i :: 0 <= i < |s| ==> s[i].id < bound
  }

  /** The book's invariant, and every resting id already handed out. */
  ghost predicate Safe(capacity: nat, st: State) {
    Inv(capacity, st.book) && AllBelow(st.book.bids, st.nextId) && AllBelow(st.book.asks, st.nextId)
  }

  lemma StartSafe(capacity: nat)
    ensures Safe(capacity, START)
  {
  }

  lemma FreshId(capacity: nat, st: State)
    requires Safe(capacity, st)
    ensures Find(st.book, st.nextId).None?
  {
    FindNothing(st.book.bids, st.nextId);
    FindNothing(st.book.asks, st.nextId);
  }

  /** No request makes an order appear under an id other than its own. */
  lemma NoStrangers(capacity: nat, b: Book, req: Request, id: OrderId)
    requires Inv(capacity, b) && (req.message == NEW ==> Find(b, req.id).None?)
    requires id != req.id && Find(b, id).None?
    ensures Find(Process(capacity, b, req).book, id).None?
  {
    RequestLedger(capacity, b, req, id);
  }

  lemma StepSafe(capacity: nat, st: State, msg: Request)
    requires Safe(capacity, st)
    ensures Safe(capacity, Next(capacity, st, msg))
  {
    var req := Assigned(st, msg);
    var st' := Next(capacity, st, msg);
    FreshId(capacity, st);
    ProcessKeepsInv(capacity, st.book, req);
    BelowAfter(capacity, st, msg, st'.book.bids, BID);
    BelowAfter(capacity, st, msg, st'.book.asks, ASK);
  }

  lemma BelowAfter(capacity: nat, st: State, msg: Request, s: seq<Resting>, side: Side)
    requires Safe(capacity, st) && Inv(capacity, Next(capacity, st, msg).book)
    requires s == Next(capacity, st, msg).book.On(side)
    ensures AllBelow(s, Next(capacity, st, msg).nextId)
  {
    var req := Assigned(st, msg);
    FreshId(capacity, st);
    forall i | 0 <= i < |s|
      ensures s[i].id < Next(capacity, st, msg).nextId
    {
      var id := s[i].id;
      FindAt(s, i);
      FindSided(Next(capacity, st, msg).book, side, id);
      if Find(st.book, id).Some? {
        BelowBefore(capacity, st, id);
      } else if id != req.id {
        NoStrangers(capacity, st.book, req, id);
      }
    }
  }

  lemma BelowBefore(capacity: nat, st: State, id: OrderId)
    requires Safe(capacity, st) && Find(st.book, id).Some?
    ensures id < st.nextId
  {
    if FindIn(st.book.bids, id).Some? {
      var k := FoundAt(st.book.bids, id);
    } else {
      var k := FoundAt(st.book.asks, id);
    }
  }

  /**
   Over every run from the empty book: sorted, uncrossed, duplicate-free, within
   the arena, and no resting id that was not handed out.
   */
  lemma {:induction false} RunSafe(capacity: nat, st: State, msgs: seq<Request>)
    requires Safe(capacity, st)
    ensures Safe(capacity, Run(capacity, st, msgs))
    decreases |msgs|
  {
    if msgs != [] {
      StepSafe(capacity, st, msgs[0]);
      RunSafe(capacity, Next(capacity, st, msgs[0]), msgs[1..]);
    }
  }

  /**
   In every run, the id given to a NEW order is not in the book, and each message
   is answered under its own id and client unless it is an accepted market order
   of quantity 0.
   */
  lemma RunAnswers(capacity: nat, msgs: seq<Request>, k: nat)
    requires k < |msgs|
    ensures var st := Run(capacity, START, msgs[..k]);
      var req := Assigned(st, msgs[k]);
      && (msgs[k].message == NEW ==> Find(st.book, req.id).None?)
      && (Answers(Sent(req, Executed(capacity, st, msgs[k])), req) <==> !Silent(st.book, req))
  {
    hide Run;
    hide Sent;
    hide Answers;
    hide Silent;
    hide Inv;
    hide Process;
    StartSafe(capacity);
    var st := Run(capacity, START, msgs[..k]);
    RunSafe(capacity, START, msgs[..k]);
    FreshId(capacity, st);
    AnsweredUnlessSilent(capacity, st.book, Assigned(st, msgs[k]));
  }

  /** How many of these messages are NEW. */
  function NewCount(msgs: seq<Request>): nat {
    if msgs == [] then 0 else NewCount(msgs[1..]) + (if msgs[0].message == NEW then 1 else 0)
  }

  /** Ids are handed out one by one: the next is the number of NEW messages so far. */
  lemma {:induction false} NextIdCounts(capacity: nat, st: State, msgs: seq<Request>)
    ensures Run(capacity, st, msgs).nextId == st.nextId + NewCount(msgs)
    decreases |msgs|
  {
    if msgs != [] {
      NextIdCounts(capacity, Next(capacity, st, msgs[0]), msgs[1..]);
    }
  }

  lemma {:induction false} NewCountSplit(a: seq<Request>, b: seq<Request>)
    ensures NewCount(a + b) == NewCount(a) + NewCount(b)
  {
    if a == [] {
      assert a + b == b;
    } else {
      assert (a + b)[1..] == a[1..] + b;
      NewCountSplit(a[1..], b);
    }
  }

  /** The id message `k` of a run is executed and answered under. */
  function IdAt(capacity: nat, msgs: seq<Request>, k: nat): OrderId
    requires k < |msgs|
  {
    Assigned(Run(capacity, START, msgs[..k]), msgs[k]).id
  }

  /** In every run a NEW gets the number of those before it; any other message keeps the id it names. */
  lemma IdIsCount(capacity: nat, msgs: seq<Request>, k: nat)
    requires k < |msgs|
    ensures IdAt(capacity, msgs, k) == if msgs[k].message == NEW then NewCount(msgs[..k]) else msgs[k].id
  {
    NextIdCounts(capacity, START, msgs[..k]);
  }

  /** So no two NEW requests of a run get the same. */
  lemma NewIdsDiffer(capacity: nat, msgs: seq<Request>, j: nat, k: nat)
    requires j < k < |msgs| && msgs[j].message == NEW && msgs[k].message == NEW
    ensures IdAt(capacity, msgs, j) < IdAt(capacity, msgs, k)
  {
    IdIsCount(capacity, msgs, j);
    IdIsCount(capacity, msgs, k);
    assert msgs[..k] == msgs[..j] + msgs[j..k] && msgs[j..k][0] == msgs[j];
    NewCountSplit(msgs[..j], msgs[j..k]);
  }

  /**
   In every run the acknowledgement of a message, if there is one, is the last thing
   pushed for it, under its id, client and type, and says whether the book accepted it;
   what was pushed before are fills. A refused message changes nothing and gets nothing else.
   */
  lemma AckTellsAcceptance(capacity: nat, msgs: seq<Request>, k: nat)
    requires k < |msgs| && msgs[k].message != MATCH
    ensures var st := Run(capacity, START, msgs[..k]);
      var req := Assigned(st, msgs[k]);
      var out := Executed(capacity, st, msgs[k]);
      && AckTells(capacity, st.book, req, Sent(req, out))
      && (!Accepted(st.book, req) ==> out.book == st.book)
  {
    hide Run;
    hide AckTells;
    hide Inv;
    hide Sent;
    StartSafe(capacity);
    RunSafe(capacity, START, msgs[..k]);
    var st := Run(capacity, START, msgs[..k]);
    SentTellsAcceptance(capacity, st.book, Assigned(st, msgs[k]));
  }

  // ----- conservation over runs -----

  /** What one request does to the order of one id. */
  lemma RequestLedger(capacity: nat, b: Book, req: Request, id: OrderId)
    requires Inv(capacity, b) && (req.message == NEW ==> Find(b, req.id).None?)
    ensures var o := Process(capacity, b, req);
      var q := FilledIn(o.fills, id);
      if id != req.id then
        Lost(Find(b, id), Find(o.book, id), q)
      else if Inserts(capacity, b, req) then
        Lost(Some(Rested(req, req.quantity)), Find(o.book, id), q)
      else if TradesBeside(b, req) then
        Find(o.book, id) == Find(b, id) && q == Min(req.quantity, Total(b.On(req.side.Opposite())))
      else if Withdraws(b, req) || req.message == NEW then
        Find(o.book, id).None? && q == FillTotal(o.fills)
      else
        o.book == b && o.fills == []
  {
    LostNothing(Find(b, id));
    match req.message
    case NEW =>
      AddLedger(capacity, b, req, id);
    case CANCEL =>
      CancelLedger(capacity, b, req.id, id);
    case MODIFY =>
      if Accepted(b, req) {
        CancelLedger(capacity, b, req.id, id);
        if Changes(b, req) {
          CancelKeepsInv(capacity, b, req.id);
          AddLedger(capacity, Cancelled(b, req.id), req, id);
        } else if req.kind == MARKET {
          FindSided(b, req.side, req.id);
          OnItsOwnSide(capacity, b, req.id);
          MarketLedger(capacity, b, req, id);
          MarketAddExact(b, req);
        }
      }
    case MATCH =>
  }

  /**
   A new limit order is acknowledged as a success without being in the book exactly when
   the arena was full.
   */
  lemma DroppedWhenFull(capacity: nat, b: Book, req: Request)
    requires Inv(capacity, b) && req.message == NEW && req.kind == LIMIT && Find(b, req.id).None?
    ensures var out := Process(capacity, b, req);
      && out.result.status == SUCCESS
      && (!out.result.suppressAck && Find(out.book, req.id).None? <==> b.Count() >= capacity)
      && (b.Count() >= capacity ==> out.book == b)
  {
    if b.Count() < capacity {
      LimitAddExact(b, req);
      var opp := b.On(req.side.Opposite());
      if !CanMatch(req.side, Some(req.price), opp) {
        var r := Rested(req, req.quantity - FillTotal(LimitAdd(b, req).fills));
        FindNothing(b.On(req.side), req.id);
        FindInserted(b.On(req.side), r, req.id);
      }
    }
  }

  lemma AddLedger(capacity: nat, b: Book, req: Request, id: OrderId)
    requires Inv(capacity, b) && Find(b, req.id).None?
    ensures var o := Add(capacity, b, req);
      var q := FilledIn(o.fills, id);
      if id != req.id then
        Lost(Find(b, id), Find(o.book, id), q)
      else if req.kind == LIMIT && b.Count() < capacity then
        Lost(Some(Rested(req, req.quantity)), Find(o.book, id), q)
      else
        Find(o.book, id).None? && q == FillTotal(o.fills)
  {
    LostNothing(Find(b, id));
    if req.kind == MARKET {
      FindSided(b, req.side, req.id);
      MarketLedger(capacity, b, req, id);
    } else if b.Count() < capacity {
      LimitLedger(capacity, b, req, id);
    }
  }

  lemma CancelLedger(capacity: nat, b: Book, gone: OrderId, id: OrderId)
    requires Inv(capacity, b)
    ensures Find(Cancelled(b, gone), id) == if id == gone then None else Find(b, id)
  {
    CancelKeepsInv(capacity, b, gone);
    FindWithout(b.bids, gone, id);
    FindWithout(b.asks, gone, id);
  }

  lemma {:induction false} FindWithout(s: seq<Resting>, gone: OrderId, id: OrderId)
    ensures id != gone ==> FindIn(Without(s, gone), id) == FindIn(s, id)
  {
    if s != [] && s[0].id != gone {
      FindWithout(s[1..], gone, id);
      assert Without(s, gone)[1..] == Without(s[1..], gone);
    }
  }

  /** Fills naming `id` since a run last inserted it. */
  function Since(capacity: nat, msgs: seq<Request>, id: OrderId): Quantity {
    if msgs == [] then 0
    else
      var n := |msgs| - 1;
      var st := Run(capacity, START, msgs[..n]);
      var req := Assigned(st, msgs[n]);
      (if id == req.id && Inserts(capacity, st.book, req) then 0 else Since(capacity, msgs[..n], id)) +
      FilledIn(Executed(capacity, st, msgs[n]).fills, id)
  }

  /**
   The part of `Since` that market modifies traded beside the resting order: each of
   them takes what it wants or all there is on the other side of the book it meets.
   */
  function Beside(capacity: nat, msgs: seq<Request>, id: OrderId): Quantity {
    if msgs == [] then 0
    else
      var n := |msgs| - 1;
      var st := Run(capacity, START, msgs[..n]);
      var req := Assigned(st, msgs[n]);
      if id == req.id && Inserts(capacity, st.book, req) then 0
      else Beside(capacity, msgs[..n], id) +
           (if id == req.id && TradesBeside(st.book, req) then BesideQuantity(st.book, req) else 0)
  }

  function BesideQuantity(b: Book, req: Request): Quantity {
    Min(req.quantity, Total(b.On(req.side.Opposite())))
  }

  /** The quantity the run last inserted under this id, unless it was withdrawn since. */
  function Entered(capacity: nat, msgs: seq<Request>, id: OrderId): Option<Quantity> {
    if msgs == [] then None
    else
      var n := |msgs| - 1;
      var st := Run(capacity, START, msgs[..n]);
      var req := Assigned(st, msgs[n]);
      if id == req.id && Inserts(capacity, st.book, req) then Some(req.quantity)
      else if id == req.id && Withdraws(st.book, req) then None
      else Entered(capacity, msgs[..n], id)
  }

  /** Request `k` of the run inserts this id. */
  predicate InsertsAt(capacity: nat, msgs: seq<Request>, id: OrderId, k: nat)
    requires k < |msgs|
  {
    var st := Run(capacity, START, msgs[..k]);
    var req := Assigned(st, msgs[k]);
    id == req.id && Inserts(capacity, st.book, req)
  }

  /** Request `k` of the run trades beside the resting order: it wants something, and there is something. */
  predicate TradesBesideAt(capacity: nat, msgs: seq<Request>, id: OrderId, k: nat)
    requires k < |msgs|
  {
    var st := Run(capacity, START, msgs[..k]);
    var req := Assigned(st, msgs[k]);
    && id == req.id && TradesBeside(st.book, req)
    && req.quantity > 0 && Total(st.book.On(req.side.Opposite())) > 0
  }

  /** Since the run last inserted this id, no request traded beside it. */
  ghost predicate NothingBeside(capacity: nat, msgs: seq<Request>, id: OrderId) {
    forall k :: 0 <= k < |msgs| && TradesBesideAt(capacity, msgs, id, k) ==>
      exists j :: k < j < |msgs| && InsertsAt(capacity, msgs, id, j)
  }

  /** What request `k` does depends on the requests before it only. */
  lemma AtOfPrefix(capacity: nat, msgs: seq<Request>, id: OrderId, n: nat, k: nat)
    requires k < n <= |msgs|
    ensures InsertsAt(capacity, msgs[..n], id, k) == InsertsAt(capacity, msgs, id, k)
    ensures TradesBesideAt(capacity, msgs[..n], id, k) == TradesBesideAt(capacity, msgs, id, k)
  {
    assert msgs[..n][..k] == msgs[..k];
  }

  lemma {:induction false} BesideIsNothing(capacity: nat, msgs: seq<Request>, id: OrderId)
    ensures Beside(capacity, msgs, id) == 0 <==> NothingBeside(capacity, msgs, id)
  {
    if msgs != [] {
      var n := |msgs| - 1;
      BesideIsNothing(capacity, msgs[..n], id);
      forall k | 0 <= k < n
        ensures InsertsAt(capacity, msgs[..n], id, k) == InsertsAt(capacity, msgs, id, k)
        ensures TradesBesideAt(capacity, msgs[..n], id, k) == TradesBesideAt(capacity, msgs, id, k)
      {
        AtOfPrefix(capacity, msgs, id, n, k);
      }
      NothingBesideStep(capacity, msgs, id);
    }
  }

  /** The last request either inserts anew or adds itself to what happened before. */
  lemma NothingBesideStep(capacity: nat, msgs: seq<Request>, id: OrderId)
    requires msgs != []
    requires forall k :: 0 <= k < |msgs| - 1 ==>
      && InsertsAt(capacity, msgs[..|msgs| - 1], id, k) == InsertsAt(capacity, msgs, id, k)
      && TradesBesideAt(capacity, msgs[..|msgs| - 1], id, k) == TradesBesideAt(capacity, msgs, id, k)
    ensures var n := |msgs| - 1;
      NothingBeside(capacity, msgs, id) <==>
      || InsertsAt(capacity, msgs, id, n)
      || (NothingBeside(capacity, msgs[..n], id) && !TradesBesideAt(capacity, msgs, id, n))
  {
    hide InsertsAt;
    hide TradesBesideAt;
    var n := |msgs| - 1;
    var before := msgs[..n];
    InsertsOrTrades(capacity, msgs, id, n);
    if NothingBeside(capacity, msgs, id) && !InsertsAt(capacity, msgs, id, n) {
      forall k | 0 <= k < |before| && TradesBesideAt(capacity, before, id, k)
        ensures exists j :: k < j < |before| && InsertsAt(capacity, before, id, j)
      {
        assert TradesBesideAt(capacity, msgs, id, k);
        var j :| k < j < |msgs| && InsertsAt(capacity, msgs, id, j);
        assert InsertsAt(capacity, before, id, j);
      }
    }
    if NothingBeside(capacity, before, id) && !TradesBesideAt(capacity, msgs, id, n) {
      forall k | 0 <= k < |msgs| && TradesBesideAt(capacity, msgs, id, k)
        ensures exists j :: k < j < |msgs| && InsertsAt(capacity, msgs, id, j)
      {
        assert TradesBesideAt(capacity, before, id, k);
        var j :| k < j < |before| && InsertsAt(capacity, before, id, j);
        assert InsertsAt(capacity, msgs, id, j);
      }
    }
  }

  lemma InsertsOrTrades(capacity: nat, msgs: seq<Request>, id: OrderId, k: nat)
    requires k < |msgs|
    ensures !(InsertsAt(capacity, msgs, id, k) && TradesBesideAt(capacity, msgs, id, k))
  {
  }

  /** Only ids that were handed out are ever entered. */
  lemma {:induction false} EnteredIsHandedOut(capacity: nat, msgs: seq<Request>, id: OrderId)
    ensures Entered(capacity, msgs, id).Some? ==> id < Run(capacity, START, msgs).nextId
  {
    if msgs != [] {
      var n := |msgs| - 1;
      var st := Run(capacity, START, msgs[..n]);
      EnteredIsHandedOut(capacity, msgs[..n], id);
      RunLast(capacity, msgs);
      RunSafe(capacity, START, msgs[..n]);
      if msgs[n].message != NEW && Find(st.book, id).Some? {
        BelowBefore(capacity, st, id);
      }
    }
  }

  /** What still rests under an id. */
  function RestingOf(found: Option<Resting>): Quantity {
    if found.Some? then found.value.remaining else 0
  }

  /**
   Conservation, over every run and for every id that was entered and not withdrawn,
   filled out or not: the quantity entered is what remains of it plus every fill naming
   it since, except for what market modifies traded under its id without touching it.
   So the plain equation holds exactly when none of them found anything to trade.
   */
  lemma {:induction false} RunConserves(capacity: nat, msgs: seq<Request>, id: OrderId)
    ensures var found := Find(Run(capacity, START, msgs).book, id);
      var entered := Entered(capacity, msgs, id);
      && (found.Some? ==> entered == Some(found.value.initial))
      && (entered.Some? ==>
            entered.value + Beside(capacity, msgs, id) == RestingOf(found) + Since(capacity, msgs, id))
      && (entered.Some? ==>
            (entered.value == RestingOf(found) + Since(capacity, msgs, id) <==> NothingBeside(capacity, msgs, id)))
  {
    BesideIsNothing(capacity, msgs, id);
    hide NothingBeside;
    if msgs != [] {
      var n := |msgs| - 1;
      var st := Run(capacity, START, msgs[..n]);
      RunConserves(capacity, msgs[..n], id);
      EnteredIsHandedOut(capacity, msgs[..n], id);
      RunSafe(capacity, START, msgs[..n]);
      FreshId(capacity, st);
      RequestLedger(capacity, st.book, Assigned(st, msgs[n]), id);
      RunLast(capacity, msgs);
      hide Process;
      hide Run;
      hide Inv;
    }
  }

  lemma RunLast(capacity: nat, msgs: seq<Request>)
    requires msgs != []
    ensures var n := |msgs| - 1;
      Run(capacity, START, msgs) == Next(capacity, Run(capacity, START, msgs[..n]), msgs[n])
  {
    var n := |msgs| - 1;
    assert msgs == msgs[..n] + [msgs[n]];
    RunSplit(capacity, START, msgs[..n], [msgs[n]]);
    LastStep(capacity, Run(capacity, START, msgs[..n]), msgs[n]);
  }

  lemma LastStep(capacity: nat, st: State, msg: Request)
    ensures Run(capacity, st, [msg]) == Next(capacity, st, msg)
    ensures SentBy(capacity, st, [msg]) == Sent(Assigned(st, msg), Executed(capacity, st, msg))
  {
    assert [msg][1..] == [];
  }

  /**
   The plain equation does fail: here a resting bid of 3 trades 3 through a market
   modify that changes nothing, and still has 3 to go.
   */
  lemma PlainConservationFails()
    ensures var msgs := [
              Request(NEW, 0, 1, ASK, LIMIT, 10, 5),
              Request(NEW, 0, 2, BID, LIMIT, 4, 3),
              Request(MODIFY, 1, 2, BID, MARKET, 4, 3)];
      var found := Find(Run(8, START, msgs).book, 1);
      found == Some(Resting(1, 2, BID, 4, 3, 3)) && Since(8, msgs, 1) == 3
  {
    var m0 := Request(NEW, 0, 1, ASK, LIMIT, 10, 5);
    var m1 := Request(NEW, 0, 2, BID, LIMIT, 4, 3);
    var m2 := Request(MODIFY, 1, 2, BID, MARKET, 4, 3);
    var ask := Resting(0, 1, ASK, 10, 5, 5);
    var bid := Resting(1, 2, BID, 4, 3, 3);
    var s1 := Next(8, START, m0);
    assert s1 == State(Book([], [ask]), 1);
    var s2 := Next(8, s1, m1);
    assert s2 == State(Book([bid], [ask]), 2);
    var fill := Fill(Party(1, 2), Party(0, 1), 3);
    assert Executed(8, s2, m2).fills == [fill];
    assert Executed(8, s2, m2).book.bids == [bid];
    var msgs := [m0, m1, m2];
    assert msgs[..2] == [m0, m1] && [m0, m1] == [m0] + [m1] && msgs == [m0, m1] + [m2];
    LastStep(8, START, m0);
    LastStep(8, s1, m1);
    LastStep(8, s2, m2);
    RunSplit(8, START, [m0], [m1]);
    RunSplit(8, START, [m0, m1], [m2]);
    assert [fill][1..] == [] && FilledIn([fill], 1) == 3;
    assert [m0, m1][..1] == [m0];
    assert Executed(8, s1, m1).fills == [];
    assert Inserts(8, s1.book, Assigned(s1, m1));
    assert Since(8, [m0, m1], 1) == 0;
  }
}
