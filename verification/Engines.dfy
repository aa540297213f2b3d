/** The engine thread: id assignment, acknowledgement, and the one-ahead request loop. */
module Engines {
  import opened OrderTypes
  import opened PriceTimeBook
  import opened BookTheorems
  import opened EngineRuns
  import opened Orderbooks
  import ServerInbound
  import opened Requests

  /** The messages among the first `n` polls of the inbound ring. */
  function Popped(polls: nat -> Option<Request>, n: nat): seq<Request> {
    if n == 0 then []
    else Popped(polls, n - 1) + (if polls(n - 1).Some? then [polls(n - 1).value] else [])
  }

  lemma PopOne(polls: nat -> Option<Request>, n: nat)
    ensures Popped(polls, n + 1) == Popped(polls, n) + (if polls(n).Some? then [polls(n).value] else [])
    ensures EmptyPolls(polls, n + 1) == EmptyPolls(polls, n) + (if polls(n).None? then 1 else 0)
  {
  }

  /** Polls among the first `n` that found the ring empty. */
  function EmptyPolls(polls: nat -> Option<Request>, n: nat): nat {
    if n == 0 then 0 else EmptyPolls(polls, n - 1) + (if polls(n - 1).None? then 1 else 0)
  }

  class Engine {
    const book: Orderbook
    var nextId: OrderId

    constructor (minPrice: Price, maxPrice: Price, capacity: nat)
      requires minPrice <= maxPrice
      ensures Valid() && Current() == START && book.out == []
      ensures Capacity() == capacity && book.bids.minPrice == minPrice && book.bids.maxPrice == maxPrice
    {
      hide Orderbook.Valid;
      hide Orderbook.Contents;
      book := new Orderbook(minPrice, maxPrice, capacity);
      nextId := 0;
    }

    function Capacity(): nat {
      |book.pool.arena|
    }

    ghost predicate Valid()
      reads this`nextId, book, book.pool, book.bids, book.asks
      reads book.bids.levels, book.asks.levels, book.bids.Linked, book.asks.Linked
    {
      book.Valid() && Safe(Capacity(), State(book.Contents(), nextId))
    }

    ghost function Current(): State
      requires Valid()
      reads this`nextId, book, book.pool, book.bids, book.asks
      reads book.bids.levels, book.asks.levels, book.bids.Linked, book.asks.Linked
    {
      State(book.Contents(), nextId)
    }

    /**
     The ladder is indexed by price without a bounds check: a message that makes the book
     insert an order, in this state, needs a price inside the range. No other message does.
     */
    predicate Priced(st: State, msg: Request) {
      Inserts(Capacity(), st.book, Assigned(st, msg)) ==> book.PriceInRange(msg)
    }

    /** Validation is no help: it lets prices above the range through, even to an engine that just started. */
    lemma ValidationAdmitsUnpriced() returns (m: ServerInbound.WireRequest)
      requires Capacity() > 0 && book.bids.maxPrice + 1 < 0x1_0000_0000
      ensures m.price < 0x1_0000_0000 && ServerInbound.Validated(m) && !Priced(START, Received(m))
    {
      m := ServerInbound.WireRequest(0, 0, book.bids.maxPrice + 1, 1, 0, 0, 1);
    }

    /** Each message is priced for the state it meets. */
    ghost predicate AllPriced(st: State, msgs: seq<Request>) {
      forall k :: 0 <= k < |msgs| ==> Priced(Run(Capacity(), st, msgs[..k]), msgs[k])
    }

    lemma NextPriced(st: State, msgs: seq<Request>, done: seq<Request>, msg: Request)
      requires AllPriced(st, msgs) && done + [msg] <= msgs
      ensures Priced(Run(Capacity(), st, done), msg)
    {
      assert msgs[..|done|] == done && msgs[|done|] == msg;
    }

    /** Assigns an id to a NEW order, lets the book process the request, and acknowledges it unless fills did. */
    method ExecuteRequest(msg: Request)
      requires Valid() && Priced(Current(), msg)
      modifies this, book, book.pool, book.bids, book.asks, book.bids.levels, book.asks.levels, book.pool.arena
      ensures Valid() && Current() == Next(Capacity(), old(Current()), msg)
      ensures book.out == old(book.out) +
              Sent(Assigned(old(Current()), msg), Executed(Capacity(), old(Current()), msg))
    {
      hide Orderbook.Valid;
      hide Orderbook.Consistent;
      hide Orderbook.Contents;
      hide PriceTimeBook.Process;
      hide Inv;
      hide Safe;
      StepSafe(Capacity(), Current(), msg);
      var req := msg;
      if msg.message == NEW {
        req := msg.(id := nextId);
        nextId := nextId + 1;
      }
      var result := book.Process(req);
      if !result.suppressAck {
        book.Push(Message(req.id, msg.client, msg.message, result.status));
      }
    }

    /** The engine has executed exactly `done`, in this order, since `st` and `out0`. */
    ghost predicate HasExecuted(st: State, out0: seq<Message>, done: seq<Request>)
      reads this`nextId, book, book.pool, book.bids, book.asks
      reads book.bids.levels, book.asks.levels, book.bids.Linked, book.asks.Linked
    {
      && Valid()
      && Current() == Run(Capacity(), st, done)
      && book.out == out0 + SentBy(Capacity(), st, done)
    }

    method ExecuteNext(msg: Request, ghost st: State, ghost out0: seq<Message>, ghost done: seq<Request>)
      requires HasExecuted(st, out0, done) && Priced(Run(Capacity(), st, done), msg)
      modifies this, book, book.pool, book.bids, book.asks, book.bids.levels, book.asks.levels, book.pool.arena
      ensures HasExecuted(st, out0, done + [msg])
    {
      hide Valid;
      hide Run;
      hide SentBy;
      hide Executed;
      hide Next;
      hide Sent;
      RunSplit(Capacity(), st, done, [msg]);
      LastStep(Capacity(), Current(), msg);
      ghost var sent := SentBy(Capacity(), st, done);
      ghost var more := Sent(Assigned(Current(), msg), Executed(Capacity(), Current(), msg));
      assert out0 + (sent + more) == (out0 + sent) + more;
      ExecuteRequest(msg);
    }

    /** Drains the pending messages of the inbound ring. */
    method Step(inbox: seq<Request>)
      requires Valid() && AllPriced(Current(), inbox)
      modifies this, book, book.pool, book.bids, book.asks, book.bids.levels, book.asks.levels, book.pool.arena
      ensures HasExecuted(old(Current()), old(book.out), inbox)
    {
      hide Valid;
      var i := 0;
      while i < |inbox|
        invariant 0 <= i <= |inbox|
        invariant HasExecuted(old(Current()), old(book.out), inbox[..i])
      {
        assert inbox[..i + 1] == inbox[..i] + [inbox[i]];
        NextPriced(old(Current()), inbox, inbox[..i], inbox[i]);
        ExecuteNext(inbox[i], old(Current()), old(book.out), inbox[..i]);
        i := i + 1;
      }
      assert inbox[..i] == inbox;
    }

    /**
     The matching thread: `rounds` iterations before the stop flag is seen, with
     poll number `n` of the inbound ring answering `polls(n)`. Messages are executed
     in the order they were popped, each once, and a stop leaves at most the one
     popped ahead unexecuted. Every round executes a message, unless it has none and the
     ring gives it none; and every round polls.
     */
    method HandleMatching(polls: nat -> Option<Request>, rounds: nat)
      returns (polled: nat, have: bool, cur: Request, ghost done: seq<Request>, ghost idle: nat)
      requires Valid() && forall n: nat :: AllPriced(Current(), Popped(polls, n))
      modifies this, book, book.pool, book.bids, book.asks, book.bids.levels, book.asks.levels, book.pool.arena
      ensures HasExecuted(old(Current()), old(book.out), done)
      ensures Popped(polls, polled) == done + (if have then [cur] else [])
      ensures |done| + idle == rounds && idle <= EmptyPolls(polls, polled) && polled >= rounds
    {
      hide HasExecuted;
      hide Popped;
      hide EmptyPolls;
      hide AllPriced;
      hide Priced;
      hide Valid;
      hide Run;
      polled, have, done, idle := 0, false, [], 0;
      cur := Request(MATCH, 0, 0, BID, LIMIT, 0, 0);
      NothingExecuted(polls);
      var round := 0;
      while round < rounds
        invariant HasExecuted(old(Current()), old(book.out), done)
        invariant Popped(polls, polled) == done + (if have then [cur] else [])
        invariant |done| + idle == round <= rounds && idle <= EmptyPolls(polls, polled) && polled >= round
      {
        round := round + 1;
        if !have {
          var popped := polls(polled);
          PopOne(polls, polled);
          polled := polled + 1;
          if popped.None? {
            idle := idle + 1;
            continue;
          }
          have, cur := true, popped.value;
        }
        assert Popped(polls, polled) == done + [cur];
        var next := polls(polled);
        PopOne(polls, polled);
        NextPriced(old(Current()), Popped(polls, polled), done, cur);
        polled := polled + 1;
        ExecuteNext(cur, old(Current()), old(book.out), done);
        done := done + [cur];
        if next.Some? {
          have, cur := true, next.value;
        } else {
          have := false;
        }
      }
    }

    lemma NothingExecuted(polls: nat -> Option<Request>)
      requires Valid()
      ensures HasExecuted(Current(), book.out, []) && Popped(polls, 0) == [] && EmptyPolls(polls, 0) == 0
    {
    }
  }
}
