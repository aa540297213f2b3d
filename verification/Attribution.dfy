/**
 Whose answer is it? Acknowledgements carry no request number: the client credits each
 to its oldest request still in flight. The engine answers a crossing limit order, or a
 market order it can fill, by fills alone, and a fill answers nothing on the client's side.
 */
module Attribution {
  import opened OrderTypes
  import opened PriceTimeBook
  import opened BookTheorems
  import opened EngineRuns
  import opened Wire
  import opened LoadGenerators

  // ----- the engine's side -----

  /** What one client is shown of the pushes of a run. */
  function ShownTo(c: ClientId, sent: seq<Message>): seq<Response> {
    if sent == [] then []
    else (if sent[0].client == c then [Shown(OnTheWay(sent[0]))] else []) + ShownTo(c, sent[1..])
  }

  function OnTheWay(m: Message): Outbound {
    Outbound(m.id, m.client, m.message, m.status, NO_ERROR, 0)
  }

  /** The types of one client's requests, in order. */
  function KindsOf(c: ClientId, msgs: seq<Request>): seq<MessageType> {
    if msgs == [] then []
    else (if msgs[0].client == c then [msgs[0].message] else []) + KindsOf(c, msgs[1..])
  }

  /** For each of one client's requests, in order: the id it was acknowledged under, if it was. */
  function Acked(capacity: nat, st: State, msgs: seq<Request>, c: ClientId): seq<Option<OrderId>>
    decreases |msgs|
  {
    if msgs == [] then []
    else
      var one := if Executed(capacity, st, msgs[0]).result.suppressAck then None else Some(Assigned(st, msgs[0]).id);
      (if msgs[0].client == c then [one] else []) + Acked(capacity, Next(capacity, st, msgs[0]), msgs[1..], c)
  }

  /** The ids acknowledged, in order. */
  function Given(acked: seq<Option<OrderId>>): seq<OrderId> {
    if acked == [] then []
    else (if acked[0].Some? then [acked[0].value] else []) + Given(acked[1..])
  }

  /** The request that acknowledgement `k` is the answer to. */
  function AnswerTo(acked: seq<Option<OrderId>>, k: nat): nat
    requires k < |Given(acked)|
  {
    if acked[0].None? then 1 + AnswerTo(acked[1..], k)
    else if k == 0 then 0
    else 1 + AnswerTo(acked[1..], k - 1)
  }

  /** Where one client's `j`-th request stands among all. */
  function PlaceOf(c: ClientId, msgs: seq<Request>, j: nat): (k: nat)
    requires j < |KindsOf(c, msgs)|
    ensures k < |msgs| && msgs[k].client == c
  {
    if msgs[0].client != c then 1 + PlaceOf(c, msgs[1..], j)
    else if j == 0 then 0
    else 1 + PlaceOf(c, msgs[1..], j - 1)
  }

  /** Request `k` of the run is taken up by the book it meets. */
  predicate TakenUpAt(capacity: nat, st: State, msgs: seq<Request>, k: nat)
    requires k < |msgs|
  {
    var at := Run(capacity, st, msgs[..k]);
    TakenUp(capacity, at.book, Assigned(at, msgs[k]))
  }

  lemma {:induction false} AckedInStep(capacity: nat, st: State, msgs: seq<Request>, c: ClientId)
    ensures |Acked(capacity, st, msgs, c)| == |KindsOf(c, msgs)|
    decreases |msgs|
  {
    if msgs != [] {
      AckedInStep(capacity, Next(capacity, st, msgs[0]), msgs[1..], c);
    }
  }

  lemma TakenUpFirst(capacity: nat, st: State, msgs: seq<Request>)
    requires Safe(capacity, st) && msgs != []
    ensures Executed(capacity, st, msgs[0]).result.suppressAck <==> TakenUpAt(capacity, st, msgs, 0)
  {
    assert msgs[..0] == [];
    UnacknowledgedIfTakenUp(capacity, st.book, Assigned(st, msgs[0]));
  }

  lemma TakenUpLater(capacity: nat, st: State, msgs: seq<Request>, k: nat)
    requires k + 1 < |msgs|
    ensures TakenUpAt(capacity, st, msgs, k + 1) == TakenUpAt(capacity, Next(capacity, st, msgs[0]), msgs[1..], k)
  {
    hide Next;
    hide TakenUp;
    assert msgs[..k + 1][0] == msgs[0] && msgs[..k + 1][1..] == msgs[1..][..k];
  }

  /** A client's request goes unacknowledged exactly when the book it meets takes it up. */
  lemma {:induction false} UnackedIfTakenUp(capacity: nat, st: State, msgs: seq<Request>, c: ClientId, j: nat)
    requires Safe(capacity, st) && j < |KindsOf(c, msgs)|
    ensures |Acked(capacity, st, msgs, c)| == |KindsOf(c, msgs)|
    ensures Acked(capacity, st, msgs, c)[j].None? <==> TakenUpAt(capacity, st, msgs, PlaceOf(c, msgs, j))
    decreases |msgs|
  {
    hide Executed;
    hide Next;
    hide Assigned;
    hide TakenUpAt;
    hide Safe;
    AckedInStep(capacity, st, msgs, c);
    if msgs[0].client == c && j == 0 {
      TakenUpFirst(capacity, st, msgs);
    } else {
      var st' := Next(capacity, st, msgs[0]);
      var j' := if msgs[0].client == c then j - 1 else j;
      var k := PlaceOf(c, msgs[1..], j');
      AckedInStep(capacity, st', msgs[1..], c);
      StepSafe(capacity, st, msgs[0]);
      UnackedIfTakenUp(capacity, st', msgs[1..], c, j');
      TakenUpLater(capacity, st, msgs, k);
    }
  }

  /** How many requests went unacknowledged. */
  function Unacked(acked: seq<Option<OrderId>>): nat {
    if acked == [] then 0 else (if acked[0].None? then 1 else 0) + Unacked(acked[1..])
  }

  lemma {:induction false} GivenOrNot(acked: seq<Option<OrderId>>)
    ensures |Given(acked)| + Unacked(acked) == |acked|
  {
    if acked != [] {
      GivenOrNot(acked[1..]);
    }
  }

  lemma {:induction false} AnswerToIsAcked(acked: seq<Option<OrderId>>, k: nat)
    requires k < |Given(acked)|
    ensures k <= AnswerTo(acked, k) < |acked| && acked[AnswerTo(acked, k)] == Some(Given(acked)[k])
  {
    if acked[0].None? {
      AnswerToIsAcked(acked[1..], k);
    } else if k > 0 {
      AnswerToIsAcked(acked[1..], k - 1);
    }
  }

  ghost predicate AllAckedBefore(acked: seq<Option<OrderId>>, n: nat) {
    n <= |acked| && forall j :: 0 <= j < n ==> acked[j].Some?
  }

  /** An acknowledgement answers the request of its own number iff every request before that one was acknowledged. */
  lemma {:induction false} InTurn(acked: seq<Option<OrderId>>, k: nat)
    requires k < |Given(acked)|
    ensures AnswerTo(acked, k) == k <==> AllAckedBefore(acked, AnswerTo(acked, k))
  {
    AnswerToIsAcked(acked, k);
    var rest := acked[1..];
    if acked[0].None? {
      AnswerToIsAcked(rest, k);
    } else if k > 0 {
      InTurn(rest, k - 1);
      assert forall j :: 0 < j < |acked| ==> acked[j] == rest[j - 1];
      if AnswerTo(rest, k - 1) == k - 1 {
        assert forall j :: 0 < j < AnswerTo(acked, k) ==> acked[j] == rest[j - 1];
      } else {
        var j :| 0 <= j < AnswerTo(rest, k - 1) && !rest[j].Some?;
        assert acked[j + 1] == rest[j];
      }
    }
  }

  /** A request is not acknowledged exactly when nothing but fills was pushed for it. */
  lemma UnackedIsFillsAlone(capacity: nat, st: State, msg: Request)
    requires msg.message != MATCH
    ensures var out := Executed(capacity, st, msg);
      out.result.suppressAck <==> forall m :: m in Sent(Assigned(st, msg), out) ==> m.message == MATCH
  {
    var out := Executed(capacity, st, msg);
    var req := Assigned(st, msg);
    OnlyFills(capacity, st.book, req);
    if !out.result.suppressAck {
      assert Message(req.id, req.client, req.message, out.result.status) in Sent(req, out);
    }
  }

  // ----- what is heard -----

  /** The ids of the acknowledgements among some responses. */
  function AcksIn(rs: seq<Response>): seq<OrderId> {
    if rs == [] then []
    else AcksIn(rs[..|rs| - 1]) + (if rs[|rs| - 1].Ack? then [rs[|rs| - 1].id] else [])
  }

  predicate AckOrMatch(rs: seq<Response>) {
    forall r :: r in rs ==> r.Ack? || r.Matched?
  }

  lemma {:induction false} AcksInConcat(a: seq<Response>, b: seq<Response>)
    ensures AcksIn(a + b) == AcksIn(a) + AcksIn(b)
  {
    if b == [] {
      assert a + b == a;
    } else {
      assert (a + b)[..|a + b| - 1] == a + b[..|b| - 1];
      AcksInConcat(a, b[..|b| - 1]);
    }
  }

  /** What a client takes for an answer: an acknowledgement, with its id, or an error. */
  function AnswerIn(r: Response): seq<Option<OrderId>> {
    if r.Ack? then [Some(r.id)] else if r.Error? then [None] else []
  }

  function AnswersIn(rs: seq<Response>): seq<Option<OrderId>> {
    if rs == [] then [] else AnswersIn(rs[..|rs| - 1]) + AnswerIn(rs[|rs| - 1])
  }

  predicate NoViolation(rs: seq<Response>) {
    forall r :: r in rs ==> !r.Violation?
  }

  /** Responses that came from the engine, not from the inbound thread. */
  function WithoutErrors(rs: seq<Response>): seq<Response> {
    if rs == [] then []
    else WithoutErrors(rs[..|rs| - 1]) + (if rs[|rs| - 1].Error? then [] else [rs[|rs| - 1]])
  }

  function ErrorsIn(rs: seq<Response>): nat {
    if rs == [] then 0 else ErrorsIn(rs[..|rs| - 1]) + (if rs[|rs| - 1].Error? then 1 else 0)
  }

  lemma {:induction false} AnswersCount(rs: seq<Response>)
    ensures |AnswersIn(rs)| == |AcksIn(rs)| + ErrorsIn(rs)
    ensures AcksIn(WithoutErrors(rs)) == AcksIn(rs)
  {
    if rs != [] {
      var before, last := rs[..|rs| - 1], rs[|rs| - 1];
      AnswersCount(before);
      var kept := if last.Error? then [] else [last];
      assert WithoutErrors(rs) == WithoutErrors(before) + kept;
      AcksInConcat(WithoutErrors(before), kept);
      AcksInConcat(before, [last]);
      assert rs == before + [last];
    }
  }

  /** Without errors, the answers are the acknowledgements. */
  lemma {:induction false} AnswersAreAcks(rs: seq<Response>)
    requires AckOrMatch(rs)
    ensures NoViolation(rs) && |AnswersIn(rs)| == |AcksIn(rs)|
    ensures forall k :: 0 <= k < |AcksIn(rs)| ==> AnswersIn(rs)[k] == Some(AcksIn(rs)[k])
  {
    if rs != [] {
      assert forall r :: r in rs[..|rs| - 1] ==> r in rs;
      AnswersAreAcks(rs[..|rs| - 1]);
    }
  }

  lemma {:induction false} ShownConcat(c: ClientId, a: seq<Message>, b: seq<Message>)
    ensures ShownTo(c, a + b) == ShownTo(c, a) + ShownTo(c, b)
  {
    hide Shown;
    hide OnTheWay;
    if a == [] {
      assert a + b == b;
    } else {
      assert (a + b)[1..] == a[1..] + b;
      ShownConcat(c, a[1..], b);
    }
  }

  lemma {:induction false} FillsShown(c: ClientId, sent: seq<Message>)
    requires forall m :: m in sent ==> m.message == MATCH
    ensures AcksIn(ShownTo(c, sent)) == [] && AckOrMatch(ShownTo(c, sent))
  {
    if sent != [] {
      FillsShown(c, sent[1..]);
      AcksInConcat(if sent[0].client == c then [Shown(OnTheWay(sent[0]))] else [], ShownTo(c, sent[1..]));
    }
  }

  /** One request shows its client one acknowledgement, or none. */
  lemma RequestShown(capacity: nat, st: State, msg: Request, c: ClientId)
    requires msg.message != MATCH
    ensures var out := Executed(capacity, st, msg);
      var shown := ShownTo(c, Sent(Assigned(st, msg), out));
      && AckOrMatch(shown)
      && AcksIn(shown) == if msg.client == c && !out.result.suppressAck then [Assigned(st, msg).id] else []
  {
    var out := Executed(capacity, st, msg);
    var req := Assigned(st, msg);
    var ack := BookTheorems.Ack(req, out.result);
    OnlyFills(capacity, st.book, req);
    ShownConcat(c, out.messages, ack);
    FillsShown(c, out.messages);
    AcksInConcat(ShownTo(c, out.messages), ShownTo(c, ack));
    if ack != [] {
      assert ack[1..] == [];
      var shown := ShownTo(c, ack);
      assert shown == if msg.client == c then [Shown(OnTheWay(ack[0]))] else [];
      assert shown != [] ==> shown[..|shown| - 1] == [];
    }
  }

  /** A client is shown exactly the acknowledgements given, in order, and fills besides. */
  lemma {:induction false} RunShown(capacity: nat, st: State, msgs: seq<Request>, c: ClientId)
    requires forall i :: 0 <= i < |msgs| ==> msgs[i].message != MATCH
    ensures var shown := ShownTo(c, SentBy(capacity, st, msgs));
      AckOrMatch(shown) && AcksIn(shown) == Given(Acked(capacity, st, msgs, c))
    decreases |msgs|
  {
    if msgs != [] {
      var st' := Next(capacity, st, msgs[0]);
      var first := Sent(Assigned(st, msgs[0]), Executed(capacity, st, msgs[0]));
      RunShown(capacity, st', msgs[1..], c);
      RequestShown(capacity, st, msgs[0], c);
      ShownConcat(c, first, SentBy(capacity, st', msgs[1..]));
      AcksInConcat(ShownTo(c, first), ShownTo(c, SentBy(capacity, st', msgs[1..])));
      var acked, later := Acked(capacity, st, msgs, c), Acked(capacity, st', msgs[1..], c);
      if msgs[0].client == c {
        assert acked[1..] == later;
      } else {
        assert acked == later;
      }
    }
  }

  // ----- the client's side -----

  /** What happens to a connection, in the client's order. */
  datatype Event = Requested(kind: MessageType) | Answered(response: Response)

  function Played(events: seq<Event>): Pipeline {
    if events == [] then Pipeline([], [])
    else
      var p := Played(events[..|events| - 1]);
      match events[|events| - 1]
      case Requested(kind) => p.(inFlight := p.inFlight + [kind])
      case Answered(response) => Heard(p, response)
  }

  function Requests(events: seq<Event>): seq<MessageType> {
    if events == [] then []
    else Requests(events[..|events| - 1]) +
         (if events[|events| - 1].Requested? then [events[|events| - 1].kind] else [])
  }

  function Responses(events: seq<Event>): seq<Response> {
    if events == [] then []
    else Responses(events[..|events| - 1]) +
         (if events[|events| - 1].Answered? then [events[|events| - 1].response] else [])
  }

  /** No more answers than requests so far, at any time. */
  ghost predicate Causal(events: seq<Event>) {
    forall i :: 0 <= i <= |events| ==> |AnswersIn(Responses(events[..i]))| <= |Requests(events[..i])|
  }

  /** The ids the client takes for those of its NEW orders: answer `k` is credited to request `k`. */
  function Credited(kinds: seq<MessageType>, answers: seq<Option<OrderId>>): seq<OrderId>
    requires |answers| <= |kinds|
  {
    if answers == [] then []
    else
      var n := |answers| - 1;
      Credited(kinds, answers[..n]) +
      (if kinds[n] == NEW && answers[n].Some? then [answers[n].value] else [])
  }

  lemma {:induction false} CreditedMore(kinds: seq<MessageType>, answers: seq<Option<OrderId>>, kind: MessageType)
    requires |answers| <= |kinds|
    ensures Credited(kinds + [kind], answers) == Credited(kinds, answers)
  {
    if answers != [] {
      CreditedMore(kinds, answers[..|answers| - 1], kind);
    }
  }

  lemma CausalPrefix(events: seq<Event>)
    requires Causal(events) && events != []
    ensures Causal(events[..|events| - 1])
    ensures |AnswersIn(Responses(events))| <= |Requests(events)|
  {
    var n := |events| - 1;
    forall i | 0 <= i <= n
      ensures |AnswersIn(Responses(events[..n][..i]))| <= |Requests(events[..n][..i])|
    {
      assert events[..n][..i] == events[..i];
    }
    assert events[..n + 1] == events;
  }

  /** A request goes to the back of those in flight. */
  lemma CreditedAfterRequest(kinds: seq<MessageType>, answers: seq<Option<OrderId>>, kind: MessageType)
    requires |answers| <= |kinds|
    ensures (kinds + [kind])[|answers|..] == kinds[|answers|..] + [kind]
    ensures Credited(kinds + [kind], answers) == Credited(kinds, answers)
  {
    CreditedMore(kinds, answers, kind);
  }

  /** An answer goes to the oldest request in flight; a fill changes nothing. */
  lemma CreditedAfterAnswer(kinds: seq<MessageType>, answers: seq<Option<OrderId>>, r: Response)
    requires |answers| + |AnswerIn(r)| <= |kinds| && !r.Violation?
    ensures var now := answers + AnswerIn(r);
      Heard(Pipeline(kinds[|answers|..], Credited(kinds, answers)), r) == Pipeline(kinds[|now|..], Credited(kinds, now))
  {
    if r.Matched? {
      assert answers + [] == answers;
    } else {
      assert (answers + AnswerIn(r))[..|answers|] == answers;
      assert kinds[|answers|..][1..] == kinds[|answers| + 1..];
    }
  }

  /** What the last event adds. */
  lemma LastEvent(events: seq<Event>)
    requires events != []
    ensures var last, before := events[|events| - 1], events[..|events| - 1];
      match last
      case Requested(kind) =>
        && Requests(events) == Requests(before) + [kind] && Responses(events) == Responses(before)
        && Played(events) == Played(before).(inFlight := Played(before).inFlight + [kind])
      case Answered(r) =>
        && Requests(events) == Requests(before) && Responses(events) == Responses(before) + [r]
        && AnswersIn(Responses(events)) == AnswersIn(Responses(before)) + AnswerIn(r)
        && Played(events) == Heard(Played(before), r)
  {
    var last, before := events[|events| - 1], events[..|events| - 1];
    if last.Answered? {
      assert (Responses(before) + [last.response])[..|Responses(before)|] == Responses(before);
    }
  }

  /** However requests and answers interleave, answer `k`, be it an error, takes request `k` out of flight. */
  lemma {:induction false} CreditedInTurn(events: seq<Event>)
    requires Causal(events) && NoViolation(Responses(events))
    ensures var kinds, answers := Requests(events), AnswersIn(Responses(events));
      |answers| <= |kinds| && Played(events) == Pipeline(kinds[|answers|..], Credited(kinds, answers))
  {
    if events == [] {
      return;
    }
    hide Played;
    hide Requests;
    hide Responses;
    hide AnswersIn;
    hide Credited;
    hide Heard;
    hide Causal;
    var last, before := events[|events| - 1], events[..|events| - 1];
    CausalPrefix(events);
    LastEvent(events);
    assert forall r :: r in Responses(before) ==> r in Responses(events);
    CreditedInTurn(before);
    var kinds, answers := Requests(before), AnswersIn(Responses(before));
    if last.Requested? {
      CreditedAfterRequest(kinds, answers, last.kind);
    } else {
      assert last.response in Responses(events);
      CreditedAfterAnswer(kinds, answers, last.response);
    }
  }

  // ----- both together -----

  /** None of one client's first `n` requests of the run is taken up by the book it meets. */
  ghost predicate NoneTakenUp(capacity: nat, msgs: seq<Request>, c: ClientId, n: nat)
    requires n <= |KindsOf(c, msgs)|
  {
    forall j :: 0 <= j < n ==> !TakenUpAt(capacity, START, msgs, PlaceOf(c, msgs, j))
  }

  lemma AckedIfNoneTakenUp(capacity: nat, msgs: seq<Request>, c: ClientId, n: nat)
    requires n <= |KindsOf(c, msgs)|
    ensures AllAckedBefore(Acked(capacity, START, msgs, c), n) <==> NoneTakenUp(capacity, msgs, c, n)
  {
    hide Acked;
    hide TakenUpAt;
    hide PlaceOf;
    hide KindsOf;
    var acked := Acked(capacity, START, msgs, c);
    AckedInStep(capacity, START, msgs, c);
    forall j | 0 <= j < n
      ensures acked[j].None? <==> TakenUpAt(capacity, START, msgs, PlaceOf(c, msgs, j))
    {
      UnackedIfTakenUp(capacity, START, msgs, c, j);
    }
  }

  /**
   A client whose requests are among those of a run, and that has been shown some of
   what the run pushed for it: each acknowledgement took the oldest request out of flight
   and was credited to it. That is the request it answers if and only if none of the
   client's requests before that one was taken up by the book it met.
   */
  lemma AttributionExact(capacity: nat, msgs: seq<Request>, c: ClientId, events: seq<Event>)
    requires forall i :: 0 <= i < |msgs| ==> msgs[i].message != MATCH
    requires Causal(events) && KindsOf(c, msgs) <= Requests(events)
    requires Responses(events) <= ShownTo(c, SentBy(capacity, START, msgs))
    ensures var acked, kinds := Acked(capacity, START, msgs, c), Requests(events);
      var ids, answers := AcksIn(Responses(events)), AnswersIn(Responses(events));
      && |acked| == |KindsOf(c, msgs)| && ids <= Given(acked) && |ids| == |answers| <= |kinds|
      && (forall k :: 0 <= k < |ids| ==> answers[k] == Some(ids[k]))
      && Played(events) == Pipeline(kinds[|ids|..], Credited(kinds, answers))
      && (forall k :: 0 <= k < |ids| ==>
            && AnswerTo(acked, k) < |acked|
            && (AnswerTo(acked, k) == k <==> NoneTakenUp(capacity, msgs, c, AnswerTo(acked, k))))
  {
    hide Played;
    hide Requests;
    hide Responses;
    hide AcksIn;
    hide AnswersIn;
    hide Acked;
    hide Given;
    hide AnswerTo;
    hide Credited;
    hide SentBy;
    hide ShownTo;
    hide KindsOf;
    hide AllAckedBefore;
    hide NoneTakenUp;
    var acked := Acked(capacity, START, msgs, c);
    var shown := ShownTo(c, SentBy(capacity, START, msgs));
    var rs := Responses(events);
    RunShown(capacity, START, msgs, c);
    AckedInStep(capacity, START, msgs, c);
    assert shown == rs + shown[|rs|..];
    AcksInConcat(rs, shown[|rs|..]);
    assert forall r :: r in rs ==> r in shown;
    AnswersAreAcks(rs);
    CreditedInTurn(events);
    forall k | 0 <= k < |AcksIn(rs)|
      ensures AnswerTo(acked, k) < |acked|
      ensures AnswerTo(acked, k) == k <==> NoneTakenUp(capacity, msgs, c, AnswerTo(acked, k))
    {
      AnswerToIsAcked(acked, k);
      InTurn(acked, k);
      AckedIfNoneTakenUp(capacity, msgs, c, AnswerTo(acked, k));
    }
  }

  /** How many of one client's first `n` requests the books they meet take up. */
  function TakenUpCount(capacity: nat, msgs: seq<Request>, c: ClientId, n: nat): nat
    requires n <= |KindsOf(c, msgs)|
  {
    if n == 0 then 0
    else
      TakenUpCount(capacity, msgs, c, n - 1) +
      (if TakenUpAt(capacity, START, msgs, PlaceOf(c, msgs, n - 1)) then 1 else 0)
  }

  lemma {:induction false} UnackedLast(acked: seq<Option<OrderId>>, one: Option<OrderId>)
    ensures Unacked(acked + [one]) == Unacked(acked) + (if one.None? then 1 else 0)
  {
    if acked == [] {
      assert [one][1..] == [] && acked + [one] == [one];
    } else {
      assert (acked + [one])[1..] == acked[1..] + [one];
      UnackedLast(acked[1..], one);
    }
  }

  lemma NoneUnacked()
    ensures Unacked([]) == 0
  {
  }

  lemma {:induction false} UnackedCount(capacity: nat, msgs: seq<Request>, c: ClientId, n: nat)
    requires n <= |KindsOf(c, msgs)|
    ensures var acked := Acked(capacity, START, msgs, c);
      n <= |acked| && Unacked(acked[..n]) == TakenUpCount(capacity, msgs, c, n)
  {
    hide Acked;
    hide Unacked;
    hide PlaceOf;
    hide KindsOf;
    hide TakenUpAt;
    var acked := Acked(capacity, START, msgs, c);
    AckedInStep(capacity, START, msgs, c);
    if n == 0 {
      NoneUnacked();
    } else {
      UnackedCount(capacity, msgs, c, n - 1);
      UnackedIfTakenUp(capacity, START, msgs, c, n - 1);
      assert acked[..n] == acked[..n - 1] + [acked[n - 1]];
      UnackedLast(acked[..n - 1], acked[n - 1]);
    }
  }

  /**
   Every request that was taken up keeps a place in the pipeline for good: once every
   request was answered by an error or executed, and everything pushed for the client was
   heard, exactly so many places are still taken. So the client waits for ever, with
   nothing left to hear, when that is its whole pipeline.
   */
  lemma PlacesLost(capacity: nat, msgs: seq<Request>, c: ClientId, events: seq<Event>)
    requires forall i :: 0 <= i < |msgs| ==> msgs[i].message != MATCH
    requires Causal(events) && NoViolation(Responses(events))
    requires |Requests(events)| == |KindsOf(c, msgs)| + ErrorsIn(Responses(events))
    requires WithoutErrors(Responses(events)) == ShownTo(c, SentBy(capacity, START, msgs))
    ensures |Played(events).inFlight| == TakenUpCount(capacity, msgs, c, |KindsOf(c, msgs)|)
  {
    hide Played;
    hide Requests;
    hide Responses;
    hide AcksIn;
    hide AnswersIn;
    hide ErrorsIn;
    hide WithoutErrors;
    hide Acked;
    hide Given;
    hide Credited;
    hide SentBy;
    hide ShownTo;
    hide KindsOf;
    hide TakenUpCount;
    var acked := Acked(capacity, START, msgs, c);
    RunShown(capacity, START, msgs, c);
    AckedInStep(capacity, START, msgs, c);
    CreditedInTurn(events);
    AnswersCount(Responses(events));
    GivenOrNot(acked);
    UnackedCount(capacity, msgs, c, |acked|);
    assert acked[..|acked|] == acked;
  }

  /**
   It does go wrong: client 2 trades away a new order and is refused a cancel of order 99.
   It takes that answer for the one to its new order, and 99 for the new order's id; and
   it goes on waiting for an answer to the cancel.
   */
  lemma MisattributedAck() returns (events: seq<Event>)
    ensures var msgs := [
              Request(NEW, 0, 1, ASK, LIMIT, 10, 5),
              Request(NEW, 0, 2, BID, LIMIT, 10, 5),
              Request(CANCEL, 99, 2, BID, LIMIT, 0, 0)];
      && Requests(events) == KindsOf(2, msgs) && Responses(events) == ShownTo(2, SentBy(8, START, msgs))
      && Played(events) == Pipeline([CANCEL], [99])
  {
    var m0 := Request(NEW, 0, 1, ASK, LIMIT, 10, 5);
    var m1 := Request(NEW, 0, 2, BID, LIMIT, 10, 5);
    var m2 := Request(CANCEL, 99, 2, BID, LIMIT, 0, 0);
    var matched, ack := Matched(2, 1), Response.Ack(2, 99);
    PushedInTurn(m0, m1, m2);
    var sent := [Message(0, 1, NEW, SUCCESS), MatchMessage(Party(1, 2)), MatchMessage(Party(0, 1)),
                 Message(99, 2, CANCEL, FAILURE)];
    ShownInTurn(sent[0], sent[1], sent[2], sent[3]);
    KindsInTurn(m0, m1, m2);
    events := [Requested(NEW), Requested(CANCEL), Answered(matched), Answered(ack)];
    PlayedInTurn(matched, ack);
  }

  lemma PlayedInTurn(matched: Response, ack: Response)
    requires matched.Matched? && ack.Ack?
    ensures var events := [Requested(NEW), Requested(CANCEL), Answered(matched), Answered(ack)];
      && Requests(events) == [NEW, CANCEL] && Responses(events) == [matched, ack]
      && Played(events) == Pipeline([CANCEL], [ack.id])
  {
    hide Played;
    hide Requests;
    hide Responses;
    hide AnswersIn;
    hide AnswerIn;
    var e1, e2, e3, e4 := Requested(NEW), Requested(CANCEL), Answered(matched), Answered(ack);
    NoEvents();
    assert [e1][..0] == [];
    LastEvent([e1]);
    assert [e1, e2][..1] == [e1];
    LastEvent([e1, e2]);
    assert Played([e1, e2]) == Pipeline([NEW, CANCEL], []);
    assert [e1, e2, e3][..2] == [e1, e2];
    LastEvent([e1, e2, e3]);
    assert Played([e1, e2, e3]) == Pipeline([NEW, CANCEL], []);
    assert [e1, e2, e3, e4][..3] == [e1, e2, e3];
    LastEvent([e1, e2, e3, e4]);
    assert [NEW, CANCEL][1..] == [CANCEL];
  }

  lemma NoEvents()
    ensures Played([]) == Pipeline([], []) && Requests([]) == [] && Responses([]) == []
  {
  }

  lemma KindsInTurn(m0: Request, m1: Request, m2: Request)
    requires m0.client != 2 && m1.client == m2.client == 2
    ensures KindsOf(2, [m0, m1, m2]) == [m1.message, m2.message]
  {
    assert [m0, m1, m2][1..] == [m1, m2] && [m1, m2][1..] == [m2] && [m2][1..] == [];
    assert KindsOf(2, [m2]) == [m2.message];
    assert KindsOf(2, [m1, m2]) == [m1.message, m2.message];
  }

  lemma ShownInTurn(m0: Message, m1: Message, m2: Message, m3: Message)
    requires m0.client != 2 && m1.client == 2 && m2.client != 2 && m3.client == 2
    ensures ShownTo(2, [m0, m1, m2, m3]) == [Shown(OnTheWay(m1)), Shown(OnTheWay(m3))]
  {
    hide Shown;
    assert [m0, m1, m2, m3][1..] == [m1, m2, m3] && [m1, m2, m3][1..] == [m2, m3];
    assert [m2, m3][1..] == [m3] && [m3][1..] == [];
    assert ShownTo(2, [m3]) == [Shown(OnTheWay(m3))];
    assert ShownTo(2, [m2, m3]) == [Shown(OnTheWay(m3))];
    assert ShownTo(2, [m1, m2, m3]) == [Shown(OnTheWay(m1)), Shown(OnTheWay(m3))];
  }

  lemma PushedInTurn(m0: Request, m1: Request, m2: Request)
    requires m0 == Request(NEW, 0, 1, ASK, LIMIT, 10, 5) && m1 == Request(NEW, 0, 2, BID, LIMIT, 10, 5)
    requires m2 == Request(CANCEL, 99, 2, BID, LIMIT, 0, 0)
    ensures SentBy(8, START, [m0, m1, m2]) ==
            [Message(0, 1, NEW, SUCCESS), MatchMessage(Party(1, 2)), MatchMessage(Party(0, 1)),
             Message(99, 2, CANCEL, FAILURE)]
  {
    var ask := Resting(0, 1, ASK, 10, 5, 5);
    var fill := Fill(Party(1, 2), Party(0, 1), 5);
    var s1 := Next(8, START, m0);
    assert s1 == State(Book([], [ask]), 1);
    assert Executed(8, s1, m1).fills == [fill];
    assert [fill][1..] == [] && MatchMessages(BID, [fill]) == MessagePair(BID, fill);
    var s2 := Next(8, s1, m1);
    assert s2 == State(Book([], []), 2);
    assert [m0, m1, m2][1..] == [m1, m2] && [m1, m2][1..] == [m2] && [m2][1..] == [];
    assert Sent(Assigned(START, m0), Executed(8, START, m0)) == [Message(0, 1, NEW, SUCCESS)];
    assert Sent(Assigned(s1, m1), Executed(8, s1, m1)) == [MatchMessage(Party(1, 2)), MatchMessage(Party(0, 1))];
    assert Sent(Assigned(s2, m2), Executed(8, s2, m2)) == [Message(99, 2, CANCEL, FAILURE)];
    assert SentBy(8, s2, [m2]) == [Message(99, 2, CANCEL, FAILURE)];
  }
}
