/** One client connection of the load generator: pipelining, response parsing, reconnects. */
module LoadGenerators {
  import opened OrderTypes
  import opened Framing
  import opened Protocol
  import opened Wire
  import opened Buffers
  import ServerInbound
  import opened Requests

  const MAX_ACTIVE_ORDERS := 32
  const WORD32 := 0x1_0000_0000

  const WRITE_CAPACITY := PIPELINE_DEPTH * INBOUND_SIZE
  const READ_CAPACITY := PIPELINE_DEPTH * 2 * OUTBOUND_SIZE

  /** A uint32 counter going up. */
  function Increment(x: nat): (r: nat)
    requires x < WORD32
    ensures r < WORD32
  {
    if x + 1 == WORD32 then 0 else x + 1
  }

  /**
   The client's own bookkeeping: the types of the requests it still expects an answer to,
   and the ids of the acknowledgements it credited to a NEW. Whether it credited them to
   the right request is another matter: see Attribution.
   */
  datatype Pipeline = Pipeline(inFlight: seq<MessageType>, targets: seq<OrderId>)

  /** An ack or error is taken for the answer to the oldest request in flight; a fill for none. */
  function Heard(p: Pipeline, r: Response): Pipeline {
    if p.inFlight == [] || r.Matched? || r.Violation? then p
    else
      var collected := if r.Ack? && p.inFlight[0] == NEW then [r.id] else [];
      Pipeline(p.inFlight[1..], p.targets + collected)
  }

  function HeardAll(p: Pipeline, rs: seq<Response>): Pipeline {
    if rs == [] then p else Heard(HeardAll(p, rs[..|rs| - 1]), rs[|rs| - 1])
  }

  /** The responses of a byte stream. */
  function ResponsesOf(stream: seq<Byte>): seq<Response> {
    FrameSizes(OUTBOUND_SIZE, stream);
    AllParsed(Frames(OUTBOUND_SIZE, stream))
  }

  lemma ResponsesLater(stream: seq<Byte>, more: seq<Byte>)
    ensures ResponsesOf(stream + more) == ResponsesOf(stream) + ResponsesOf(Rest(OUTBOUND_SIZE, stream) + more)
  {
    hide Parsed;
    hide Frames;
    hide Rest;
    ArriveLater(OUTBOUND_SIZE, stream, more);
    FrameSizes(OUTBOUND_SIZE, stream);
    FrameSizes(OUTBOUND_SIZE, Rest(OUTBOUND_SIZE, stream) + more);
    FrameSizes(OUTBOUND_SIZE, stream + more);
  }

  lemma FirstResponse(unread: seq<Byte>)
    requires |unread| >= OUTBOUND_SIZE
    ensures ResponsesOf(unread) == [Parsed(unread[..OUTBOUND_SIZE])] + ResponsesOf(unread[OUTBOUND_SIZE..])
    ensures Rest(OUTBOUND_SIZE, unread) == Rest(OUTBOUND_SIZE, unread[OUTBOUND_SIZE..])
  {
    hide Parsed;
    hide Frames;
    hide Rest;
    FirstFrame(OUTBOUND_SIZE, unread);
    FrameSizes(OUTBOUND_SIZE, unread);
    FrameSizes(OUTBOUND_SIZE, unread[OUTBOUND_SIZE..]);
  }

  lemma NoResponse(unread: seq<Byte>)
    requires |unread| < OUTBOUND_SIZE
    ensures ResponsesOf(unread) == [] && Rest(OUTBOUND_SIZE, unread) == unread
  {
  }

  /** Answers take requests off the front of those in flight, and nothing else. */
  lemma {:induction false} HeardSuffix(p: Pipeline, rs: seq<Response>)
    ensures var left := HeardAll(p, rs).inFlight;
      |left| <= |p.inFlight| && left == p.inFlight[|p.inFlight| - |left|..]
    decreases |rs|
  {
    if rs != [] {
      HeardSuffix(p, rs[..|rs| - 1]);
    }
  }

  /** What every frame of a client starts with. */
  ghost predicate AllFramed(frames: seq<seq<Byte>>) {
    forall i :: 0 <= i < |frames| ==> |frames[i]| == INBOUND_SIZE && frames[i][..9] == HEADER
  }

  ghost predicate HasKind(frame: seq<Byte>, kind: MessageType) {
    |frame| == INBOUND_SIZE && frame[53] == Code(kind)
  }

  /** A cancel or modify names this order. */
  ghost predicate AimsAt(frame: seq<Byte>, target: OrderId) {
    |frame| == INBOUND_SIZE
    && (frame[53] == Code(NEW) || ServerInbound.Decoded(frame).id == target % 0x1_0000_0000_0000_0000)
  }

  /** The last frames are those of the requests in flight, type by type. */
  ghost predicate AreLast(inFlight: seq<MessageType>, frames: seq<seq<Byte>>) {
    && |inFlight| <= |frames|
    && var last := frames[|frames| - |inFlight|..];
       forall k :: 0 <= k < |inFlight| ==> HasKind(last[k], inFlight[k])
  }

  lemma AreLastPush(inFlight: seq<MessageType>, frames: seq<seq<Byte>>, kind: MessageType, frame: seq<Byte>)
    requires AreLast(inFlight, frames) && HasKind(frame, kind)
    ensures AreLast(inFlight + [kind], frames + [frame])
  {
    assert (frames + [frame])[|frames| - |inFlight|..] == frames[|frames| - |inFlight|..] + [frame];
  }

  lemma AreLastSuffix(inFlight: seq<MessageType>, frames: seq<seq<Byte>>, n: nat)
    requires AreLast(inFlight, frames) && n <= |inFlight|
    ensures AreLast(inFlight[n..], frames)
  {
    var left := inFlight[n..];
    assert frames[|frames| - |left|..] == frames[|frames| - |inFlight|..][n..];
  }

  lemma FrameAppended(frames: seq<seq<Byte>>, frame: seq<Byte>)
    ensures Concat(frames + [frame]) == Concat(frames) + frame
  {
    ConcatAppend(frames, [frame]);
    assert [frame][1..] == [];
  }

  /**
   A ring of PIPELINE_DEPTH slots between two wrapping 32-bit counters holds these
   items: the distance of the counters counts them, and each is in its slot.
   */
  ghost predicate RingHolds<T>(ring: seq<T>, head: nat, tail: nat, items: seq<T>) {
    && |ring| == PIPELINE_DEPTH && head < WORD32 && tail < WORD32
    && (tail - head) % WORD32 == |items| <= PIPELINE_DEPTH
    && (forall k :: 0 <= k < |items| ==> ring[(head + k) % PIPELINE_DEPTH] == items[k])
  }

  lemma RingEmpty<T>(ring: seq<T>)
    requires |ring| == PIPELINE_DEPTH
    ensures RingHolds(ring, 0, 0, [])
  {
  }

  /** The slot under the tail is free as long as the ring is not full. */
  lemma RingPush<T>(ring: seq<T>, head: nat, tail: nat, items: seq<T>, x: T)
    requires RingHolds(ring, head, tail, items) && |items| < PIPELINE_DEPTH
    ensures RingHolds(ring[tail % PIPELINE_DEPTH := x], head, Increment(tail), items + [x])
  {
    var n := |items|;
    assert tail == head + n || tail == head + n - WORD32;
    assert tail % PIPELINE_DEPTH == (head + n) % PIPELINE_DEPTH;
    var ring' := ring[tail % PIPELINE_DEPTH := x];
    forall k | 0 <= k < n + 1
      ensures ring'[(head + k) % PIPELINE_DEPTH] == (items + [x])[k]
    {
      if k < n {
        assert (head + k) % PIPELINE_DEPTH != (head + n) % PIPELINE_DEPTH;
        assert ring[(head + k) % PIPELINE_DEPTH] == items[k];
      }
    }
    assert (Increment(tail) - head) % WORD32 == n + 1;
  }

  lemma RingPop<T>(ring: seq<T>, head: nat, tail: nat, items: seq<T>)
    requires RingHolds(ring, head, tail, items) && items != []
    ensures ring[head % PIPELINE_DEPTH] == items[0]
    ensures RingHolds(ring, Increment(head), tail, items[1..])
  {
    assert ring[(head + 0) % PIPELINE_DEPTH] == items[0];
    forall k | 0 <= k < |items| - 1
      ensures ring[(Increment(head) + k) % PIPELINE_DEPTH] == items[1..][k]
    {
      assert (Increment(head) + k) % PIPELINE_DEPTH == (head + (k + 1)) % PIPELINE_DEPTH;
    }
  }

  /** The slot of the `i`-th id recorded on a connection. */
  function SlotOf(i: nat): nat {
    i % MAX_ACTIVE_ORDERS
  }

  /** Some of the first `n` ids recorded went to this slot. */
  ghost predicate Written(n: nat, slot: nat) {
    exists i: nat :: i < n && SlotOf(i) == slot
  }

  /** The last of the first `n` ids that went to this slot. */
  function WriterOf(n: nat, slot: nat): (i: nat)
    requires slot < Min(n, MAX_ACTIVE_ORDERS)
    ensures i < n <= i + MAX_ACTIVE_ORDERS && SlotOf(i) == slot
  {
    n - 1 - (n - 1 - slot) % MAX_ACTIVE_ORDERS
  }

  lemma WrittenSlots(n: nat, slot: nat)
    requires slot < MAX_ACTIVE_ORDERS
    ensures Written(n, slot) <==> slot < Min(n, MAX_ACTIVE_ORDERS)
  {
    if slot < Min(n, MAX_ACTIVE_ORDERS) {
      assert SlotOf(WriterOf(n, slot)) == slot;
    }
  }

  /** Each slot holds the last id written to it, or what it held when the connection started. */
  ghost predicate ActiveHolds(ring: seq<OrderId>, targets: seq<OrderId>, before: seq<OrderId>) {
    && |ring| == |before| == MAX_ACTIVE_ORDERS
    && (forall i: nat :: i < |targets| <= i + MAX_ACTIVE_ORDERS ==> ring[SlotOf(i)] == targets[i])
    && (forall slot: nat :: |targets| <= slot < MAX_ACTIVE_ORDERS ==> ring[slot] == before[slot])
  }

  lemma ActivePush(ring: seq<OrderId>, targets: seq<OrderId>, before: seq<OrderId>, id: OrderId)
    requires ActiveHolds(ring, targets, before)
    ensures ActiveHolds(ring[SlotOf(|targets|) := id], targets + [id], before)
  {
    var n := |targets|;
    forall i: nat | i < n && n + 1 <= i + MAX_ACTIVE_ORDERS
      ensures SlotOf(i) != SlotOf(n) && ring[SlotOf(i)] == targets[i]
    {
    }
  }

  /** A wrapping 32-bit count finds the same slot as the count itself. */
  lemma WrappedSlot(n: nat)
    ensures SlotOf(n % WORD32) == SlotOf(n) && Increment(n % WORD32) == (n + 1) % WORD32
  {
  }

  /** The target of the next cancel or modify. */
  function Target(ring: seq<OrderId>, count: nat, read: nat): OrderId
    requires |ring| == MAX_ACTIVE_ORDERS
  {
    if count > 0 then ring[SlotOf(read)] else 0
  }

  /**
   One acknowledged NEW, then two cancels: the second reads a slot nothing on this
   connection was written to, so it aims at whatever an earlier connection left there.
   */
  lemma UnwrittenTarget(before: seq<OrderId>, id: OrderId)
    requires |before| == MAX_ACTIVE_ORDERS
    ensures var ring := before[0 := id];
      && ActiveHolds(ring, [id], before)
      && Target(ring, 1, 0) == id && Written(1, 0)
      && Target(ring, 1, 1) == before[1] && !Written(1, 1)
  {
    WrittenSlots(1, 0);
    WrittenSlots(1, 1);
  }

  /**
   How many requests a batch adds: none while one is still being sent; with a rate limit
   one, if it is time and none is in flight; and otherwise all the pipeline has places for.
   */
  function BatchSize(rateLimited: bool, tooEarly: bool, unsent: nat, pending: nat): nat
    requires pending <= PIPELINE_DEPTH
  {
    if unsent > 0 then 0
    else if rateLimited then if tooEarly || pending > 0 then 0 else 1
    else PIPELINE_DEPTH - pending
  }

  class ClientState {
    var connected: bool
    var connecting: bool
    const rateLimited: bool
    var socket: Socket
    const writeBuf: Buffer
    const readBuf: Buffer
    var acksPending: nat
    var ordersInFlight: int
    const pendingTypes: array<MessageType>
    var pendingHead: nat
    var pendingTail: nat
    const activeOrders: array<OrderId>
    var activeWrite: nat
    var activeCount: nat
    var activeRead: nat
    /** What the counters and rings stand for, and the responses handled, on this connection. */
    ghost var pipeline: Pipeline
    ghost var handled: seq<Response>
    /** What the ring of active orders held when this connection started. */
    ghost var inherited: seq<OrderId>
    /** Every request frame built on this connection. */
    ghost var framed: seq<seq<Byte>>

    constructor (rateLimited: bool)
      ensures Valid() && !connected && this.rateLimited == rateLimited
    {
      this.rateLimited := rateLimited;
      connected, connecting := false, false;
      socket := new Socket();
      writeBuf := new Buffer(WRITE_CAPACITY);
      readBuf := new Buffer(READ_CAPACITY);
      acksPending, ordersInFlight := 0, 0;
      pendingTypes := new MessageType[PIPELINE_DEPTH](_ => NEW);
      pendingHead, pendingTail := 0, 0;
      activeOrders := new OrderId[MAX_ACTIVE_ORDERS](_ => 0);
      activeWrite, activeCount, activeRead := 0, 0, 0;
      pipeline, handled, framed := Pipeline([], []), [], [];
      inherited := seq(MAX_ACTIVE_ORDERS, _ => 0);
    }

    /** The two counters never disagree and never exceed the pipeline. */
    ghost predicate Counters()
      reads this`connected, this`ordersInFlight, this`acksPending
    {
      ordersInFlight == acksPending <= PIPELINE_DEPTH && (!connected ==> acksPending == 0)
    }

    /** The ring of pending types is the list of unanswered requests: nothing in flight was overwritten. */
    ghost predicate PendingRing()
      reads this`pipeline, this`acksPending, this`pendingHead, this`pendingTail, pendingTypes
    {
      |pipeline.inFlight| == acksPending && RingHolds(pendingTypes[..], pendingHead, pendingTail, pipeline.inFlight)
    }

    /** The active ring holds the last ids recorded, each in its slot; the other slots are as they were. */
    ghost predicate ActiveRing()
      reads this`pipeline, this`inherited, this`activeWrite, this`activeCount, this`activeRead, activeOrders
    {
      && activeOrders.Length == MAX_ACTIVE_ORDERS
      && activeWrite == |pipeline.targets| % WORD32 && activeRead < WORD32
      && activeCount == Min(|pipeline.targets|, MAX_ACTIVE_ORDERS)
      && ActiveHolds(activeOrders[..], pipeline.targets, inherited)
    }

    ghost predicate ReadAligned()
      reads readBuf
    {
      && readBuf.Valid() && readBuf.written == 0 && readBuf.data.Length == READ_CAPACITY
      && readBuf.readOff % OUTBOUND_SIZE == 0
      && (readBuf.readOff == readBuf.length ==> readBuf.length == 0)
    }

    /** Everything delivered was handled, frame by frame, but for the open frame. */
    ghost predicate InStep()
      reads this`handled, this`socket, readBuf, readBuf.data, socket`delivered
    {
      && ReadAligned()
      && readBuf.Unread() == Rest(OUTBOUND_SIZE, socket.delivered)
      && handled == ResponsesOf(socket.delivered)
    }

    ghost predicate WriteReady()
      reads writeBuf
    {
      writeBuf.Valid() && writeBuf.readOff == 0
    }

    /** The bytes sent and still to be sent are the frames built, whole and in order. */
    ghost predicate OnTheWire()
      reads this`framed, this`socket, socket`accepted, writeBuf, writeBuf.data
    {
      writeBuf.Valid() && socket.accepted + writeBuf.Unsent() == Concat(framed) && AllFramed(framed)
    }

    /** The types in flight are those of the last frames built. */
    ghost predicate Remembered()
      reads this`framed, this`pipeline
    {
      AreLast(pipeline.inFlight, framed)
    }

    /** Sizes and distinctness of the parts. */
    ghost predicate Shape() {
      && writeBuf.data.Length == WRITE_CAPACITY && readBuf.data.Length == READ_CAPACITY
      && pendingTypes.Length == PIPELINE_DEPTH && activeOrders.Length == MAX_ACTIVE_ORDERS
      && writeBuf != readBuf && writeBuf.data != readBuf.data
    }

    ghost predicate Valid()
      reads this, writeBuf, writeBuf.data, readBuf, readBuf.data, socket, pendingTypes, activeOrders
    {
      && Shape() && Counters() && WriteReady()
      && (connected ==> PendingRing() && ActiveRing() && InStep() && OnTheWire() && Remembered())
    }

    lemma ResetIsValid()
      requires Shape() && Counters() && WriteReady() && acksPending == 0
      requires readBuf.Valid() && readBuf.readOff == readBuf.written == readBuf.length == 0
      requires pendingHead == pendingTail == activeWrite == activeCount == activeRead == 0
      requires pipeline == Pipeline([], []) && handled == [] && socket.delivered == []
      requires framed == [] && socket.accepted == [] && writeBuf.length == 0 && inherited == activeOrders[..]
      ensures Valid()
    {
      hide RingHolds;
      RingEmpty(pendingTypes[..]);
      NoResponse([]);
    }

    // ----- connecting -----

    /** Gives up the connection; its unanswered requests will never be answered. */
    method Reconnect()
      requires Valid() || (connected && Shape() && Counters() && WriteReady())
      modifies this`connected, this`ordersInFlight, this`acksPending
      ensures Valid() && !connected
    {
      if !connected {
        return;
      }
      connected := false;
      ordersInFlight := ordersInFlight - acksPending;
      acksPending := 0;
    }

    method ClearCounters()
      modifies this`acksPending, this`pendingHead, this`pendingTail, this`activeWrite, this`activeCount, this`activeRead
      modifies this`pipeline, this`handled, this`framed, this`inherited
      ensures acksPending == pendingHead == pendingTail == activeWrite == activeCount == activeRead == 0
      ensures pipeline == Pipeline([], []) && handled == [] && framed == [] && inherited == activeOrders[..]
    {
      acksPending, pendingHead, pendingTail := 0, 0, 0;
      activeWrite, activeCount, activeRead := 0, 0, 0;
      pipeline, handled, framed := Pipeline([], []), [], [];
      inherited := activeOrders[..];
    }

    /** Empties buffers, counters and rings for a socket nothing has gone through yet. */
    method StartOver()
      requires Shape() && Counters() && !connected && socket.delivered == [] && socket.accepted == []
      modifies this`connected, this`connecting, this`acksPending, this`pendingHead, this`pendingTail
      modifies this`activeWrite, this`activeCount, this`activeRead, this`pipeline, this`handled, this`framed
      modifies this`inherited, writeBuf, readBuf
      ensures Valid() && connected && connecting && pipeline == Pipeline([], []) && handled == []
      ensures inherited == old(activeOrders[..])
    {
      hide PendingRing;
      hide ActiveRing;
      hide InStep;
      hide OnTheWire;
      hide Remembered;
      connected, connecting := true, true;
      writeBuf.Clear();
      readBuf.Clear();
      ClearCounters();
      ResetIsValid();
    }

    /** Opens a new connection with empty buffers and rings. `created` and `refused` are the kernel's answers. */
    method ConnectClient(created: bool, refused: bool) returns (ok: bool)
      requires Valid() && !connected
      modifies this, writeBuf, readBuf
      ensures Valid() && ok == connected == (created && !refused)
      ensures connected ==> connecting && pipeline == Pipeline([], []) && handled == [] && fresh(socket)
      ensures connected ==> inherited == old(activeOrders[..])
    {
      if !created {
        return false;
      }
      hide PendingRing;
      hide ActiveRing;
      hide InStep;
      hide OnTheWire;
      hide Remembered;
      socket := new Socket();
      StartOver();
      if refused {
        connected := false;
      }
      ok := connected;
    }

    lemma PendingRingShape()
      requires PendingRing()
      ensures pendingTypes.Length == PIPELINE_DEPTH && pendingHead < WORD32 && pendingTail < WORD32
    {
    }

    // ----- requests -----

    /** Remembers one more request in flight. */
    method RecordSent(kind: MessageType)
      requires Counters() && connected && PendingRing() && ActiveRing() && acksPending < PIPELINE_DEPTH
      modifies this`pendingTail, this`acksPending, this`ordersInFlight, this`pipeline, pendingTypes
      ensures Counters() && PendingRing() && ActiveRing() && acksPending == old(acksPending) + 1
      ensures pipeline == old(pipeline).(inFlight := old(pipeline).inFlight + [kind])
    {
      hide RingHolds;
      PendingRingShape();
      RingPush(pendingTypes[..], pendingHead, pendingTail, pipeline.inFlight, kind);
      pendingTypes[pendingTail % PIPELINE_DEPTH] := kind;
      pendingTail := Increment(pendingTail);
      acksPending := acksPending + 1;
      ordersInFlight := ordersInFlight + 1;
      pipeline := pipeline.(inFlight := pipeline.inFlight + [kind]);
    }

    // ----- responses -----

    /** Takes the oldest request in flight off the ring. */
    method RecordAnswered() returns (kind: MessageType)
      requires Counters() && connected && PendingRing() && acksPending > 0
      modifies this`pendingHead, this`acksPending, this`ordersInFlight, this`pipeline
      ensures Counters() && PendingRing() && acksPending == old(acksPending) - 1
      ensures kind == old(pipeline).inFlight[0]
      ensures pipeline == old(pipeline).(inFlight := old(pipeline).inFlight[1..])
    {
      hide RingHolds;
      PendingRingShape();
      RingPop(pendingTypes[..], pendingHead, pendingTail, pipeline.inFlight);
      kind := pendingTypes[pendingHead % PIPELINE_DEPTH];
      pendingHead := Increment(pendingHead);
      acksPending := acksPending - 1;
      ordersInFlight := ordersInFlight - 1;
      pipeline := pipeline.(inFlight := pipeline.inFlight[1..]);
    }

    /** Remembers an acknowledged id as a target for later cancels and modifies. */
    method RecordTarget(id: OrderId)
      requires ActiveRing()
      modifies this`activeWrite, this`activeCount, this`pipeline, activeOrders
      ensures ActiveRing() && pipeline == old(pipeline).(targets := old(pipeline).targets + [id])
    {
      hide ActiveHolds;
      WrappedSlot(|pipeline.targets|);
      ActivePush(activeOrders[..], pipeline.targets, inherited, id);
      activeOrders[SlotOf(activeWrite)] := id;
      activeWrite := Increment(activeWrite);
      if activeCount < MAX_ACTIVE_ORDERS {
        activeCount := activeCount + 1;
      }
      pipeline := pipeline.(targets := pipeline.targets + [id]);
    }

    /** What one well-formed frame does to the pipeline. */
    method HandleFrame(frame: seq<Byte>)
      requires |frame| == OUTBOUND_SIZE && !Parsed(frame).Violation?
      requires connected && Counters() && PendingRing() && ActiveRing()
      modifies this`pendingHead, this`acksPending, this`ordersInFlight
      modifies this`pipeline, this`activeWrite, this`activeCount
      modifies activeOrders
      ensures Counters() && PendingRing() && ActiveRing() && pipeline == Heard(old(pipeline), Parsed(frame))
    {
      hide RingHolds;
      if frame[9] == 'O' as int {
        if acksPending > 0 {
          var sentType := RecordAnswered();
          if sentType == NEW {
            RecordTarget(FromLittleEndian(frame[16..24]));
          }
        }
      } else if frame[9] == 'E' as int {
        if acksPending > 0 {
          var sentType := RecordAnswered();
        }
      }
    }

    /** What was handled since, and what it did to the pipeline; the rest of the stream is still unread. */
    ghost predicate Draining(pipeline0: Pipeline, handled0: seq<Response>, stream: seq<Byte>)
      reads this`pipeline, this`handled, readBuf, readBuf.data
    {
      && ReadAligned()
      && handled0 <= handled && pipeline == HeardAll(pipeline0, handled[|handled0|..])
      && handled + ResponsesOf(readBuf.Unread()) == ResponsesOf(stream)
      && Rest(OUTBOUND_SIZE, readBuf.Unread()) == Rest(OUTBOUND_SIZE, stream)
    }

    lemma DrainingStart(stream: seq<Byte>)
      requires ReadAligned()
      requires handled + ResponsesOf(readBuf.Unread()) == ResponsesOf(stream)
      requires Rest(OUTBOUND_SIZE, readBuf.Unread()) == Rest(OUTBOUND_SIZE, stream)
      ensures Draining(pipeline, handled, stream)
    {
      HeardNothing(pipeline);
      assert handled[|handled|..] == [];
    }

    /** Moves the oldest unread frame, just handled, to what was handled. */
    method FinishFrame(ghost pipeline0: Pipeline, ghost handled0: seq<Response>, ghost stream: seq<Byte>,
                       ghost before: Pipeline)
      requires ReadAligned() && |readBuf.Unread()| >= OUTBOUND_SIZE
      requires pipeline == Heard(before, Parsed(readBuf.Unread()[..OUTBOUND_SIZE]))
      requires handled0 <= handled && before == HeardAll(pipeline0, handled[|handled0|..])
      requires handled + ResponsesOf(readBuf.Unread()) == ResponsesOf(stream)
      requires Rest(OUTBOUND_SIZE, readBuf.Unread()) == Rest(OUTBOUND_SIZE, stream)
      modifies this`handled, readBuf
      ensures Draining(pipeline0, handled0, stream)
      ensures readBuf.Unread() == old(readBuf.Unread())[OUTBOUND_SIZE..]
    {
      hide ResponsesOf;
      hide Rest;
      hide Parsed;
      hide Heard;
      hide HeardAll;
      ghost var unread := readBuf.Unread();
      ghost var response, later := Parsed(unread[..OUTBOUND_SIZE]), ResponsesOf(unread[OUTBOUND_SIZE..]);
      FirstResponse(unread);
      assert handled + ([response] + later) == (handled + [response]) + later;
      HeardOneMore(pipeline0, handled[|handled0|..], response);
      assert (handled + [response])[|handled0|..] == handled[|handled0|..] + [response];
      handled := handled + [response];
      readBuf.Advance(OUTBOUND_SIZE);
      assert readBuf.Unread() == unread[OUTBOUND_SIZE..];
    }

    /**
     Handles every complete frame that was delivered. `ok` is false at a frame that
     violates the protocol, which costs the connection.
     */
    method DrainResponses(ghost stream: seq<Byte>) returns (ok: bool)
      requires connected && Counters() && PendingRing() && ActiveRing() && ReadAligned()
      requires handled + ResponsesOf(readBuf.Unread()) == ResponsesOf(stream)
      requires Rest(OUTBOUND_SIZE, readBuf.Unread()) == Rest(OUTBOUND_SIZE, stream)
      modifies this`pendingHead, this`acksPending, this`ordersInFlight
      modifies this`pipeline, this`activeWrite, this`activeCount
      modifies this`handled, activeOrders, readBuf
      ensures Counters() && PendingRing() && ActiveRing() && ReadAligned()
      ensures old(handled) <= handled && pipeline == HeardAll(old(pipeline), handled[|old(handled)|..])
      ensures ok ==> handled == ResponsesOf(stream) && readBuf.Unread() == Rest(OUTBOUND_SIZE, stream)
      ensures !ok ==> handled < ResponsesOf(stream) && ResponsesOf(stream)[|handled|].Violation?
    {
      hide RingHolds;
      hide ResponsesOf;
      hide Rest;
      hide Parsed;
      hide Heard;
      hide HeardAll;
      hide PendingRing;
      hide ActiveRing;
      ghost var pipeline0, handled0 := pipeline, handled;
      DrainingStart(stream);
      while readBuf.length - readBuf.readOff >= OUTBOUND_SIZE
        invariant Counters() && PendingRing() && ActiveRing()
        invariant Draining(pipeline0, handled0, stream)
        decreases |readBuf.Unread()|
      {
        var frame := readBuf.Unread()[..OUTBOUND_SIZE];
        if Parsed(frame).Violation? {
          FirstResponse(readBuf.Unread());
          return false;
        }
        ghost var before := pipeline;
        HandleFrame(frame);
        FinishFrame(pipeline0, handled0, stream, before);
      }
      NoResponse(readBuf.Unread());
      ok := true;
    }

    static lemma HeardNothing(p: Pipeline)
      ensures HeardAll(p, []) == p
    {
    }

    static lemma HeardOneMore(p: Pipeline, rs: seq<Response>, r: Response)
      ensures HeardAll(p, rs + [r]) == Heard(HeardAll(p, rs), r)
    {
      assert (rs + [r])[..|rs|] == rs;
    }

    lemma StillRemembered(before: Pipeline, rs: seq<Response>)
      requires AreLast(before.inFlight, framed) && pipeline == HeardAll(before, rs)
      ensures Remembered()
    {
      HeardSuffix(before, rs);
      AreLastSuffix(before.inFlight, framed, |before.inFlight| - |pipeline.inFlight|);
    }

    /** A connection in step always has room for the next read. */
    lemma RoomToRead()
      requires InStep()
      ensures readBuf.length < READ_CAPACITY && readBuf.Room() == READ_CAPACITY - readBuf.length > 0
    {
    }

    /** A readable socket: handle what arrived, then top up the pipeline. */
    method HandleReadable(tooEarly: bool)
      requires Valid() && connected
      modifies this, writeBuf, writeBuf.data, readBuf, readBuf.data, socket, pendingTypes, activeOrders
      ensures Valid() && old(handled) <= handled
      ensures socket == old(socket) && socket.recvs == old(socket.recvs) + 1 && socket.answer.Some?
      ensures connected && socket.answer.value.Received? ==>
        var heard := HeardAll(old(pipeline), handled[|old(handled)|..]);
        && pipeline.targets == heard.targets && heard.inFlight <= pipeline.inFlight
        && |heard.inFlight| <= PIPELINE_DEPTH
        && |framed| == |old(framed)| + BatchSize(rateLimited, tooEarly, old(writeBuf.length), |heard.inFlight|)
      ensures !connected && socket.answer.value.Received? ==>
        || socket.reply == Some(SendFailed(false))
        || (handled < ResponsesOf(socket.delivered) && ResponsesOf(socket.delivered)[|handled|].Violation?)
      ensures !socket.answer.value.Received? ==>
        && handled == old(handled) && framed == old(framed) && pipeline == old(pipeline)
        && (connected <==> socket.answer == Some(RecvFailed(true)))
    {
      hide RingHolds;
      hide ResponsesOf;
      hide Rest;
      hide HeardAll;
      hide Concat;
      hide AreLast;
      RoomToRead();
      ghost var before := socket.delivered;
      var r := readBuf.ReadFrom(socket);
      if !r.Received? {
        if r.EndOfStream? || !r.again {
          Reconnect();
        }
        return;
      }
      ResponsesLater(before, r.bytes);
      ArriveLater(OUTBOUND_SIZE, before, r.bytes);
      var ok := DrainResponses(socket.delivered);
      if !ok {
        Reconnect();
        return;
      }
      StillRemembered(old(pipeline), handled[|old(handled)|..]);
      BuildBatch(tooEarly);
    }

    /**
     The order the next cancel or modify is aimed at. The read cursor runs over the
     whole ring, not over its occupied slots: it finds the last id recorded in its slot
     if one was recorded there on this connection, and else what an earlier one left.
     */
    method PickTarget() returns (id: OrderId)
      requires ActiveRing()
      ensures var n, slot := |pipeline.targets|, SlotOf(activeRead);
        id == if n == 0 then 0 else if slot < n then pipeline.targets[WriterOf(n, slot)] else inherited[slot]
      ensures id == Target(activeOrders[..], activeCount, activeRead)
      ensures Written(|pipeline.targets|, SlotOf(activeRead)) <==> SlotOf(activeRead) < activeCount
    {
      WrittenSlots(|pipeline.targets|, SlotOf(activeRead));
      id := Target(activeOrders[..], activeCount, activeRead);
    }

    /**
     A frame from the order factory: of any content, except that a cancel or modify
     names the target. `padding` is what the frame buffer held behind the request.
     */
    method BuildFrame(target: OrderId) returns (kind: MessageType, frame: seq<Byte>)
      ensures kind in {NEW, CANCEL, MODIFY}
      ensures HasKind(frame, kind) && frame[..9] == HEADER
      ensures AimsAt(frame, target)
    {
      var content: ServerInbound.WireRequest, padding: seq<Byte> := *, *;
      kind := *;
      if kind == MATCH || |padding| != 6 {
        kind, padding := NEW, [0, 0, 0, 0, 0, 0];
      }
      var id := if kind == NEW then 0 else target % 0x1_0000_0000_0000_0000;
      var request := content.(message := Code(kind), id := id);
      frame := ServerInbound.Encoded(request, padding);
      hide ServerInbound.Encoded;
      hide LittleEndian;
      hide FromLittleEndian;
      hide Pow256;
      FieldWidths();
      IntegerRoundTrip(id, 8);
      ServerInbound.EncodedFields(request, padding);
      assert frame[53] == frame[53..56][0];
    }

    /** The frame joins those waiting to be sent. */
    method AppendFrame(kind: MessageType, frame: seq<Byte>)
      requires OnTheWire() && Remembered() && WriteReady() && writeBuf.HasRoom(INBOUND_SIZE)
      requires HasKind(frame, kind) && frame[..9] == HEADER
      modifies this`framed, writeBuf`length, writeBuf.data
      ensures OnTheWire() && WriteReady() && AreLast(pipeline.inFlight + [kind], framed)
      ensures writeBuf.length == old(writeBuf.length) + INBOUND_SIZE && framed == old(framed) + [frame]
    {
      hide Concat;
      hide AreLast;
      var appended := writeBuf.Append(frame);
      FrameAppended(framed, frame);
      AreLastPush(pipeline.inFlight, framed, kind, frame);
      framed := framed + [frame];
    }

    /** The next cancel or modify will aim at another slot. */
    method AdvanceTarget()
      requires ActiveRing()
      modifies this`activeRead
      ensures ActiveRing() && activeRead == Increment(old(activeRead))
    {
      activeRead := Increment(activeRead);
    }

    /** Packs one request, for which there is always room, and remembers its type. */
    method PackOne()
      requires Valid() && connected && acksPending < PIPELINE_DEPTH
      requires writeBuf.length <= INBOUND_SIZE * acksPending
      modifies this`ordersInFlight, this`acksPending, this`pendingTail, this`pipeline, this`activeRead, this`framed
      modifies writeBuf`length, writeBuf.data, pendingTypes
      ensures Valid() && acksPending == old(acksPending) + 1
      ensures writeBuf.length == old(writeBuf.length) + INBOUND_SIZE
      ensures pipeline.targets == old(pipeline).targets
      ensures |pipeline.inFlight| == |old(pipeline).inFlight| + 1 && old(pipeline).inFlight < pipeline.inFlight
      ensures |framed| == |old(framed)| + 1 && old(framed) < framed
      ensures writeBuf.written == old(writeBuf.written)
      ensures AimsAt(framed[|framed| - 1], old(Target(activeOrders[..], activeCount, activeRead)))
      ensures activeRead == if framed[|framed| - 1][53] == Code(NEW) then old(activeRead)
                            else old(Increment(activeRead))
    {
      hide RingHolds;
      hide ActiveRing;
      hide InStep;
      hide OnTheWire;
      hide AreLast;
      hide AimsAt;
      hide Target;
      var target := PickTarget();
      var kind, frame := BuildFrame(target);
      AppendFrame(kind, frame);
      if kind == CANCEL || kind == MODIFY {
        AdvanceTarget();
      }
      RecordSent(kind);
    }

    /**
     A new connection whose one request, a NEW, is acknowledged, and that then packs two
     more: if the first is a cancel or modify it names the id just recorded, and if so is
     the second it names whatever the second slot held before this connection.
     */
    method AckThenTwo(frame: seq<Byte>)
      requires Valid() && connected && pipeline == Pipeline([NEW], []) && activeRead == 0 && writeBuf.length == 0
      requires |frame| == OUTBOUND_SIZE && Parsed(frame).Ack?
      modifies this`pendingHead, this`pendingTail, this`acksPending, this`ordersInFlight
      modifies this`pipeline, this`activeWrite, this`activeCount, this`activeRead, this`framed
      modifies activeOrders, pendingTypes, writeBuf`length, writeBuf.data
      ensures Valid() && pipeline.targets == [Parsed(frame).id] && |framed| == |old(framed)| + 2
      ensures var n := |old(framed)|;
        && AimsAt(framed[n], Parsed(frame).id)
        && (framed[n][53] != Code(NEW) ==> AimsAt(framed[n + 1], inherited[1]) && !Written(|pipeline.targets|, 1))
    {
      hide RingHolds;
      hide InStep;
      hide OnTheWire;
      hide AimsAt;
      hide Parsed;
      WrittenSlots(1, 1);
      HandleFrame(frame);
      StillRemembered(old(pipeline), [Parsed(frame)]);
      PackOne();
      PackOne();
    }

    /** Packs requests into the write buffer until the pipeline is full, and sends them. */
    method BuildBatch(tooEarly: bool)
      requires Valid() && connected
      modifies this`connected, this`ordersInFlight, this`acksPending, this`pendingTail, this`pipeline, this`activeRead
      modifies this`framed, writeBuf, writeBuf.data, socket`accepted, socket`reply, socket`sends, pendingTypes
      ensures Valid() && old(framed) <= framed
      ensures var n := old(BatchSize(rateLimited, tooEarly, writeBuf.length, acksPending));
        && |framed| == |old(framed)| + n
        && (connected ==> acksPending == old(acksPending) + n)
        && (socket.sends > old(socket.sends) <==> n > 0)
      ensures connected && socket.sends > old(socket.sends) && writeBuf.length > 0 ==>
                writeBuf.Remaining() > 0 && socket.reply == Some(SendFailed(true))
      ensures !connected ==> socket.reply == Some(SendFailed(false))
      ensures connected ==> pipeline.targets == old(pipeline).targets && old(pipeline).inFlight <= pipeline.inFlight
    {
      hide PendingRing;
      hide ActiveRing;
      hide InStep;
      hide Remembered;
      hide Concat;
      if writeBuf.length > 0 {
        return;
      }
      if rateLimited {
        if acksPending >= PIPELINE_DEPTH || tooEarly {
          return;
        }
      } else if acksPending == PIPELINE_DEPTH {
        return;
      }
      writeBuf.Clear();
      var slots := if rateLimited then 1 else PIPELINE_DEPTH;
      ghost var first := acksPending;
      while acksPending < slots
        invariant Valid() && connected && first <= acksPending
        invariant writeBuf.length == INBOUND_SIZE * (acksPending - first)
        invariant pipeline.targets == old(pipeline).targets && old(pipeline).inFlight <= pipeline.inFlight
        invariant old(framed) <= framed && |framed| == |old(framed)| + (acksPending - first)
        invariant socket.sends == old(socket.sends) && writeBuf.written == 0
        invariant acksPending == first || acksPending <= slots
        decreases slots - acksPending
      {
        PackOne();
      }
      FlushWrite();
    }

    /**
     However the server receives what was sent, it hears exactly the requests that
     have arrived whole, in order, and takes none of them for malformed.
     */
    lemma ServerHears(arrived: nat)
      requires Valid() && connected && arrived <= |socket.accepted|
      ensures var events := ServerInbound.EventsOf(socket.accepted[..arrived]);
        && |events| == arrived / INBOUND_SIZE <= |framed|
        && AllFramed(framed)
        && (forall i :: 0 <= i < |events| ==>
              events[i] == ServerInbound.Classified(framed[i]) && !events[i].MalformedRequest?)
    {
      hide Concat;
      hide Frames;
      hide RingHolds;
      hide ServerInbound.Decoded;
      hide ServerInbound.Validated;
      var stream := Concat(framed);
      assert socket.accepted[..arrived] == stream[..arrived];
      JoinAndCut(INBOUND_SIZE, framed);
      FramesOfPrefix(INBOUND_SIZE, stream, arrived);
      FrameSizes(INBOUND_SIZE, stream[..arrived]);
      var frames := Frames(INBOUND_SIZE, stream[..arrived]);
      assert frames == framed[..|frames|];
    }

    /** Sends what the write buffer holds; a full socket is retried later, a failure costs the connection. */
    method FlushWrite()
      requires Valid() && connected
      modifies this`connected, this`ordersInFlight, this`acksPending
      modifies writeBuf, socket`accepted, socket`reply, socket`sends
      ensures Valid()
      ensures connected ==> acksPending == old(acksPending)
      ensures connected && writeBuf.length > 0 ==> writeBuf.Remaining() > 0 && socket.reply == Some(SendFailed(true))
      ensures !connected ==> socket.reply == Some(SendFailed(false))
      ensures socket.sends > old(socket.sends) <==> old(writeBuf.Remaining()) > 0
    {
      hide RingHolds;
      hide ActiveRing;
      hide InStep;
      hide Concat;
      hide AreLast;
      while writeBuf.Remaining() > 0
        invariant Valid() && connected && acksPending == old(acksPending)
        invariant writeBuf.Remaining() <= old(writeBuf.Remaining()) && socket.sends >= old(socket.sends)
        invariant writeBuf.Remaining() < old(writeBuf.Remaining()) <==> socket.sends > old(socket.sends)
        decreases writeBuf.Remaining()
      {
        var r := writeBuf.WriteTo(socket);
        if !r.Accepted? {
          if r.again {
            return;
          }
          Reconnect();
          return;
        }
      }
      writeBuf.TryReset();
    }

    /** The asynchronous connect completed or failed. */
    method HandleConnect(failed: bool, tooEarly: bool)
      requires Valid() && connected
      modifies this, writeBuf, writeBuf.data, socket`accepted, socket`reply, socket`sends, pendingTypes
      ensures Valid() && (connected ==> !connecting && !failed) && socket == old(socket)
      ensures !failed ==>
        && |framed| == |old(framed)| + old(BatchSize(rateLimited, tooEarly, writeBuf.length, acksPending))
        && (!connected ==> socket.reply == Some(SendFailed(false)))
    {
      if failed {
        Reconnect();
        return;
      }
      connecting := false;
      BuildBatch(tooEarly);
    }
  }
}
