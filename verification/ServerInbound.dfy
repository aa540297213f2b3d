/** The inbound half of a connection: from delivered bytes to requests and errors. */
module ServerInbound {
  import opened OrderTypes
  import opened Framing
  import opened Protocol
  import opened Wire
  import opened Buffers

  const CAPACITY := PIPELINE_DEPTH * INBOUND_SIZE

  /** The wire struct, its enumerations still raw bytes. */
  datatype WireRequest = WireRequest(
    id: nat, client: nat, price: nat, quantity: nat, message: Byte, side: Byte, kind: Byte)

  /** What one frame turns into: an error for the sender, or a push on the engine's ring. */
  datatype Event = MalformedRequest | InvalidOrder | Pushed(request: WireRequest)

  /** Field offsets of the struct, which follows the 9-byte header. */
  function Decoded(frame: seq<Byte>): WireRequest
    requires |frame| == INBOUND_SIZE
  {
    WireRequest(
      FromLittleEndian(frame[33..41]),
      FromLittleEndian(frame[41..45]),
      FromLittleEndian(frame[45..49]),
      FromLittleEndian(frame[49..53]),
      frame[53], frame[54], frame[55])
  }

  predicate Validated(m: WireRequest) {
    if m.message == 1 then true
    else
      && (m.message == 0 || m.message == 2)
      && m.side <= 1 && m.kind <= 1
      && !(m.kind == 1 && m.price == 0)
      && m.quantity <= 1_000_000
  }

  function Classified(frame: seq<Byte>): Event
    requires |frame| == INBOUND_SIZE
  {
    if frame[..9] != HEADER then MalformedRequest
    else if !Validated(Decoded(frame)) then InvalidOrder
    else Pushed(Decoded(frame))
  }

  /** A frame is malformed exactly when it does not start with the header, and is looked into only when it does. */
  lemma ClassifiedExact(frame: seq<Byte>)
    requires |frame| == INBOUND_SIZE
    ensures Classified(frame).MalformedRequest? <==> !(HEADER <= frame)
    ensures Classified(frame).InvalidOrder? <==> HEADER <= frame && !Validated(Decoded(frame))
    ensures Classified(frame).Pushed? ==> HEADER <= frame && Classified(frame).request == Decoded(frame)
  {
  }

  function AllClassified(frames: seq<seq<Byte>>): (r: seq<Event>)
    requires AllSized(INBOUND_SIZE, frames)
    ensures |r| == |frames| && forall i :: 0 <= i < |r| ==> r[i] == Classified(frames[i])
  {
    seq(|frames|, i requires 0 <= i < |frames| => Classified(frames[i]))
  }

  /** All events of a stream of bytes. */
  function EventsOf(stream: seq<Byte>): seq<Event> {
    FrameSizes(INBOUND_SIZE, stream);
    AllClassified(Frames(INBOUND_SIZE, stream))
  }

  /** The events of a stream do not depend on how its tail was delivered. */
  lemma EventsLater(stream: seq<Byte>, more: seq<Byte>)
    ensures EventsOf(stream + more) == EventsOf(stream) + EventsOf(Rest(INBOUND_SIZE, stream) + more)
  {
    hide Classified;
    hide Frames;
    hide Rest;
    ArriveLater(INBOUND_SIZE, stream, more);
    FrameSizes(INBOUND_SIZE, stream);
    FrameSizes(INBOUND_SIZE, Rest(INBOUND_SIZE, stream) + more);
    FrameSizes(INBOUND_SIZE, stream + more);
  }

  // ----- the client's encoding -----

  /** The frame a client builds; `padding` is whatever its buffer held. */
  function Encoded(m: WireRequest, padding: seq<Byte>): (r: seq<Byte>)
    requires |padding| == 6
    ensures |r| == INBOUND_SIZE
  {
    HEADER + seq(24, _ => 0) + LittleEndian(m.id, 8) + LittleEndian(m.client, 4) + LittleEndian(m.price, 4)
    + LittleEndian(m.quantity, 4) + [m.message, m.side, m.kind] + seq(9, _ => 0) + [10] + padding
  }

  /** Where each field of the request stands in the frame. */
  lemma EncodedFields(m: WireRequest, padding: seq<Byte>)
    requires |padding| == 6
    ensures var frame := Encoded(m, padding);
      && frame[..9] == HEADER
      && frame[33..41] == LittleEndian(m.id, 8)
      && frame[41..45] == LittleEndian(m.client, 4)
      && frame[45..49] == LittleEndian(m.price, 4)
      && frame[49..53] == LittleEndian(m.quantity, 4)
      && frame[53..56] == [m.message, m.side, m.kind]
  {
    hide LittleEndian;
  }

  /** The server reads back the request a client framed. */
  lemma RequestRoundTrip(m: WireRequest, padding: seq<Byte>)
    requires |padding| == 6
    requires m.id < 0x1_0000_0000_0000_0000 && m.client < 0x1_0000_0000
    requires m.price < 0x1_0000_0000 && m.quantity < 0x1_0000_0000
    ensures Classified(Encoded(m, padding)) == if Validated(m) then Pushed(m) else InvalidOrder
  {
    hide LittleEndian;
    hide FromLittleEndian;
    hide Pow256;
    hide Validated;
    hide Encoded;
    FieldWidths();
    IntegerRoundTrip(m.id, 8);
    IntegerRoundTrip(m.client, 4);
    IntegerRoundTrip(m.price, 4);
    IntegerRoundTrip(m.quantity, 4);
    EncodedFields(m, padding);
    var frame := Encoded(m, padding);
    assert frame[53] == frame[53..56][0] && frame[54] == frame[53..56][1] && frame[55] == frame[53..56][2];
  }

  // ----- the connection -----

  class InboundState {
    const socket: Socket
    const buffer: Buffer
    var condemned: bool
    /** Pushes on the error channel and the inbound ring, in order. */
    var events: seq<Event>

    /** Offsets never leave frame boundaries, and a consumed buffer starts over. */
    ghost predicate Aligned()
      reads buffer
    {
      && buffer.Valid() && buffer.written == 0 && buffer.data.Length == CAPACITY
      && buffer.readOff % INBOUND_SIZE == 0
      && (buffer.readOff == buffer.length ==> buffer.length == 0)
    }

    /** Between reads: every complete frame was turned into its event, and only the open frame is kept. */
    ghost predicate Valid()
      reads this, buffer, buffer.data, socket
    {
      && Aligned()
      && buffer.Unread() == Rest(INBOUND_SIZE, socket.delivered)
      && events == EventsOf(socket.delivered)
    }

    constructor ()
      ensures Valid() && !condemned && fresh(socket) && fresh(buffer) && fresh(buffer.data)
    {
      socket := new Socket();
      buffer := new Buffer(CAPACITY);
      condemned, events := false, [];
    }

    /** A read between requests always has room to offer, without compaction. */
    lemma RoomToRead()
      requires Valid()
      ensures buffer.length < CAPACITY && buffer.Room() == CAPACITY - buffer.length > 0
    {
    }

    /** On frame boundaries, less than a frame unread leaves room. */
    lemma RoomBesideOpenFrame()
      requires Aligned() && |buffer.Unread()| < INBOUND_SIZE
      ensures buffer.length < CAPACITY
    {
    }

    /** Turns the oldest frame of the buffer into its event. */
    method ProcessFrame()
      requires Aligned() && |buffer.Unread()| >= INBOUND_SIZE
      modifies this`events, buffer
      ensures Aligned()
      ensures events == old(events) + [Classified(old(buffer.Unread())[..INBOUND_SIZE])]
      ensures buffer.Unread() == old(buffer.Unread())[INBOUND_SIZE..]
    {
      hide Decoded;
      hide Validated;
      var frame := buffer.Unread()[..INBOUND_SIZE];
      if frame[..9] != HEADER {
        events := events + [MalformedRequest];
        buffer.Advance(INBOUND_SIZE);
        return;
      }
      var request := Decoded(frame);
      buffer.Advance(INBOUND_SIZE);
      if !Validated(request) {
        events := events + [InvalidOrder];
        return;
      }
      events := events + [Pushed(request)];
    }

    /** Turns every complete frame of the buffer into its event. */
    method ProcessRequest()
      requires Aligned()
      modifies this`events, buffer
      ensures Aligned()
      ensures events == old(events) + EventsOf(old(buffer.Unread()))
      ensures buffer.Unread() == Rest(INBOUND_SIZE, old(buffer.Unread()))
    {
      hide EventsOf;
      hide Rest;
      hide Classified;
      ghost var whole := buffer.Unread();
      while buffer.length - buffer.readOff >= INBOUND_SIZE
        invariant Aligned()
        invariant events + EventsOf(buffer.Unread()) == old(events) + EventsOf(whole)
        invariant Rest(INBOUND_SIZE, buffer.Unread()) == Rest(INBOUND_SIZE, whole)
        decreases |buffer.Unread()|
      {
        FirstEvent(buffer.Unread());
        ghost var event := Classified(buffer.Unread()[..INBOUND_SIZE]);
        ghost var later := EventsOf(buffer.Unread()[INBOUND_SIZE..]);
        assert events + ([event] + later) == (events + [event]) + later;
        ProcessFrame();
      }
      NoEvent(buffer.Unread());
    }

    lemma NoEvent(unread: seq<Byte>)
      requires |unread| < INBOUND_SIZE
      ensures EventsOf(unread) == [] && Rest(INBOUND_SIZE, unread) == unread
    {
    }

    lemma FirstEvent(unread: seq<Byte>)
      requires |unread| >= INBOUND_SIZE
      ensures EventsOf(unread) == [Classified(unread[..INBOUND_SIZE])] + EventsOf(unread[INBOUND_SIZE..])
      ensures Rest(INBOUND_SIZE, unread) == Rest(INBOUND_SIZE, unread[INBOUND_SIZE..])
    {
      hide Classified;
      hide Frames;
      hide Rest;
      FirstFrame(INBOUND_SIZE, unread);
      FrameSizes(INBOUND_SIZE, unread);
      FrameSizes(INBOUND_SIZE, unread[INBOUND_SIZE..]);
    }

    /**
     Drains the socket and processes what arrived. Whatever the pieces, the events
     so far are those of the byte stream so far. What condemns the connection is a last
     answer without bytes and without EAGAIN in errno, and it leaves this call's bytes
     unprocessed; since an end of stream leaves errno alone, one that finds an old EAGAIN
     there reads as a drained socket. It never asks to be called again.
     */
    method ReadRequest() returns (again: bool)
      requires Valid() && !condemned
      modifies this, buffer, buffer.data, socket`delivered, socket`answer, socket`recvs
      ensures !again
      ensures socket.recvs > old(socket.recvs) && socket.answer.Some?
      ensures socket.answer.value.Received? ==>
                |socket.delivered| == |old(socket.delivered)| + CAPACITY - old(buffer.length)
      ensures condemned <==> !socket.answer.value.Received? && !socket.answer.value.again
      ensures socket.answer == Some(EndOfStream(true)) ==> Valid() && !condemned
      ensures !condemned ==> Valid()
      ensures condemned ==> events == old(events)
    {
      hide EventsOf;
      hide Rest;
      RoomToRead();
      ghost var before, more := socket.delivered, [];
      while CAPACITY - buffer.length > 0
        invariant Aligned() && !condemned
        invariant if more == [] then buffer.length == old(buffer.length)
                  else socket.answer.Some? && socket.answer.value.Received? && socket.recvs > old(socket.recvs)
        invariant buffer.length == old(buffer.length) + |more| && socket.recvs >= old(socket.recvs)
        invariant socket.delivered == before + more
        invariant buffer.Unread() == Rest(INBOUND_SIZE, before) + more
        invariant events == EventsOf(before)
        decreases CAPACITY - buffer.length
      {
        var r := buffer.ReadFrom(socket);
        if !r.Received? {
          if r.again {
            break;
          }
          condemned := true;
          return false;
        }
        more := more + r.bytes;
      }
      EventsLater(before, more);
      ArriveLater(INBOUND_SIZE, before, more);
      ProcessRequest();
      RoomBesideOpenFrame();
      again := CAPACITY - buffer.length <= 0;
    }
  }
}
