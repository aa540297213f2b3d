/** From a client's request to the engine's: enumerations, validation and the way through the wire. */
module Requests {
  import opened OrderTypes
  import opened Framing
  import ServerInbound

  /** How a request's type reads on the wire. */
  function Code(kind: MessageType): Byte {
    match kind
    case NEW => 0
    case CANCEL => 1
    case MODIFY => 2
    case MATCH => 4
  }

  /** The engine's reading of a validated message; a CANCEL may hold anything as side and type. */
  function Received(m: ServerInbound.WireRequest): Request
    requires ServerInbound.Validated(m)
  {
    Request(
      if m.message == 0 then NEW else if m.message == 1 then CANCEL else MODIFY,
      m.id, m.client,
      if m.side == 0 then BID else ASK,
      if m.kind == 0 then MARKET else LIMIT,
      m.price, m.quantity)
  }

  /** How a request is written on the wire. */
  function OnWire(req: Request): ServerInbound.WireRequest {
    ServerInbound.WireRequest(
      req.id, req.client, req.price, req.quantity,
      Code(req.message),
      if req.side == BID then 0 else 1,
      if req.kind == MARKET then 0 else 1)
  }

  /** What a client may ask for. */
  predicate Allowed(req: Request) {
    || req.message == CANCEL
    || (req.message in {NEW, MODIFY} && req.quantity <= 1_000_000 && (req.kind == LIMIT ==> req.price != 0))
  }

  /** Validation lets through exactly what a client may ask for, and the engine then reads what it asked for. */
  lemma ReceivedAsSent(req: Request)
    ensures ServerInbound.Validated(OnWire(req)) <==> Allowed(req)
    ensures Allowed(req) ==> Received(OnWire(req)) == req
  {
  }

  /** And nothing else: what is let through was written that way, but for the side and type of a CANCEL. */
  lemma SentAsReceived(m: ServerInbound.WireRequest)
    requires ServerInbound.Validated(m)
    ensures var w := OnWire(Received(m));
      w == m || (m.message == 1 && w == m.(side := w.side, kind := w.kind))
  {
  }

  /** End to end: the bytes a client sends for an allowed request reach the engine as that request. */
  lemma RequestArrives(req: Request, padding: seq<Byte>)
    requires |padding| == 6 && Allowed(req)
    requires req.id < 0x1_0000_0000_0000_0000 && req.client < 0x1_0000_0000
    requires req.price < 0x1_0000_0000 && req.quantity < 0x1_0000_0000
    ensures var event := ServerInbound.Classified(ServerInbound.Encoded(OnWire(req), padding));
      event.Pushed? && ServerInbound.Validated(event.request) && Received(event.request) == req
  {
    hide ServerInbound.Classified;
    hide ServerInbound.Encoded;
    ServerInbound.RequestRoundTrip(OnWire(req), padding);
    ReceivedAsSent(req);
  }
}
