/** The vocabulary shared by the engine: requests, responses and fills. */
module OrderTypes {
  type OrderId = nat
  type ClientId = nat
  type Price = nat
  type Quantity = nat

  datatype Option<+T> = None | Some(value: T)

  datatype Side = BID | ASK {
    function Opposite(): Side {
      if this == BID then ASK else BID
    }
  }

  datatype OrderType = MARKET | LIMIT

  datatype MessageType = NEW | CANCEL | MODIFY | MATCH

  datatype Status = SUCCESS | FAILURE

  /** What the Engine hands to the book: a wire message plus the assigned id. */
  datatype Request = Request(
    message: MessageType,
    id: OrderId,
    client: ClientId,
    side: Side,
    kind: OrderType,
    price: Price,
    quantity: Quantity)

  /** An outbound message, without its timestamps. */
  datatype Message = Message(id: OrderId, client: ClientId, message: MessageType, status: Status)

  datatype ProcessResult = ProcessResult(status: Status, suppressAck: bool)

  /** One side of a fill. */
  datatype Party = Party(id: OrderId, client: ClientId)

  datatype Fill = Fill(bid: Party, ask: Party, quantity: Quantity)

  function MatchMessage(p: Party): Message {
    Message(p.id, p.client, MATCH, SUCCESS)
  }

  /** The two messages of every fill, the party on side `lead` first. */
  function MatchMessages(lead: Side, fills: seq<Fill>): seq<Message> {
    if fills == [] then []
    else MessagePair(lead, fills[0]) + MatchMessages(lead, fills[1..])
  }

  function MessagePair(lead: Side, fill: Fill): seq<Message> {
    if lead == BID then [MatchMessage(fill.bid), MatchMessage(fill.ask)]
    else [MatchMessage(fill.ask), MatchMessage(fill.bid)]
  }

  function Min(a: nat, b: nat): nat {
    if a <= b then a else b
  }

  /** Message 2k and 2k + 1 report fill k, leading party first. */
  lemma {:induction false} MatchMessagesAt(lead: Side, fills: seq<Fill>, k: nat)
    requires k < |fills|
    ensures |MatchMessages(lead, fills)| == 2 * |fills|
    ensures MatchMessages(lead, fills)[2 * k..2 * k + 2] == MessagePair(lead, fills[k])
  {
    MatchMessagesLength(lead, fills);
    var rest := MatchMessages(lead, fills[1..]);
    if k > 0 {
      MatchMessagesAt(lead, fills[1..], k - 1);
      assert MatchMessages(lead, fills)[2 * k..2 * k + 2] == rest[2 * (k - 1)..2 * (k - 1) + 2];
    }
  }

  lemma {:induction false} MatchMessagesLength(lead: Side, fills: seq<Fill>)
    ensures |MatchMessages(lead, fills)| == 2 * |fills|
  {
    if fills != [] {
      MatchMessagesLength(lead, fills[1..]);
    }
  }
}
