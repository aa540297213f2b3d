/** Outbound frames as the server writes them and as the client reads them. */
module Wire {
  import opened OrderTypes
  import opened Framing
  import opened Protocol

  datatype ServerError = NO_ERROR | MALFORMED_REQUEST | INVALID_ORDER | SYSTEM_ERROR | EXECUTION_ERROR

  /** What the serialiser looks at; `readBegin` only travels to the latency batch. */
  datatype Outbound = Outbound(
    id: OrderId, client: ClientId, message: MessageType, status: Status, error: ServerError, readBegin: nat)

  /** Ids as wide as their fields. */
  predicate Fits(m: Outbound) {
    m.client < 0x1_0000_0000 && m.id < 0x1_0000_0000_0000_0000
  }

  function Ascii(s: string): (r: seq<Byte>)
    requires forall i :: 0 <= i < |s| ==> s[i] as int < 256
    ensures |r| == |s| && forall i :: 0 <= i < |s| ==> r[i] == s[i] as int
  {
    seq(|s|, i requires 0 <= i < |s| => s[i] as int)
  }

  const HEADER: seq<Byte> := Ascii("EXCHANGE\n")
  const OK_STATUS: seq<Byte> := Ascii("EXCHANGE\nOK\n")
  const MATCH_STATUS: seq<Byte> := Ascii("EXCHANGE\nMATCH\n")
  const ERROR_STATUS: seq<Byte> := Ascii("EXCHANGE\nERROR\n")

  function ErrorText(e: ServerError): string {
    match e
    case MALFORMED_REQUEST => "malformed req"
    case INVALID_ORDER => "invalid order"
    case SYSTEM_ERROR => "system error"
    case EXECUTION_ERROR => "execution error"
    case NO_ERROR => "null"
  }

  // ----- little-endian integers -----

  function Pow256(n: nat): nat {
    if n == 0 then 1 else 256 * Pow256(n - 1)
  }

  function LittleEndian(v: nat, n: nat): (r: seq<Byte>)
    ensures |r| == n
  {
    if n == 0 then [] else [v % 256] + LittleEndian(v / 256, n - 1)
  }

  function FromLittleEndian(s: seq<Byte>): nat {
    if s == [] then 0 else s[0] + 256 * FromLittleEndian(s[1..])
  }

  lemma {:induction false} IntegerRoundTrip(v: nat, n: nat)
    requires v < Pow256(n)
    ensures FromLittleEndian(LittleEndian(v, n)) == v
  {
    if n > 0 {
      IntegerRoundTrip(v / 256, n - 1);
      assert LittleEndian(v, n)[1..] == LittleEndian(v / 256, n - 1);
    }
  }

  lemma FieldWidths()
    ensures Pow256(4) == 0x1_0000_0000 && Pow256(8) == 0x1_0000_0000_0000_0000
  {
    assert Pow256(2) == 0x1_0000;
    assert Pow256(3) == 0x100_0000;
    assert Pow256(5) == 0x100_0000_0000;
    assert Pow256(6) == 0x1_0000_0000_0000;
    assert Pow256(7) == 0x100_0000_0000_0000;
  }

  // ----- the server's side -----

  function Padded(s: seq<Byte>): (r: seq<Byte>)
    requires |s| <= OUTBOUND_SIZE
    ensures |r| == OUTBOUND_SIZE && r[..|s|] == s
  {
    s + seq(OUTBOUND_SIZE - |s|, _ => 0)
  }

  function Ids(m: Outbound): (r: seq<Byte>)
    ensures |r| == 12
  {
    LittleEndian(m.client, 4) + LittleEndian(m.id, 8)
  }

  function ErrorLine(e: ServerError): (r: seq<Byte>)
    ensures |r| == |ErrorText(e)| + 1 <= 16
  {
    Ascii(ErrorText(e)) + Ascii("\n")
  }

  /** One frame per message; every kind fits. */
  function Serialised(m: Outbound): (r: seq<Byte>)
    ensures |r| == OUTBOUND_SIZE
  {
    if m.message == MATCH then Padded(MATCH_STATUS + Ids(m))
    else if m.error == NO_ERROR then Padded(OK_STATUS + Ids(m))
    else Padded(ERROR_STATUS + ErrorLine(m.error))
  }

  function AllSerialised(msgs: seq<Outbound>): (r: seq<seq<Byte>>)
    ensures |r| == |msgs| && forall i :: 0 <= i < |r| ==> r[i] == Serialised(msgs[i])
  {
    seq(|msgs|, i requires 0 <= i < |msgs| => Serialised(msgs[i]))
  }

  // ----- the client's side -----

  /** What the client makes of a frame. */
  datatype Response =
    | Ack(client: ClientId, id: OrderId)
    | Matched(client: ClientId, id: OrderId)
    | Error(text: seq<Byte>)
    | Violation

  function UpToNewline(s: seq<Byte>): seq<Byte> {
    if s == [] || s[0] == 10 then [] else [s[0]] + UpToNewline(s[1..])
  }

  function Parsed(frame: seq<Byte>): Response
    requires |frame| == OUTBOUND_SIZE
  {
    if frame[..9] != HEADER then Violation
    else if frame[9] == 'O' as int then Ack(FromLittleEndian(frame[12..16]), FromLittleEndian(frame[16..24]))
    else if frame[9] == 'M' as int then Matched(FromLittleEndian(frame[15..19]), FromLittleEndian(frame[19..27]))
    else if frame[9] == 'E' as int then Error(UpToNewline(frame[15..]))
    else Violation
  }

  function AllParsed(frames: seq<seq<Byte>>): (r: seq<Response>)
    requires AllSized(OUTBOUND_SIZE, frames)
    ensures |r| == |frames| && forall i :: 0 <= i < |r| ==> r[i] == Parsed(frames[i])
  {
    seq(|frames|, i requires 0 <= i < |frames| => Parsed(frames[i]))
  }

  /** What a message should look like to the client. Its status is not on the wire: a failed request reads as an ack. */
  function Shown(m: Outbound): Response {
    if m.message == MATCH then Matched(m.client, m.id)
    else if m.error == NO_ERROR then Ack(m.client, m.id)
    else Error(Ascii(ErrorText(m.error)))
  }

  // ----- layout -----

  ghost predicate ZeroFrom(frame: seq<Byte>, n: nat) {
    n <= |frame| && forall i :: n <= i < |frame| ==> frame[i] == 0
  }

  /** The client can tell every error from every other. */
  lemma ErrorsDiffer(e: ServerError, f: ServerError)
    requires ErrorText(e) == ErrorText(f)
    ensures e == f
  {
    var s, t := ErrorText(e), ErrorText(f);
    assert |s| == |t| && s[0] == t[0] && s[1] == t[1];
  }

  /** Byte by byte: the status lines, client id and order id where they are expected, an error's line, then zeros. */
  lemma FrameLayout(m: Outbound)
    ensures var f := Serialised(m);
      if m.message == MATCH then
        && f[..15] == Ascii("EXCHANGE\nMATCH\n")
        && f[15..19] == LittleEndian(m.client, 4) && f[19..27] == LittleEndian(m.id, 8) && ZeroFrom(f, 27)
      else if m.error == NO_ERROR then
        && f[..12] == Ascii("EXCHANGE\nOK\n")
        && f[12..16] == LittleEndian(m.client, 4) && f[16..24] == LittleEndian(m.id, 8) && ZeroFrom(f, 24)
      else
        var n := 15 + |ErrorText(m.error)|;
        && f[..15] == Ascii("EXCHANGE\nERROR\n")
        && f[15..n] == Ascii(ErrorText(m.error)) && f[n] == '\n' as int && n < 31 && ZeroFrom(f, n + 1)
  {
    hide LittleEndian;
    StatusBytes();
  }

  // ----- round trips -----

  lemma IdsAt(frame: seq<Byte>, at: nat, m: Outbound)
    requires Fits(m) && at + 12 <= |frame| && frame[at..at + 12] == Ids(m)
    ensures FromLittleEndian(frame[at..at + 4]) == m.client
    ensures FromLittleEndian(frame[at + 4..at + 12]) == m.id
  {
    FieldWidths();
    IntegerRoundTrip(m.client, 4);
    IntegerRoundTrip(m.id, 8);
    assert frame[at..at + 4] == Ids(m)[..4] == LittleEndian(m.client, 4);
    assert frame[at + 4..at + 12] == Ids(m)[4..] == LittleEndian(m.id, 8);
  }

  lemma {:induction false} LineEnds(text: seq<Byte>, tail: seq<Byte>)
    requires forall i :: 0 <= i < |text| ==> text[i] != 10
    requires tail != [] && tail[0] == 10
    ensures UpToNewline(text + tail) == text
  {
    if text == [] {
      assert text + tail == tail;
    } else {
      assert (text + tail)[1..] == text[1..] + tail;
      LineEnds(text[1..], tail);
    }
  }

  lemma StatusBytes()
    ensures OK_STATUS[..9] == MATCH_STATUS[..9] == ERROR_STATUS[..9] == HEADER
    ensures |OK_STATUS| == 12 && |MATCH_STATUS| == 15 && |ERROR_STATUS| == 15
    ensures OK_STATUS[9] == 'O' as int && MATCH_STATUS[9] == 'M' as int && ERROR_STATUS[9] == 'E' as int
  {
  }

  /** The client reads back every frame: same kind, same ids, same error text. */
  lemma FrameRoundTrip(m: Outbound)
    requires Fits(m)
    ensures Parsed(Serialised(m)) == Shown(m)
  {
    StatusBytes();
    var frame := Serialised(m);
    if m.message == MATCH {
      assert frame[..27] == MATCH_STATUS + Ids(m);
      assert frame[..9] == MATCH_STATUS[..9] && frame[9] == MATCH_STATUS[9];
      assert frame[15..27] == Ids(m);
      IdsAt(frame, 15, m);
    } else if m.error == NO_ERROR {
      assert frame[..24] == OK_STATUS + Ids(m);
      assert frame[..9] == OK_STATUS[..9] && frame[9] == OK_STATUS[9];
      assert frame[12..24] == Ids(m);
      IdsAt(frame, 12, m);
    } else {
      var text := Ascii(ErrorText(m.error));
      assert frame[..9] == ERROR_STATUS[..9] && frame[9] == ERROR_STATUS[9];
      var tail := Ascii("\n") + seq(OUTBOUND_SIZE - 15 - |ErrorLine(m.error)|, _ => 0);
      assert frame[15..] == text + tail;
      LineEnds(text, tail);
    }
  }

  /**
   From end to end: whatever prefix of the serialised messages has arrived, in
   whatever pieces, the client has read exactly the messages it completes.
   */
  lemma StreamRoundTrip(msgs: seq<Outbound>, arrived: nat)
    requires forall i :: 0 <= i < |msgs| ==> Fits(msgs[i])
    requires arrived <= |Concat(AllSerialised(msgs))|
    ensures var frames := Frames(OUTBOUND_SIZE, Concat(AllSerialised(msgs))[..arrived]);
      && AllSized(OUTBOUND_SIZE, frames)
      && |frames| == arrived / OUTBOUND_SIZE <= |msgs|
      && forall i :: 0 <= i < |frames| ==> AllParsed(frames)[i] == Shown(msgs[i])
  {
    var sent := AllSerialised(msgs);
    JoinAndCut(OUTBOUND_SIZE, sent);
    FramesOfPrefix(OUTBOUND_SIZE, Concat(sent), arrived);
    FrameSizes(OUTBOUND_SIZE, Concat(sent)[..arrived]);
    var frames := Frames(OUTBOUND_SIZE, Concat(sent)[..arrived]);
    forall i | 0 <= i < |frames|
      ensures AllParsed(frames)[i] == Shown(msgs[i])
    {
      assert frames[i] == sent[i];
      FrameRoundTrip(msgs[i]);
    }
  }
}
