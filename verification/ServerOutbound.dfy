/** The outbound half of a connection: from staged messages to bytes the socket accepted. */
module ServerOutbound {
  import opened OrderTypes
  import opened Framing
  import opened Protocol
  import opened Wire
  import opened Buffers
  import opened RingIndex
  import opened RingBuffers

  const STAGING_SIZE := 64
  const CAPACITY := PIPELINE_DEPTH * OUTBOUND_SIZE

  /** What is remembered of a serialised message until its batch is sent. */
  datatype PendingLatency = PendingLatency(readBegin: nat, record: bool)

  function LatencyOf(m: Outbound): PendingLatency {
    PendingLatency(m.readBegin, m.error == NO_ERROR && m.message != MATCH)
  }

  /** What is recorded is what the client will read as an acknowledgement. */
  lemma RecordedIsAck(m: Outbound)
    ensures LatencyOf(m).record <==> Shown(m).Ack?
    ensures LatencyOf(m).readBegin == m.readBegin
  {
  }

  /** The latency samples due for these messages: one for each that the client reads as an acknowledgement. */
  function SamplesOf(msgs: seq<Outbound>): seq<nat> {
    if msgs == [] then []
    else
      var n := |msgs| - 1;
      SamplesOf(msgs[..n]) + (if Shown(msgs[n]).Ack? then [msgs[n].readBegin] else [])
  }

  /** The bytes of these messages, one frame each. */
  function BytesOf(msgs: seq<Outbound>): seq<Byte> {
    Concat(AllSerialised(msgs))
  }

  lemma {:induction false} BytesAppend(a: seq<Outbound>, b: seq<Outbound>)
    ensures BytesOf(a + b) == BytesOf(a) + BytesOf(b)
  {
    hide Concat;
    hide Serialised;
    assert AllSerialised(a + b) == AllSerialised(a) + AllSerialised(b);
    ConcatAppend(AllSerialised(a), AllSerialised(b));
  }

  lemma {:induction false} BytesLength(msgs: seq<Outbound>)
    ensures |BytesOf(msgs)| == OUTBOUND_SIZE * |msgs|
  {
    hide Concat;
    hide Serialised;
    hide Frames;
    JoinAndCut(OUTBOUND_SIZE, AllSerialised(msgs));
  }

  lemma NoBytes()
    ensures BytesOf([]) == []
  {
  }

  lemma BytesOfOne(m: Outbound)
    ensures BytesOf([m]) == Serialised(m)
  {
    var frames := AllSerialised([m]);
    assert frames[1..] == [] && Concat(frames) == frames[0] + Concat(frames[1..]);
  }

  /** `n` messages moved from the front of one list to the end of another. */
  ghost predicate Moved(n: nat, from0: seq<Outbound>, to0: seq<Outbound>, from: seq<Outbound>, to: seq<Outbound>) {
    n <= |from0| && from == from0[n..] && to == to0 + from0[..n]
  }

  lemma MovedOneMore(n: nat, from0: seq<Outbound>, to0: seq<Outbound>, from: seq<Outbound>, to: seq<Outbound>)
    requires Moved(n, from0, to0, from, to) && from != []
    ensures Moved(n + 1, from0, to0, from[1..], to + [from[0]])
  {
  }

  class OutboundState {
    const socket: Socket
    const buffer: Buffer
    const staging: RingBuffer<Outbound>
    const latencyBatch: array<PendingLatency>
    var latencyCount: nat
    /** Whether the socket is in the output epoll set. */
    var armed: bool
    /** Pushes on the latency handler. */
    var samples: seq<nat>
    /** Every message taken from staging, in order. */
    ghost var popped: seq<Outbound>

    ghost function Sent(): seq<Outbound>
      reads this`popped, this`latencyCount
      requires latencyCount <= |popped|
    {
      popped[..|popped| - latencyCount]
    }

    /** The messages whose frames the buffer holds. */
    ghost function Batch(): seq<Outbound>
      reads this`popped, this`latencyCount
      requires latencyCount <= |popped|
    {
      popped[|popped| - latencyCount..]
    }

    ghost predicate Valid()
      reads this`popped, this`latencyCount, this`samples
      reads buffer, buffer.data, staging, staging.buffer, latencyBatch, socket
    {
      && buffer.Valid() && buffer.readOff == 0 && buffer.data.Length == CAPACITY
      && staging.Valid() && staging.Capacity() == STAGING_SIZE
      && latencyBatch.Length == PIPELINE_DEPTH
      && latencyCount <= |popped|
      && buffer.Appended() == BytesOf(Batch())
      && socket.accepted + buffer.Unsent() == BytesOf(popped)
      && latencyCount <= PIPELINE_DEPTH
      && (forall i :: 0 <= i < latencyCount ==> latencyBatch[i] == LatencyOf(Batch()[i]))
      && samples == SamplesOf(Sent())
    }

    constructor ()
      ensures Valid() && staging.Contents == [] && popped == [] && !armed
      ensures fresh(socket) && fresh(buffer) && fresh(buffer.data)
      ensures fresh(staging) && fresh(staging.buffer) && fresh(latencyBatch)
    {
      hide Valid;
      hide RingBuffer.Valid;
      hide IsPow2;
      SixtyFour();
      socket := new Socket();
      buffer := new Buffer(CAPACITY);
      latencyBatch := new PendingLatency[PIPELINE_DEPTH];
      latencyCount, samples, popped, armed := 0, [], [], false;
      staging := new RingBuffer<Outbound>(STAGING_SIZE);
      new;
      FreshIsValid();
    }

    lemma FreshIsValid()
      requires buffer.Valid() && buffer.length == buffer.written == buffer.readOff == 0
      requires buffer.data.Length == CAPACITY
      requires staging.Valid() && staging.Capacity() == STAGING_SIZE && latencyBatch.Length == PIPELINE_DEPTH
      requires latencyCount == 0 && popped == [] && samples == [] && socket.accepted == []
      ensures Valid()
    {
      hide RingBuffer.Valid;
      NoBytes();
    }

    static lemma SixtyFour()
      ensures IsPow2(64)
    {
      assert Pow2(3) == 8;
      assert Pow2(6) == 64;
    }

    /** A buffer with room for a frame has room for its latency entry: the two always agree. */
    lemma CountsAgree()
      requires Valid()
      ensures buffer.length == OUTBOUND_SIZE * latencyCount && latencyCount <= PIPELINE_DEPTH
      ensures buffer.HasRoom(OUTBOUND_SIZE) <==> latencyCount < PIPELINE_DEPTH
    {
      BytesLength(Batch());
    }

    /** Stages a message for this connection; a full staging ring drops it silently. */
    method PushOutbound(m: Outbound)
      requires Valid()
      modifies staging, staging.buffer
      ensures Valid()
      ensures staging.Contents == if |old(staging.Contents)| < STAGING_SIZE - 1 then old(staging.Contents) + [m]
                                  else old(staging.Contents)
    {
      var ok := staging.Push(m);
    }

    /** Remembers the latency of a message; a full batch drops it. */
    method PushLatency(e: PendingLatency)
      requires latencyCount <= latencyBatch.Length
      modifies this`latencyCount, latencyBatch
      ensures var n := old(latencyCount);
        && latencyCount == (if n < latencyBatch.Length then n + 1 else n)
        && (n < latencyBatch.Length ==> latencyBatch[n] == e)
        && (forall i :: 0 <= i < latencyBatch.Length && i != n ==> latencyBatch[i] == old(latencyBatch[i]))
    {
      if latencyCount < latencyBatch.Length {
        latencyBatch[latencyCount] := e;
        latencyCount := latencyCount + 1;
      }
    }

    /** Serialises the oldest staged message, once, and remembers it for its latency sample. */
    method AppendResponse()
      requires Valid() && staging.Contents != [] && buffer.HasRoom(OUTBOUND_SIZE)
      modifies this, buffer, buffer.data, staging, latencyBatch
      ensures Valid() && latencyCount == old(latencyCount) + 1 && armed == old(armed)
      ensures popped == old(popped) + [old(staging.Contents)[0]] && staging.Contents == old(staging.Contents)[1..]
      ensures Sent() == old(Sent()) && socket.accepted == old(socket.accepted)
      ensures buffer.Valid() && buffer.Remaining() == old(buffer.Remaining()) + OUTBOUND_SIZE
    {
      hide SamplesOf;
      hide BytesOf;
      hide Serialised;
      hide Buffer.HasRoom;
      hide RingBuffer.Valid;
      CountsAgree();
      var item := staging.Pop();
      var m := item.value;
      BytesAppend(Batch(), [m]);
      BytesAppend(popped, [m]);
      BytesOfOne(m);
      var ok := buffer.Append(Serialised(m));
      ghost var batch, sent := Batch(), Sent();
      PushLatency(LatencyOf(m));
      popped := popped + [m];
      assert Batch() == batch + [m];
      assert Sent() == sent;
    }

    /** Emits the samples of the batch. */
    method EmitSamples()
      requires Valid()
      modifies this`samples
      ensures samples == SamplesOf(popped)
    {
      hide SamplesOf;
      hide BytesOf;
      hide RingBuffer.Valid;
      ghost var first := |popped| - latencyCount;
      var i := 0;
      while i < latencyCount
        invariant 0 <= i <= latencyCount
        invariant samples == SamplesOf(popped[..first + i])
      {
        SampleOne(first + i);
        assert latencyBatch[i] == LatencyOf(Batch()[i]) == LatencyOf(popped[first + i]);
        if latencyBatch[i].record {
          samples := samples + [latencyBatch[i].readBegin];
        }
        i := i + 1;
      }
      assert popped[..first + i] == popped;
    }

    /** The batch is over, all of it having been sent: emit its samples and start the buffer over. */
    method FinishBatch()
      requires Valid() && buffer.written == buffer.length
      modifies this`samples, this`latencyCount, buffer
      ensures Valid() && latencyCount == 0 && buffer.length == 0
    {
      hide SamplesOf;
      hide BytesOf;
      hide RingBuffer.Valid;
      assert buffer.Unsent() == [];
      EmitSamples();
      latencyCount := 0;
      buffer.TryReset();
      assert Sent() == popped && Batch() == [];
      NoBytes();
    }

    lemma SampleOne(k: nat)
      requires k < |popped|
      ensures SamplesOf(popped[..k + 1]) ==
              SamplesOf(popped[..k]) + (if LatencyOf(popped[k]).record then [popped[k].readBegin] else [])
    {
      RecordedIsAck(popped[k]);
      assert popped[..k + 1][..k] == popped[..k];
    }

    /**
     Sends until everything is out, the socket is full, or it fails. A full socket is a
     success; it gets armed for output unless it is already, or arming fails.
     */
    method SendResponse(canArm: bool) returns (ok: bool)
      requires Valid()
      modifies this`samples, this`latencyCount, this`armed, buffer, socket`accepted, socket`reply, socket`sends
      ensures Valid()
      ensures ok && buffer.Remaining() == 0 ==> buffer.length == latencyCount == 0 && armed == old(armed)
      ensures ok && buffer.Remaining() > 0 ==>
                armed == (old(armed) || canArm) && socket.reply == Some(SendFailed(true))
      ensures !ok ==> buffer.Remaining() > 0 && armed == old(armed) && socket.reply == Some(SendFailed(false))
      ensures socket.sends > old(socket.sends) <==> old(buffer.Remaining()) > 0
    {
      hide SamplesOf;
      hide BytesOf;
      hide RingBuffer.Valid;
      while buffer.Remaining() > 0
        invariant Valid() && latencyCount == old(latencyCount) && armed == old(armed)
        invariant buffer.Remaining() <= old(buffer.Remaining()) && socket.sends >= old(socket.sends)
        invariant buffer.Remaining() < old(buffer.Remaining()) <==> socket.sends > old(socket.sends)
        decreases buffer.Remaining()
      {
        var r := buffer.WriteTo(socket);
        if !r.Accepted? {
          if r.again {
            if !armed {
              armed := canArm;
            }
            return true;
          }
          return false;
        }
      }
      FinishBatch();
      ok := true;
    }

    /** The armed socket can take more: send, and once all is out leave the output epoll set. */
    method HandleWritable(canArm: bool) returns (ok: bool)
      requires Valid()
      modifies this`samples, this`latencyCount, this`armed, buffer, socket`accepted, socket`reply, socket`sends
      ensures Valid()
      ensures ok && buffer.Remaining() == 0 ==> buffer.length == latencyCount == 0 && !armed
      ensures ok && buffer.Remaining() > 0 ==>
                armed == (old(armed) || canArm) && socket.reply == Some(SendFailed(true))
      ensures !ok ==> buffer.Remaining() > 0 && socket.reply == Some(SendFailed(false))
      ensures socket.sends > old(socket.sends) <==> old(buffer.Remaining()) > 0
    {
      hide Valid;
      PartsValid();
      ok := SendResponse(canArm);
      PartsValid();
      if ok && armed && buffer.Remaining() == 0 {
        armed := false;
      }
    }

    lemma PartsValid()
      requires Valid()
      ensures staging.Valid() && buffer.Valid()
    {
    }

    /** How many staged messages a turn serialises: all of them, or as many as there is room for. */
    ghost function TurnSize(): nat
      requires Valid()
      reads this`popped, this`latencyCount, this`samples
      reads buffer, buffer.data, staging, staging.buffer, latencyBatch, socket
    {
      Min(|staging.Contents|, PIPELINE_DEPTH - latencyCount)
    }

    /** Serialises what fits. */
    method FillBuffer()
      requires Valid()
      modifies this, buffer, buffer.data, staging, latencyBatch
      ensures Valid() && armed == old(armed)
      ensures Moved(old(TurnSize()), old(staging.Contents), old(popped), staging.Contents, popped)
      ensures buffer.Valid() && (buffer.Remaining() > 0 <==> old(buffer.Remaining()) > 0 || old(TurnSize()) > 0)
    {
      hide Valid;
      hide RingBuffer.Valid;
      hide Buffer.HasRoom;
      PartsValid();
      CountsAgree();
      var empty := staging.Empty();
      ghost var n := 0;
      while !empty && buffer.HasRoom(OUTBOUND_SIZE)
        invariant Valid() && staging.Valid() && buffer.Valid() && (empty <==> staging.Contents == [])
        invariant Moved(n, old(staging.Contents), old(popped), staging.Contents, popped)
        invariant latencyCount == old(latencyCount) + n && armed == old(armed)
        invariant buffer.Remaining() == old(buffer.Remaining()) + OUTBOUND_SIZE * n
        decreases |staging.Contents|
      {
        MovedOneMore(n, old(staging.Contents), old(popped), staging.Contents, popped);
        AppendResponse();
        n := n + 1;
        PartsValid();
        empty := staging.Empty();
      }
      CountsAgree();
      assert n == old(TurnSize());
    }

    /**
     One connection's turn: serialise what fits, then send. Not `ok` means the connection
     is condemned; `keep` means it has something left for another turn.
     */
    method BeginSend(canArm: bool) returns (ok: bool, keep: bool)
      requires Valid()
      modifies this, buffer, buffer.data, staging, latencyBatch, socket`accepted, socket`reply, socket`sends
      ensures Valid()
      ensures Moved(old(TurnSize()), old(staging.Contents), old(popped), staging.Contents, popped)
      ensures keep <==> ok && (buffer.Remaining() > 0 || staging.Contents != [])
      ensures ok ==> armed == (old(armed) || (canArm && buffer.Remaining() > 0))
      ensures ok && buffer.Remaining() > 0 ==> socket.reply == Some(SendFailed(true))
      ensures !ok ==> socket.reply == Some(SendFailed(false))
      ensures socket.sends > old(socket.sends) <==> old(buffer.Remaining()) > 0 || old(TurnSize()) > 0
    {
      hide Valid;
      hide RingBuffer.Valid;
      hide TurnSize;
      hide Moved;
      FillBuffer();
      PartsValid();
      ok := true;
      if buffer.Remaining() > 0 {
        ok := SendResponse(canArm);
        PartsValid();
      }
      if !ok {
        return false, false;
      }
      var empty := staging.Empty();
      keep := buffer.Remaining() > 0 || !empty;
    }
  }
}
