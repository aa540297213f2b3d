/** The fixed-capacity byte buffer, and the socket it reads from and writes to. */
module Buffers {
  import opened OrderTypes
  import opened Framing

  /** `recv`: bytes, end of stream, or an error. `again` is whether errno then reads EAGAIN. */
  datatype RecvResult = Received(bytes: seq<Byte>) | EndOfStream(again: bool) | RecvFailed(again: bool)

  /** `send`: a count, or an error. */
  datatype SendResult = Accepted(count: nat) | SendFailed(again: bool)

  /** The kernel: it delivers and accepts bytes in whatever pieces it likes. */
  class Socket {
    /** Everything delivered so far. */
    ghost var delivered: seq<Byte>
    /** Everything accepted so far. */
    ghost var accepted: seq<Byte>
    /** How the last `recv` was answered, if there was one, and how many there were. */
    ghost var answer: Option<RecvResult>
    ghost var recvs: nat
    /** The same for `send`. */
    ghost var reply: Option<SendResult>
    ghost var sends: nat

    constructor ()
      ensures delivered == [] && accepted == [] && answer == None && reply == None
    {
      delivered, accepted, answer, reply, recvs, sends := [], [], None, None, 0, 0;
    }

    /** Asking for nothing would read as end of stream, so a caller must offer room. */
    method Recv(room: nat) returns (r: RecvResult)
      requires room > 0
      modifies this`delivered, this`answer, this`recvs
      ensures answer == Some(r) && recvs == old(recvs) + 1
      ensures r.Received? ==> 0 < |r.bytes| <= room && delivered == old(delivered) + r.bytes
      ensures !r.Received? ==> delivered == old(delivered)
    {
      r := *;
      if r.Received? {
        if 0 < |r.bytes| <= room {
          delivered := delivered + r.bytes;
        } else {
          r := RecvFailed(true);
        }
      }
      answer, recvs := Some(r), recvs + 1;
    }

    method Send(bytes: seq<Byte>) returns (r: SendResult)
      requires bytes != []
      modifies this`accepted, this`reply, this`sends
      ensures reply == Some(r) && sends == old(sends) + 1
      ensures r.Accepted? ==> 0 < r.count <= |bytes| && accepted == old(accepted) + bytes[..r.count]
      ensures !r.Accepted? ==> accepted == old(accepted)
    {
      r := *;
      if r.Accepted? {
        if 0 < r.count <= |bytes| {
          accepted := accepted + bytes[..r.count];
        } else {
          r := SendFailed(true);
        }
      }
      reply, sends := Some(r), sends + 1;
    }
  }

  class Buffer {
    const data: array<Byte>
    var length: nat
    var written: nat
    var readOff: nat

    ghost predicate Valid()
      reads this
    {
      readOff <= length <= data.Length && written <= length
    }

    constructor (capacity: nat)
      ensures Valid() && data.Length == capacity && fresh(data)
      ensures length == written == readOff == 0
    {
      data := new Byte[capacity](_ => 0);
      length, written, readOff := 0, 0, 0;
    }

    /** Received and not yet consumed. */
    function Unread(): seq<Byte>
      requires Valid()
      reads this, data
    {
      data[readOff..length]
    }

    /** Appended and not yet sent. */
    function Unsent(): seq<Byte>
      requires Valid()
      reads this, data
    {
      data[written..length]
    }

    function Remaining(): (n: nat)
      requires Valid()
      reads this, data
      ensures n == |Unsent()|
    {
      length - written
    }

    /** Everything appended since the last reset. */
    function Appended(): seq<Byte>
      requires Valid()
      reads this, data
    {
      data[..length]
    }

    predicate HasRoom(n: nat)
      reads this
    {
      length + n <= data.Length
    }

    /** The room a read would offer: a full tail is compacted first, if anything was consumed. */
    function Room(): nat
      requires Valid()
      reads this
    {
      if readOff > 0 && length == data.Length then readOff else data.Length - length
    }

    /** Moves the unread tail to the front; the source's memmove. */
    method Compact()
      requires Valid() && written == 0
      modifies this, data
      ensures Valid() && Unread() == old(Unread()) && readOff == written == 0 && length == |old(Unread())|
    {
      ghost var unread := Unread();
      var n := length - readOff;
      if readOff > 0 {
        var i := 0;
        while i < n
          invariant 0 <= i <= n && length == old(length) && readOff == old(readOff) && written == 0
          invariant data[..i] == unread[..i]
          invariant data[readOff + i..length] == unread[i..]
        {
          assert data[readOff + i] == unread[i];
          data[i] := data[readOff + i];
          assert data[..i + 1] == unread[..i + 1];
          i := i + 1;
        }
      }
      length, readOff := n, 0;
    }

    /** Reads what the kernel has into the tail. */
    method ReadFrom(socket: Socket) returns (r: RecvResult)
      requires Valid() && written == 0 && Room() > 0
      modifies this, data, socket`delivered, socket`answer, socket`recvs
      ensures Valid() && written == 0 && socket.answer == Some(r) && socket.recvs == old(socket.recvs) + 1
      ensures readOff == if old(readOff > 0 && length == data.Length) then 0 else old(readOff)
      ensures r.Received? ==>
        && r.bytes != []
        && Unread() == old(Unread()) + r.bytes
        && socket.delivered == old(socket.delivered) + r.bytes
      ensures !r.Received? ==> Unread() == old(Unread()) && socket.delivered == old(socket.delivered)
    {
      if readOff > 0 && length == data.Length {
        Compact();
      }
      r := socket.Recv(data.Length - length);
      if r.Received? {
        ghost var unread := Unread();
        Store(r.bytes);
        assert Unread() == unread + r.bytes;
      }
    }

    /** Copies bytes into the tail. */
    method Store(bytes: seq<Byte>)
      requires Valid() && length + |bytes| <= data.Length
      modifies this`length, data
      ensures Valid() && length == old(length) + |bytes|
      ensures data[..old(length)] == old(data[..length]) && data[old(length)..length] == bytes
    {
      var i := 0;
      while i < |bytes|
        invariant 0 <= i <= |bytes| && length == old(length)
        invariant data[..length] == old(data[..length])
        invariant data[length..length + i] == bytes[..i]
      {
        data[length + i] := bytes[i];
        assert data[length..length + i + 1] == bytes[..i + 1];
        i := i + 1;
      }
      length := length + |bytes|;
    }

    /** Consumes unread bytes; a buffer with no more than these unread starts over. */
    method Advance(n: nat)
      requires Valid() && written == 0
      modifies this
      ensures Valid() && written == 0
      ensures if n >= |old(Unread())| then readOff == length == 0 && Unread() == []
              else readOff == old(readOff) + n && length == old(length) && Unread() == old(Unread())[n..]
    {
      readOff := readOff + n;
      if readOff >= length {
        readOff, length := 0, 0;
      }
    }

    method Append(bytes: seq<Byte>) returns (ok: bool)
      requires Valid()
      modifies this`length, data
      ensures Valid() && ok == old(HasRoom(|bytes|))
      ensures ok ==> Appended() == old(Appended()) + bytes && Unsent() == old(Unsent()) + bytes
      ensures !ok ==> Appended() == old(Appended()) && length == old(length)
    {
      ok := HasRoom(|bytes|);
      if ok {
        ghost var appended, unsent := Appended(), Unsent();
        Store(bytes);
        assert Appended() == appended + bytes;
        assert Unsent() == unsent + bytes;
      }
    }

    /** Hands unsent bytes to the kernel, which may take only some of them. */
    method WriteTo(socket: Socket) returns (r: SendResult)
      requires Valid() && Unsent() != []
      modifies this`written, socket`accepted, socket`reply, socket`sends
      ensures Valid() && socket.reply == Some(r) && socket.sends == old(socket.sends) + 1
      ensures socket.accepted + Unsent() == old(socket.accepted) + old(Unsent())
      ensures r.Accepted? ==> written > old(written)
      ensures !r.Accepted? ==> written == old(written)
    {
      ghost var unsent := Unsent();
      r := socket.Send(data[written..length]);
      if r.Accepted? {
        written := written + r.count;
        assert unsent == unsent[..r.count] + Unsent();
      }
    }

    /** Starts over once everything was sent. */
    method TryReset()
      requires Valid() && readOff == 0
      modifies this
      ensures Valid() && readOff == 0
      ensures old(written == length) ==> length == written == 0
      ensures old(written != length) ==> length == old(length) && written == old(written)
    {
      if written == length {
        length, written := 0, 0;
      }
    }

    method Clear()
      modifies this
      ensures Valid() && length == written == readOff == 0
    {
      length, written, readOff := 0, 0, 0;
    }
  }
}
