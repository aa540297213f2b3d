/** The ring buffer as one thread sees it when no other is inside a call. */
module RingBuffers {
  import opened OrderTypes
  import opened RingIndex

  class RingBuffer<T(0)> {
    const buffer: array<T>
    var write: nat
    var read: nat
    /** The items held, oldest first, and how many came before them. */
    ghost var Contents: seq<T>
    ghost var taken: nat

    function Capacity(): nat {
      buffer.Length
    }

    ghost predicate Valid()
      reads this, buffer
    {
      var n := Capacity();
      && 0 < n <= 0x1_0000_0000 && IsPow2(n) && |Contents| < n
      && read == taken % n && write == (taken + |Contents|) % n
      && (forall k :: taken <= k < taken + |Contents| ==> buffer[k % n] == Contents[k - taken])
    }

    constructor (capacity: nat)
      requires 0 < capacity <= 0x1_0000_0000 && IsPow2(capacity)
      ensures Valid() && Contents == [] && Capacity() == capacity && fresh(buffer)
    {
      buffer := new T[capacity];
      write, read, Contents, taken := 0, 0, [], 0;
      new;
      ModUnique(0, capacity, 0, 0);
    }

    /** Refuses the item when all but one slot are taken. */
    method Push(item: T) returns (ok: bool)
      requires Valid()
      modifies this, buffer
      ensures Valid() && taken == old(taken)
      ensures ok <==> |old(Contents)| < Capacity() - 1
      ensures Contents == if ok then old(Contents) + [item] else old(Contents)
    {
      var n := Capacity();
      var next := NextIndex(write, n);
      NextIndexIsMod(taken + |Contents|, n);
      SameIndex(taken + |Contents| + 1, taken, n);
      if next == read {
        return false;
      }
      forall k | taken <= k < taken + |Contents|
        ensures k % n != write
      {
        SameIndex(taken + |Contents|, k, n);
      }
      buffer[write] := item;
      write := next;
      Contents := Contents + [item];
      ok := true;
    }

    method Pop() returns (item: Option<T>)
      requires Valid()
      modifies this
      ensures Valid()
      ensures old(Contents) == [] ==> item == None && Contents == []
      ensures old(Contents) != [] ==> item == Some(old(Contents)[0]) && Contents == old(Contents)[1..]
    {
      var n := Capacity();
      SameIndex(taken + |Contents|, taken, n);
      if read == write {
        return None;
      }
      assert buffer[taken % n] == Contents[0];
      item := Some(buffer[read]);
      NextIndexIsMod(taken, n);
      read := NextIndex(read, n);
      Contents, taken := Contents[1..], taken + 1;
    }

    method Size() returns (size: nat)
      requires Valid()
      ensures size == |Contents|
    {
      SizeIsDistance(taken + |Contents|, taken, Capacity());
      size := RingIndex.Size(write, read, Capacity());
    }

    method Empty() returns (empty: bool)
      requires Valid()
      ensures empty <==> Contents == []
    {
      SameIndex(taken + |Contents|, taken, Capacity());
      empty := write == read;
    }
  }
}
