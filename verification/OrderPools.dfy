/** The fixed arena of order slots and its free list. */
module OrderPools {
  import opened OrderTypes
  import opened PriceTimeBook
  import opened Orders

  class OrderPool {
    const arena: seq<Order>
    /** A stack of unused slots, top at the end. */
    var freeList: seq<Order>

    /** No slot is free twice. */
    ghost predicate Valid()
      reads this`freeList
    {
      && (forall i, j :: 0 <= i < j < |arena| ==> arena[i] != arena[j])
      && (forall o :: o in freeList ==> o in arena)
      && (forall i, j :: 0 <= i < j < |freeList| ==> freeList[i] != freeList[j])
    }

    /** Lowest slots on top, so that they are handed out first. */
    constructor (capacity: nat)
      ensures Valid() && |arena| == |freeList| == capacity
      ensures forall k :: 0 <= k < capacity ==> freeList[k] == arena[capacity - 1 - k]
      ensures fresh(arena)
    {
      var slots: seq<Order> := [];
      while |slots| < capacity
        invariant |slots| <= capacity && fresh(slots)
        invariant forall i, j :: 0 <= i < j < |slots| ==> slots[i] != slots[j]
      {
        var slot := new Order();
        slots := slots + [slot];
      }
      arena := slots;
      var free: seq<Order> := [];
      var i := capacity;
      while i > 0
        invariant 0 <= i <= capacity && |free| == capacity - i
        invariant forall k :: 0 <= k < |free| ==> free[k] == slots[capacity - 1 - k]
      {
        i := i - 1;
        free := free + [slots[i]];
      }
      freeList := free;
    }

    /** Takes the top free slot and writes the order into it; null when the pool is exhausted. */
    method Allocate(id: OrderId, req: Request) returns (slot: Order?)
      requires Valid()
      modifies this`freeList, if freeList == [] then {} else {freeList[|freeList| - 1]}
      ensures Valid()
      ensures slot == null <==> old(freeList) == []
      ensures slot == null ==> freeList == old(freeList)
      ensures slot != null ==>
        && old(freeList) == freeList + [slot] && slot !in freeList
        && slot.View() == Resting(id, req.client, req.side, req.price, req.quantity, req.quantity)
        && slot.prev == null && slot.next == null
    {
      if freeList == [] {
        return null;
      }
      slot := freeList[|freeList| - 1];
      freeList := freeList[..|freeList| - 1];
      slot.Assign(id, req);
    }

    method Deallocate(order: Order)
      requires Valid() && order in arena && order !in freeList
      modifies this`freeList
      ensures Valid() && freeList == old(freeList) + [order]
    {
      freeList := freeList + [order];
    }
  }
}
