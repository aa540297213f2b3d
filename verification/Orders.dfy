/** The order node and one price level's intrusive FIFO of nodes. */
module Orders {
  import opened OrderTypes
  import opened PriceTimeBook
  import opened LevelLists

  class Order {
    var id: OrderId
    var client: ClientId
    var side: Side
    var price: Price
    var initial: Quantity
    var remaining: Quantity
    var prev: Order?
    var next: Order?

    /** An unused arena slot. */
    constructor ()
      ensures prev == null && next == null
    {
      id, client, side, price, initial, remaining := 0, 0, BID, 0, 0, 0;
      prev, next := null, null;
    }

    /** The value the reference book keeps for this node. */
    function View(): Resting
      reads this`id, this`client, this`side, this`price, this`initial, this`remaining
    {
      Resting(id, client, side, price, initial, remaining)
    }

    /** Overwrites the slot with a fresh order, links included. */
    method Assign(newId: OrderId, req: Request)
      modifies this
      ensures View() == Resting(newId, req.client, req.side, req.price, req.quantity, req.quantity)
      ensures prev == null && next == null
    {
      id, client, side, price := newId, req.client, req.side, req.price;
      initial, remaining := req.quantity, req.quantity;
      prev, next := null, null;
    }

    predicate IsFilled()
      reads this`remaining
    {
      remaining == 0
    }

    /** Refuses to fill more than remains: the source throws `std::logic_error`. */
    method Fill(quantity: Quantity) returns (thrown: bool)
      modifies this`remaining
      ensures thrown <==> quantity > old(remaining)
      ensures remaining == if thrown then old(remaining) else old(remaining) - quantity
    {
      if quantity > remaining {
        return true;
      }
      remaining := remaining - quantity;
      return false;
    }
  }

  class PriceLevelQueue {
    var head: Order?
    var tail: Order?
    var size: nat
    /** The linked nodes, oldest first. */
    ghost var Nodes: seq<Order>

    constructor ()
      ensures Valid() && Nodes == []
    {
      head, tail, size, Nodes := null, null, 0, [];
    }

    /** `prev` and `next` are mutually inverse along `Nodes`; `head`, `tail` and `size` are exact. */
    ghost predicate Valid()
      reads this, Nodes`prev, Nodes`next
    {
      && size == |Nodes|
      && (Nodes == [] ==> head == null && tail == null)
      && (Nodes != [] ==>
            && head == Nodes[0] && Nodes[0].prev == null
            && tail == Nodes[|Nodes| - 1] && Nodes[|Nodes| - 1].next == null)
      && (forall i {:trigger Nodes[i].prev} :: 0 < i < |Nodes| ==> Nodes[i].prev == Nodes[i - 1])
      && (forall i {:trigger Nodes[i].next} :: 0 <= i < |Nodes| - 1 ==> Nodes[i].next == Nodes[i + 1])
      && (forall i, j :: 0 <= i < j < |Nodes| ==> Nodes[i] != Nodes[j])
    }

    twostate lemma Kept()
      requires old(Valid()) && unchanged(this)
      requires forall k :: 0 <= k < |Nodes| ==> unchanged(Nodes[k])
      ensures Valid()
    {
    }

    lemma NodesDistinct()
      requires Valid()
      ensures forall i, j :: 0 <= i < j < |Nodes| ==> Nodes[i] != Nodes[j]
      ensures Nodes != [] ==> head == Nodes[0]
    {
    }

    predicate Empty()
      requires Valid()
      reads this, Nodes`prev, Nodes`next
      ensures Empty() <==> Nodes == []
    {
      head == null
    }

    method Push(order: Order)
      requires Valid() && order !in Nodes && order.prev == null && order.next == null
      modifies this, Nodes`next, order`prev
      ensures Valid() && Nodes == old(Nodes) + [order]
    {
      if head == null {
        head := order;
      }
      if tail != null {
        tail.next := order;
        order.prev := tail;
      }
      tail := order;
      size := size + 1;
      Nodes := Nodes + [order];
    }

    /** Unlinks the oldest node, if any; the node keeps its own stale links. */
    method Pop() returns (order: Order?)
      requires Valid()
      modifies this, Nodes`prev
      ensures Valid()
      ensures old(Nodes) == [] ==> order == null && Nodes == []
      ensures old(Nodes) != [] ==> order == old(Nodes)[0] && Nodes == old(Nodes)[1..]
    {
      if head == null {
        return null;
      }
      order := head;
      head := head.next;
      if head != null {
        head.prev := null;
      } else {
        tail := null;
      }
      size := size - 1;
      Nodes := Nodes[1..];
    }

    /** Unlinks a node from anywhere in the queue. */
    method Remove(order: Order, ghost k: nat)
      requires Valid() && k < |Nodes| && Nodes[k] == order
      modifies this, Nodes`prev, Nodes`next
      ensures Valid() && Nodes == Drop(old(Nodes), k)
    {
      var prev, next := order.prev, order.next;
      if prev != null {
        prev.next := next;
      } else {
        head := next;
      }
      if next != null {
        next.prev := prev;
      } else {
        tail := prev;
      }
      size := size - 1;
      Nodes := Drop(Nodes, k);
    }
  }
}
