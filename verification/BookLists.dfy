/** What insertion, lookup, removal and front fills do to one side of the reference book. */
module BookLists {
  import opened OrderTypes
  import opened PriceTimeBook

  // ----- insertion -----

  /** How many orders a new one queues behind. */
  function Rank(s: seq<Resting>, r: Resting): (k: nat)
    ensures k <= |s|
  {
    if s == [] || Better(r.side, r.price, s[0].price) then 0 else 1 + Rank(s[1..], r)
  }

  /** Price-time priority: behind everything at least as good, ahead of everything strictly worse. */
  lemma {:induction false} InsertPlace(s: seq<Resting>, r: Resting)
    requires Sorted(r.side, s)
    ensures var k := Rank(s, r);
      && Insert(s, r) == s[..k] + [r] + s[k..]
      && (forall i :: 0 <= i < k ==> !Better(r.side, r.price, s[i].price))
      && (forall i :: k <= i < |s| ==> Better(r.side, r.price, s[i].price))
  {
    if s != [] && !Better(r.side, r.price, s[0].price) {
      InsertPlace(s[1..], r);
      var k := Rank(s[1..], r);
      assert s[..k + 1] == [s[0]] + s[1..][..k];
      forall i | 0 <= i < |s|
        ensures i < k + 1 ==> !Better(r.side, r.price, s[i].price)
        ensures k + 1 <= i ==> Better(r.side, r.price, s[i].price)
      {
        if i > 0 { assert s[i] == s[1..][i - 1]; }
      }
    }
  }

  /** Where a list splits into "at least as good" and "strictly worse", the new order goes in between. */
  lemma {:induction false} InsertBetween(before: seq<Resting>, after: seq<Resting>, r: Resting)
    requires forall i :: 0 <= i < |before| ==> !Better(r.side, r.price, before[i].price)
    requires forall i :: 0 <= i < |after| ==> Better(r.side, r.price, after[i].price)
    ensures Insert(before + after, r) == before + [r] + after
  {
    if before == [] {
      assert before + after == after;
    } else {
      InsertBetween(before[1..], after, r);
      assert (before + after)[1..] == before[1..] + after;
    }
  }

  lemma {:induction false} InsertLength(s: seq<Resting>, r: Resting)
    ensures |Insert(s, r)| == |s| + 1
  {
    if s != [] && !Better(r.side, r.price, s[0].price) {
      InsertLength(s[1..], r);
    }
  }

  lemma {:induction false} InsertKeepsListInv(s: seq<Resting>, r: Resting)
    requires ListInv(r.side, s) && Proper(r.side, r) && FindIn(s, r.id).None?
    ensures ListInv(r.side, Insert(s, r))
  {
    InsertPlace(s, r);
    FindNothing(s, r.id);
  }

  // ----- lookup -----

  lemma {:induction false} FindNothing(s: seq<Resting>, id: OrderId)
    ensures FindIn(s, id).None? <==> forall i :: 0 <= i < |s| ==> s[i].id != id
  {
    if s != [] && s[0].id != id {
      FindNothing(s[1..], id);
      forall i | 0 <= i < |s|
        ensures FindIn(s, id).None? ==> s[i].id != id
      {
        if i > 0 { assert s[i] == s[1..][i - 1]; }
      }
      if forall i :: 0 <= i < |s| ==> s[i].id != id {
        assert forall i :: 0 <= i < |s[1..]| ==> s[1..][i] == s[i + 1];
      }
    }
  }

  lemma {:induction false} FindAt(s: seq<Resting>, k: nat)
    requires UniqueIds(s) && k < |s|
    ensures FindIn(s, s[k].id) == Some(s[k])
  {
    if k > 0 {
      FindAt(s[1..], k - 1);
    }
  }

  /** A successful lookup names a position. */
  lemma {:induction false} FoundAt(s: seq<Resting>, id: OrderId) returns (k: nat)
    requires FindIn(s, id).Some?
    ensures k < |s| && s[k].id == id && FindIn(s, id) == Some(s[k])
  {
    if s[0].id == id {
      k := 0;
    } else {
      k := FoundAt(s[1..], id);
      k := k + 1;
    }
  }

  // ----- removal -----

  lemma {:induction false} WithoutAt(s: seq<Resting>, k: nat)
    requires UniqueIds(s) && k < |s|
    ensures Without(s, s[k].id) == s[..k] + s[k + 1..]
  {
    if k > 0 {
      WithoutAt(s[1..], k - 1);
      assert s[0].id != s[k].id && s[1..][k - 1] == s[k];
      assert s[..k] == [s[0]] + s[1..][..k - 1];
      assert s[1..][k..] == s[k + 1..];
    }
  }

  lemma {:induction false} WithoutAbsent(s: seq<Resting>, id: OrderId)
    requires FindIn(s, id).None?
    ensures Without(s, id) == s
  {
    if s != [] {
      WithoutAbsent(s[1..], id);
    }
  }

  /** Removal forgets the id and disturbs nothing else: neither contents nor order. */
  lemma {:induction false} WithoutKeepsListInv(side: Side, s: seq<Resting>, id: OrderId)
    requires ListInv(side, s)
    ensures ListInv(side, Without(s, id))
    ensures FindIn(Without(s, id), id).None?
    ensures |Without(s, id)| == |s| - (if FindIn(s, id).Some? then 1 else 0)
    ensures forall i :: 0 <= i < |Without(s, id)| ==> Without(s, id)[i] in s
  {
    if FindIn(s, id).None? {
      WithoutAbsent(s, id);
    } else {
      var k := FoundAt(s, id);
      WithoutAt(s, k);
      FindNothing(Without(s, id), id);
    }
  }

  // ----- front fills -----

  lemma FillFrontKeepsListInv(side: Side, s: seq<Resting>, q: Quantity)
    requires ListInv(side, s) && s != [] && q <= s[0].remaining
    ensures ListInv(side, FillFront(s, q))
    ensures FillFront(s, q) != [] ==> !Better(side, FillFront(s, q)[0].price, s[0].price)
  {
    var t := FillFront(s, q);
    var d := |s| - |t|;
    assert forall i :: 0 <= i < |t| ==> t[i].id == s[i + d].id && t[i].price == s[i + d].price;
  }
}
