/** Closed forms for one taker against one list: how much fills, against whom, and what is left. */
module Sweeps {
  import opened OrderTypes
  import opened PriceTimeBook
  import opened BookLists

  function Total(s: seq<Resting>): nat {
    if s == [] then 0 else s[0].remaining + Total(s[1..])
  }

  /** All quantity resting at prices the taker accepts, wherever in the list it stands. */
  function Available(side: Side, limit: Option<Price>, s: seq<Resting>): nat {
    if s == [] then 0
    else (if Accepts(side, limit, s[0].price) then s[0].remaining else 0) + Available(side, limit, s[1..])
  }

  function FillTotal(fills: seq<Fill>): nat {
    if fills == [] then 0 else fills[0].quantity + FillTotal(fills[1..])
  }

  predicate CanMatch(side: Side, limit: Option<Price>, opp: seq<Resting>) {
    opp != [] && Accepts(side, limit, opp[0].price)
  }

  /** In a sorted list nothing behind a refused front is acceptable. */
  lemma {:induction false} RefusedFront(side: Side, limit: Option<Price>, opp: seq<Resting>)
    requires Sorted(side.Opposite(), opp) && !CanMatch(side, limit, opp)
    ensures Available(side, limit, opp) == 0
    ensures forall i :: 0 <= i < |opp| ==> !Accepts(side, limit, opp[i].price)
  {
    if opp != [] {
      if opp[1..] != [] {
        assert !Better(side.Opposite(), opp[1].price, opp[0].price);
      }
      RefusedFront(side, limit, opp[1..]);
      assert forall i :: 0 < i < |opp| ==> opp[i] == opp[1..][i - 1];
    }
  }

  /** A taker that wants more than the front order has takes it all and goes on. */
  lemma TakeWhole(side: Side, taker: Party, limit: Option<Price>, q: Quantity, opp: seq<Resting>)
    requires CanMatch(side, limit, opp) && q > opp[0].remaining
    ensures var s := Take(side, taker, limit, q, opp);
      var later := Take(side, taker, limit, q - opp[0].remaining, opp[1..]);
      && s.rest == later.rest && s.left == later.left && s.done == later.done
      && s.fills != [] && FillTotal(s.fills) == opp[0].remaining + FillTotal(later.fills)
  {
    var later := Take(side, taker, limit, q - opp[0].remaining, opp[1..]);
    assert ([MakeFill(side, taker, opp[0].Who(), opp[0].remaining)] + later.fills)[1..] == later.fills;
  }

  /** The taker fills exactly the smaller of what it wants and what is acceptable. */
  lemma {:induction false} TakeQuantity(side: Side, taker: Party, limit: Option<Price>, q: Quantity, opp: seq<Resting>)
    requires Sorted(side.Opposite(), opp)
    ensures var s := Take(side, taker, limit, q, opp);
      && FillTotal(s.fills) == Min(q, Available(side, limit, opp))
      && s.left == q - FillTotal(s.fills)
      && Total(s.rest) == Total(opp) - FillTotal(s.fills)
      && (s.done <==> CanMatch(side, limit, opp) && q <= Available(side, limit, opp))
      && (s.fills != [] <==> CanMatch(side, limit, opp))
  {
    if !CanMatch(side, limit, opp) {
      RefusedFront(side, limit, opp);
    } else if q > opp[0].remaining {
      TakeQuantity(side, taker, limit, q - opp[0].remaining, opp[1..]);
      TakeWhole(side, taker, limit, q, opp);
      hide Take;
      hide FillTotal;
      if !CanMatch(side, limit, opp[1..]) {
        RefusedFront(side, limit, opp[1..]);
      }
    } else {
      var fill := MakeFill(side, taker, opp[0].Who(), q);
      assert [fill][1..] == [];
    }
  }

  function Maker(side: Side, fill: Fill): Party {
    if side == BID then fill.ask else fill.bid
  }

  function TakerOf(side: Side, fill: Fill): Party {
    if side == BID then fill.bid else fill.ask
  }

  /** Fill k of a sweep is between the taker and the k-th order of the list. */
  ghost predicate InQueueOrder(side: Side, taker: Party, opp: seq<Resting>, fills: seq<Fill>) {
    && |fills| <= |opp|
    && (forall k :: 0 <= k < |fills| ==> TakerOf(side, fills[k]) == taker && Maker(side, fills[k]) == opp[k].Who())
    && (forall k :: 0 <= k < |fills| - 1 ==> fills[k].quantity == opp[k].remaining)
    && (fills != [] ==> fills[|fills| - 1].quantity <= opp[|fills| - 1].remaining)
  }

  /** One more maker in front, taken completely. */
  lemma InQueueOrderAfter(side: Side, taker: Party, opp: seq<Resting>, later: seq<Fill>)
    requires opp != [] && InQueueOrder(side, taker, opp[1..], later)
    ensures InQueueOrder(side, taker, opp, [MakeFill(side, taker, opp[0].Who(), opp[0].remaining)] + later)
  {
    var fills := [MakeFill(side, taker, opp[0].Who(), opp[0].remaining)] + later;
    assert forall k :: 0 < k < |fills| ==> fills[k] == later[k - 1] && opp[k] == opp[1..][k - 1];
  }

  /** Makers are taken strictly from the front, each but the last completely. */
  lemma {:induction false} TakeMakers(side: Side, taker: Party, limit: Option<Price>, q: Quantity, opp: seq<Resting>)
    ensures var fills := Take(side, taker, limit, q, opp).fills;
      && InQueueOrder(side, taker, opp, fills)
      && (forall k :: 0 <= k < |fills| ==> Accepts(side, limit, opp[k].price))
  {
    if CanMatch(side, limit, opp) && q > opp[0].remaining {
      TakeMakers(side, taker, limit, q - opp[0].remaining, opp[1..]);
      var later := Take(side, taker, limit, q - opp[0].remaining, opp[1..]).fills;
      InQueueOrderAfter(side, taker, opp, later);
      assert forall k :: 0 < k <= |later| ==> opp[k] == opp[1..][k - 1];
    }
  }

  function LastQuantity(fills: seq<Fill>): Quantity {
    if fills == [] then 0 else fills[|fills| - 1].quantity
  }

  /** The list after its first `n` orders were filled, all but the last completely, the last for `q`. */
  function Consumed(opp: seq<Resting>, n: nat, q: Quantity): seq<Resting>
    requires n <= |opp| && (n > 0 ==> q <= opp[n - 1].remaining)
  {
    if n == 0 then opp else FillFront(opp[n - 1..], q)
  }

  /** Every order behind the last maker is untouched, and an unemptied taker leaves nothing acceptable. */
  lemma {:induction false} TakeRest(side: Side, taker: Party, limit: Option<Price>, q: Quantity, opp: seq<Resting>)
    ensures var s := Take(side, taker, limit, q, opp);
      && |s.fills| <= |opp|
      && (s.fills != [] ==> LastQuantity(s.fills) <= opp[|s.fills| - 1].remaining)
      && s.rest == Consumed(opp, |s.fills|, LastQuantity(s.fills))
      && (!s.done ==> s.rest == opp[|s.fills|..] && !CanMatch(side, limit, s.rest))
  {
    if !CanMatch(side, limit, opp) {
      assert opp[0..] == opp;
    } else if q <= opp[0].remaining {
      assert opp[0..] == opp;
    } else {
      var later := Take(side, taker, limit, q - opp[0].remaining, opp[1..]);
      var s := Take(side, taker, limit, q, opp);
      var n := |later.fills|;
      TakeRest(side, taker, limit, q - opp[0].remaining, opp[1..]);
      assert s.rest == later.rest && |s.fills| == n + 1;
      assert opp[1..][n..] == opp[n + 1..];
      if n == 0 {
        assert LastQuantity(s.fills) == opp[0].remaining;
        assert opp[0..] == opp;
      } else {
        assert LastQuantity(s.fills) == LastQuantity(later.fills);
        assert opp[1..][n - 1..] == opp[n..];
      }
    }
  }

  /** A sweep keeps its list in order and only ever raises the front. */
  lemma {:induction false} TakeKeepsListInv(
    side: Side, taker: Party, limit: Option<Price>, q: Quantity, opp: seq<Resting>)
    requires ListInv(side.Opposite(), opp)
    ensures var s := Take(side, taker, limit, q, opp);
      && ListInv(side.Opposite(), s.rest)
      && |s.rest| <= |opp|
      && (forall i :: 0 <= i < |s.rest| ==> exists j :: 0 <= j < |opp| && s.rest[i].id == opp[j].id)
      && (s.rest != [] ==> !Better(side.Opposite(), s.rest[0].price, opp[0].price))
  {
    if CanMatch(side, limit, opp) {
      var f := Min(q, opp[0].remaining);
      if f == q {
        FillFrontKeepsListInv(side.Opposite(), opp, f);
        var t := FillFront(opp, f);
        var d := |opp| - |t|;
        assert forall i :: 0 <= i < |t| ==> t[i].id == opp[i + d].id;
      } else {
        TakeKeepsListInv(side, taker, limit, q - f, opp[1..]);
        var s := Take(side, taker, limit, q - f, opp[1..]);
        forall i | 0 <= i < |s.rest|
          ensures exists j :: 0 <= j < |opp| && s.rest[i].id == opp[j].id
        {
          var j :| 0 <= j < |opp[1..]| && s.rest[i].id == opp[1..][j].id;
          assert opp[1..][j] == opp[j + 1];
        }
      }
    }
  }

  /** One step of a market order's loop against the front of the list. */
  lemma MarketSweepStep(side: Side, taker: Party, q: Quantity, s: seq<Resting>)
    requires q > 0 && s != []
    ensures var f := Min(q, s[0].remaining);
      var now, later := TakeMarket(side, taker, q, s), TakeMarket(side, taker, q - f, FillFront(s, f));
      && now.rest == later.rest && now.left == later.left
      && now.fills == [MakeFill(side, taker, s[0].Who(), f)] + later.fills
      && |FillFront(s, f)| + (q - f) < |s| + q
  {
    var f := Min(q, s[0].remaining);
    if f == q {
      assert TakeMarket(side, taker, 0, FillFront(s, f)).fills == [];
    } else {
      assert FillFront(s, f) == s[1..];
    }
  }
}
