/**
 Why the two-sided matching loop is right: run on an uncrossed book into which one
 order has just been inserted, it is a sweep by that order alone.
 */
module LimitMatching {
  import opened OrderTypes
  import opened PriceTimeBook
  import opened BookLists
  import opened Sweeps

  function Sided(side: Side, own: seq<Resting>, opp: seq<Resting>): Book {
    if side == BID then Book(own, opp) else Book(opp, own)
  }

  /** Matching with `r` in front of its side, when nothing behind `r` crosses. */
  lemma {:induction false} MatchingIsSweeping(r: Resting, own: seq<Resting>, opp: seq<Resting>)
    requires !Crossed(Sided(r.side, own, opp)) && Sorted(r.side.Opposite(), opp)
    ensures var s := Take(r.side, r.Who(), Some(r.price), r.remaining, opp);
      var b := Sided(r.side, [r] + own, opp);
      && MatchedFills(b) == s.fills
      && MatchedBook(b) == Sided(r.side, if s.done then own else [r.(remaining := s.left)] + own, s.rest)
    decreases |opp|
  {
    var b := Sided(r.side, [r] + own, opp);
    if CanMatch(r.side, Some(r.price), opp) {
      assert Crossed(b);
      var f := Min(r.remaining, opp[0].remaining);
      assert FrontFill(b) == MakeFill(r.side, r.Who(), opp[0].Who(), f);
      assert ([r] + own)[1..] == own;
      if f == r.remaining {
        assert FillFront([r] + own, f) == own;
        assert MatchFront(b) == Sided(r.side, own, FillFront(opp, f));
        assert !Crossed(MatchFront(b));
      } else {
        var r' := r.(remaining := r.remaining - f);
        assert FillFront([r] + own, f) == [r'] + own && FillFront(opp, f) == opp[1..];
        assert MatchFront(b) == Sided(r.side, [r'] + own, opp[1..]);
        MatchingIsSweeping(r', own, opp[1..]);
      }
    } else {
      assert !Crossed(b);
      assert r == r.(remaining := r.remaining);
    }
  }

  /**
   Adding a limit order to an uncrossed book and running the matching loop gives
   exactly `LimitAdd`: the same fills in the same order, and the same book.
   */
  lemma InsertThenMatch(b: Book, req: Request)
    requires Orderly(b) && !Crossed(b)
    ensures var added := b.Set(req.side, Insert(b.On(req.side), Rested(req, req.quantity)));
      && MatchedBook(added) == LimitAdd(b, req).book
      && MatchedFills(added) == LimitAdd(b, req).fills
  {
    var r := Rested(req, req.quantity);
    var own, opp := b.On(req.side), b.On(req.side.Opposite());
    var added := b.Set(req.side, Insert(own, r));
    InsertPlace(own, r);
    if CanMatch(req.side, Some(req.price), opp) {
      assert own != [] ==> Better(r.side, r.price, own[0].price);
      assert Insert(own, r) == [r] + own;
      assert added == Sided(r.side, [r] + own, opp);
      MatchingIsSweeping(r, own, opp);
      TakeQuantity(req.side, Taker(req), Some(req.price), req.quantity, opp);
      var s := Take(r.side, r.Who(), Some(r.price), r.remaining, opp);
      if !s.done {
        SweepLeavesFront(r.side, r.(remaining := s.left), own);
      }
    } else {
      assert !Crossed(added);
    }
  }

  lemma SweepLeavesFront(side: Side, r: Resting, own: seq<Resting>)
    requires r.side == side
    requires own != [] ==> Better(side, r.price, own[0].price)
    ensures Insert(own, r) == [r] + own
  {
  }

  /** On an uncrossed book the loop does nothing. */
  lemma MatchNothing(b: Book)
    requires !Crossed(b)
    ensures MatchedBook(b) == b && MatchedFills(b) == []
  {
  }
}
