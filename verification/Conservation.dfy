/** Where every unit of an order's quantity goes, request by request. */
module Conservation {
  import opened OrderTypes
  import opened PriceTimeBook
  import opened BookLists
  import opened Sweeps
  import opened BookTheorems

  function Part(fill: Fill, id: OrderId): Quantity {
    (if fill.bid.id == id then fill.quantity else 0) + (if fill.ask.id == id then fill.quantity else 0)
  }

  /** Quantity these fills name this id for. */
  function FilledIn(fills: seq<Fill>, id: OrderId): Quantity {
    if fills == [] then 0 else Part(fills[0], id) + FilledIn(fills[1..], id)
  }

  /** `before` became `after` by losing exactly `q`; an order that is gone lost everything. */
  predicate Lost(before: Option<Resting>, after: Option<Resting>, q: Quantity) {
    match (before, after)
    case (None, None) => q == 0
    case (None, Some(_)) => false
    case (Some(r), None) => q == r.remaining
    case (Some(r), Some(r')) => q <= r.remaining && r' == r.(remaining := r.remaining - q)
  }

  lemma LostNothing(r: Option<Resting>)
    ensures Lost(r, r, 0)
  {
    if r.Some? {
      assert r.value == r.value.(remaining := r.value.remaining - 0);
    }
  }

  /** A front fill takes from the front order only. */
  lemma FillFrontLedger(s: seq<Resting>, q: Quantity, id: OrderId)
    requires UniqueIds(s) && s != [] && q <= s[0].remaining
    ensures Lost(FindIn(s, id), FindIn(FillFront(s, q), id), if s[0].id == id then q else 0)
  {
    if s[0].id == id {
      FindNothing(s[1..], id);
    } else {
      LostNothing(FindIn(s, id));
      assert FindIn(s, id) == FindIn(s[1..], id);
      if s[0].remaining != q {
        assert FillFront(s, q)[1..] == s[1..];
      }
    }
  }

  /** Every resting order loses what the sweep's fills name it for. */
  lemma {:induction false} TakeLedger(
    side: Side, taker: Party, limit: Option<Price>, q: Quantity, opp: seq<Resting>, id: OrderId)
    requires UniqueIds(opp) && id != taker.id
    ensures var s := Take(side, taker, limit, q, opp);
      Lost(FindIn(opp, id), FindIn(s.rest, id), FilledIn(s.fills, id))
  {
    if !CanMatch(side, limit, opp) {
      LostNothing(FindIn(opp, id));
    } else {
      var f := Min(q, opp[0].remaining);
      FillFrontLedger(opp, f, id);
      if f == q {
        assert [MakeFill(side, taker, opp[0].Who(), f)][1..] == [];
      } else {
        var later := Take(side, taker, limit, q - f, opp[1..]);
        TakeLedger(side, taker, limit, q - f, opp[1..], id);
        assert ([MakeFill(side, taker, opp[0].Who(), f)] + later.fills)[1..] == later.fills;
        if opp[0].id == id {
          FindNothing(opp[1..], id);
        }
      }
    }
  }

  /** The fills of a sweep name its taker for their whole total. */
  lemma {:induction false} TakerLedger(side: Side, taker: Party, limit: Option<Price>, q: Quantity, opp: seq<Resting>)
    requires FindIn(opp, taker.id).None?
    ensures FilledIn(Take(side, taker, limit, q, opp).fills, taker.id) ==
            FillTotal(Take(side, taker, limit, q, opp).fills)
  {
    if CanMatch(side, limit, opp) {
      var f := Min(q, opp[0].remaining);
      var fill := MakeFill(side, taker, opp[0].Who(), f);
      if f == q {
        assert [fill][1..] == [];
      } else {
        var later := Take(side, taker, limit, q - f, opp[1..]);
        TakerLedger(side, taker, limit, q - f, opp[1..]);
        assert ([fill] + later.fills)[1..] == later.fills;
      }
    }
  }

  // ----- whole requests -----

  lemma SweptLedger(b: Book, c: Book, side: Side, taker: Party, limit: Option<Price>, q: Quantity, id: OrderId)
    requires Orderly(b) && Orderly(c)
    requires var s := Take(side, taker, limit, q, b.On(side.Opposite())); c == b.Set(side.Opposite(), s.rest)
    requires id != taker.id
    ensures Lost(Find(b, id), Find(c, id), FilledIn(Take(side, taker, limit, q, b.On(side.Opposite())).fills, id))
  {
    TakeLedger(side, taker, limit, q, b.On(side.Opposite()), id);
    FindSided(b, side, id);
    FindSided(c, side, id);
    if FindIn(b.On(side), id).Some? {
      LostNothing(Find(b, id));
    }
  }

  /** A market order charges every resting order but one of its own id what the fills say. */
  lemma MarketLedger(capacity: nat, b: Book, req: Request, id: OrderId)
    requires Inv(capacity, b)
    ensures var o := MarketAdd(b, req);
      && (id != req.id ==> Lost(Find(b, id), Find(o.book, id), FilledIn(o.fills, id)))
      && (FindIn(b.On(req.side.Opposite()), req.id).None? ==>
            Find(o.book, req.id) == Find(b, req.id) && FilledIn(o.fills, req.id) == FillTotal(o.fills))
  {
    var opp := b.On(req.side.Opposite());
    var o := MarketAdd(b, req);
    MarketAddKeepsInv(capacity, b, req);
    if req.quantity == 0 {
      assert o.book == b;
      LostNothing(Find(b, id));
    } else {
      if id != req.id {
        SweptLedger(b, o.book, req.side, Taker(req), None, req.quantity, id);
      }
      if FindIn(opp, req.id).None? {
        TakerLedger(req.side, Taker(req), None, req.quantity, opp);
        TakeKeepsAbsence(req.side, Taker(req), None, req.quantity, opp, req.id);
        FindSided(b, req.side, req.id);
        FindSided(o.book, req.side, req.id);
      }
    }
  }

  lemma {:induction false} TakeKeepsAbsence(
    side: Side, taker: Party, limit: Option<Price>, q: Quantity, opp: seq<Resting>, id: OrderId)
    requires FindIn(opp, id).None?
    ensures FindIn(Take(side, taker, limit, q, opp).rest, id).None?
  {
    if CanMatch(side, limit, opp) && q > opp[0].remaining {
      TakeKeepsAbsence(side, taker, limit, q - opp[0].remaining, opp[1..], id);
    }
  }

  /** A new limit order's quantity is what its fills name it for plus what rests of it. */
  lemma LimitLedger(capacity: nat, b: Book, req: Request, id: OrderId)
    requires Inv(capacity, b) && b.Count() < capacity && Find(b, req.id).None?
    ensures var o := LimitAdd(b, req);
      && (id != req.id ==> Lost(Find(b, id), Find(o.book, id), FilledIn(o.fills, id)))
      && Lost(Some(Rested(req, req.quantity)), Find(o.book, req.id), FilledIn(o.fills, req.id))
  {
    var opp, own := b.On(req.side.Opposite()), b.On(req.side);
    var o := LimitAdd(b, req);
    var s := Take(req.side, Taker(req), Some(req.price), req.quantity, opp);
    var swept := b.Set(req.side.Opposite(), s.rest);
    SweptKeepsInv(capacity, b, req.side, Taker(req), Some(req.price), req.quantity);
    LimitAddKeepsInv(capacity, b, req);
    TakerLedger(req.side, Taker(req), Some(req.price), req.quantity, opp);
    TakeQuantity(req.side, Taker(req), Some(req.price), req.quantity, opp);
    TakeKeepsAbsence(req.side, Taker(req), Some(req.price), req.quantity, opp, req.id);
    if id != req.id {
      SweptLedger(b, swept, req.side, Taker(req), Some(req.price), req.quantity, id);
    }
    if !s.done {
      var r := Rested(req, s.left);
      FindInserted(own, r, id);
      FindInserted(own, r, req.id);
      FindSided(swept, req.side, id);
    }
    FindSided(o.book, req.side, id);
    FindSided(o.book, req.side, req.id);
  }

  lemma {:induction false} FindInserted(s: seq<Resting>, r: Resting, id: OrderId)
    requires FindIn(s, r.id).None?
    ensures FindIn(Insert(s, r), id) == if id == r.id then Some(r) else FindIn(s, id)
  {
    if s != [] && !Better(r.side, r.price, s[0].price) {
      FindInserted(s[1..], r, id);
    } else {
      assert ([r] + s)[1..] == s;
    }
  }
}
