/**
 The reference book: two lists of resting orders, best price first and oldest
 first within a price. It has no ladder, no links, no cached best, no map and no
 pool. The Orderbook class is proved to compute exactly `Process` below.
 */
module PriceTimeBook {
  import opened OrderTypes

  datatype Resting = Resting(
    id: OrderId,
    client: ClientId,
    side: Side,
    price: Price,
    initial: Quantity,
    remaining: Quantity)
  {
    function Who(): Party {
      Party(id, client)
    }
  }

  datatype Book = Book(bids: seq<Resting>, asks: seq<Resting>) {
    function On(side: Side): seq<Resting> {
      if side == BID then bids else asks
    }

    function Set(side: Side, s: seq<Resting>): Book {
      if side == BID then Book(s, asks) else Book(bids, s)
    }

    function Count(): nat {
      |bids| + |asks|
    }
  }

  /** Price `p` is strictly ahead of price `q` on `side`. */
  predicate Better(side: Side, p: Price, q: Price) {
    if side == BID then p > q else p < q
  }

  /** A taker on `side` with this limit accepts the opposite price `p`; no limit is a market order. */
  predicate Accepts(side: Side, limit: Option<Price>, p: Price) {
    limit.None? || if side == BID then p <= limit.value else p >= limit.value
  }

  /** A new order goes behind every order at least as good as it. */
  function Insert(s: seq<Resting>, r: Resting): seq<Resting> {
    if s == [] || Better(r.side, r.price, s[0].price) then [r] + s
    else [s[0]] + Insert(s[1..], r)
  }

  function FindIn(s: seq<Resting>, id: OrderId): Option<Resting> {
    if s == [] then None
    else if s[0].id == id then Some(s[0])
    else FindIn(s[1..], id)
  }

  function Find(b: Book, id: OrderId): Option<Resting> {
    if FindIn(b.bids, id).Some? then FindIn(b.bids, id) else FindIn(b.asks, id)
  }

  function Without(s: seq<Resting>, id: OrderId): seq<Resting> {
    if s == [] then []
    else if s[0].id == id then s[1..]
    else [s[0]] + Without(s[1..], id)
  }

  function Cancelled(b: Book, id: OrderId): Book {
    Book(Without(b.bids, id), Without(b.asks, id))
  }

  /** The list after its front order has been filled for `q`: the order leaves once nothing remains. */
  function FillFront(s: seq<Resting>, q: Quantity): seq<Resting>
    requires s != [] && q <= s[0].remaining
  {
    if s[0].remaining == q then s[1..]
    else [s[0].(remaining := s[0].remaining - q)] + s[1..]
  }

  // ----- the two-sided matching loop -----

  predicate Crossed(b: Book) {
    b.bids != [] && b.asks != [] && b.bids[0].price >= b.asks[0].price
  }

  function FrontQuantity(b: Book): Quantity
    requires b.bids != [] && b.asks != []
  {
    Min(b.bids[0].remaining, b.asks[0].remaining)
  }

  function FrontFill(b: Book): Fill
    requires b.bids != [] && b.asks != []
  {
    Fill(b.bids[0].Who(), b.asks[0].Who(), FrontQuantity(b))
  }

  /** One fill between the two best orders. It always removes one of them. */
  function MatchFront(b: Book): (r: Book)
    requires b.bids != [] && b.asks != []
    ensures r.Count() < b.Count()
  {
    Book(FillFront(b.bids, FrontQuantity(b)), FillFront(b.asks, FrontQuantity(b)))
  }

  function MatchedBook(b: Book): Book
    decreases b.Count()
  {
    if Crossed(b) then MatchedBook(MatchFront(b)) else b
  }

  function MatchedFills(b: Book): seq<Fill>
    decreases b.Count()
  {
    if Crossed(b) then [FrontFill(b)] + MatchedFills(MatchFront(b)) else []
  }

  // ----- one taker against one list -----

  /** `left` is what the taker could not fill; `done` says a fill emptied the taker. */
  datatype Sweep = Sweep(rest: seq<Resting>, left: Quantity, done: bool, fills: seq<Fill>)

  function MakeFill(side: Side, taker: Party, maker: Party, q: Quantity): Fill {
    if side == BID then Fill(taker, maker, q) else Fill(maker, taker, q)
  }

  /** The taker eats `opp` from the front for as long as it accepts the price. */
  function Take(side: Side, taker: Party, limit: Option<Price>, q: Quantity, opp: seq<Resting>): Sweep {
    if opp == [] || !Accepts(side, limit, opp[0].price) then
      Sweep(opp, q, false, [])
    else
      var f := Min(q, opp[0].remaining);
      var fill := MakeFill(side, taker, opp[0].Who(), f);
      if f == q then
        Sweep(FillFront(opp, f), 0, true, [fill])
      else
        var s := Take(side, taker, limit, q - f, opp[1..]);
        s.(fills := [fill] + s.fills)
  }

  /** A market order for nothing does not look at the book at all. */
  function TakeMarket(side: Side, taker: Party, q: Quantity, opp: seq<Resting>): Sweep {
    if q == 0 then Sweep(opp, 0, true, []) else Take(side, taker, None, q, opp)
  }

  // ----- requests -----

  datatype Outcome = Outcome(book: Book, result: ProcessResult, fills: seq<Fill>, messages: seq<Message>)

  function Unchanged(b: Book, status: Status): Outcome {
    Outcome(b, ProcessResult(status, false), [], [])
  }

  function Taker(req: Request): Party {
    Party(req.id, req.client)
  }

  function MarketAdd(b: Book, req: Request): Outcome {
    var opp := req.side.Opposite();
    var s := TakeMarket(req.side, Taker(req), req.quantity, b.On(opp));
    Outcome(b.Set(opp, s.rest), ProcessResult(SUCCESS, s.left == 0), s.fills, MatchMessages(req.side, s.fills))
  }

  /** Sweep the other side up to the limit; what a fill did not empty rests. */
  function LimitAdd(b: Book, req: Request): Outcome {
    var opp := req.side.Opposite();
    var s := Take(req.side, Taker(req), Some(req.price), req.quantity, b.On(opp));
    var swept := b.Set(opp, s.rest);
    var own := b.On(req.side);
    var after := if s.done then swept else swept.Set(req.side, Insert(own, Rested(req, s.left)));
    Outcome(after, ProcessResult(SUCCESS, s.fills != []), s.fills, MatchMessages(BID, s.fills))
  }

  function Rested(req: Request, remaining: Quantity): Resting {
    Resting(req.id, req.client, req.side, req.price, req.quantity, remaining)
  }

  /** `capacity` is the size of the order arena: a limit order that finds it full is dropped. */
  function Add(capacity: nat, b: Book, req: Request): Outcome {
    if req.kind == MARKET then MarketAdd(b, req)
    else if Find(b, req.id).Some? || b.Count() >= capacity then Unchanged(b, SUCCESS)
    else LimitAdd(b, req)
  }

  function Modify(capacity: nat, b: Book, req: Request, r: Resting): Outcome {
    if req.price != r.price || req.quantity != r.initial then Add(capacity, Cancelled(b, req.id), req)
    else if req.kind == MARKET then MarketAdd(b, req)
    else Unchanged(b, SUCCESS)
  }

  function Process(capacity: nat, b: Book, req: Request): Outcome {
    var found := Find(b, req.id);
    match req.message
    case NEW =>
      Add(capacity, b, req)
    case CANCEL =>
      if found.None? || found.value.client != req.client then Unchanged(b, FAILURE)
      else Outcome(Cancelled(b, req.id), ProcessResult(SUCCESS, false), [], [])
    case MODIFY =>
      if found.None? || found.value.client != req.client || found.value.side != req.side then Unchanged(b, FAILURE)
      else Modify(capacity, b, req, found.value)
    case MATCH =>
      Unchanged(b, FAILURE)
  }

  // ----- the invariant of the reference book -----

  ghost predicate Sorted(side: Side, s: seq<Resting>) {
    forall i, j :: 0 <= i < j < |s| ==> !Better(side, s[j].price, s[i].price)
  }

  ghost predicate UniqueIds(s: seq<Resting>) {
    forall i, j :: 0 <= i < j < |s| ==> s[i].id != s[j].id
  }

  ghost predicate Apart(s: seq<Resting>, t: seq<Resting>) {
    forall i, j :: 0 <= i < |s| && 0 <= j < |t| ==> s[i].id != t[j].id
  }

  ghost predicate Proper(side: Side, r: Resting) {
    r.side == side && r.remaining <= r.initial
  }

  ghost predicate ListInv(side: Side, s: seq<Resting>) {
    && Sorted(side, s)
    && UniqueIds(s)
    && (forall i :: 0 <= i < |s| ==> Proper(side, s[i]))
  }

  /** Everything but being uncrossed: this also holds in the middle of a match. */
  ghost predicate Orderly(b: Book) {
    ListInv(BID, b.bids) && ListInv(ASK, b.asks) && Apart(b.bids, b.asks)
  }

  ghost predicate Inv(capacity: nat, b: Book) {
    Orderly(b) && !Crossed(b) && b.Count() <= capacity
  }
}
