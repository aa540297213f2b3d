# Verified model of the exchange

A Dafny model of a small order exchange: a matching engine with a price-time-priority book, the server
threads that own its client connections, the lock-free rings between them, the byte framing on the wire, and
the load-generating client. Every member is verified; `dafny verify dfyconfig.toml` checks the whole project.

## What is modelled

**The matching engine.** `PriceTimeBook` is a reference book: two lists of resting orders, best price first and
oldest first within a price. `Orderbooks.Orderbook` is the book as the engine keeps it: an array of intrusive
doubly linked queues per side, a cached best price and a count of occupied levels per side, an id-to-slot map,
and a fixed arena with a free list, all changed in place. Every operation of the class is proved to do to the
reference book exactly what the reference function says, to push exactly the messages it says, and to keep all
the redundant views in agreement. `Sweeps`, `LimitMatching`, `BookTheorems`, `Conservation` and `EngineRuns`
then say what the reference functions mean: how much fills and against whom, what stays uncrossed and sorted,
where every unit of quantity goes, and who gets answered, over every run.

The source writes the bid side and the ask side out twice; `Ladders.Ladder` is one class for both, with
the side as a parameter. The price range and the pool capacity are parameters. The ladder is indexed by price
without a check, so a request that makes the book insert an order needs a price inside the range
(`Engine.Priced`); validation only excludes 0 (`ValidationAdmitsUnpriced`). The outbound ring appears as the list
`out` of all pushes attempted, because their results are ignored; `fills` is a ghost trace.

**The two-phase close.** `CloseProtocol` is a state machine over the flags and slots that the inbound and the
outbound thread share per descriptor, one step per load, store, reset or emplace, with a generation count per
descriptor. A descriptor is condemned by the inbound thread only while it is registered and its inbound slot is
live: epoll reports events of registered descriptors, once each per batch, and a close happens before the batch is
fetched. The set of descriptors with something to send is over-approximated: the outbound thread may look at any
of them at any time. `accept` only returns descriptors the arrays have room for; the source's arrays have 74
entries and it does not check.

**The ring buffer.** `RingProtocol` interleaves the producer and the consumer at the granularity of their atomic
accesses; `RingBuffers.RingBuffer` is the same ring used by one thread at a time, as the staging queue is.

**Bytes.** `Buffers` has the fixed-capacity buffer and a socket that delivers and accepts bytes in whatever
pieces it likes. `Framing` and `Wire` are the frame arithmetic and the two encodings; `ServerInbound`,
`ServerOutbound` and `LoadGenerators` are the per-connection state of the server and of the client. `Requests` is a
request's way from the client to the engine, and `Attribution` puts the engine's runs and the client's bookkeeping
together.

## What the code does that its comments do not say

- Registration clears both flags so that the outbound thread does not act on an old one
  (`exchange/server/src/server.cpp:206-207`). A scan that loaded the flag before the descriptor was closed can
  still look at the slot after it was reused, and drop the fresh connection: `CloseProtocol.FreshConnectionDropped`
  is such a run. `StaleScanIsOld` says that this takes a scan whose flag was loaded in an earlier generation.
  Ownership stays safe in every case (`EveryInterleavingSafe`), and the connection is closed by the next scans
  (`EveryCloseHappens`).
- An acknowledgement is documented to be suppressed when fills were reported in its place
  (`exchange/engine/include/orderbook.hpp:48-49`). `AckForFillsUnless` says exactly when that is so: for every
  request except a market order of quantity 0, which gets neither, and one that wants more than an occupied other
  side has, which gets both (`PartlyFilledIsAcknowledged`).
- A market MODIFY with unchanged price and quantity keeps the resting order and trades a market order under the
  same id, so "quantity = remaining + fills" fails for that order. `PlainConservationFails` is the counterexample,
  and `RunConserves` the law that holds for all runs, with the exact condition for the plain one: since the order
  was entered, no such request wanted anything while the other side had anything.
- Acknowledgements carry no request number, and a fill frees no place in the client's pipeline. So once one of its
  requests is answered by fills alone the client credits every later acknowledgement to the wrong request
  (`MisattributedAck`). `AttributionExact` says when it credits the right one, on the books its requests meet, and
  `PlacesLost` how many places of its pipeline it never gets back.
- The client's read cursor runs over its whole ring of recorded ids, occupied or not. `PickTarget` says which id a
  CANCEL or MODIFY names and when that id was recorded on this connection; `AckThenTwo` is a run in which it
  was not.
- A new limit order that finds the arena full, and only such a one, is dropped and acknowledged as a success
  (`DroppedWhenFull`).
- The outbound frame is 32 bytes and the longest error frame 31, not the 64 and 33 of the comment at
  `infra/protocol.hpp:21-24`. The status of a request is not on the wire: a failed one reads as an acknowledgement
  (`Wire.Shown`).
- End of stream makes `recv` return 0 without setting errno, so the server may read it as a drained socket,
  depending on the errno left by an earlier call; and the bytes received by the call that then fails are never
  processed. `InboundState.ReadRequest` says when it condemns.

## Model

| member | source | states |
|---|---|---|
| `Orderbooks.Orderbook.Process` | exchange/engine/src/orderbook.cpp:30-60 | refinement: resting orders, ordered fills, pushed messages and result of every request are those of the sorted-list book, and all redundant views still agree |
| `Orderbooks.Orderbook.AddOrder` | exchange/engine/src/orderbook.cpp:97-121 | a market order sweeps; a limit order with a fresh id and a free slot ends up as one sweep by it alone, and otherwise nothing happens |
| `Orderbooks.Orderbook.Insert` | exchange/engine/src/orderbook.cpp:105-118 | a free slot is taken, mapped and linked, and the order stands behind everything at least as good; an exhausted arena changes nothing |
| `Orderbooks.Orderbook.CancelOrder` | exchange/engine/src/orderbook.cpp:123-145 | exactly this order leaves the book, from anywhere in its queue, and its slot is free again |
| `Orderbooks.Orderbook.ModifyOrder` | exchange/engine/src/orderbook.cpp:147-169 | the new state is that of the reference modify: re-entry, a market order beside the resting one, or nothing |
| `Orderbooks.Orderbook.MatchOrders` | exchange/engine/src/orderbook.cpp:175-268 | terminates with the fixed point of front-to-front matching, the fills of every step in order, bid message first, and reports whether anything filled |
| `Orderbooks.Orderbook.MatchBestLevels` | exchange/engine/src/orderbook.cpp:179-262 | the inner loop loses no fill, removes an order per iteration, and matches nothing only if the book is not crossed |
| `Orderbooks.Orderbook.MatchFront` | exchange/engine/src/orderbook.cpp:186-260 | one fill of the smaller quantity between the two best orders, both told, and whatever it emptied unlinked, unmapped and freed |
| `Orderbooks.Orderbook.MatchMarket` | exchange/engine/src/orderbook.cpp:270-397 | the whole sweep, terminating, its early returns on an empty best level unreachable, true exactly when nothing is left |
| `Orderbooks.Orderbook.MarketStep` | exchange/engine/src/orderbook.cpp:280-331 | one fill against the best opposite order, market side reported first |
| `Orderbooks.Orderbook.FillFront` | exchange/engine/include/order.hpp:41-47 | the book never asks an order for more than remains, so `fill` never throws |
| `Orderbooks.Orderbook.Retire` | exchange/engine/src/orderbook.cpp:233-237 | the front order leaves queue, map and arena use together |
| `Orderbooks.Orderbook.CanMatch` | exchange/engine/src/orderbook.cpp:399-407 | the cached fields alone tell whether a limit order would trade with the book's best opposite order |
| `Orderbooks.Orderbook.Lookup` | exchange/engine/src/orderbook.cpp:36-49 | the id map finds an order exactly when the reference book does, and finds the same one |
| `Orderbooks.Orderbook.BestPricesExact` | exchange/engine/include/orderbook.hpp:100-103 | each cached best is the true extreme price or the sentinel, the counts tell emptiness, and the bests do not cross |
| `Orderbooks.Orderbook.SlotsPartitioned` | exchange/engine/include/orderbook.hpp:95-98 | a slot is on the free list or mapped under its own id, never both, and the free list has exactly the rest of the arena |
| `Orderbooks.Orderbook.LinkedSomewhere` | exchange/engine/src/orderbook.cpp:110-118 | every mapped order is linked on its own side at index price minus minimum |
| `Orderbooks.Orderbook.LinkedOnce` | exchange/engine/src/orderbook.cpp:110-118 | and nowhere else: no other side, level or position |
| `Orderbooks.Orderbook.constructor` | exchange/engine/include/orderbook.hpp:62-103 | an empty book with every slot free |
| `Ladders.Ladder.UpdateBest` | exchange/engine/src/orderbook.cpp:409-419 | the walk stops on the true best occupied level |
| `Ladders.Ladder.Push` | exchange/engine/src/orderbook.cpp:110-118 | joining a level is inserting by price, then time, with count and best price kept exact |
| `Ladders.Ladder.Remove` | exchange/engine/src/orderbook.cpp:127-141 | leaving a level removes that order from the side and nothing else, with count and best price kept exact |
| `Ladders.Ladder.PopBest` | exchange/engine/src/orderbook.cpp:233-255 | the first order of the whole side leaves, with count and best price kept exact |
| `Ladders.Ladder.CacheExact` | exchange/engine/include/orderbook.hpp:100-103 | the cached fields are a function of the side's contents |
| `Ladders.PushIsInsert` | exchange/engine/src/orderbook.cpp:111-117 | appending to the level of a price, read level by level from the best, is sorted insertion |
| `Orders.Order.Fill` | exchange/engine/include/order.hpp:41-47 | throws exactly when asked for more than remains, and then changes nothing |
| `Orders.PriceLevelQueue.Push` | exchange/engine/include/price_level_queue.hpp:27-37 | appends at the tail; links stay mutually inverse, head, tail and size exact |
| `Orders.PriceLevelQueue.Pop` | exchange/engine/include/price_level_queue.hpp:39-50 | takes the oldest, or nothing from an empty queue |
| `Orders.PriceLevelQueue.Remove` | exchange/engine/include/price_level_queue.hpp:54-64 | unlinks exactly one node from any position, the others staying in order |
| `OrderPools.OrderPool.constructor` | exchange/engine/include/order_pool.hpp:26-31 | every slot free once, lowest on top |
| `OrderPools.OrderPool.Allocate` | exchange/engine/include/order_pool.hpp:42-48 | hands out the top free slot overwritten and unlinked, or null exactly when none is free |
| `OrderPools.OrderPool.Deallocate` | exchange/engine/include/order_pool.hpp:52-54 | the slot goes on top; no slot is free twice |
| `BookLists.InsertPlace` | exchange/engine/include/price_level_queue.hpp:27-37 | price-time priority: behind everything at least as good, ahead of everything strictly worse |
| `LimitMatching.MatchingIsSweeping` | exchange/engine/src/orderbook.cpp:175-268 | with one crossing order in front, the two-sided loop is a one-sided sweep by that order |
| `LimitMatching.InsertThenMatch` | exchange/engine/src/orderbook.cpp:97-121 | inserting and matching gives the same fills, in order, and the same book as sweeping first and resting what is left |
| `Sweeps.TakeQuantity` | exchange/engine/src/orderbook.cpp:178-265 | a taker fills exactly the smaller of its quantity and all acceptable quantity, and that much leaves the other side |
| `Sweeps.TakeMakers` | exchange/engine/src/orderbook.cpp:186-230 | makers are consumed from the front, each but the last completely, all at acceptable prices |
| `Sweeps.TakeRest` | exchange/engine/src/orderbook.cpp:232-265 | every order behind the last maker is untouched, and a taker that is not emptied leaves nothing it would accept |
| `BookTheorems.LimitAddExact` | exchange/engine/src/orderbook.cpp:97-121 | fills the smaller of quantity and crossing quantity; ack suppressed iff it crossed iff its own id was reported; any rest stands behind its level |
| `BookTheorems.MarketAddExact` | exchange/engine/src/orderbook.cpp:270-397 | fills the smaller of quantity and the whole other side in queue order, two messages each, market order first; true iff that was all |
| `BookTheorems.ProcessKeepsInv` | exchange/engine/src/orderbook.cpp:30-60 | every request leaves the book sorted, uncrossed, without duplicate ids and within the arena |
| `BookTheorems.UncrossedThroughout` | exchange/engine/src/orderbook.cpp:189-190 | in an uncrossed book every bid is below every ask |
| `BookTheorems.LimitModify` | exchange/engine/src/orderbook.cpp:147-169 | a changing limit MODIFY is a cancel and an add that cannot fail even with a full arena; an unchanged one does nothing |
| `BookTheorems.ProcessExact` | exchange/engine/src/orderbook.cpp:30-397 | every request in closed form, by guards on the book it meets: how much a market or inserted limit order fills, against whom, what is left on both sides, every message; any other request can only withdraw an order |
| `BookTheorems.StatusIsAcceptance` | exchange/engine/src/orderbook.cpp:30-60 | the status is SUCCESS iff the book has the order, for the same client and, for a MODIFY, on the same side |
| `BookTheorems.AnsweredUnlessSilent` | exchange/engine/src/engine.cpp:127-146 | a request gets a message with its id and client iff it is not an accepted market order of quantity 0 |
| `BookTheorems.AckForFillsUnless` | exchange/engine/include/orderbook.hpp:48-54 | suppression follows the fills iff the request is not a market order that wants nothing, or more than an occupied other side has |
| `BookTheorems.UnacknowledgedIfTakenUp` | exchange/engine/src/orderbook.cpp:30-60 | a request goes unacknowledged iff it is a market order the other side can fill, or a limit order that crosses as it is inserted |
| `BookTheorems.PartlyFilledIsAcknowledged` | exchange/engine/src/orderbook.cpp:396-396 | a market order that is filled in part is reported and acknowledged |
| `OrderTypes.MatchMessagesAt` | exchange/engine/src/orderbook.cpp:229-230 | messages 2k and 2k+1 report fill k, leading party first |
| `Conservation.TakeLedger` | exchange/engine/src/orderbook.cpp:196-242 | a sweep takes from every resting order exactly what its fills name it for, and an order that leaves had nothing left |
| `Conservation.LimitLedger` | exchange/engine/src/orderbook.cpp:97-121 | the incoming quantity is what the fills name it for plus what rests |
| `EngineRuns.RequestLedger` | exchange/engine/src/orderbook.cpp:30-60 | what any request does to the quantity of the order of any id: entered, traded beside, withdrawn, or left alone, case by case |
| `EngineRuns.DroppedWhenFull` | exchange/engine/src/orderbook.cpp:97-106 | a new limit order is acknowledged as a success without being in the book iff the arena was full |
| `EngineRuns.RunSafe` | exchange/engine/src/engine.cpp:104-147 | over every run the book keeps its invariant and every resting id is below the next one |
| `EngineRuns.RunAnswers` | exchange/engine/src/engine.cpp:104-147 | in every run a NEW order's id is not in the book, and each request is answered unless silent |
| `EngineRuns.IdIsCount` | exchange/engine/src/engine.cpp:109-110 | in every run a NEW gets the number of NEW requests before it as its id; any other message keeps the id it names |
| `EngineRuns.NewIdsDiffer` | exchange/engine/src/engine.cpp:109-110 | no two NEW requests of a run get the same id |
| `EngineRuns.AckTellsAcceptance` | exchange/engine/src/engine.cpp:127-146 | in every run the acknowledgement comes last, behind fills only, is there iff the request is not taken up, and says SUCCESS iff the book accepts; a refused request changes nothing |
| `EngineRuns.RunConserves` | exchange/engine/src/orderbook.cpp:196-242 | over every run and for every id entered and not withdrawn, filled out or resting: quantity entered = remaining + fills since, less what market modifies traded beside; the plain law holds iff none of those found anything to trade |
| `EngineRuns.BesideIsNothing` | exchange/engine/src/orderbook.cpp:158-166 | nothing was traded beside an order iff each market modify since its entry wanted nothing or met an empty side |
| `EngineRuns.PlainConservationFails` | exchange/engine/src/orderbook.cpp:158-166 | a three-request run in which the plain law fails |
| `Engines.Engine.ExecuteRequest` | exchange/engine/src/engine.cpp:104-147 | one step of the run machine: id assigned, book updated, fills and then the unsuppressed acknowledgement pushed |
| `Engines.Engine.Step` | exchange/engine/src/engine.cpp:50-55 | executes all pending messages in order |
| `Engines.Engine.HandleMatching` | exchange/engine/src/engine.cpp:61-82 | messages are executed in pop order, each once; every round polls, and executes a message or met an empty ring; a stop leaves at most the one popped ahead |
| `Engines.Engine.ValidationAdmitsUnpriced` | exchange/server/include/validation.hpp:10-25 | validation lets a price above the range through to an engine that would insert it |
| `CloseProtocol.EveryInterleavingSafe` | exchange/server/src/server.cpp:191-217 | in every interleaving a live slot means an open descriptor of that generation; resets find the outbound slot empty, emplaces find free slots, sends and drops hit current descriptors, open ones are owned, and one that lost its outbound slot is flagged or about to be |
| `CloseProtocol.StepKeepsInv` | exchange/server/src/server.cpp:541-609 | every step of either thread keeps the protocol's invariant |
| `CloseProtocol.TeardownCompletes` | exchange/server/src/server.cpp:541-590 | with both threads between two pieces of work, a condemned connection is closed by one scan of each, with both flags clear again |
| `CloseProtocol.EveryCloseCompletes` | exchange/server/src/server.cpp:541-609 | from every reachable state, a connection that was condemned or lost its outbound slot can be closed with clean flags: some continuation of both threads does it |
| `CloseProtocol.EveryCloseHappens` | exchange/server/src/server.cpp:541-609 | and every continuation does, in which the outbound thread scans it and gets to the end of that, and then the inbound thread does: the descriptor has been closed, whatever else happened in between |
| `CloseProtocol.GivingUpCloses` | exchange/server/src/server.cpp:320-333 | in every interleaving after a failed send or a hang-up the connection is flagged once the outbound thread is at rest, and closed once the inbound thread has scanned it |
| `CloseProtocol.CondemningCloses` | exchange/server/src/server.cpp:180-183 | in every interleaving after the inbound thread condemned it, the connection is flagged once the outbound thread has scanned it, and then closed once the inbound thread has |
| `CloseProtocol.NeverBlocks` | exchange/server/src/server.cpp:158-187 | a thread in the middle of its work can always take its next step and one at rest can start, whatever the other does |
| `CloseProtocol.SendsWhenLive` | exchange/server/src/server.cpp:402-413 | the outbound thread gets to send iff it finds the flag clear and the slot live; an output event can come iff the send left the socket armed |
| `CloseProtocol.StepKeepsStage` | exchange/server/src/server.cpp:541-609 | no step of either thread undoes a stage of a close |
| `CloseProtocol.StaleScanIsOld` | exchange/server/src/server.cpp:543-546 | a slot of the generation the flag was loaded in is condemned; a live one with a clear flag is of a later generation |
| `CloseProtocol.FreshConnectionDropped` | exchange/server/src/server.cpp:206-209 | a run in which a fresh connection with clear flags is about to be dropped |
| `RingProtocol.EveryInterleavingFifo` | exchange/include/ring_buffer.hpp:34-57 | in every interleaving the popped items are a prefix of the pushed ones, at most N-1 are held, the slot being written is unreadable, and a ring at rest reports its exact size |
| `RingProtocol.EveryCallCounts` | exchange/include/ring_buffer.hpp:34-57 | in every interleaving, with a thread between calls: pushed are the items of exactly the calls that met fewer than N-1 items, popped the oldest of these, one for each call that met an item |
| `RingProtocol.NeverBlocks` | exchange/include/ring_buffer.hpp:34-57 | a call makes its next access whatever the other thread does, and takes at most three |
| `RingProtocol.RefusedWhenFull` | exchange/include/ring_buffer.hpp:35-39 | a push is refused iff N-1 items are held at its load of the read index |
| `RingProtocol.NothingWhenEmpty` | exchange/include/ring_buffer.hpp:47-50 | a pop fails iff nothing is held at its load of the write index |
| `RingIndex.MaskIsMod` | exchange/include/ring_buffer.hpp:21-26 | masking with N-1 is reduction modulo N for N a power of two |
| `RingIndex.SizeIsDistance` | exchange/include/ring_buffer.hpp:60-66 | `size` is pushes minus pops although the unsigned subtraction wraps around |
| `RingBuffers.RingBuffer.Push` | exchange/include/ring_buffer.hpp:34-44 | appends iff fewer than N-1 are held, and says so |
| `RingBuffers.RingBuffer.Pop` | exchange/include/ring_buffer.hpp:46-57 | takes the oldest item, or none iff the ring is empty |
| `RingBuffers.RingBuffer.Size` | exchange/include/ring_buffer.hpp:59-66 | the number of items held |
| `RingBuffers.RingBuffer.Empty` | exchange/include/ring_buffer.hpp:68-75 | whether nothing is held |
| `Framing.ArriveLater` | exchange/server/src/server.cpp:252-293 | the frames of a stream do not depend on how it was chunked |
| `Framing.JoinAndCut` | exchange/server/src/server.cpp:465-465 | frames of one size come out of the concatenation as they went in |
| `Framing.CutAndJoin` | exchange/server/src/server.cpp:252-293 | cutting a stream into frames loses nothing: they and the open frame join to the stream |
| `Buffers.Buffer.ReadFrom` | infra/buffer.hpp:34-47 | what is delivered follows what was unread, compacted or not |
| `Buffers.Buffer.Compact` | infra/buffer.hpp:37-43 | moving the tail to the front in place keeps the unread bytes |
| `Buffers.Buffer.Advance` | infra/buffer.hpp:49-52 | consumes exactly that many unread bytes; a buffer with no more than these starts over |
| `Buffers.Buffer.Append` | infra/buffer.hpp:59-64 | appends iff there is room, and otherwise changes nothing |
| `Buffers.Buffer.WriteTo` | infra/buffer.hpp:66-70 | bytes accepted by the socket followed by bytes unsent never change |
| `Buffers.Buffer.TryReset` | infra/buffer.hpp:72-77 | starts over iff everything was sent |
| `Wire.FrameRoundTrip` | exchange/server/src/server.cpp:446-465 | the client reads every ACK, MATCH and ERROR frame back as the message it was: kind, ids, error text |
| `Wire.FrameLayout` | infra/protocol.hpp:25-33 | every kind of frame byte by byte, zero-padded to 32 |
| `Wire.ErrorsDiffer` | infra/protocol.hpp:39-47 | no two errors have the same text |
| `Wire.StreamRoundTrip` | client/src/load_generator.cpp:215-300 | from any delivered prefix of the response stream the client has read exactly the messages it completes |
| `ServerInbound.RequestRoundTrip` | client/include/order_factory.hpp:149-154 | the server reads back the request a client framed, or calls it invalid iff validation does |
| `ServerInbound.ClassifiedExact` | exchange/server/src/server.cpp:261-280 | a frame is malformed iff it does not start with the header, and validated iff it does |
| `Requests.ReceivedAsSent` | exchange/server/include/validation.hpp:10-57 | validation lets a client's request through iff its quantity and limit price are allowed, and the engine reads what was asked for |
| `Requests.SentAsReceived` | exchange/server/include/validation.hpp:10-57 | nothing else is let through, but for the unused side and type of a CANCEL |
| `Requests.RequestArrives` | exchange/server/src/server.cpp:252-293 | the request the engine reads is the one the client framed |
| `ServerInbound.EventsLater` | exchange/server/src/server.cpp:252-293 | the events of a stream do not depend on how its tail was delivered |
| `ServerInbound.InboundState.ProcessRequest` | exchange/server/src/server.cpp:252-293 | one event per complete frame, in order, and the open frame stays; offsets stay on frame boundaries |
| `ServerInbound.InboundState.ReadRequest` | exchange/server/src/server.cpp:232-250 | asks the socket until it has no more or the buffer is full; whatever the chunking, all events so far are those of the stream so far; never asks to be called again; condemns iff the last `recv` gave no bytes and errno is not EAGAIN, and then pushes nothing |
| `ServerInbound.InboundState.RoomToRead` | infra/buffer.hpp:34-47 | between reads there is room for `recv`, without compaction |
| `ServerOutbound.OutboundState.AppendResponse` | exchange/server/src/server.cpp:440-480 | the oldest staged message is serialised once and its latency entry kept |
| `ServerOutbound.OutboundState.FinishBatch` | exchange/server/src/server.cpp:509-532 | exactly one sample for each message sent that the client reads as an acknowledgement, then an empty batch |
| `ServerOutbound.RecordedIsAck` | exchange/server/src/server.cpp:467-470 | what is recorded is what the client reads as an acknowledgement |
| `ServerOutbound.OutboundState.SendResponse` | exchange/server/src/server.cpp:482-507 | asks the socket iff bytes are unsent; whatever it takes, accepted bytes and unsent bytes are the frames of the messages popped; success means all sent and the batch over, or a last answer of EAGAIN and the socket armed if it can be; failure means a last answer of another error |
| `ServerOutbound.OutboundState.BeginSend` | exchange/server/src/server.cpp:407-436 | a turn serialises exactly as many staged messages as there are or fit, in order, asks the socket iff there is anything to send, and keeps the connection for another turn iff something is left unsent or staged |
| `ServerOutbound.OutboundState.HandleWritable` | exchange/server/src/server.cpp:328-334 | a writable socket is asked, stays armed iff it blocked again, and is disarmed once all is sent |
| `ServerOutbound.OutboundState.CountsAgree` | exchange/server/include/connection_info.hpp:100-106 | buffer length = frame size times latency count, so room for a frame is room for its entry and `push_latency` never drops |
| `ServerOutbound.OutboundState.PushLatency` | exchange/server/include/connection_info.hpp:100-103 | appends the entry iff the batch has room |
| `ServerOutbound.OutboundState.PushOutbound` | exchange/server/include/connection_info.hpp:96-96 | stages the message unless 63 are staged, and then drops it silently |
| `LoadGenerators.RingPush` | client/src/load_generator.cpp:339-340 | a type written under a wrapping 32-bit tail overwrites nothing in flight |
| `LoadGenerators.RingPop` | client/src/load_generator.cpp:233-235 | the slot under the head is the oldest type in flight, across wrap-around |
| `LoadGenerators.HeardSuffix` | client/src/load_generator.cpp:230-274 | answers only ever take requests off the front of those in flight |
| `LoadGenerators.ClientState.DrainResponses` | client/src/load_generator.cpp:215-300 | handles exactly the complete frames, in order, up to the first protocol violation, and the pipeline is what those responses make of it |
| `LoadGenerators.ClientState.HandleFrame` | client/src/load_generator.cpp:229-274 | an ack or error answers the oldest request, an ack of a NEW records its id, a match frees no slot |
| `LoadGenerators.ClientState.HandleReadable` | client/src/load_generator.cpp:206-304 | asks the socket once; every delivered byte is accounted for, the pipeline is the responses heard plus a batch of requests, and the connection is given up if the stream ended or failed, and otherwise only for a violation of the protocol or a failed send |
| `LoadGenerators.ClientState.BuildBatch` | client/src/load_generator.cpp:313-350 | packs exactly the requests the rate limit and the pipeline allow, disturbs nothing in flight, and asks the socket iff it packed any |
| `LoadGenerators.ClientState.HandleConnect` | client/src/load_generator.cpp:185-198 | a connect that did not fail starts with a batch |
| `LoadGenerators.ClientState.AppendFrame` | client/src/load_generator.cpp:334-334 | bytes sent and to be sent are whole frames in order, and the last ones are those of the requests in flight, type by type |
| `LoadGenerators.ClientState.ServerHears` | client/src/load_generator.cpp:313-368 | of any prefix that has arrived the server hears exactly the whole requests, in order, and none as malformed |
| `LoadGenerators.ClientState.FlushWrite` | client/src/load_generator.cpp:355-368 | asks the socket iff bytes are unsent, and ends with everything sent, a last answer of EAGAIN, or the connection given up on another error |
| `LoadGenerators.ClientState.Reconnect` | client/src/load_generator.cpp:374-394 | the in-flight counter gives back exactly the unanswered requests |
| `LoadGenerators.ClientState.ConnectClient` | client/src/load_generator.cpp:140-178 | a new connection starts with empty buffers, counters and rings |
| `LoadGenerators.ClientState.PickTarget` | client/src/load_generator.cpp:330-332 | the target is the last id recorded in the cursor's slot on this connection, or what the slot held before it; recorded iff the slot is among the occupied ones |
| `LoadGenerators.UnwrittenTarget` | client/src/load_generator.cpp:330-338 | contents of the ring and cursor values for which the slot read is one nothing was recorded in |
| `LoadGenerators.ClientState.AckThenTwo` | client/src/load_generator.cpp:229-344 | a client run that gets there: after one acknowledged NEW and a cancel or modify, the next one names what the second slot held before the connection |
| `LoadGenerators.ClientState.PackOne` | client/src/load_generator.cpp:328-344 | one more request in flight, framed and remembered; a cancel or modify names the target, and moves the cursor |
| `LoadGenerators.ClientState.RecordTarget` | client/src/load_generator.cpp:238-243 | each slot keeps holding the last id recorded in it, across wrap-around, and the others what they held before the connection |
| `Attribution.AttributionExact` | client/src/load_generator.cpp:230-259 | however requests and answers interleave, acknowledgement k is credited to request k, and that is the one it answers iff no request of the client before it was taken up by the book it met |
| `Attribution.CreditedInTurn` | client/src/load_generator.cpp:230-274 | however requests and answers interleave, answer k, an acknowledgement or an error, takes request k out of flight and is credited to it |
| `Attribution.UnackedIfTakenUp` | exchange/engine/src/engine.cpp:104-147 | in every run, a client's j-th request goes unacknowledged iff the book it meets takes it up |
| `Attribution.PlacesLost` | client/src/load_generator.cpp:230-274 | once every request was answered by an error or executed, and all is heard, the places still taken in the pipeline are exactly the requests that were taken up |
| `Attribution.MisattributedAck` | client/src/load_generator.cpp:230-259 | a run in which a client takes a refused cancel for the answer to its new order |
| `Attribution.RunShown` | exchange/engine/src/engine.cpp:104-147 | a client is shown exactly the acknowledgements given to its requests, in order, and fills besides |
| `Attribution.UnackedIsFillsAlone` | exchange/engine/src/engine.cpp:127-146 | a request goes unacknowledged iff nothing but fills was pushed for it |

## Left out

- Sockets, epoll, `accept`, `send` and `recv` as system calls: their results are arbitrary (bytes, counts,
  errors, descriptors that are not open).
- The C++ memory orders: steps are sequentially consistent at the granularity of shared accesses.
- `client_map_`, the routing of messages to descriptors, and its data race between the two threads.
- Timestamps, latency histograms, the client's statistics, prefetching, thread pinning and stop flags
  (`HandleMatching` takes the number of rounds before the stop instead).
- The random order generator and its price model: a frame has arbitrary content, a header, and its type and
  target in place.
- The rate-limit clock and the reconnect backoff: whether it is too early is a parameter.
- The trade ring and console output of logging builds, the benchmark scripts and the tests.
- `Attribution.AttributionExact`: requests that fail validation are answered through a channel of their own, out
  of order, so it is about clients whose requests are valid. It is also about clients that keep one connection:
  after a reconnect, late answers to requests of the old connection reach the new one.
- Integer widths in the engine: ids, prices and quantities are unbounded there, so the wrap-around of `next_id_`
  after 2^64 orders is not modelled. Quantities only ever shrink, and validation bounds them far below 32 bits.
- The stored type of an order: only limit orders rest.
- `Orderbooks.Orderbook.Process`: output is the sequence of pushes attempted; a full outbound ring would lose
  some of them.
- `ServerOutbound.OutboundState.BeginSend`: what it says starts at the staging ring; a message that finds it
  full is dropped there.
- `ServerInbound.InboundState.ReadRequest`: after a failed read only the events are described, because the
  connection is condemned and not read again.
- `OrderPools.OrderPool.constructor`: the arena is a sequence of objects rather than one contiguous allocation.
