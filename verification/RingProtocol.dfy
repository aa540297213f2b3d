/**
 The single-producer single-consumer ring, one step per atomic load, atomic store
 and slot access, the two threads interleaving freely. Each side works with the
 copy of the other's index it loaded, however stale that has become.
 */
module RingProtocol {
  import opened OrderTypes
  import opened RingIndex

  /** The producer inside `push(item)`. */
  datatype ProducerPc<T> =
    | PushIdle
    | PushStarted(item: T, at: nat)           // loaded its own write index
    | PushAllowed(item: T, at: nat, next: nat) // loaded the read index and found room
    | PushWritten(item: T, next: nat)         // wrote the slot, has not published it

  /** The consumer inside `pop`. */
  datatype ConsumerPc<T> =
    | PopIdle
    | PopStarted(at: nat)            // loaded its own read index
    | PopAllowed(at: nat)            // loaded the write index and found an item
    | PopRead(item: T, next: nat)    // copied the slot, has not freed it

  /** `pushed` and `popped` are ghosts: the items of completed successful calls. */
  datatype Ring<T> = Ring(
    buffer: seq<T>,
    write: nat,
    read: nat,
    producer: ProducerPc<T>,
    consumer: ConsumerPc<T>,
    pushed: seq<T>,
    popped: seq<T>)

  datatype Action<T> = Push(item: T) | Produce | Pop | Consume

  /** The next access of one thread; a call that fails returns to idle. */
  function Do<T>(s: Ring<T>, a: Action<T>): Option<Ring<T>>
    requires |s.buffer| > 0
  {
    match a
    case Push(item) =>
      if s.producer.PushIdle? then Some(s.(producer := PushStarted(item, s.write))) else None
    case Produce =>
      (match s.producer
       case PushIdle => None
       case PushStarted(item, at) =>
         var next := NextIndex(at, |s.buffer|);
         Some(s.(producer := if next == s.read then PushIdle else PushAllowed(item, at, next)))
       case PushAllowed(item, at, next) =>
         if at < |s.buffer| then Some(s.(buffer := s.buffer[at := item], producer := PushWritten(item, next))) else None
       case PushWritten(item, next) =>
         Some(s.(write := next, producer := PushIdle, pushed := s.pushed + [item])))
    case Pop =>
      if s.consumer.PopIdle? then Some(s.(consumer := PopStarted(s.read))) else None
    case Consume =>
      (match s.consumer
       case PopIdle => None
       case PopStarted(at) =>
         Some(s.(consumer := if at == s.write then PopIdle else PopAllowed(at)))
       case PopAllowed(at) =>
         if at < |s.buffer| then Some(s.(consumer := PopRead(s.buffer[at], NextIndex(at, |s.buffer|)))) else None
       case PopRead(item, next) =>
         Some(s.(read := next, consumer := PopIdle, popped := s.popped + [item])))
  }

  function Held<T>(s: Ring<T>): int {
    |s.pushed| - |s.popped|
  }

  ghost predicate ProducerKnows<T>(s: Ring<T>)
    requires |s.buffer| > 0
  {
    var n := |s.buffer|;
    match s.producer
    case PushIdle => true
    case PushStarted(_, at) => at == s.write
    case PushAllowed(_, at, next) => at == s.write && next == (|s.pushed| + 1) % n && Held(s) + 1 < n
    case PushWritten(item, next) =>
      s.write < n && s.buffer[s.write] == item && next == (|s.pushed| + 1) % n && Held(s) + 1 < n
  }

  ghost predicate ConsumerKnows<T>(s: Ring<T>)
    requires |s.buffer| > 0
  {
    match s.consumer
    case PopIdle => true
    case PopStarted(at) => at == s.read
    case PopAllowed(at) => at == s.read && Held(s) > 0
    case PopRead(item, next) => Held(s) > 0 && item == s.pushed[|s.popped|] && next == (|s.popped| + 1) % |s.buffer|
  }

  /** FIFO: what came out is a prefix of what went in, and the rest sits in the slots between the indices. */
  ghost predicate Inv<T(!new)>(s: Ring<T>) {
    var n := |s.buffer|;
    && n > 0 && IsPow2(n)
    && s.popped <= s.pushed
    && Held(s) < n
    && s.write == |s.pushed| % n && s.read == |s.popped| % n
    && (forall k :: |s.popped| <= k < |s.pushed| ==> s.buffer[k % n] == s.pushed[k])
    && ProducerKnows(s) && ConsumerKnows(s)
  }

  /** The slot under the producer's hand is none of the slots the consumer may read. */
  ghost predicate WritesApart<T(!new)>(s: Ring<T>)
    requires |s.buffer| > 0
  {
    s.producer.PushAllowed? ==> forall k :: |s.popped| <= k < |s.pushed| ==> k % |s.buffer| != s.producer.at
  }

  function Empty<T>(buffer: seq<T>): Ring<T> {
    Ring(buffer, 0, 0, PushIdle, PopIdle, [], [])
  }

  lemma EmptyInv<T(!new)>(buffer: seq<T>)
    requires |buffer| > 0 && IsPow2(|buffer|)
    ensures Inv(Empty(buffer))
  {
    ModUnique(0, |buffer|, 0, 0);
  }

  lemma SlotsApart<T>(s: Ring<T>, k: nat)
    requires |s.buffer| > 0 && |s.popped| <= k < |s.pushed| && Held(s) < |s.buffer|
    ensures k % |s.buffer| != |s.pushed| % |s.buffer|
  {
    SameIndex(|s.pushed|, k, |s.buffer|);
  }

  lemma InvWritesApart<T(!new)>(s: Ring<T>)
    requires Inv(s)
    ensures WritesApart(s)
  {
    if s.producer.PushAllowed? {
      forall k | |s.popped| <= k < |s.pushed|
        ensures k % |s.buffer| != s.producer.at
      {
        SlotsApart(s, k);
      }
    }
  }

  /** A push is refused exactly when n - 1 items are held at its load of the read index. */
  lemma RefusedWhenFull<T(!new)>(s: Ring<T>)
    requires Inv(s) && s.producer.PushStarted?
    ensures Do(s, Produce).value.producer.PushIdle? <==> Held(s) == |s.buffer| - 1
  {
    NextIndexIsMod(|s.pushed|, |s.buffer|);
    SameIndex(|s.pushed| + 1, |s.popped|, |s.buffer|);
  }

  /** A pop comes back empty exactly when nothing is held at its load of the write index. */
  lemma NothingWhenEmpty<T(!new)>(s: Ring<T>)
    requires Inv(s) && s.consumer.PopStarted?
    ensures Do(s, Consume).value.consumer.PopIdle? <==> Held(s) == 0
  {
    SameIndex(|s.pushed|, |s.popped|, |s.buffer|);
  }

  lemma ProduceKeepsInv<T(!new)>(s: Ring<T>)
    requires Inv(s) && Do(s, Produce).Some?
    ensures Inv(Do(s, Produce).value)
  {
    var n := |s.buffer|;
    var t := Do(s, Produce).value;
    match s.producer
    case PushStarted(item, at) =>
      RefusedWhenFull(s);
      NextIndexIsMod(|s.pushed|, n);
    case PushAllowed(item, at, next) =>
      InvWritesApart(s);
    case PushWritten(item, next) =>
      forall k | |t.popped| <= k < |t.pushed|
        ensures t.buffer[k % n] == t.pushed[k]
      {
      }
    case PushIdle =>
  }

  lemma ConsumeKeepsInv<T(!new)>(s: Ring<T>)
    requires Inv(s) && Do(s, Consume).Some?
    ensures Inv(Do(s, Consume).value)
  {
    NothingAllowed(s);
    NextIndexIsMod(|s.popped|, |s.buffer|);
    var t := Do(s, Consume).value;
    if s.consumer.PopRead? {
      assert t.popped == s.pushed[..|s.popped| + 1];
    } else if s.consumer.PopAllowed? {
      assert s.buffer[|s.popped| % |s.buffer|] == s.pushed[|s.popped|];
    }
  }

  lemma NothingAllowed<T(!new)>(s: Ring<T>)
    requires Inv(s)
    ensures s.consumer.PopStarted? ==> (Do(s, Consume).value.consumer.PopIdle? <==> Held(s) == 0)
  {
    if s.consumer.PopStarted? {
      NothingWhenEmpty(s);
    }
  }

  lemma StepKeepsInv<T(!new)>(s: Ring<T>, a: Action<T>)
    requires Inv(s) && Do(s, a).Some?
    ensures Inv(Do(s, a).value)
  {
    match a
    case Produce => ProduceKeepsInv(s);
    case Consume => ConsumeKeepsInv(s);
    case _ =>
  }

  /** The ring after a whole interleaving, if every action of it was possible. */
  function Run<T>(s: Ring<T>, actions: seq<Action<T>>): Option<Ring<T>>
    requires |s.buffer| > 0
    decreases |actions|
  {
    if actions == [] then Some(s)
    else
      var t := Do(s, actions[0]);
      if t.None? then None else Run(t.value, actions[1..])
  }

  lemma {:induction false} RunKeepsInv<T(!new)>(s: Ring<T>, actions: seq<Action<T>>)
    requires Inv(s) && Run(s, actions).Some?
    ensures Inv(Run(s, actions).value) && |Run(s, actions).value.buffer| == |s.buffer|
    decreases |actions|
  {
    if actions != [] {
      StepKeepsInv(s, actions[0]);
      RunKeepsInv(Do(s, actions[0]).value, actions[1..]);
    }
  }

  /**
   Every interleaving from the empty ring: items come out in the order they went
   in, at most n - 1 are held, the slot being written is not readable, and a ring
   at rest reports its exact size.
   */
  lemma EveryInterleavingFifo<T(!new)>(buffer: seq<T>, actions: seq<Action<T>>)
    requires IsPow2(|buffer|) && 0 < |buffer| <= 0x1_0000_0000
    requires Run(Empty(buffer), actions).Some?
    ensures var s := Run(Empty(buffer), actions).value;
      && |s.buffer| == |buffer|
      && s.popped <= s.pushed && Held(s) <= |buffer| - 1
      && WritesApart(s)
      && (s.producer.PushIdle? && s.consumer.PopIdle? ==> Size(s.write, s.read, |buffer|) == |s.pushed| - |s.popped|)
  {
    EmptyInv(buffer);
    RunKeepsInv(Empty(buffer), actions);
    var s := Run(Empty(buffer), actions).value;
    InvWritesApart(s);
    SizeIsDistance(|s.pushed|, |s.popped|, |buffer|);
  }

  // ----- what the calls come to -----

  /** A thread inside a call can make its next access, and is done after three; between calls it can start one. */
  lemma NeverBlocks<T(!new)>(s: Ring<T>, item: T)
    requires Inv(s)
    ensures Do(s, Push(item)).Some? <==> s.producer.PushIdle?
    ensures Do(s, Produce).Some? <==> !s.producer.PushIdle?
    ensures Do(s, Pop).Some? <==> s.consumer.PopIdle?
    ensures Do(s, Consume).Some? <==> !s.consumer.PopIdle?
    ensures Do(s, Produce).Some? ==> PushLeft(Do(s, Produce).value.producer) < PushLeft(s.producer) <= 3
    ensures Do(s, Consume).Some? ==> PopLeft(Do(s, Consume).value.consumer) < PopLeft(s.consumer) <= 3
  {
  }

  /** Accesses a push may still take. */
  function PushLeft<T>(pc: ProducerPc<T>): nat {
    match pc
    case PushIdle => 0
    case PushStarted(_, _) => 3
    case PushAllowed(_, _, _) => 2
    case PushWritten(_, _) => 1
  }

  function PopLeft<T>(pc: ConsumerPc<T>): nat {
    match pc
    case PopIdle => 0
    case PopStarted(_) => 3
    case PopAllowed(_) => 2
    case PopRead(_, _) => 1
  }

  /** The producer's accesses since its last call began. */
  function PushSteps<T>(actions: seq<Action<T>>): nat {
    if actions == [] then 0
    else
      var n := |actions| - 1;
      match actions[n]
      case Push(_) => 0
      case Produce => PushSteps(actions[..n]) + 1
      case _ => PushSteps(actions[..n])
  }

  function PopSteps<T>(actions: seq<Action<T>>): nat {
    if actions == [] then 0
    else
      var n := |actions| - 1;
      match actions[n]
      case Pop => 0
      case Consume => PopSteps(actions[..n]) + 1
      case _ => PopSteps(actions[..n])
  }

  /** What the producer's last call was to push. */
  function LastPushed<T>(actions: seq<Action<T>>): Option<T> {
    if actions == [] then None
    else
      var n := |actions| - 1;
      if actions[n].Push? then Some(actions[n].item) else LastPushed(actions[..n])
  }

  /** The items of the calls to `push`, in order, without those that met n - 1 items at their load of the read index. */
  function Taken<T>(buffer: seq<T>, actions: seq<Action<T>>): seq<T>
    requires |buffer| > 0
  {
    if actions == [] then []
    else
      var n := |actions| - 1;
      var s := Run(Empty(buffer), actions[..n]);
      var loads := actions[n].Produce? && PushSteps(actions[..n]) == 0;
      var item := LastPushed(actions[..n]);
      Taken(buffer, actions[..n]) +
      (if loads && item.Some? && s.Some? && Held(s.value) < |buffer| - 1 then [item.value] else [])
  }

  /** How many calls to `pop` met an item at their load of the write index. */
  function Served<T>(buffer: seq<T>, actions: seq<Action<T>>): nat
    requires |buffer| > 0
  {
    if actions == [] then 0
    else
      var n := |actions| - 1;
      var s := Run(Empty(buffer), actions[..n]);
      var loads := actions[n].Consume? && PopSteps(actions[..n]) == 0;
      Served(buffer, actions[..n]) + (if loads && s.Some? && Held(s.value) > 0 then 1 else 0)
  }

  /** The item a call has been let through with, but not published. */
  function InHand<T>(pc: ProducerPc<T>): seq<T> {
    if pc.PushAllowed? || pc.PushWritten? then [pc.item] else []
  }

  ghost predicate PushTracked<T>(s: Ring<T>, buffer: seq<T>, actions: seq<Action<T>>)
    requires |buffer| > 0
  {
    && Taken(buffer, actions) == s.pushed + InHand(s.producer)
    && (!s.producer.PushIdle? ==> LastPushed(actions) == Some(s.producer.item))
    && (!s.producer.PushIdle? ==> PushSteps(actions) == 3 - PushLeft(s.producer))
  }

  ghost predicate PopTracked<T>(s: Ring<T>, buffer: seq<T>, actions: seq<Action<T>>)
    requires |buffer| > 0
  {
    && Served(buffer, actions) == |s.popped| + (if s.consumer.PopAllowed? || s.consumer.PopRead? then 1 else 0)
    && (!s.consumer.PopIdle? ==> PopSteps(actions) == 3 - PopLeft(s.consumer))
  }

  lemma {:induction false} RunLast<T>(s: Ring<T>, actions: seq<Action<T>>)
    requires |s.buffer| > 0 && actions != [] && Run(s, actions).Some?
    ensures var before := Run(s, actions[..|actions| - 1]);
      before.Some? && |before.value.buffer| == |s.buffer| && Do(before.value, actions[|actions| - 1]) == Run(s, actions)
    decreases |actions|
  {
    var n := |actions| - 1;
    var t := Do(s, actions[0]).value;
    if n == 0 {
      assert actions[..0] == [] && actions[1..] == [];
    } else {
      RunLast(t, actions[1..]);
      assert actions[1..][..n - 1] == actions[..n][1..] && actions[1..][n - 1] == actions[n];
    }
  }

  lemma PushStepTracked<T(!new)>(s: Ring<T>, buffer: seq<T>, actions: seq<Action<T>>)
    requires actions != [] && |buffer| > 0
    requires Run(Empty(buffer), actions[..|actions| - 1]) == Some(s) && |s.buffer| == |buffer|
    requires Inv(s) && Do(s, actions[|actions| - 1]).Some? && PushTracked(s, buffer, actions[..|actions| - 1])
    ensures PushTracked(Do(s, actions[|actions| - 1]).value, buffer, actions)
  {
    if s.producer.PushStarted? {
      RefusedWhenFull(s);
    }
  }

  lemma PopStepTracked<T(!new)>(s: Ring<T>, buffer: seq<T>, actions: seq<Action<T>>)
    requires actions != [] && |buffer| > 0
    requires Run(Empty(buffer), actions[..|actions| - 1]) == Some(s) && |s.buffer| == |buffer|
    requires Inv(s) && Do(s, actions[|actions| - 1]).Some? && PopTracked(s, buffer, actions[..|actions| - 1])
    ensures PopTracked(Do(s, actions[|actions| - 1]).value, buffer, actions)
  {
    if s.consumer.PopStarted? {
      NothingWhenEmpty(s);
    }
  }

  lemma {:induction false} RunTracked<T(!new)>(buffer: seq<T>, actions: seq<Action<T>>)
    requires IsPow2(|buffer|) && |buffer| > 0 && Run(Empty(buffer), actions).Some?
    ensures var s := Run(Empty(buffer), actions).value;
      PushTracked(s, buffer, actions) && PopTracked(s, buffer, actions)
    decreases |actions|
  {
    if actions != [] {
      var before := actions[..|actions| - 1];
      RunLast(Empty(buffer), actions);
      RunTracked(buffer, before);
      EmptyInv(buffer);
      RunKeepsInv(Empty(buffer), before);
      PushStepTracked(Run(Empty(buffer), before).value, buffer, actions);
      PopStepTracked(Run(Empty(buffer), before).value, buffer, actions);
    }
  }

  /**
   Every interleaving, in terms of the calls made: no item that was let in is lost, and
   every call that met an item takes one. What came out are the oldest items of the calls
   to `push` that were not refused, one for each call to `pop` that was served.
   */
  lemma EveryCallCounts<T(!new)>(buffer: seq<T>, actions: seq<Action<T>>)
    requires IsPow2(|buffer|) && |buffer| > 0 && Run(Empty(buffer), actions).Some?
    ensures var s := Run(Empty(buffer), actions).value;
      && (s.producer.PushIdle? ==> s.pushed == Taken(buffer, actions))
      && (s.consumer.PopIdle? ==>
            && Served(buffer, actions) <= |Taken(buffer, actions)|
            && s.popped == Taken(buffer, actions)[..Served(buffer, actions)])
  {
    RunTracked(buffer, actions);
    EmptyInv(buffer);
    RunKeepsInv(Empty(buffer), actions);
  }
}
