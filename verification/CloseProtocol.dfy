/**
 The two-phase connection close. The inbound and the outbound thread share, per
 file descriptor, two flags and two optional slots. Every shared load, store, reset
 and emplace is one step, and the steps of the two threads interleave freely. The
 kernel's view of a descriptor is whether it is open and, as a ghost, how many
 times it has been opened: its generation.
 */
module CloseProtocol {
  import opened OrderTypes

  type Gen = nat

  /** One descriptor. A slot remembers the generation it was emplaced for. */
  datatype Conn = Conn(
    open: bool,
    gen: Gen,
    condemnedIn: bool,
    condemnedOut: bool,
    inSlot: Option<Gen>,
    outSlot: Option<Gen>,
    armed: bool)

  const CLOSED := Conn(false, 0, false, false, None, None, false)

  /** Where the inbound thread is between two shared accesses. */
  datatype InPc =
    | InIdle
    | InCheck(fd: nat)       // saw condemnedOut, will look at the inbound slot
    | InClearIn(fd: nat)     // slot reset and descriptor closed, will clear condemnedIn
    | InClearOut(fd: nat)
    | InAccepted(fd: nat)    // will clear condemnedIn, or close on a setup error
    | InClearedIn(fd: nat)   // will clear condemnedOut
    | InClearedOut(fd: nat)  // will emplace the outbound slot
    | InEmplaced(fd: nat)    // will emplace the inbound slot

  /** Where the outbound thread is between two shared accesses. */
  datatype OutPc =
    | OutIdle
    | OutCheck(fd: nat, seen: Gen)  // saw condemnedIn in generation `seen`, will look at the outbound slot
    | OutDrop(fd: nat)              // will leave the output epoll set and reset the outbound slot
    | OutFlag(fd: nat)              // will set condemnedOut
    | OutUse(fd: nat)               // saw condemnedIn clear, will look at the outbound slot
    | OutSend(fd: nat, gen: Gen)    // holds the slot emplaced for `gen`, may send

  datatype State = State(conns: seq<Conn>, inPc: InPc, outPc: OutPc)

  datatype Action =
    | Accept(fd: nat)          // the kernel hands out a descriptor that is not open
    | SetupError               // fcntl or epoll registration failed
    | Condemn(fd: nat)         // hang-up or read error on a registered descriptor
    | ScanInbound(fd: nat)     // load of condemnedOut
    | InStep                   // the inbound thread's next access
    | ScanOutbound(fd: nat)    // load of condemnedIn by the disconnect scan
    | BeginUse(fd: nat)        // load of condemnedIn before routing or sending
    | HangUp(fd: nat)          // output event for an armed descriptor: load of condemnedIn
    | OutStep                  // the outbound thread's next access
    | SendBlocked(arm: bool)   // EAGAIN, after which the descriptor may get armed
    | SendDone                 // all sent, the descriptor leaves the output epoll set
    | SendFailed

  function With(s: State, fd: nat, c: Conn): State
    requires fd < |s.conns|
  {
    s.(conns := s.conns[fd := c])
  }

  /** The state after an action, if the action is possible. */
  function Do(s: State, a: Action): Option<State> {
    match a
    case Accept(fd) =>
      if fd < |s.conns| && s.inPc.InIdle? && !s.conns[fd].open then
        var c := s.conns[fd];
        Some(With(s, fd, c.(open := true, gen := c.gen + 1)).(inPc := InAccepted(fd)))
      else None
    case SetupError =>
      if s.inPc.InAccepted? && s.inPc.fd < |s.conns| then
        Some(With(s, s.inPc.fd, s.conns[s.inPc.fd].(open := false)).(inPc := InIdle))
      else None
    case Condemn(fd) =>
      if fd < |s.conns| && s.inPc.InIdle? && s.conns[fd].inSlot.Some? then
        Some(With(s, fd, s.conns[fd].(condemnedIn := true)))
      else None
    case ScanInbound(fd) =>
      if fd < |s.conns| && s.inPc.InIdle? then
        Some(if s.conns[fd].condemnedOut then s.(inPc := InCheck(fd)) else s)
      else None
    case InStep =>
      if s.inPc.InIdle? || s.inPc.fd >= |s.conns| then None else Some(InboundStep(s))
    case ScanOutbound(fd) =>
      if fd < |s.conns| && s.outPc.OutIdle? then
        Some(if s.conns[fd].condemnedIn then s.(outPc := OutCheck(fd, s.conns[fd].gen)) else s)
      else None
    case BeginUse(fd) =>
      if fd < |s.conns| && s.outPc.OutIdle? then
        Some(if s.conns[fd].condemnedIn then s else s.(outPc := OutUse(fd)))
      else None
    case HangUp(fd) =>
      if fd < |s.conns| && s.outPc.OutIdle? && s.conns[fd].armed then
        Some(if s.conns[fd].condemnedIn then s else s.(outPc := OutDrop(fd)))
      else None
    case OutStep =>
      if s.outPc.OutIdle? || s.outPc.fd >= |s.conns| then None else Some(OutboundStep(s))
    case SendBlocked(arm) =>
      if s.outPc.OutSend? && s.outPc.fd < |s.conns| then
        var c := s.conns[s.outPc.fd];
        Some(With(s, s.outPc.fd, c.(armed := c.armed || arm)).(outPc := OutIdle))
      else None
    case SendDone =>
      if s.outPc.OutSend? && s.outPc.fd < |s.conns| then
        Some(With(s, s.outPc.fd, s.conns[s.outPc.fd].(armed := false)).(outPc := OutIdle))
      else None
    case SendFailed =>
      if s.outPc.OutSend? then Some(s.(outPc := OutDrop(s.outPc.fd))) else None
  }

  function InboundStep(s: State): State
    requires !s.inPc.InIdle? && s.inPc.fd < |s.conns|
  {
    var fd := s.inPc.fd;
    var c := s.conns[fd];
    match s.inPc
    case InCheck(_) =>
      if c.inSlot.None? then s.(inPc := InIdle)
      else With(s, fd, c.(inSlot := None, open := false)).(inPc := InClearIn(fd))
    case InClearIn(_) => With(s, fd, c.(condemnedIn := false)).(inPc := InClearOut(fd))
    case InClearOut(_) => With(s, fd, c.(condemnedOut := false)).(inPc := InIdle)
    case InAccepted(_) => With(s, fd, c.(condemnedIn := false)).(inPc := InClearedIn(fd))
    case InClearedIn(_) => With(s, fd, c.(condemnedOut := false)).(inPc := InClearedOut(fd))
    case InClearedOut(_) => With(s, fd, c.(outSlot := Some(c.gen))).(inPc := InEmplaced(fd))
    case InEmplaced(_) => With(s, fd, c.(inSlot := Some(c.gen))).(inPc := InIdle)
  }

  function OutboundStep(s: State): State
    requires !s.outPc.OutIdle? && s.outPc.fd < |s.conns|
  {
    var fd := s.outPc.fd;
    var c := s.conns[fd];
    match s.outPc
    case OutCheck(_, _) => s.(outPc := if c.outSlot.None? then OutIdle else OutDrop(fd))
    case OutDrop(_) => With(s, fd, c.(outSlot := None, armed := false)).(outPc := OutFlag(fd))
    case OutFlag(_) => With(s, fd, c.(condemnedOut := true)).(outPc := OutIdle)
    case OutUse(_) => s.(outPc := if c.outSlot.None? then OutIdle else OutSend(fd, c.outSlot.value))
    case OutSend(_, _) => s  // a send that made progress
  }

  function Initial(n: nat): State {
    State(seq(n, _ => CLOSED), InIdle, OutIdle)
  }

  /** The state after a whole interleaving, if every action of it was possible. */
  function Run(s: State, actions: seq<Action>): Option<State>
    decreases |actions|
  {
    if actions == [] then Some(s)
    else if Do(s, actions[0]).None? then None
    else Run(Do(s, actions[0]).value, actions[1..])
  }

  // ----- what must never go wrong -----

  /** A slot is only ever live while its descriptor is open, and for that very opening of it. */
  predicate SlotsCurrent(c: Conn) {
    && (c.outSlot.Some? ==> c.open && c.outSlot.value == c.gen)
    && (c.inSlot.Some? ==> c.open && c.inSlot.value == c.gen)
  }

  /** About to reset the inbound slot and close: the outbound slot is already empty. */
  predicate ResetOrdered(s: State) {
    s.inPc.InCheck? && s.inPc.fd < |s.conns| ==> s.conns[s.inPc.fd].outSlot.None?
  }

  /** About to emplace a slot: it is empty. */
  predicate EmplaceFree(s: State) {
    && (s.inPc.InClearedOut? && s.inPc.fd < |s.conns| ==> s.conns[s.inPc.fd].outSlot.None?)
    && (s.inPc.InEmplaced? && s.inPc.fd < |s.conns| ==> s.conns[s.inPc.fd].inSlot.None?)
  }

  /** The outbound thread sends on, and drops, open descriptors of the generation it holds. */
  predicate SendsCurrent(s: State) {
    && (s.outPc.OutSend? && s.outPc.fd < |s.conns| ==>
          s.conns[s.outPc.fd].open && s.conns[s.outPc.fd].gen == s.outPc.gen)
    && (s.outPc.OutDrop? && s.outPc.fd < |s.conns| ==>
          s.conns[s.outPc.fd].open && s.conns[s.outPc.fd].outSlot.Some?)
  }

  /** Every open descriptor is owned by its inbound slot or by the accept in progress. */
  predicate NoLeak(s: State) {
    forall fd :: 0 <= fd < |s.conns| && s.conns[fd].open ==>
      s.conns[fd].inSlot.Some? || (Registering(s.inPc) && s.inPc.fd == fd)
  }

  predicate Registering(pc: InPc) {
    pc.InAccepted? || pc.InClearedIn? || pc.InClearedOut? || pc.InEmplaced?
  }

  /** A registered connection that lost its outbound slot has been handed back, or is about to be. */
  predicate NothingStranded(s: State) {
    forall fd :: 0 <= fd < |s.conns| && s.conns[fd].inSlot.Some? && s.conns[fd].outSlot.None? ==>
      s.conns[fd].condemnedOut || s.outPc == OutFlag(fd)
  }

  ghost predicate Safe(s: State) {
    && (forall fd :: 0 <= fd < |s.conns| ==> SlotsCurrent(s.conns[fd]))
    && ResetOrdered(s) && EmplaceFree(s) && SendsCurrent(s) && NoLeak(s) && NothingStranded(s)
  }

  // ----- why it does not -----

  predicate ConnInv(c: Conn) {
    && SlotsCurrent(c)
    && (c.outSlot.Some? ==> !c.condemnedOut)
    && (c.armed ==> c.outSlot.Some?)
  }

  /** What the inbound thread knows about the descriptor it is working on. */
  predicate InboundKnows(pc: InPc, c: Conn) {
    match pc
    case InIdle => true
    case InCheck(_) => c.condemnedOut
    case InClearIn(_) => c.condemnedOut && !c.open
    case InClearOut(_) => c.condemnedOut && !c.open
    case InAccepted(_) => c.open && c.inSlot.None? && c.outSlot.None?
    case InClearedIn(_) => c.open && c.inSlot.None? && c.outSlot.None?
    case InClearedOut(_) => c.open && c.inSlot.None? && c.outSlot.None? && !c.condemnedOut
    case InEmplaced(_) => c.open && c.inSlot.None?
  }

  /** What the outbound thread knows about the descriptor it is working on. */
  predicate OutboundKnows(pc: OutPc, c: Conn) {
    match pc
    case OutIdle => true
    case OutCheck(_, seen) => seen <= c.gen && (c.outSlot == Some(seen) ==> c.condemnedIn)
    case OutDrop(_) => c.outSlot.Some?
    case OutFlag(_) => c.open && c.outSlot.None? && !c.condemnedOut
    case OutUse(_) => true
    case OutSend(_, gen) => c.outSlot == Some(gen)
  }

  function InHere(s: State, fd: nat): InPc {
    if !s.inPc.InIdle? && s.inPc.fd == fd then s.inPc else InIdle
  }

  function OutHere(s: State, fd: nat): OutPc {
    if !s.outPc.OutIdle? && s.outPc.fd == fd then s.outPc else OutIdle
  }

  predicate FdInv(c: Conn, i: InPc, o: OutPc) {
    && ConnInv(c) && InboundKnows(i, c) && OutboundKnows(o, c)
    && (c.open ==> c.inSlot.Some? || Registering(i))
    && (c.condemnedIn ==> c.inSlot.Some? || i.InClearIn?)
    // whoever drops an outbound slot flags it before doing anything else
    && (c.open && c.outSlot.None? && (c.inSlot.Some? || i.InEmplaced?) ==> c.condemnedOut || o.OutFlag?)
    // a slot being flagged belongs to a connection that is past its own emplace
    && (o.OutFlag? && Registering(i) ==> i.InEmplaced?)
    // a flag seen before this registration belongs to an earlier generation
    && (o.OutCheck? && Registering(i) ==> o.seen < c.gen)
  }

  ghost predicate Inv(s: State) {
    && (s.inPc.InIdle? || s.inPc.fd < |s.conns|)
    && (s.outPc.OutIdle? || s.outPc.fd < |s.conns|)
    && (forall fd :: 0 <= fd < |s.conns| ==> FdInv(s.conns[fd], InHere(s, fd), OutHere(s, fd)))
  }

  lemma InvIsSafe(s: State)
    requires Inv(s)
    ensures Safe(s)
  {
    assert !s.inPc.InIdle? ==> FdInv(s.conns[s.inPc.fd], s.inPc, OutHere(s, s.inPc.fd));
    assert !s.outPc.OutIdle? ==> FdInv(s.conns[s.outPc.fd], InHere(s, s.outPc.fd), s.outPc);
    forall fd | 0 <= fd < |s.conns| && s.conns[fd].inSlot.Some? && s.conns[fd].outSlot.None?
      ensures s.conns[fd].condemnedOut || s.outPc == OutFlag(fd)
    {
      assert FdInv(s.conns[fd], InHere(s, fd), OutHere(s, fd));
    }
  }

  /** The descriptor an action works on. */
  function Target(s: State, a: Action): nat {
    match a
    case Accept(fd) => fd
    case Condemn(fd) => fd
    case ScanInbound(fd) => fd
    case ScanOutbound(fd) => fd
    case BeginUse(fd) => fd
    case HangUp(fd) => fd
    case SetupError => if s.inPc.InIdle? then 0 else s.inPc.fd
    case InStep => if s.inPc.InIdle? then 0 else s.inPc.fd
    case _ => if s.outPc.OutIdle? then 0 else s.outPc.fd
  }

  predicate ByInbound(a: Action) {
    a.Accept? || a.SetupError? || a.Condemn? || a.ScanInbound? || a.InStep?
  }

  /** No action touches a descriptor other than its target. */
  lemma OthersKept(s: State, a: Action, fd: nat)
    requires Inv(s) && Do(s, a).Some? && fd < |s.conns| && fd != Target(s, a)
    ensures var t := Do(s, a).value;
      && |t.conns| == |s.conns| && t.conns[fd] == s.conns[fd]
      && InHere(t, fd) == InHere(s, fd) && OutHere(t, fd) == OutHere(s, fd)
  {
  }

  lemma InboundKeepsFd(s: State, a: Action)
    requires Inv(s) && ByInbound(a) && Do(s, a).Some?
    ensures var t := Do(s, a).value;
      var fd := Target(s, a);
      fd < |s.conns| == |t.conns| && (t.inPc.InIdle? || t.inPc.fd == fd) && t.outPc == s.outPc
      && FdInv(t.conns[fd], InHere(t, fd), OutHere(t, fd))
  {
    var fd := Target(s, a);
    assert FdInv(s.conns[fd], InHere(s, fd), OutHere(s, fd));
  }

  lemma OutboundKeepsFd(s: State, a: Action)
    requires Inv(s) && !ByInbound(a) && Do(s, a).Some?
    ensures var t := Do(s, a).value;
      var fd := Target(s, a);
      fd < |s.conns| == |t.conns| && (t.outPc.OutIdle? || t.outPc.fd == fd) && t.inPc == s.inPc
      && FdInv(t.conns[fd], InHere(t, fd), OutHere(t, fd))
  {
    var fd := Target(s, a);
    assert FdInv(s.conns[fd], InHere(s, fd), OutHere(s, fd));
  }

  lemma StepKeepsInv(s: State, a: Action)
    requires Inv(s) && Do(s, a).Some?
    ensures Inv(Do(s, a).value)
  {
    hide Do;
    hide FdInv;
    var t := Do(s, a).value;
    if ByInbound(a) {
      InboundKeepsFd(s, a);
    } else {
      OutboundKeepsFd(s, a);
    }
    forall fd | 0 <= fd < |t.conns|
      ensures FdInv(t.conns[fd], InHere(t, fd), OutHere(t, fd))
    {
      if fd != Target(s, a) {
        OthersKept(s, a, fd);
      }
    }
  }

  /** Safety of every interleaving. */
  lemma {:induction false} RunSafe(s: State, actions: seq<Action>)
    requires Inv(s) && Run(s, actions).Some?
    ensures Inv(Run(s, actions).value) && Safe(Run(s, actions).value)
    decreases |actions|
  {
    if actions == [] {
      InvIsSafe(s);
    } else {
      StepKeepsInv(s, actions[0]);
      RunSafe(Do(s, actions[0]).value, actions[1..]);
    }
  }

  lemma EveryInterleavingSafe(n: nat, actions: seq<Action>)
    requires Run(Initial(n), actions).Some?
    ensures Safe(Run(Initial(n), actions).value)
  {
    RunSafe(Initial(n), actions);
  }

  // ----- completing a close, and the limits of the flags -----

  lemma {:induction false} RunCons(s: State, actions: seq<Action>, rest: seq<Action>)
    requires actions != [] && rest == actions[1..] && Do(s, actions[0]).Some?
    ensures Run(s, actions) == Run(Do(s, actions[0]).value, rest)
  {
  }

  lemma {:induction false} RunOne(s: State, a: Action)
    requires Do(s, a).Some?
    ensures Run(s, [a]) == Do(s, a)
  {
    assert [a][1..] == [];
  }

  lemma {:induction false} RunSplit(s: State, a: seq<Action>, b: seq<Action>)
    requires Run(s, a).Some?
    ensures Run(s, a + b) == Run(Run(s, a).value, b)
    decreases |a|
  {
    if a == [] {
      assert a + b == b;
    } else {
      assert (a + b)[1..] == a[1..] + b;
      RunSplit(Do(s, a[0]).value, a[1..], b);
    }
  }

  function Connect(fd: nat): seq<Action> {
    [Accept(fd), InStep, InStep, InStep, InStep]
  }

  function DropOutbound(fd: nat): seq<Action> {
    [ScanOutbound(fd), OutStep, OutStep, OutStep]
  }

  function CloseInbound(fd: nat): seq<Action> {
    [ScanInbound(fd), InStep, InStep, InStep]
  }

  function Live(gen: Gen): Conn {
    Conn(true, gen, false, false, Some(gen), Some(gen), false)
  }

  lemma ConnectRuns(s: State, fd: nat)
    requires fd < |s.conns| && s.inPc.InIdle? && !s.conns[fd].open && !s.conns[fd].armed
    ensures Run(s, Connect(fd)) == Some(With(s, fd, Live(s.conns[fd].gen + 1)))
  {
    hide Run;
    var s1 := Do(s, Accept(fd)).value;
    var s2, s3 := InboundStep(s1), InboundStep(InboundStep(s1));
    var s4, s5 := InboundStep(s3), InboundStep(InboundStep(s3));
    RunCons(s, Connect(fd), [InStep, InStep, InStep, InStep]);
    RunCons(s1, [InStep, InStep, InStep, InStep], [InStep, InStep, InStep]);
    RunCons(s2, [InStep, InStep, InStep], [InStep, InStep]);
    RunCons(s3, [InStep, InStep], [InStep]);
    RunOne(s4, InStep);
    assert s5 == With(s, fd, Live(s.conns[fd].gen + 1));
  }

  /** One disconnect scan of the outbound thread hands a condemned connection back. */
  lemma DropOutboundRuns(s: State, fd: nat)
    requires fd < |s.conns| && s.outPc.OutIdle? && s.conns[fd].condemnedIn && s.conns[fd].outSlot.Some?
    ensures Run(s, DropOutbound(fd)) ==
            Some(With(s, fd, s.conns[fd].(outSlot := None, armed := false, condemnedOut := true)))
  {
    hide Run;
    var s1 := Do(s, ScanOutbound(fd)).value;
    var s2, s3 := OutboundStep(s1), OutboundStep(OutboundStep(s1));
    RunCons(s, DropOutbound(fd), [OutStep, OutStep, OutStep]);
    RunCons(s1, [OutStep, OutStep, OutStep], [OutStep, OutStep]);
    RunCons(s2, [OutStep, OutStep], [OutStep]);
    RunOne(s3, OutStep);
    assert OutboundStep(s3) == With(s, fd, s.conns[fd].(outSlot := None, armed := false, condemnedOut := true));
  }

  /** The next disconnect scan of the inbound thread then closes it and clears both flags. */
  lemma CloseInboundRuns(s: State, fd: nat)
    requires fd < |s.conns| && s.inPc.InIdle? && s.conns[fd].condemnedOut && s.conns[fd].inSlot.Some?
    ensures Run(s, CloseInbound(fd)) ==
            Some(With(s, fd, s.conns[fd].(inSlot := None, open := false, condemnedIn := false, condemnedOut := false)))
  {
    hide Run;
    var s1 := Do(s, ScanInbound(fd)).value;
    var s2, s3 := InboundStep(s1), InboundStep(InboundStep(s1));
    RunCons(s, CloseInbound(fd), [InStep, InStep, InStep]);
    RunCons(s1, [InStep, InStep, InStep], [InStep, InStep]);
    RunCons(s2, [InStep, InStep], [InStep]);
    RunOne(s3, InStep);
    assert InboundStep(s3) ==
      With(s, fd, s.conns[fd].(inSlot := None, open := false, condemnedIn := false, condemnedOut := false));
  }

  /**
   Once condemned, a connection is closed by one scan of each thread, outbound
   first, and its descriptor can be accepted again with clean flags.
   */
  lemma TeardownCompletes(s: State, fd: nat)
    requires Inv(s) && s.inPc.InIdle? && s.outPc.OutIdle?
    requires fd < |s.conns| && s.conns[fd].condemnedIn && s.conns[fd].outSlot.Some?
    ensures Run(s, DropOutbound(fd) + CloseInbound(fd)) ==
            Some(With(s, fd, Conn(false, s.conns[fd].gen, false, false, None, None, false)))
  {
    assert FdInv(s.conns[fd], InHere(s, fd), OutHere(s, fd));
    hide Run;
    hide Do;
    DropOutboundRuns(s, fd);
    var s' := Run(s, DropOutbound(fd)).value;
    RunSplit(s, DropOutbound(fd), CloseInbound(fd));
    CloseInboundRuns(s', fd);
    assert s'.conns[fd := CLOSED.(gen := s.conns[fd].gen)] == s.conns[fd := CLOSED.(gen := s.conns[fd].gen)];
  }

  // ----- closing from any state -----

  function Closed(gen: Gen): Conn {
    CLOSED.(gen := gen)
  }

  /** Registered, and condemned or without its outbound slot. */
  predicate Doomed(s: State, fd: nat) {
    fd < |s.conns| && s.conns[fd].inSlot.Some? && (s.conns[fd].condemnedIn || s.conns[fd].outSlot.None?)
  }

  /** The inbound thread is already closing it, or has. */
  predicate Closing(s: State, fd: nat) {
    && fd < |s.conns|
    && ((s.inPc == InClearIn(fd) && s.conns[fd].outSlot.None?)
        || (s.inPc == InClearOut(fd) && !s.conns[fd].condemnedIn && s.conns[fd].outSlot.None?)
        || (s.inPc.InIdle? && s.conns[fd] == Closed(s.conns[fd].gen)))
  }

  /** Steps the outbound thread still has to take before it is between two pieces of work. */
  function OutSteps(pc: OutPc): nat {
    match pc
    case OutIdle => 0
    case OutFlag(_) => 1
    case OutDrop(_) => 2
    case OutCheck(_, _) => 3
    case OutSend(_, _) => 1
    case OutUse(_) => 2
  }

  function InSteps(pc: InPc): nat {
    match pc
    case InIdle => 0
    case InClearOut(_) => 1
    case InClearIn(_) => 2
    case InCheck(_) => 3
    case InEmplaced(_) => 1
    case InClearedOut(_) => 2
    case InClearedIn(_) => 3
    case InAccepted(_) => 4
  }

  function OutNext(s: State): Action {
    if s.outPc.OutSend? then SendBlocked(false) else OutStep
  }

  lemma OutNextStep(s: State, fd: nat)
    requires Inv(s) && !s.outPc.OutIdle? && Doomed(s, fd)
    ensures Do(s, OutNext(s)).Some?
    ensures var t := Do(s, OutNext(s)).value;
      && OutSteps(t.outPc) < OutSteps(s.outPc) && t.inPc == s.inPc
      && Doomed(t, fd) && |t.conns| == |s.conns| && t.conns[fd].gen == s.conns[fd].gen
  {
  }

  /** The outbound thread finishes what it is doing. */
  lemma {:induction false} FinishOutbound(s: State, fd: nat) returns (actions: seq<Action>)
    requires Inv(s) && Doomed(s, fd)
    ensures Run(s, actions).Some?
    ensures var t := Run(s, actions).value;
      Inv(t) && t.outPc.OutIdle? && Doomed(t, fd) && t.conns[fd].gen == s.conns[fd].gen
    decreases OutSteps(s.outPc)
  {
    hide Run;
    hide Do;
    hide Inv;
    hide Doomed;
    if s.outPc.OutIdle? {
      actions := [];
      RunNothing(s);
    } else {
      OutNextStep(s, fd);
      StepKeepsInv(s, OutNext(s));
      var later := FinishOutbound(Do(s, OutNext(s)).value, fd);
      actions := [OutNext(s)] + later;
      RunCons(s, actions, later);
    }
  }

  lemma InNextStep(s: State, fd: nat)
    requires Inv(s) && !s.inPc.InIdle? && s.outPc.OutIdle? && (Doomed(s, fd) || Closing(s, fd))
    ensures Do(s, InStep).Some?
    ensures var t := Do(s, InStep).value;
      && InSteps(t.inPc) < InSteps(s.inPc) && t.outPc.OutIdle?
      && (Doomed(t, fd) || Closing(t, fd)) && |t.conns| == |s.conns| && t.conns[fd].gen == s.conns[fd].gen
  {
    assert FdInv(s.conns[s.inPc.fd], s.inPc, OutIdle);
  }

  /** The inbound thread finishes what it is doing. */
  lemma {:induction false} FinishInbound(s: State, fd: nat) returns (actions: seq<Action>)
    requires Inv(s) && s.outPc.OutIdle? && (Doomed(s, fd) || Closing(s, fd))
    ensures Run(s, actions).Some?
    ensures var t := Run(s, actions).value;
      && Inv(t) && t.outPc.OutIdle? && t.inPc.InIdle?
      && (Doomed(t, fd) || Closing(t, fd)) && t.conns[fd].gen == s.conns[fd].gen
    decreases InSteps(s.inPc)
  {
    hide Run;
    hide Do;
    hide Inv;
    if s.inPc.InIdle? {
      actions := [];
      RunNothing(s);
    } else {
      InNextStep(s, fd);
      StepKeepsInv(s, InStep);
      var later := FinishInbound(Do(s, InStep).value, fd);
      actions := [InStep] + later;
      RunCons(s, actions, later);
    }
  }

  lemma RunNothing(s: State)
    ensures Run(s, []) == Some(s)
  {
  }

  /** With both threads between two pieces of work, one scan each closes it. */
  lemma CloseFromRest(s: State, fd: nat) returns (actions: seq<Action>)
    requires Inv(s) && s.inPc.InIdle? && s.outPc.OutIdle? && Doomed(s, fd)
    ensures Run(s, actions) == Some(With(s, fd, Closed(s.conns[fd].gen)))
  {
    assert FdInv(s.conns[fd], InIdle, OutIdle);
    hide Run;
    hide Do;
    if s.conns[fd].outSlot.Some? {
      TeardownCompletes(s, fd);
      actions := DropOutbound(fd) + CloseInbound(fd);
    } else {
      CloseInboundRuns(s, fd);
      actions := CloseInbound(fd);
    }
  }

  /**
   From every state the protocol can reach, whatever the two threads are in the middle
   of, a registered connection that was condemned or lost its outbound slot can be
   closed, with clean flags: there is a way for the threads to go on that does it.
   */
  lemma EveryCloseCompletes(n: nat, before: seq<Action>, fd: nat) returns (actions: seq<Action>)
    requires Run(Initial(n), before).Some? && Doomed(Run(Initial(n), before).value, fd)
    ensures var s := Run(Initial(n), before).value;
      var end := Run(s, actions);
      && end.Some? && end.value.inPc.InIdle? && end.value.outPc.OutIdle?
      && fd < |end.value.conns| && end.value.conns[fd] == Closed(s.conns[fd].gen)
  {
    RunSafe(Initial(n), before);
    hide Run;
    hide Do;
    hide Inv;
    var s := Run(Initial(n), before).value;
    var first := FinishOutbound(s, fd);
    var t := Run(s, first).value;
    var second := FinishInbound(t, fd);
    var u := Run(t, second).value;
    RunSplit(s, first, second);
    actions := first + second;
    if Doomed(u, fd) {
      var third := CloseFromRest(u, fd);
      RunSplit(s, first + second, third);
      actions := first + second + third;
    }
  }

  // ----- closing in every interleaving -----

  /** How far the close of one generation of a descriptor has come, at least. */
  datatype Stage =
    | Condemned    // condemned, or without its outbound slot, or the outbound thread is dropping that
    | HandingBack  // flagged for the inbound thread, or the outbound thread is at it
    | HandedBack   // flagged for the inbound thread
    | Seen         // the inbound thread is about to look at its slot
    | Gone

  predicate Reached(stage: Stage, c: Conn, i: InPc, o: OutPc, gen: Gen) {
    || c.gen > gen
    || (c.gen == gen && !c.open)
    || (c.gen == gen && (c.inSlot.Some? || i.InEmplaced?)
        && match stage
           case Condemned => c.condemnedIn || c.outSlot.None? || o.OutDrop?
           case HandingBack => c.condemnedOut || o.OutCheck? || o.OutDrop? || o.OutFlag?
           case HandedBack => c.condemnedOut
           case Seen => i.InCheck?
           case Gone => false)
  }

  /** The generation of this descriptor is that far, or closed, or there is a later one. */
  predicate At(stage: Stage, s: State, fd: nat, gen: Gen) {
    fd < |s.conns| && Reached(stage, s.conns[fd], InHere(s, fd), OutHere(s, fd), gen)
  }

  lemma InboundKeepsStage(stage: Stage, s: State, a: Action, gen: Gen)
    requires Inv(s) && ByInbound(a) && Do(s, a).Some? && At(stage, s, Target(s, a), gen)
    ensures At(stage, Do(s, a).value, Target(s, a), gen)
  {
    var fd := Target(s, a);
    assert FdInv(s.conns[fd], InHere(s, fd), OutHere(s, fd));
  }

  lemma OutboundKeepsStage(stage: Stage, s: State, a: Action, gen: Gen)
    requires Inv(s) && !ByInbound(a) && Do(s, a).Some? && At(stage, s, Target(s, a), gen)
    ensures At(stage, Do(s, a).value, Target(s, a), gen)
  {
    var fd := Target(s, a);
    assert FdInv(s.conns[fd], InHere(s, fd), OutHere(s, fd));
  }

  /** No step of either thread undoes a stage. */
  lemma StepKeepsStage(stage: Stage, s: State, a: Action, fd: nat, gen: Gen)
    requires Inv(s) && Do(s, a).Some? && At(stage, s, fd, gen)
    ensures At(stage, Do(s, a).value, fd, gen)
  {
    hide Do;
    hide FdInv;
    hide Reached;
    if fd != Target(s, a) {
      OthersKept(s, a, fd);
    } else if ByInbound(a) {
      InboundKeepsStage(stage, s, a, gen);
    } else {
      OutboundKeepsStage(stage, s, a, gen);
    }
  }

  lemma {:induction false} RunKeepsStage(stage: Stage, s: State, actions: seq<Action>, fd: nat, gen: Gen)
    requires Inv(s) && Run(s, actions).Some? && At(stage, s, fd, gen)
    ensures Inv(Run(s, actions).value) && At(stage, Run(s, actions).value, fd, gen)
    decreases |actions|
  {
    if actions != [] {
      StepKeepsStage(stage, s, actions[0], fd, gen);
      StepKeepsInv(s, actions[0]);
      RunKeepsStage(stage, Do(s, actions[0]).value, actions[1..], fd, gen);
    }
  }

  /** The outbound thread's scan gets the hand-back under way, unless it has happened. */
  lemma OutboundScans(s: State, fd: nat, gen: Gen)
    requires Inv(s) && Do(s, ScanOutbound(fd)).Some? && At(Condemned, s, fd, gen)
    ensures At(HandingBack, Do(s, ScanOutbound(fd)).value, fd, gen)
  {
    assert FdInv(s.conns[fd], InHere(s, fd), OutIdle);
  }

  /** An outbound thread that has turned to something else is done handing back. */
  lemma OutboundMovedOn(s: State, fd: nat, gen: Gen)
    requires Inv(s) && At(HandingBack, s, fd, gen) && s.outPc.OutIdle?
    ensures At(HandedBack, s, fd, gen)
  {
  }

  lemma InboundScans(s: State, fd: nat, gen: Gen)
    requires Inv(s) && Do(s, ScanInbound(fd)).Some? && At(HandedBack, s, fd, gen)
    ensures At(Seen, Do(s, ScanInbound(fd)).value, fd, gen)
  {
  }

  lemma InboundMovedOn(s: State, fd: nat, gen: Gen)
    requires At(Seen, s, fd, gen) && s.inPc.InIdle?
    ensures At(Gone, s, fd, gen)
  {
  }

  /** A run of two parts is a run of the first, and then of the second. */
  lemma RunApart(s: State, first: seq<Action>, rest: seq<Action>)
    requires Run(s, first + rest).Some?
    ensures Run(s, first).Some? && Run(s, first + rest) == Run(Run(s, first).value, rest)
    decreases |first|
  {
    if first == [] {
      assert first + rest == rest;
    } else {
      assert (first + rest)[1..] == first[1..] + rest;
      RunApart(Do(s, first[0]).value, first[1..], rest);
    }
  }

  /** One scan, and whatever follows it, from one stage on. */
  lemma ScanThenRun(s: State, before: seq<Action>, scan: Action, later: seq<Action>, fd: nat, gen: Gen, stage: Stage)
    requires Inv(s) && Run(s, before + [scan] + later).Some? && At(stage, s, fd, gen)
    requires (scan == ScanOutbound(fd) && stage == Condemned) || (scan == ScanInbound(fd) && stage == HandedBack)
    ensures var t := Run(s, before + [scan] + later).value;
      Inv(t) && At(if stage == Condemned then HandingBack else Seen, t, fd, gen)
  {
    hide Run;
    hide Do;
    hide Inv;
    hide At;
    RunApart(s, before + [scan], later);
    RunApart(s, before, [scan]);
    RunKeepsStage(stage, s, before, fd, gen);
    var u := Run(s, before).value;
    RunSingle(u, scan);
    if stage == Condemned {
      OutboundScans(u, fd, gen);
    } else {
      InboundScans(u, fd, gen);
    }
    StepKeepsInv(u, scan);
    RunKeepsStage(if stage == Condemned then HandingBack else Seen, Do(u, scan).value, later, fd, gen);
  }

  lemma {:induction false} RunSingle(s: State, a: Action)
    requires Run(s, [a]).Some?
    ensures Do(s, a).Some? && Run(s, [a]) == Do(s, a)
  {
    assert [a][1..] == [];
  }

  /**
   Every interleaving closes: take a registered connection that was condemned or lost
   its outbound slot, and let the threads go on in any way in which the outbound thread
   scans its flag and gets to the end of that, and then the inbound thread scans its flag
   and gets to the end of that. The descriptor has then been closed, and possibly opened
   again for another connection.
   */
  lemma EveryCloseHappens(n: nat, before: seq<Action>, fd: nat,
                          a: seq<Action>, b: seq<Action>, c: seq<Action>, d: seq<Action>)
    requires Run(Initial(n), before).Some? && Doomed(Run(Initial(n), before).value, fd)
    requires var s := Run(Initial(n), before).value;
      var handed := Run(s, a + [ScanOutbound(fd)] + b);
      && handed.Some? && handed.value.outPc.OutIdle?
      && var end := Run(handed.value, c + [ScanInbound(fd)] + d);
         end.Some? && end.value.inPc.InIdle?
    ensures var s := Run(Initial(n), before).value;
      var end := Run(Run(s, a + [ScanOutbound(fd)] + b).value, c + [ScanInbound(fd)] + d).value;
      fd < |end.conns| && (!end.conns[fd].open || end.conns[fd].gen > s.conns[fd].gen)
  {
    RunSafe(Initial(n), before);
    hide Run;
    var s := Run(Initial(n), before).value;
    var gen := s.conns[fd].gen;
    assert At(Condemned, s, fd, gen);
    ScanThenRun(s, a, ScanOutbound(fd), b, fd, gen, Condemned);
    var t := Run(s, a + [ScanOutbound(fd)] + b).value;
    HandedBackCloses(t, c, d, fd, gen);
  }

  // ----- every cause of a close leads to one -----

  /** The outbound thread gives up a connection of its own accord: a send failed, or the socket hung up. */
  predicate GivesUp(s: State, a: Action, fd: nat) {
    && fd < |s.conns|
    && ((a == SendFailed && s.outPc.OutSend? && s.outPc.fd == fd)
        || (a == HangUp(fd) && !s.conns[fd].condemnedIn))
  }

  lemma GivingUpHandsBack(s: State, a: Action, fd: nat)
    requires Inv(s) && GivesUp(s, a, fd) && Do(s, a).Some?
    ensures At(HandingBack, Do(s, a).value, fd, s.conns[fd].gen)
  {
    assert FdInv(s.conns[fd], InHere(s, fd), OutHere(s, fd));
  }

  lemma CondemningCondemns(s: State, fd: nat)
    requires Inv(s) && Do(s, Condemn(fd)).Some?
    ensures At(Condemned, Do(s, Condemn(fd)).value, fd, s.conns[fd].gen)
  {
    assert FdInv(s.conns[fd], InHere(s, fd), OutHere(s, fd));
  }

  /**
   In every interleaving after a failed send or a hang-up: once the outbound thread is at
   rest again, that connection is flagged for the inbound thread, unless it has been
   closed by then; and once the inbound thread has scanned the flag, it is closed.
   */
  lemma GivingUpCloses(n: nat, before: seq<Action>, cause: Action, fd: nat,
                       b: seq<Action>, c: seq<Action>, d: seq<Action>)
    requires Run(Initial(n), before).Some?
    requires var s := Run(Initial(n), before).value;
      GivesUp(s, cause, fd) && Do(s, cause).Some?
    requires var handed := Run(Do(Run(Initial(n), before).value, cause).value, b);
      && handed.Some? && handed.value.outPc.OutIdle?
      && var end := Run(handed.value, c + [ScanInbound(fd)] + d);
         end.Some? && end.value.inPc.InIdle?
    ensures var s := Run(Initial(n), before).value;
      var handed := Run(Do(s, cause).value, b).value;
      var end := Run(handed, c + [ScanInbound(fd)] + d).value;
      && At(HandedBack, handed, fd, s.conns[fd].gen)
      && fd < |end.conns| && (!end.conns[fd].open || end.conns[fd].gen > s.conns[fd].gen)
  {
    RunSafe(Initial(n), before);
    hide Run;
    hide Do;
    hide Inv;
    var s := Run(Initial(n), before).value;
    var gen := s.conns[fd].gen;
    GivingUpHandsBack(s, cause, fd);
    StepKeepsInv(s, cause);
    RunKeepsStage(HandingBack, Do(s, cause).value, b, fd, gen);
    HandedBackCloses(Run(Do(s, cause).value, b).value, c, d, fd, gen);
  }

  /** The same from where the outbound thread has come to rest. */
  lemma HandedBackCloses(t: State, c: seq<Action>, d: seq<Action>, fd: nat, gen: Gen)
    requires Inv(t) && t.outPc.OutIdle? && At(HandingBack, t, fd, gen)
    requires var end := Run(t, c + [ScanInbound(fd)] + d); end.Some? && end.value.inPc.InIdle?
    ensures At(HandedBack, t, fd, gen)
    ensures var end := Run(t, c + [ScanInbound(fd)] + d).value;
      fd < |end.conns| && (!end.conns[fd].open || end.conns[fd].gen > gen)
  {
    hide Run;
    OutboundMovedOn(t, fd, gen);
    ScanThenRun(t, c, ScanInbound(fd), d, fd, gen, HandedBack);
    InboundMovedOn(Run(t, c + [ScanInbound(fd)] + d).value, fd, gen);
  }

  /** The same after a read error or hang-up on the inbound side, where the outbound thread's scan comes first. */
  lemma CondemningCloses(n: nat, before: seq<Action>, fd: nat,
                         a: seq<Action>, b: seq<Action>, c: seq<Action>, d: seq<Action>)
    requires Run(Initial(n), before).Some? && Do(Run(Initial(n), before).value, Condemn(fd)).Some?
    requires var handed := Run(Do(Run(Initial(n), before).value, Condemn(fd)).value, a + [ScanOutbound(fd)] + b);
      && handed.Some? && handed.value.outPc.OutIdle?
      && var end := Run(handed.value, c + [ScanInbound(fd)] + d);
         end.Some? && end.value.inPc.InIdle?
    ensures var s := Run(Initial(n), before).value;
      var handed := Run(Do(s, Condemn(fd)).value, a + [ScanOutbound(fd)] + b).value;
      var end := Run(handed, c + [ScanInbound(fd)] + d).value;
      && fd < |s.conns| && At(HandedBack, handed, fd, s.conns[fd].gen)
      && fd < |end.conns| && (!end.conns[fd].open || end.conns[fd].gen > s.conns[fd].gen)
  {
    RunSafe(Initial(n), before);
    CondemningCondemns(Run(Initial(n), before).value, fd);
    hide Run;
    hide Do;
    hide Inv;
    var s := Run(Initial(n), before).value;
    var gen := s.conns[fd].gen;
    StepKeepsInv(s, Condemn(fd));
    var s' := Do(s, Condemn(fd)).value;
    ScanThenRun(s', a, ScanOutbound(fd), b, fd, gen, Condemned);
    HandedBackCloses(Run(s', a + [ScanOutbound(fd)] + b).value, c, d, fd, gen);
  }

  // ----- neither thread waits for the other -----

  /**
   In every reachable state a thread between two accesses can make its next one, and a
   thread between two pieces of work can start one, whatever the other is doing.
   */
  lemma NeverBlocks(s: State, fd: nat)
    requires Inv(s) && fd < |s.conns|
    ensures !s.inPc.InIdle? ==> Do(s, InStep).Some? && (s.inPc.InAccepted? ==> Do(s, SetupError).Some?)
    ensures s.inPc.InIdle? ==> Do(s, ScanInbound(fd)).Some?
    ensures s.inPc.InIdle? ==> (Do(s, Accept(fd)).Some? <==> !s.conns[fd].open)
    ensures s.inPc.InIdle? ==> (Do(s, Condemn(fd)).Some? <==> s.conns[fd].open)
    ensures !s.outPc.OutIdle? ==> Do(s, OutStep).Some?
    ensures s.outPc.OutIdle? ==> Do(s, ScanOutbound(fd)).Some? && Do(s, BeginUse(fd)).Some?
    ensures s.outPc.OutIdle? ==> (Do(s, HangUp(fd)).Some? <==> s.conns[fd].armed)
    ensures s.outPc.OutSend? ==>
      && Do(s, SendDone).Some? && Do(s, SendFailed).Some?
      && Do(s, SendBlocked(true)).Some? && Do(s, SendBlocked(false)).Some?
  {
    assert FdInv(s.conns[fd], InHere(s, fd), OutHere(s, fd));
  }

  /**
   The outbound thread gets to send on a connection exactly when it finds the flag clear
   and the slot live; blocked and armed it can hang up, and once all is sent it cannot.
   */
  lemma SendsWhenLive(s: State, fd: nat)
    requires Inv(s) && s.outPc.OutIdle? && fd < |s.conns|
    ensures var used := Run(s, if s.conns[fd].condemnedIn then [BeginUse(fd)] else [BeginUse(fd), OutStep]);
      && used.Some?
      && used.value == s.(outPc :=
           if !s.conns[fd].condemnedIn && s.conns[fd].outSlot.Some? then OutSend(fd, s.conns[fd].gen) else OutIdle)
      && (used.value.outPc.OutSend? ==>
            && Do(Do(used.value, SendBlocked(true)).value, HangUp(fd)).Some?
            && Do(Do(used.value, SendDone).value, HangUp(fd)).None?
            && (Do(Do(used.value, SendBlocked(false)).value, HangUp(fd)).Some? <==> s.conns[fd].armed))
  {
    assert FdInv(s.conns[fd], InHere(s, fd), OutIdle);
    hide Run;
    var t := Do(s, BeginUse(fd)).value;
    if s.conns[fd].condemnedIn {
      RunOne(s, BeginUse(fd));
    } else {
      RunCons(s, [BeginUse(fd), OutStep], [OutStep]);
      RunOne(t, OutStep);
    }
  }

  /**
   The scan loads the flag and looks at the slot in two steps. If the slot it then finds
   is of the generation it loaded the flag in, that connection is condemned; a live slot
   whose flag is clear belongs to a connection accepted in between.
   */
  lemma StaleScanIsOld(s: State)
    requires Inv(s) && s.outPc.OutCheck? && s.conns[s.outPc.fd].outSlot.Some?
    ensures var c := s.conns[s.outPc.fd];
      && s.outPc.seen <= c.outSlot.value
      && (c.outSlot.value == s.outPc.seen ==> c.condemnedIn)
      && (!c.condemnedIn ==> c.outSlot.value > s.outPc.seen)
  {
    var fd := s.outPc.fd;
    assert FdInv(s.conns[fd], InHere(s, fd), s.outPc);
  }

  /**
   That does happen. Registration clears both flags to keep the outbound thread from
   acting on an old one, but a scan that loaded the old flag earlier can still drop the
   fresh connection.
   */
  lemma FreshConnectionDropped() returns (actions: seq<Action>)
    ensures var end := Run(Initial(1), actions);
      end.Some? && end.value.outPc == OutDrop(0) && |end.value.conns| == 1 && end.value.conns[0] == Live(2)
  {
    hide Run;
    hide Connect;
    hide DropOutbound;
    hide CloseInbound;
    var s0 := Initial(1);
    assert s0.conns == [CLOSED];
    ConnectRuns(s0, 0);
    var s1 := With(s0, 0, Live(1));
    var s2 := Do(s1, Condemn(0)).value;
    RunOne(s1, Condemn(0));
    DropOutboundRuns(s2, 0);
    var s3 := Run(s2, DropOutbound(0)).value;
    var s4 := Do(s3, ScanOutbound(0)).value;
    RunOne(s3, ScanOutbound(0));
    assert s4.outPc == OutCheck(0, 1);
    CloseInboundRuns(s4, 0);
    var s5 := Run(s4, CloseInbound(0)).value;
    ConnectRuns(s5, 0);
    var s6 := With(s5, 0, Live(2));
    RunOne(s6, OutStep);
    RunSplit(s5, Connect(0), [OutStep]);
    RunSplit(s4, CloseInbound(0), Connect(0) + [OutStep]);
    var tail := CloseInbound(0) + (Connect(0) + [OutStep]);
    RunSplit(s3, [ScanOutbound(0)], tail);
    RunSplit(s2, DropOutbound(0), [ScanOutbound(0)] + tail);
    RunSplit(s1, [Condemn(0)], DropOutbound(0) + ([ScanOutbound(0)] + tail));
    actions := Connect(0) + ([Condemn(0)] + (DropOutbound(0) + ([ScanOutbound(0)] + tail)));
    RunSplit(s0, Connect(0), [Condemn(0)] + (DropOutbound(0) + ([ScanOutbound(0)] + tail)));
  }
}
