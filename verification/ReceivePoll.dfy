/** How received frames reach lwIP: `ethernet_handler` of src/interrupt.c sets a flag, and
    `lwip_poll` of src/main.c tests it, clears it and takes one frame.

    Frames arrive at any moment. The controller then raises its receive status, which
    stays up until it is acknowledged; the handler may start whenever it is up, and the
    program does not run inside the handler. Frames have lengths the driver accepts, and
    the controller's memory does not overflow. */
module ReceivePoll {
  import opened Machine
  import opened Ethernet

  datatype Handler = Outside | StatusRead | FlagSet
  datatype Poll = AtTest | FlagSeen | FlagCleared

  datatype State = State(
    fifo: seq<Frame>,     // frames in the controller
    pending: bool,        // its receive status
    flag: bool,           // eth_rx_flag
    handler: Handler, poll: Poll,
    arrived: seq<Frame>, handed: seq<Frame>)

  datatype Event =
    | Arrive(frame: Frame)
    | ReadStatus | SetFlag | Acknowledge    // the handler's steps
    | Test | Clear | Input                  // the steps of lwip_poll

  predicate Enabled(s: State, e: Event) {
    match e
    case Arrive(_) => true
    case ReadStatus => s.handler.Outside? && s.pending
    case SetFlag => s.handler.StatusRead?
    case Acknowledge => s.handler.FlagSet?
    case Test => s.handler.Outside? && s.poll.AtTest?
    case Clear => s.handler.Outside? && s.poll.FlagSeen?
    case Input => s.handler.Outside? && s.poll.FlagCleared?
  }

  function Next(s: State, e: Event): State
    requires Enabled(s, e)
  {
    match e
    case Arrive(f) => s.(fifo := s.fifo + [f], pending := true, arrived := s.arrived + [f])
    case ReadStatus => s.(handler := StatusRead)
    case SetFlag => s.(flag := true, handler := FlagSet)
    case Acknowledge => s.(pending := false, handler := Outside)
    case Test => if s.flag then s.(poll := FlagSeen) else s
    case Clear => s.(flag := false, poll := FlagCleared)
    case Input =>
      if s.fifo == [] then s.(poll := AtTest)
      else s.(poll := AtTest, fifo := s.fifo[1..], handed := s.handed + [s.fifo[0]])
  }

  const START: State := State([], false, false, Outside, AtTest, [], [])

  function Run(events: seq<Event>): Option<State> {
    if events == [] then Some(START)
    else
      var before, last := Run(events[..|events| - 1]), events[|events| - 1];
      if before.Some? && Enabled(before.value, last) then Some(Next(before.value, last)) else None
  }

  // ----- wake-ups

  /** Wake-ups on their way: a status not yet turned into the flag, the flag, and a poll
      that has cleared it and not yet taken its frame. */
  function InFlight(s: State): nat {
    (if s.pending && !s.handler.FlagSet? then 1 else 0)
    + (if s.flag then 1 else 0)
    + (if s.poll.FlagCleared? then 1 else 0)
  }

  /** A wake-up is lost: a frame arrives while the status is up, or the handler finds the
      flag set. */
  predicate Coalesces(s: State, e: Event) {
    (e.Arrive? && s.pending) || (e.SetFlag? && s.flag)
  }

  function Coalesced(events: seq<Event>): nat
    requires Run(events).Some?
  {
    if events == [] then 0
    else
      var n := |events| - 1;
      Coalesced(events[..n]) + if Coalesces(Run(events[..n]).value, events[n]) then 1 else 0
  }

  ghost predicate Inv(s: State, coalesced: nat) {
    && (!s.handler.Outside? ==> s.pending)
    && (s.handler.FlagSet? || s.poll.FlagSeen? ==> s.flag)
    && s.handed + s.fifo == s.arrived
    && |s.fifo| == InFlight(s) + coalesced
  }

  lemma NextKeepsInv(s: State, e: Event, coalesced: nat)
    requires Inv(s, coalesced) && Enabled(s, e)
    ensures Inv(Next(s, e), coalesced + if Coalesces(s, e) then 1 else 0)
  {
    match e
    case Arrive(f) =>
      assert s.handed + (s.fifo + [f]) == (s.handed + s.fifo) + [f];
    case Input =>
      assert s.handed + s.fifo == (s.handed + [s.fifo[0]]) + s.fifo[1..];
    case _ =>
  }

  lemma {:induction false} RunKeepsInv(events: seq<Event>)
    requires Run(events).Some?
    ensures Inv(Run(events).value, Coalesced(events))
    decreases |events|
  {
    if events != [] {
      var n := |events| - 1;
      RunKeepsInv(events[..n]);
      NextKeepsInv(Run(events[..n]).value, events[n], Coalesced(events[..n]));
    }
  }

  /** In every interleaving frames are handed over in the order they arrived, and the
      frames left behind are exactly the wake-ups on their way and the wake-ups lost. */
  lemma Backlog(events: seq<Event>)
    requires Run(events).Some?
    ensures var s := Run(events).value;
            && s.handed <= s.arrived && s.fifo == s.arrived[|s.handed|..]
            && |s.arrived| - |s.handed| == InFlight(s) + Coalesced(events)
  {
    RunKeepsInv(events);
  }

  /** Every frame received has been handed to lwIP exactly when no wake-up is on its way
      and none was ever lost. */
  lemma AllHandedIff(events: seq<Event>)
    requires Run(events).Some?
    ensures var s := Run(events).value;
            s.handed == s.arrived <==> InFlight(s) == 0 && Coalesced(events) == 0
  {
    Backlog(events);
  }

  /** Once a wake-up is lost the program never catches up: in every continuation some
      frame is waiting. */
  lemma {:induction false} NeverCatchesUp(events: seq<Event>, more: seq<Event>)
    requires Run(events + more).Some? && Run(events).Some? && Coalesced(events) > 0
    ensures Run(events + more).value.fifo != []
    ensures Coalesced(events + more) >= Coalesced(events)
    decreases |more|
  {
    RunKeepsInv(events + more);
    if more == [] {
      assert events + more == events;
    } else {
      var all, n := events + more, |more| - 1;
      assert all[..|all| - 1] == events + more[..n];
      NeverCatchesUp(events, more[..n]);
    }
  }

  /** With no wake-up on its way, nothing but another arrival changes anything. */
  lemma OnlyArrivalsHelp(s: State, coalesced: nat, e: Event)
    requires Inv(s, coalesced) && InFlight(s) == 0 && Enabled(s, e)
    ensures e.Arrive? || Next(s, e) == s
  {
  }

  /** Two frames that arrive before the handler runs: one is handed over, and the other
      waits with no wake-up on its way. */
  lemma StrandedFrame(f: Frame, g: Frame) returns (events: seq<Event>)
    ensures Run(events).Some?
    ensures var s := Run(events).value; s.handed == [f] && s.fifo == [g] && InFlight(s) == 0
  {
    events := [];
    events := More(events, Arrive(f));
    events := More(events, Arrive(g));
    events := More(events, ReadStatus);
    events := More(events, SetFlag);
    events := More(events, Acknowledge);
    events := More(events, Test);
    events := More(events, Clear);
    events := More(events, Input);
  }

  lemma More(events: seq<Event>, e: Event) returns (longer: seq<Event>)
    requires Run(events).Some? && Enabled(Run(events).value, e)
    ensures Run(longer) == Some(Next(Run(events).value, e))
  {
    longer := events + [e];
    assert longer[..|events|] == events;
  }
}
