/** What the HTTP client does, told by the history of calls and callbacks alone: in which
    phase it is, which callbacks can come, which connections it closes, and what it sends
    and prints. */
module HttpHistory {
  import opened Machine
  import opened CLib
  import opened Pbuf
  import opened HttpRequest
  import opened HttpClient
  import opened HttpRuns

  // ----- phases

  datatype Phase = Idle | Resolving | Connecting(p: Pcb) | Receiving(p: Pcb)

  /** A connection attempt that lwIP starts stays open; any other leaves the client idle. */
  function Opened(a: Attempt): Phase {
    match a
    case Started(p) => Connecting(p)
    case Refused(_) => Idle
    case NoPcb => Idle
  }

  function Follow(ph: Phase, e: Event): Phase {
    match e
    case Get(_, _, lookup) =>
      if !ph.Idle? then ph
      else (match lookup
            case Cached(a) => Opened(a)
            case InProgress => Resolving
            case LookupError => Idle)
    case Resolved(a) => Opened(a)
    case NotFound => Idle
    case Connected(p, ok, writeOk) => if ok && writeOk then Receiving(p) else Idle
    case Data(_, _, _, _) => ph
    case RemoteClosed(_) => Idle
    case Failed(_) => Idle
  }

  function PhaseOf(events: seq<Event>): Phase {
    if events == [] then Idle else Follow(PhaseOf(events[..|events| - 1]), events[|events| - 1])
  }

  /** The globals of the client, its pcbs, and the callbacks it has registered. */
  ghost predicate IsIn(s: State, ph: Phase) {
    var k := s.stack;
    match ph
    case Idle => !s.busy && s.pcb == None && k.live == {} && k.lookups == 0
    case Resolving => s.busy && s.pcb == None && k.live == {} && k.lookups == 1
    case Connecting(p) =>
      && s.busy && s.pcb == Some(p) && k.live == {p} && k.lookups == 0
      && p in k.onConnected && p !in k.onRecv && p in k.onErr
    case Receiving(p) =>
      && s.busy && s.pcb == Some(p) && k.live == {p} && k.lookups == 0
      && p !in k.onConnected && p in k.onRecv && p in k.onErr
  }

  lemma OpenedPhase(s: State, a: Attempt)
    requires s.busy && s.pcb.None? && s.stack.lookups == 0 && s.stack.live == {} && InvReleased(s.stack)
    requires Fresh(s.stack, a)
    ensures IsIn(Open(s, a), Opened(a))
  {
  }

  lemma FollowStep(s: State, ph: Phase, e: Event)
    requires Inv(s) && IsIn(s, ph) && Enabled(s, e)
    ensures IsIn(Next(s, e), Follow(ph, e))
  {
    match e
    case Get(host, path, lookup) =>
      if !s.busy && lookup.Cached? {
        OpenedPhase(s.(busy := true, request := RequestText(host, path)), lookup.attempt);
      }
    case Resolved(a) => OpenedPhase(s.(stack := s.stack.(lookups := s.stack.lookups - 1)), a);
    case _ =>
  }

  /** In every run the client is where the history says. */
  lemma {:induction false} PhaseIsTold(events: seq<Event>)
    requires Run(events).Some?
    ensures IsIn(Run(events).value, PhaseOf(events))
    decreases |events|
  {
    if events != [] {
      var n := |events| - 1;
      PhaseIsTold(events[..n]);
      StartHasInv();
      RunKeepsInv(START, events[..n]);
      FollowStep(Run(events[..n]).value, PhaseOf(events[..n]), events[n]);
    }
  }

  /** Exactly these callbacks can come next: the name lookup while resolving, the connected
      callback while connecting, data and its end while receiving, and an error on a pcb
      the client has. */
  lemma CallbackIff(events: seq<Event>, e: Event)
    requires Run(events).Some? && !e.Get?
    ensures var s, ph := Run(events).value, PhaseOf(events);
            Enabled(s, e) <==>
              match e
              case Get(_, _, _) => true
              case Resolved(a) => ph.Resolving? && (a.NoPcb? || a.p !in s.stack.issued)
              case NotFound => ph.Resolving?
              case Connected(p, _, _) => ph == Connecting(p)
              case Data(p, id, chain, _) => ph == Receiving(p) && chain.Seg? && WellFormed(chain) && id !in s.freed
              case RemoteClosed(p) => ph == Receiving(p)
              case Failed(p) => ph == Connecting(p) || ph == Receiving(p)
  {
    PhaseIsTold(events);
  }

  /** A connection attempt that was started, with a cached address or one just resolved,
      stays open until lwIP answers. */
  lemma StaysOpen(events: seq<Event>, e: Event, p: Pcb)
    requires Run(events).Some? && Run(events + [e]).Some?
    requires || e == Resolved(Started(p))
             || (e.Get? && !Run(events).value.busy && e.lookup == Cached(Started(p)))
    ensures var s := Run(events + [e]).value;
            && s.busy && s.pcb == Some(p) && p in s.stack.live && s.stack.closed[p] == 0
            && Enabled(s, Failed(p)) && forall ok, writeOk :: Enabled(s, Connected(p, ok, writeOk))
  {
    var all := events + [e];
    assert all[..|all| - 1] == events;
    PhaseIsTold(events);
    PhaseIsTold(all);
    PcbOwnership(all);
  }

  /** Once the request is written the client stays connected, busy, and ready for the
      response. */
  lemma StaysConnected(events: seq<Event>, p: Pcb)
    requires Run(events + [Connected(p, true, true)]).Some?
    ensures var s := Run(events + [Connected(p, true, true)]).value;
            && s.busy && s.pcb == Some(p) && p in s.stack.live && s.stack.closed[p] == 0
            && Enabled(s, RemoteClosed(p))
            && forall id, chain: Chain, ok :: chain.Seg? && WellFormed(chain) && id !in s.freed ==>
                 Enabled(s, Data(p, id, chain, ok))
  {
    var all := events + [Connected(p, true, true)];
    assert all[..|all| - 1] == events;
    PhaseIsTold(all);
    PcbOwnership(all);
  }

  // ----- pcbs

  /** The attempt an event makes, if it makes one. */
  function AttemptOf(ph: Phase, e: Event): Attempt {
    match e
    case Get(_, _, lookup) => if ph.Idle? && lookup.Cached? then lookup.attempt else NoPcb
    case Resolved(a) => a
    case _ => NoPcb
  }

  function Issues(events: seq<Event>): set<Pcb> {
    if events == [] then {}
    else
      var n := |events| - 1;
      var a := AttemptOf(PhaseOf(events[..n]), events[n]);
      Issues(events[..n]) + if a.NoPcb? then {} else {a.p}
  }

  /** The client closes a pcb when the attempt is refused, when connecting or writing the
      request fails, and when the server has closed; at no other time. */
  function ClosedBy(ph: Phase, e: Event): multiset<Pcb> {
    match e
    case Connected(p, ok, writeOk) => if ok && writeOk then multiset{} else multiset{p}
    case RemoteClosed(p) => multiset{p}
    case _ =>
      var a := AttemptOf(ph, e);
      if a.Refused? then multiset{a.p} else multiset{}
  }

  function Closes(events: seq<Event>): multiset<Pcb> {
    if events == [] then multiset{}
    else
      var n := |events| - 1;
      Closes(events[..n]) + ClosedBy(PhaseOf(events[..n]), events[n])
  }

  function Drops(events: seq<Event>): multiset<Pcb> {
    if events == [] then multiset{}
    else
      var last := events[|events| - 1];
      Drops(events[..|events| - 1]) + if last.Failed? then multiset{last.p} else multiset{}
  }

  lemma OpenPcbs(s: State, a: Attempt)
    requires Fresh(s.stack, a)
    ensures var k := Open(s, a).stack;
            && k.issued == s.stack.issued + (if a.NoPcb? then {} else {a.p})
            && k.closed == s.stack.closed + (if a.Refused? then multiset{a.p} else multiset{})
            && k.dropped == s.stack.dropped
  {
  }

  lemma GetPcbs(s: State, ph: Phase, host: string, path: string, lookup: Lookup)
    requires IsIn(s, ph) && Enabled(s, Get(host, path, lookup))
    ensures PcbsFollow(s, ph, Get(host, path, lookup))
  {
    if !s.busy && lookup.Cached? {
      OpenPcbs(s.(busy := true, request := RequestText(host, path)), lookup.attempt);
    }
  }

  lemma ResolvedPcbs(s: State, ph: Phase, a: Attempt)
    requires Enabled(s, Resolved(a))
    ensures PcbsFollow(s, ph, Resolved(a))
  {
    OpenPcbs(s.(stack := s.stack.(lookups := s.stack.lookups - 1)), a);
  }

  ghost predicate PcbsFollow(s: State, ph: Phase, e: Event)
    requires Enabled(s, e)
  {
    var k, a := Next(s, e).stack, AttemptOf(ph, e);
    && k.issued == s.stack.issued + (if a.NoPcb? then {} else {a.p})
    && k.closed == s.stack.closed + ClosedBy(ph, e)
    && k.dropped == s.stack.dropped + (if e.Failed? then multiset{e.p} else multiset{})
  }

  lemma ConnectedPcbs(s: State, ph: Phase, p: Pcb, ok: bool, writeOk: bool)
    requires Enabled(s, Connected(p, ok, writeOk))
    ensures PcbsFollow(s, ph, Connected(p, ok, writeOk))
  {
    NothingAdded(s.stack);
  }

  lemma CallbackPcbs(s: State, ph: Phase, e: Event)
    requires Enabled(s, e) && !e.Get? && !e.Resolved? && !e.Connected?
    ensures PcbsFollow(s, ph, e)
  {
    NothingAdded(s.stack);
  }

  lemma NothingAdded(k: Stack)
    ensures k.issued + {} == k.issued && k.closed + multiset{} == k.closed && k.dropped + multiset{} == k.dropped
  {
  }

  lemma PcbStep(s: State, ph: Phase, e: Event)
    requires IsIn(s, ph) && Enabled(s, e)
    ensures PcbsFollow(s, ph, e)
  {
    match e
    case Get(host, path, lookup) => GetPcbs(s, ph, host, path, lookup);
    case Resolved(a) => ResolvedPcbs(s, ph, a);
    case Connected(p, ok, writeOk) => ConnectedPcbs(s, ph, p, ok, writeOk);
    case _ => CallbackPcbs(s, ph, e);
  }

  /** In every run the pcbs asked for, closed and lost are those of the history. */
  lemma {:induction false} PcbsAreTold(events: seq<Event>)
    requires Run(events).Some?
    ensures var k := Run(events).value.stack;
            k.issued == Issues(events) && k.closed == Closes(events) && k.dropped == Drops(events)
    decreases |events|
  {
    if events != [] {
      var n := |events| - 1;
      PcbsAreTold(events[..n]);
      PhaseIsTold(events[..n]);
      PcbStep(Run(events[..n]).value, PhaseOf(events[..n]), events[n]);
    }
  }

  // ----- callbacks of closed pcbs

  /** No callback is left on a pcb the client has closed. */
  ghost predicate Unregistered(k: Stack) {
    forall p :: p in k.closed ==> p !in k.onRecv && p !in k.onErr
  }

  lemma ClosedIsIssued(k: Stack, p: Pcb)
    requires InvReleased(k) && p in k.closed
    ensures p in k.issued && p !in k.live
  {
    assert p in k.closed + k.dropped;
  }

  lemma OpenUnregisters(s: State, a: Attempt)
    requires InvReleased(s.stack) && Unregistered(s.stack) && Fresh(s.stack, a)
    ensures Unregistered(Open(s, a).stack)
  {
    forall p | p in s.stack.closed ensures p in s.stack.issued {
      ClosedIsIssued(s.stack, p);
    }
  }

  lemma UnregisteredStep(s: State, e: Event)
    requires Inv(s) && Unregistered(s.stack) && Enabled(s, e)
    ensures Unregistered(Next(s, e).stack)
  {
    match e
    case Get(host, path, lookup) =>
      if !s.busy && lookup.Cached? {
        OpenUnregisters(s.(busy := true, request := RequestText(host, path)), lookup.attempt);
      }
    case Resolved(a) => OpenUnregisters(s.(stack := s.stack.(lookups := s.stack.lookups - 1)), a);
    case Connected(p, _, _) =>
      if p in s.stack.closed {
        ClosedIsIssued(s.stack, p);
      }
    case _ =>
  }

  /** In every run no callback is left on a pcb the client has closed. */
  lemma {:induction false} ClosedIsUnregistered(events: seq<Event>)
    requires Run(events).Some?
    ensures Unregistered(Run(events).value.stack)
    decreases |events|
  {
    if events != [] {
      var n := |events| - 1;
      ClosedIsUnregistered(events[..n]);
      StartHasInv();
      RunKeepsInv(START, events[..n]);
      UnregisteredStep(Run(events[..n]).value, events[n]);
    }
  }

  // ----- requests

  /** The last call that found the client idle. */
  function Asked(events: seq<Event>): Target {
    if events == [] then Target("", "")
    else
      var n := |events| - 1;
      var e := events[n];
      if e.Get? && PhaseOf(events[..n]).Idle? then Target(e.host, e.path) else Asked(events[..n])
  }

  /** For each connection made, the request of the call that led to it. */
  function Sends(events: seq<Event>): seq<string> {
    if events == [] then []
    else
      var n := |events| - 1;
      var e := events[n];
      Sends(events[..n])
      + if e.Connected? && e.ok && e.writeOk then [RequestText(Asked(events[..n]).host, Asked(events[..n]).path)] else []
  }

  lemma WrittenStep(s: State, e: Event)
    requires Enabled(s, e)
    ensures Next(s, e).written
         == s.written + if e.Connected? && e.ok && e.writeOk then [s.request] else []
  {
    match e
    case Get(host, path, lookup) =>
      if !s.busy && lookup.Cached? {
        OpenKeepsOutput(s.(busy := true, request := RequestText(host, path)), lookup.attempt);
      }
    case Resolved(a) => OpenKeepsOutput(s.(stack := s.stack.(lookups := s.stack.lookups - 1)), a);
    case _ =>
  }

  lemma {:induction false} BufferHoldsAsked(events: seq<Event>)
    requires Run(events).Some?
    ensures var s, t := Run(events).value, Asked(events);
            s.busy ==> s.request == RequestText(t.host, t.path)
    decreases |events|
  {
    if events != [] {
      var n := |events| - 1;
      BufferHoldsAsked(events[..n]);
      PhaseIsTold(events[..n]);
      PhaseIsTold(events);
      RequestStep(Run(events[..n]).value, events[n]);
    }
  }

  /** What is written over a run is one request for each connection made: that of the call
      that led to it, not of a later call made while the client was busy. */
  lemma {:induction false} RequestsAreSent(events: seq<Event>)
    requires Run(events).Some?
    ensures Run(events).value.written == Sends(events)
    decreases |events|
  {
    if events != [] {
      var n := |events| - 1;
      RequestsAreSent(events[..n]);
      BufferHoldsAsked(events[..n]);
      PhaseIsTold(events[..n]);
      WrittenStep(Run(events[..n]).value, events[n]);
    }
  }

  // ----- responses

  function AllBytes(chains: seq<Chain>): seq<byte> {
    if chains == [] then [] else AllBytes(chains[..|chains| - 1]) + Bytes(chains[|chains| - 1])
  }

  lemma More(events: seq<Event>, e: Event) returns (longer: seq<Event>)
    requires Run(events).Some? && Enabled(Run(events).value, e)
    ensures Run(longer) == Some(Next(Run(events).value, e))
    ensures PhaseOf(longer) == Follow(PhaseOf(events), e)
  {
    longer := events + [e];
    assert longer[..|events|] == events;
  }

  ghost predicate Got(s: State, host: string, path: string, chains: seq<Chain>) {
    && s.written == [RequestText(host, path)] && s.printed == AllBytes(chains)
    && forall id :: id in s.freed ==> id < |chains|
  }

  lemma Connect(host: string, path: string) returns (events: seq<Event>)
    requires NUL !in host && NUL !in path && |path| + |host| <= 211
    ensures Run(events).Some? && PhaseOf(events) == Receiving(0) && Got(Run(events).value, host, path, [])
  {
    events := More([], Get(host, path, Cached(Started(0))));
    events := More(events, Connected(0, true, true));
  }

  lemma {:induction false} Receive(host: string, path: string, chains: seq<Chain>) returns (events: seq<Event>)
    requires NUL !in host && NUL !in path && |path| + |host| <= 211
    requires forall i :: 0 <= i < |chains| ==> chains[i].Seg? && WellFormed(chains[i])
    ensures Run(events).Some? && PhaseOf(events) == Receiving(0) && Got(Run(events).value, host, path, chains)
    decreases |chains|
  {
    if chains == [] {
      events := Connect(host, path);
    } else {
      var n := |chains| - 1;
      var before := Receive(host, path, chains[..n]);
      PhaseIsTold(before);
      events := More(before, Data(0, n, chains[n], true));
    }
  }

  /** For every request and every response, in whatever buffers it comes, there is a run
      that sends the one, prints exactly the other, and leaves the client idle with no
      connection. */
  lemma AnyResponse(host: string, path: string, chains: seq<Chain>) returns (events: seq<Event>)
    requires NUL !in host && NUL !in path && |path| + |host| <= 211
    requires forall i :: 0 <= i < |chains| ==> chains[i].Seg? && WellFormed(chains[i])
    ensures Run(events).Some?
    ensures var s := Run(events).value;
            && s.written == [RequestText(host, path)] && s.printed == AllBytes(chains)
            && !s.busy && s.stack.live == {}
  {
    var before := Receive(host, path, chains);
    PhaseIsTold(before);
    events := More(before, RemoteClosed(0));
    PhaseIsTold(events);
  }
}
