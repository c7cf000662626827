/** What holds in every run of the HTTP client: every order of user calls and lwIP
    callbacks that lwIP's promises allow. */
module HttpRuns {
  import opened Machine
  import opened Pbuf
  import opened HttpRequest
  import opened HttpClient

  function Run(events: seq<Event>): Option<State> {
    RunFrom(START, events)
  }

  lemma {:induction false} RunKeepsInv(s: State, events: seq<Event>)
    requires Inv(s) && RunFrom(s, events).Some?
    ensures Inv(RunFrom(s, events).value)
    decreases |events|
  {
    if events != [] {
      var n := |events| - 1;
      RunKeepsInv(s, events[..n]);
      NextKeepsInv(RunFrom(s, events[..n]).value, events[n]);
    }
  }

  lemma StartHasInv()
    ensures Inv(START)
  {
    assert multiset(START.stack.issued - START.stack.live) == multiset{};
  }

  /** In every run the live pcbs are the client's own or none, an idle client has
      none, and every pcb issued has been released once if it is not live: closed by
      the client or freed by lwIP, never both, never twice. */
  lemma PcbOwnership(events: seq<Event>)
    requires Run(events).Some?
    ensures var s := Run(events).value;
            && s.stack.live == (if s.pcb.Some? then {s.pcb.value} else {})
            && (!s.busy ==> s.pcb.None?)
            && (forall p :: p in s.stack.issued ==>
                  s.stack.closed[p] + s.stack.dropped[p] == if p in s.stack.live then 0 else 1)
            && (forall p :: p !in s.stack.issued ==> s.stack.closed[p] + s.stack.dropped[p] == 0)
  {
    StartHasInv();
    RunKeepsInv(START, events);
    var k := Run(events).value.stack;
    forall p: Pcb ensures k.closed[p] + k.dropped[p] == if p in k.issued && p !in k.live then 1 else 0 {
      assert (k.closed + k.dropped)[p] == multiset(k.issued - k.live)[p];
    }
  }

  // ----- the wait of the curl command

  /** Resolving, connecting, receiving, idle. */
  function Rank(s: State): nat {
    if s.stack.lookups > 0 then 3
    else if s.pcb.None? then 0
    else if s.pcb.value in s.stack.onConnected then 2
    else 1
  }

  predicate Ends(e: Event) {
    !e.Get? && !e.Data?
  }

  function CountEnds(events: seq<Event>): nat {
    if events == [] then 0
    else CountEnds(events[..|events| - 1]) + if Ends(events[|events| - 1]) then 1 else 0
  }

  lemma RankStep(s: State, e: Event)
    requires Inv(s) && Enabled(s, e) && !e.Get?
    ensures Ends(e) ==> Rank(Next(s, e)) < Rank(s)
    ensures !Ends(e) ==> Rank(Next(s, e)) == Rank(s)
  {
  }

  lemma RankIsBusy(s: State)
    requires Inv(s)
    ensures Rank(s) == 0 <==> !s.busy
    ensures Rank(s) <= 3
  {
  }

  /** While it waits, the client takes at most as many callbacks other than data as its
      rank, so at most three, and it is idle after the last of them. */
  lemma {:induction false} WaitEnds(s: State, events: seq<Event>)
    requires Inv(s) && RunFrom(s, events).Some?
    requires forall i :: 0 <= i < |events| ==> !events[i].Get?
    ensures CountEnds(events) + Rank(RunFrom(s, events).value) <= Rank(s) <= 3
    ensures CountEnds(events) == Rank(s) ==> !RunFrom(s, events).value.busy
    decreases |events|
  {
    RankIsBusy(s);
    RunKeepsInv(s, events);
    RankIsBusy(RunFrom(s, events).value);
    if events != [] {
      var n := |events| - 1;
      WaitEnds(s, events[..n]);
      RunKeepsInv(s, events[..n]);
      RankStep(RunFrom(s, events[..n]).value, events[n]);
    }
  }

  /** A busy client is never stuck: some callback that lowers its rank can come. An
      idle client gets no callback at all. */
  lemma BusyIffCallbackPending(s: State)
    requires Inv(s)
    ensures s.busy <==> exists e: Event :: Ends(e) && Enabled(s, e)
    ensures !s.busy ==> forall e: Event :: Enabled(s, e) ==> e.Get?
  {
    if s.busy {
      var e := if s.pcb.None? then NotFound else Failed(s.pcb.value);
      assert Ends(e) && Enabled(s, e);
    }
  }

  // ----- the data

  /** The bytes of the buffers delivered without error, in order. */
  function Delivered(events: seq<Event>): seq<byte> {
    if events == [] then []
    else
      var last := events[|events| - 1];
      Delivered(events[..|events| - 1]) + if last.Data? && last.ok then Bytes(last.chain) else []
  }

  function DeliveredBuffers(events: seq<Event>): multiset<BufferId> {
    if events == [] then multiset{}
    else
      var last := events[|events| - 1];
      DeliveredBuffers(events[..|events| - 1]) + if last.Data? then multiset{last.id} else multiset{}
  }

  lemma OpenKeepsOutput(s: State, a: Attempt)
    requires Fresh(s.stack, a)
    ensures Open(s, a).printed == s.printed && Open(s, a).acked == s.acked && Open(s, a).freed == s.freed
    ensures Open(s, a).request == s.request && Open(s, a).written == s.written
  {
  }

  lemma OutputStep(s: State, e: Event)
    requires Enabled(s, e)
    ensures var t := Next(s, e);
            if e.Data? then
              && t.printed == s.printed + (if e.ok then Bytes(e.chain) else [])
              && t.acked - s.acked == |t.printed| - |s.printed|
              && t.freed == s.freed + multiset{e.id}
            else t.printed == s.printed && t.acked == s.acked && t.freed == s.freed
  {
    match e
    case Get(host, path, lookup) =>
      if !s.busy && lookup.Cached? {
        OpenKeepsOutput(s.(busy := true, request := RequestText(host, path)), lookup.attempt);
      }
    case Resolved(a) => OpenKeepsOutput(s.(stack := s.stack.(lookups := s.stack.lookups - 1)), a);
    case Data(_, _, chain, _) => TotLenIsLength(chain);
    case _ =>
  }

  /** Over every run the bytes printed are the bytes received, in order; the client has
      told TCP of exactly as many; and each buffer delivered has been freed once. */
  lemma {:induction false} StreamIsPrinted(events: seq<Event>)
    requires Run(events).Some?
    ensures var s := Run(events).value;
            && s.printed == Delivered(events)
            && s.acked == |s.printed|
            && s.freed == DeliveredBuffers(events)
            && forall id :: s.freed[id] <= 1
    decreases |events|
  {
    if events != [] {
      var n := |events| - 1;
      StreamIsPrinted(events[..n]);
      OutputStep(Run(events[..n]).value, events[n]);
    }
  }

  /** Only a call that finds the client idle changes the request. */
  lemma RequestStep(s: State, e: Event)
    requires Enabled(s, e)
    ensures Next(s, e).request == if e.Get? && !s.busy then RequestText(e.host, e.path) else s.request
  {
    match e
    case Get(host, path, lookup) =>
      if !s.busy && lookup.Cached? {
        OpenKeepsOutput(s.(busy := true, request := RequestText(host, path)), lookup.attempt);
      }
    case Resolved(a) => OpenKeepsOutput(s.(stack := s.stack.(lookups := s.stack.lookups - 1)), a);
    case _ =>
  }
}
