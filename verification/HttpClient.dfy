/** The HTTP client of src/http_client.c as a machine driven by user calls and lwIP
    callbacks.

    lwIP itself is the environment. What it promises, from the comments of
    include/lwip/tcp.h and include/lwip/dns.h, is `Enabled`: a name lookup calls back
    once, and only if it was left in progress; a TCP callback comes only on a live pcb
    that has it registered, the connected callback at most once; the pcb is already
    freed when the error callback runs; a pcb from tcp_new is not one handed out
    before. The results lwIP returns to the client are part of each event. */
module HttpClient {
  import opened Machine
  import opened CLib
  import opened Pbuf
  import opened HttpRequest

  type Pcb = nat
  type BufferId = nat

  // ----- lwIP as the client sees it

  datatype Stack = Stack(
    issued: set<Pcb>,        // every pcb tcp_new has returned
    live: set<Pcb>,             // those neither closed nor freed
    closed: multiset<Pcb>,      // one entry for each tcp_close
    dropped: multiset<Pcb>,     // one entry for each pcb lwIP freed itself
    lookups: nat,               // DNS callbacks still to come
    onConnected: set<Pcb>, onRecv: set<Pcb>, onErr: set<Pcb>)
  {
    function New(p: Pcb): Stack
      requires p !in issued
    {
      this.(issued := issued + {p}, live := live + {p})
    }

    function OnRecv(p: Pcb, on: bool): Stack
      requires p in live
    {
      this.(onRecv := if on then onRecv + {p} else onRecv - {p})
    }

    function OnErr(p: Pcb, on: bool): Stack
      requires p in live
    {
      this.(onErr := if on then onErr + {p} else onErr - {p})
    }

    function Connect(p: Pcb): Stack
      requires p in live
    {
      this.(onConnected := onConnected + {p})
    }

    function Close(p: Pcb): Stack
      requires p in live
    {
      this.(live := live - {p}, closed := closed + multiset{p})
    }

    /** lwIP drops the connection, before it runs the error callback. */
    function Drop(p: Pcb): Stack
      requires p in live
    {
      this.(live := live - {p}, dropped := dropped + multiset{p})
    }
  }

  /** The client's globals, then the stack, then what the client has given out: texts
      taken by tcp_write, bytes printed by the receive callback, the total passed to
      tcp_recved, and the buffers passed to pbuf_free. */
  datatype State = State(
    pcb: Option<Pcb>, busy: bool, request: string,
    stack: Stack,
    written: seq<string>, printed: seq<byte>, acked: nat, freed: multiset<BufferId>)

  /** How opening a connection goes: tcp_new fails, tcp_connect fails, or neither. */
  datatype Attempt = NoPcb | Refused(p: Pcb) | Started(p: Pcb)

  datatype Lookup = Cached(attempt: Attempt) | InProgress | LookupError

  datatype Event =
    | Get(host: string, path: string, lookup: Lookup)
    | Resolved(attempt: Attempt)
    | NotFound
    | Connected(p: Pcb, ok: bool, writeOk: bool)
    | Data(p: Pcb, id: BufferId, chain: Chain, ok: bool)
    | RemoteClosed(p: Pcb)
    | Failed(p: Pcb)

  predicate Fresh(k: Stack, a: Attempt) {
    a.NoPcb? || a.p !in k.issued
  }

  predicate Enabled(s: State, e: Event) {
    match e
    case Get(host, path, lookup) =>
      !s.busy ==>
        && NUL !in host && NUL !in path && |path| + |host| <= 211
        && (lookup.Cached? ==> Fresh(s.stack, lookup.attempt))
    case Resolved(a) => s.stack.lookups > 0 && Fresh(s.stack, a)
    case NotFound => s.stack.lookups > 0
    case Connected(p, _, _) => p in s.stack.live && p in s.stack.onConnected
    case Data(p, id, chain, _) =>
      && p in s.stack.live && p in s.stack.onRecv
      && chain.Seg? && WellFormed(chain) && id !in s.freed
    case RemoteClosed(p) => p in s.stack.live && p in s.stack.onRecv
    case Failed(p) => p in s.stack.live && p in s.stack.onErr
  }

  // ----- the effect of each event

  function CloseConn(s: State, p: Pcb): State
    requires p in s.stack.live
  {
    s.(stack := s.stack.OnRecv(p, false).OnErr(p, false).Close(p), pcb := None, busy := false)
  }

  function Open(s: State, a: Attempt): State
    requires Fresh(s.stack, a)
  {
    match a
    case NoPcb => s.(pcb := None, busy := false)
    case Refused(p) => CloseConn(s.(pcb := Some(p), stack := s.stack.New(p).OnErr(p, true)), p)
    case Started(p) => s.(pcb := Some(p), stack := s.stack.New(p).OnErr(p, true).Connect(p))
  }

  function Accept(s: State, p: Pcb, ok: bool, writeOk: bool): State
    requires p in s.stack.live
  {
    var s1 := s.(stack := s.stack.(onConnected := s.stack.onConnected - {p}));
    var s2 := s1.(stack := s1.stack.OnRecv(p, true).OnErr(p, true));
    if !ok then CloseConn(s1, p)
    else if writeOk then s2.(written := s.written + [s.request])
    else CloseConn(s2, p)
  }

  function Next(s: State, e: Event): State
    requires Enabled(s, e)
  {
    match e
    case Get(host, path, lookup) =>
      if s.busy then s
      else
        var s1 := s.(busy := true, request := RequestText(host, path));
        (match lookup
         case Cached(a) => Open(s1, a)
         case InProgress => s1.(stack := s1.stack.(lookups := s1.stack.lookups + 1))
         case LookupError => s1.(busy := false))
    case Resolved(a) => Open(s.(stack := s.stack.(lookups := s.stack.lookups - 1)), a)
    case NotFound => s.(stack := s.stack.(lookups := s.stack.lookups - 1), busy := false)
    case Connected(p, ok, writeOk) => Accept(s, p, ok, writeOk)
    case Data(p, id, chain, ok) =>
      if !ok then s.(freed := s.freed + multiset{id})
      else s.(printed := s.printed + Bytes(chain), acked := s.acked + chain.totLen,
              freed := s.freed + multiset{id})
    case RemoteClosed(p) => CloseConn(s, p)
    case Failed(p) => s.(stack := s.stack.Drop(p), pcb := None, busy := false)
  }

  const START: State :=
    State(None, false, "", Stack({}, {}, multiset{}, multiset{}, 0, {}, {}, {}), [], [], 0, multiset{})

  function RunFrom(s: State, events: seq<Event>): Option<State> {
    if events == [] then Some(s)
    else
      var before, last := RunFrom(s, events[..|events| - 1]), events[|events| - 1];
      if before.Some? && Enabled(before.value, last) then Some(Next(before.value, last)) else None
  }

  // ----- the invariant of every run

  ghost predicate Inv(s: State) {
    && s.stack.live == (if s.pcb.Some? then {s.pcb.value} else {})
    && (!s.busy ==> s.pcb.None? && s.stack.lookups == 0)
    && (s.busy ==> s.stack.lookups == if s.pcb.None? then 1 else 0)
    && (s.pcb.Some? ==>
          && s.pcb.value in s.stack.onErr
          && (s.pcb.value in s.stack.onConnected <==> s.pcb.value !in s.stack.onRecv))
    && InvReleased(s.stack)
  }

  /** Each pcb ever handed out is live, or has been released exactly once. */
  ghost predicate InvReleased(k: Stack) {
    && k.live <= k.issued
    && k.onConnected <= k.issued && k.onRecv <= k.issued && k.onErr <= k.issued
    && k.closed + k.dropped == multiset(k.issued - k.live)
  }

  class Client {
    var pcb: Option<Pcb>
    var busy: bool
    const requestBuf: array<char>
    var stack: Stack
    var written: seq<string>
    var printed: seq<byte>
    var acked: nat
    var freed: multiset<BufferId>

    function View(): State
      reads this, requestBuf
    {
      State(pcb, busy, CStr(requestBuf[..]), stack, written, printed, acked, freed)
    }

    ghost predicate Valid()
      reads this, requestBuf
    {
      requestBuf.Length == BUFFER_SIZE && NUL in requestBuf[..] && Inv(View())
    }

    constructor ()
      ensures Valid() && fresh(requestBuf) && View() == START
    {
      pcb, busy := None, false;
      requestBuf := new char[BUFFER_SIZE](_ => NUL);
      stack := START.stack;
      written, printed, acked, freed := [], [], 0, multiset{};
      new;
      assert requestBuf[..][0] == NUL;
      CStrIs(requestBuf[..], 0);
      assert multiset(START.stack.issued - START.stack.live) == multiset{};
    }

    /** `http_close_conn`. */
    method CloseConnection(tpcb: Pcb)
      requires tpcb in stack.live
      modifies this
      ensures View() == CloseConn(old(View()), tpcb)
    {
      stack := stack.OnRecv(tpcb, false);
      stack := stack.OnErr(tpcb, false);
      stack := stack.Close(tpcb);
      pcb := None;
      busy := false;
    }

    /** `http_dns_cb` with an address. */
    method OpenConnection(a: Attempt)
      requires Fresh(stack, a)
      modifies this
      ensures View() == Open(old(View()), a)
    {
      pcb := if a.NoPcb? then None else Some(a.p);
      if pcb.None? {
        busy := false;
        return;
      }
      stack := stack.New(a.p);
      stack := stack.OnErr(a.p, true);
      if a.Started? {
        stack := stack.Connect(a.p);
      } else {
        CloseConnection(a.p);
      }
    }

    /** `http_get`. */
    method HttpGet(host: string, path: string, lookup: Lookup)
      requires Valid() && Enabled(View(), Get(host, path, lookup))
      modifies this, requestBuf
      ensures Valid() && View() == Next(old(View()), Get(host, path, lookup))
    {
      NextKeepsInv(View(), Get(host, path, lookup));
      if busy {
        return;
      }
      busy := true;
      FitsIff(host, path);
      GetHasNoNul(host, path);
      Build(requestBuf, GET, host, path);
      match lookup {
        case Cached(a) => OpenConnection(a);
        case InProgress => stack := stack.(lookups := stack.lookups + 1);
        case LookupError => busy := false;
      }
    }

    /** `http_dns_cb`, called back with or without an address. */
    method DnsCallback(found: bool, a: Attempt)
      requires Valid() && Enabled(View(), if found then Resolved(a) else NotFound)
      modifies this
      ensures Valid() && View() == Next(old(View()), if found then Resolved(a) else NotFound)
    {
      NextKeepsInv(View(), if found then Resolved(a) else NotFound);
      stack := stack.(lookups := stack.lookups - 1);
      if found {
        OpenConnection(a);
      } else {
        busy := false;
      }
    }

    /** `http_connected_cb`. */
    method ConnectedCallback(tpcb: Pcb, ok: bool, writeOk: bool)
      requires Valid() && Enabled(View(), Connected(tpcb, ok, writeOk))
      modifies this
      ensures Valid() && View() == Next(old(View()), Connected(tpcb, ok, writeOk))
    {
      NextKeepsInv(View(), Connected(tpcb, ok, writeOk));
      stack := stack.(onConnected := stack.onConnected - {tpcb});
      if !ok {
        CloseConnection(tpcb);
        return;
      }
      stack := stack.OnRecv(tpcb, true);
      stack := stack.OnErr(tpcb, true);
      if writeOk {
        var n := Strlen(requestBuf);
        written := written + [requestBuf[..n]];
      } else {
        CloseConnection(tpcb);
      }
    }

    /** `http_recv_cb` with data. */
    method RecvCallback(tpcb: Pcb, id: BufferId, chain: Chain, ok: bool)
      requires Valid() && Enabled(View(), Data(tpcb, id, chain, ok))
      modifies this
      ensures Valid() && View() == Next(old(View()), Data(tpcb, id, chain, ok))
    {
      NextKeepsInv(View(), Data(tpcb, id, chain, ok));
      if !ok {
        freed := freed + multiset{id};
        return;
      }
      PrintChain(chain);
      acked := acked + chain.totLen;
      freed := freed + multiset{id};
    }

    /** The loops of `http_recv_cb`. */
    method PrintChain(chain: Chain)
      modifies this`printed
      ensures printed == old(printed) + Bytes(chain)
    {
      var q := chain;
      while q.Seg?
        invariant printed + Bytes(q) == old(printed) + Bytes(chain)
        decreases q
      {
        ghost var before := printed;
        for i := 0 to |q.payload|
          invariant printed == before + q.payload[..i]
        {
          printed := printed + [q.payload[i]];
        }
        assert printed == before + q.payload;
        assert before + (q.payload + Bytes(q.next)) == (before + q.payload) + Bytes(q.next);
        q := q.next;
      }
    }

    /** `http_recv_cb` without data: the server has closed. */
    method RemoteClosedCallback(tpcb: Pcb)
      requires Valid() && Enabled(View(), RemoteClosed(tpcb))
      modifies this
      ensures Valid() && View() == Next(old(View()), RemoteClosed(tpcb))
    {
      NextKeepsInv(View(), RemoteClosed(tpcb));
      CloseConnection(tpcb);
    }

    /** `http_err_cb`. Freeing the pcb is lwIP's step, taken just before. */
    method ErrCallback(tpcb: Pcb)
      requires Valid() && Enabled(View(), Failed(tpcb))
      modifies this
      ensures Valid() && View() == Next(old(View()), Failed(tpcb))
    {
      NextKeepsInv(View(), Failed(tpcb));
      stack := stack.Drop(tpcb);
      pcb := None;
      busy := false;
    }
  }

  lemma GetHasNoNul(host: string, path: string)
    requires NUL !in host && NUL !in path
    ensures NUL !in RequestText(host, path)
  {
    FillHasNoNul(GET, host, path);
  }

  lemma FillHasNoNul(t: Template, host: string, path: string)
    requires NUL !in host && NUL !in path
    requires NUL !in t.verb && NUL !in t.middle && NUL !in t.ending
    ensures NUL !in Fill(t, host, path)
  {
  }

  // ----- proof of the invariant

  lemma CloseKeepsReleased(k: Stack, p: Pcb)
    requires InvReleased(k) && p in k.live
    ensures InvReleased(k.OnRecv(p, false).OnErr(p, false).Close(p))
    ensures InvReleased(k.Drop(p))
  {
    assert multiset(k.issued - (k.live - {p})) == multiset(k.issued - k.live) + multiset{p};
  }

  lemma NewKeepsReleased(k: Stack, p: Pcb)
    requires InvReleased(k) && p !in k.issued
    ensures InvReleased(k.New(p).OnErr(p, true))
  {
    assert (k.issued + {p}) - (k.live + {p}) == k.issued - k.live;
  }

  lemma OpenKeepsInv(s: State, a: Attempt)
    requires s.busy && s.pcb.None? && s.stack.lookups == 0 && s.stack.live == {} && InvReleased(s.stack)
    requires Fresh(s.stack, a)
    ensures Inv(Open(s, a))
  {
    if !a.NoPcb? {
      NewKeepsReleased(s.stack, a.p);
      CloseKeepsReleased(s.stack.New(a.p).OnErr(a.p, true), a.p);
    }
  }

  lemma NextKeepsInv(s: State, e: Event)
    requires Inv(s) && Enabled(s, e)
    ensures Inv(Next(s, e))
  {
    match e
    case Get(host, path, lookup) =>
      if !s.busy && lookup.Cached? {
        OpenKeepsInv(s.(busy := true, request := RequestText(host, path)), lookup.attempt);
      }
    case Resolved(a) =>
      OpenKeepsInv(s.(stack := s.stack.(lookups := s.stack.lookups - 1)), a);
    case NotFound =>
    case Connected(p, ok, writeOk) =>
      var k := s.stack.(onConnected := s.stack.onConnected - {p});
      CloseKeepsReleased(k, p);
      CloseKeepsReleased(k.OnRecv(p, true).OnErr(p, true), p);
    case Data(_, _, _, _) =>
    case RemoteClosed(p) => CloseKeepsReleased(s.stack, p);
    case Failed(p) => CloseKeepsReleased(s.stack, p);
  }
}
