/** Any number of hosts running the responder of src/net.c on one shared medium.

    A frame put on the wire is delivered to every host at once, in any order and any
    time later, or lost. Frames come from outside, of any length, or are answers of the
    hosts, padded by their controllers. Each host handles a frame in a buffer of its own,
    where any bytes may follow it. */
module Network {
  import opened Machine
  import opened Ethernet
  import opened Net

  function AnswerTo(h: Host, f: Frame, tail: seq<byte>): Option<Frame>
    requires Readable(h, f + tail, |f|)
  {
    Answer(h, f + tail, |f|)
  }

  /** The frame holds every field that decides whether it is answered. */
  predicate Whole(f: Frame) {
    |f| >= ETH_HEADER ==> (IsArp(f) ==> |f| >= 42) && (IsIp(f) ==> |f| >= 35)
  }

  /** No host answers the frame, whatever its addresses and whatever its buffer holds
      after the frame. */
  ghost predicate Quiet(f: Frame) {
    forall h: Host, tail: seq<byte> :: Readable(h, f + tail, |f|) ==> AnswerTo(h, f, tail) == None
  }

  /** The bytes that tell a reply: the ARP opcode 2, or the ICMP type 0. */
  ghost predicate IsReply(g: Frame) {
    |g| >= 35 && ((IsArp(g) && g[20] == 0 && g[21] == 2) || (IsIp(g) && g[34] == 0))
  }

  lemma ReplyIsQuiet(g: Frame)
    requires IsReply(g)
    ensures Quiet(g)
  {
    forall h: Host, tail: seq<byte> | Readable(h, g + tail, |g|) ensures AnswerTo(h, g, tail) == None {
      var b := g + tail;
      assert b[12] == g[12] && b[13] == g[13] && b[20] == g[20] && b[21] == g[21] && b[34] == g[34];
    }
  }

  lemma ReplyBytes(h: Host, b: seq<byte>, len: nat)
    requires Readable(h, b, len) && Answer(h, b, len).Some?
    ensures IsReply(OnWire(Answer(h, b, len).value))
    ensures |Answer(h, b, len).value| >= 35 ==> IsReply(Answer(h, b, len).value)
  {
    if AnswersArp(h, b, len) {
      ArpReplyAt(h, b, 12);
      ArpReplyAt(h, b, 13);
      ArpReplyAt(h, b, 20);
      ArpReplyAt(h, b, 21);
    } else {
      EchoReplyAt(h, b, 12);
      EchoReplyAt(h, b, 13);
      EchoReplyAt(h, b, 34);
    }
  }

  /** No frame sent is ever answered, by any host and for any length: a short echo reply
      that lacks its type gets it, as zero, from the padding. */
  lemma AnswerOnWireIsQuiet(h: Host, b: seq<byte>, len: nat)
    requires Readable(h, b, len) && Answer(h, b, len).Some?
    ensures Quiet(OnWire(Answer(h, b, len).value))
  {
    ReplyBytes(h, b, len);
    ReplyIsQuiet(OnWire(Answer(h, b, len).value));
  }

  /** The padding is needed: without it, an echo reply shorter than 35 bytes is taken for a
      request where stale bytes make it one. */
  lemma UnpaddedQuietIff(h: Host, b: seq<byte>, len: nat)
    requires Readable(h, b, len) && Answer(h, b, len).Some?
    ensures Quiet(Answer(h, b, len).value) <==> AnswersArp(h, b, len) || len >= 35
  {
    var g := Answer(h, b, len).value;
    if AnswersArp(h, b, len) || len >= 35 {
      ReplyBytes(h, b, len);
      ReplyIsQuiet(g);
    } else {
      var b', h' := StaleRequest(h, b, len);
      assert g + b'[len..] == b';
      assert AnswerTo(h', g, b'[len..]).Some?;
    }
  }

  /** A buffer that starts with a short answer and asks for another. */
  lemma StaleRequest(h: Host, b: seq<byte>, len: nat) returns (b': seq<byte>, h': Host)
    requires Readable(h, b, len) && Answer(h, b, len).Some? && |Answer(h, b, len).value| < 35
    ensures |b'| >= len && b'[..len] == Answer(h, b, len).value
    ensures Readable(h', b', len) && AnswersEcho(h', b', len)
  {
    var r := EchoReply(h, b);
    b' := r[34 := 8];
    h' := Host(h.mac, b'[30..34]);
    EchoReplyAt(h, b, 12);
    EchoReplyAt(h, b, 13);
    EchoReplyAt(h, b, 16);
    EchoReplyAt(h, b, 17);
    EchoReplyAt(h, b, 23);
  }

  // ----- delivery

  predicate Deliverable(hosts: seq<Host>, f: Frame, tails: seq<seq<byte>>) {
    |tails| == |hosts| && forall k :: 0 <= k < |hosts| ==> Readable(hosts[k], f + tails[k], |f|)
  }

  lemma DeliverableCons(hosts: seq<Host>, f: Frame, tails: seq<seq<byte>>)
    requires hosts != [] && |tails| == |hosts|
    requires Readable(hosts[0], f + tails[0], |f|) && Deliverable(hosts[1..], f, tails[1..])
    ensures Deliverable(hosts, f, tails)
  {
    assert forall k :: 1 <= k < |hosts| ==> hosts[k] == hosts[1..][k - 1] && tails[k] == tails[1..][k - 1];
  }

  function Answers(hosts: seq<Host>, f: Frame, tails: seq<seq<byte>>): seq<Frame>
    requires Deliverable(hosts, f, tails)
  {
    if hosts == [] then []
    else
      var rest := Answers(hosts[1..], f, tails[1..]);
      match AnswerTo(hosts[0], f, tails[0])
      case None => rest
      case Some(g) => [OnWire(g)] + rest
  }

  // ----- runs

  datatype State = State(wire: seq<Frame>, injected: nat, sent: nat)
  datatype Event = Inject(frame: Frame) | Deliver(index: nat, tails: seq<seq<byte>>) | Lose(index: nat)

  predicate Enabled(hosts: seq<Host>, s: State, e: Event) {
    match e
    case Inject(_) => true
    case Deliver(i, tails) => i < |s.wire| && Deliverable(hosts, s.wire[i], tails)
    case Lose(i) => i < |s.wire|
  }

  function Without(wire: seq<Frame>, i: nat): seq<Frame>
    requires i < |wire|
  {
    wire[..i] + wire[i + 1..]
  }

  function Step(hosts: seq<Host>, s: State, e: Event): State
    requires Enabled(hosts, s, e)
  {
    match e
    case Inject(f) => s.(wire := s.wire + [f], injected := s.injected + 1)
    case Deliver(i, tails) =>
      var answers := Answers(hosts, s.wire[i], tails);
      State(Without(s.wire, i) + answers, s.injected, s.sent + |answers|)
    case Lose(i) => s.(wire := Without(s.wire, i))
  }

  const START: State := State([], 0, 0)

  /** The state a sequence of events leads to, if each is enabled in its turn. */
  function Run(hosts: seq<Host>, events: seq<Event>): Option<State> {
    if events == [] then Some(START)
    else
      var before, last := Run(hosts, events[..|events| - 1]), events[|events| - 1];
      if before.Some? && Enabled(hosts, before.value, last) then Some(Step(hosts, before.value, last))
      else None
  }

  lemma RunOneMore(hosts: seq<Host>, events: seq<Event>, e: Event)
    requires Run(hosts, events).Some? && Enabled(hosts, Run(hosts, events).value, e)
    ensures Run(hosts, events + [e]) == Some(Step(hosts, Run(hosts, events).value, e))
  {
    assert (events + [e])[..|events|] == events;
  }

  /** How many hosts have a given address. */
  function Sharing(hosts: seq<Host>, ip: Ip): nat {
    if hosts == [] then 0
    else (if hosts[0].ip == ip then 1 else 0) + Sharing(hosts[1..], ip)
  }

  ghost function Count<T>(s: seq<T>, p: T -> bool): nat {
    if s == [] then 0 else (if p(s[0]) then 1 else 0) + Count(s[1..], p)
  }

  ghost predicate IsLoud(f: Frame) {
    !Quiet(f)
  }

  /** Frames on the wire that may still be answered. */
  ghost function Loud(wire: seq<Frame>): nat {
    Count(wire, IsLoud)
  }

  // ----- no reply storm

  /** The address a whole frame asks for, if any. */
  ghost function Target(f: Frame): Ip {
    if |f| >= 42 && IsArp(f) then f[38..42]
    else if |f| >= 34 && IsIp(f) then f[30..34]
    else [0, 0, 0, 0]
  }

  lemma AskedHost(h: Host, f: Frame, tail: seq<byte>)
    requires Whole(f) && Readable(h, f + tail, |f|) && AnswerTo(h, f, tail).Some?
    ensures h.ip == Target(f)
  {
    var b := f + tail;
    assert b[12] == f[12] && b[13] == f[13];
    if AnswersArp(h, b, |f|) {
      assert b[38..42] == f[38..42];
    } else {
      assert b[30..34] == f[30..34];
    }
  }

  lemma {:induction false} AnswersBound(hosts: seq<Host>, f: Frame, tails: seq<seq<byte>>)
    requires Deliverable(hosts, f, tails)
    ensures |Answers(hosts, f, tails)| <= |hosts|
    ensures Whole(f) ==> |Answers(hosts, f, tails)| <= Sharing(hosts, Target(f))
  {
    if hosts != [] {
      AnswersBound(hosts[1..], f, tails[1..]);
      if Whole(f) && AnswerTo(hosts[0], f, tails[0]).Some? {
        AskedHost(hosts[0], f, tails[0]);
      }
    }
  }

  ghost predicate AllQuiet(frames: seq<Frame>) {
    forall k :: 0 <= k < |frames| ==> Quiet(frames[k])
  }

  lemma {:induction false} AnswersAreQuiet(hosts: seq<Host>, f: Frame, tails: seq<seq<byte>>)
    requires Deliverable(hosts, f, tails)
    ensures AllQuiet(Answers(hosts, f, tails))
  {
    if hosts != [] {
      AnswersAreQuiet(hosts[1..], f, tails[1..]);
      if AnswerTo(hosts[0], f, tails[0]).Some? {
        AnswerOnWireIsQuiet(hosts[0], f + tails[0], |f|);
        QuietCons(OnWire(AnswerTo(hosts[0], f, tails[0]).value), Answers(hosts[1..], f, tails[1..]));
      }
    }
  }

  lemma QuietCons(g: Frame, rest: seq<Frame>)
    requires Quiet(g) && AllQuiet(rest)
    ensures AllQuiet([g] + rest)
  {
  }

  lemma {:induction false} QuietIsSilent(hosts: seq<Host>, f: Frame, tails: seq<seq<byte>>)
    requires Deliverable(hosts, f, tails) && Quiet(f)
    ensures Answers(hosts, f, tails) == []
  {
    if hosts != [] {
      QuietIsSilent(hosts[1..], f, tails[1..]);
      assert AnswerTo(hosts[0], f, tails[0]) == None;
    }
  }

  lemma {:induction false} CountConcat<T>(a: seq<T>, b: seq<T>, p: T -> bool)
    ensures Count(a + b, p) == Count(a, p) + Count(b, p)
  {
    if a == [] {
      assert a + b == b;
    } else {
      assert (a + b)[1..] == a[1..] + b;
      CountConcat(a[1..], b, p);
    }
  }

  lemma CountOne<T>(x: T, p: T -> bool)
    ensures Count([x], p) == if p(x) then 1 else 0
  {
    var one: seq<T> := [x];
    assert one[1..] == [];
  }

  lemma {:induction false} CountRemoved<T>(s: seq<T>, i: nat, p: T -> bool)
    requires i < |s|
    ensures Count(s, p) == Count(s[..i] + s[i + 1..], p) + if p(s[i]) then 1 else 0
  {
    var left := s[..i] + s[i + 1..];
    if i == 0 {
      assert left == s[1..];
    } else {
      assert left[0] == s[0] && left[1..] == s[1..][..i - 1] + s[1..][i..];
      CountRemoved(s[1..], i - 1, p);
    }
  }

  lemma {:induction false} CountNone<T>(s: seq<T>, p: T -> bool)
    requires forall k :: 0 <= k < |s| ==> !p(s[k])
    ensures Count(s, p) == 0
  {
    if s != [] {
      CountNone(s[1..], p);
    }
  }

  lemma LoudMore(wire: seq<Frame>, f: Frame)
    ensures Loud(wire + [f]) <= Loud(wire) + 1
  {
    CountConcat(wire, [f], IsLoud);
    CountOne(f, IsLoud);
  }

  lemma LoudWithout(wire: seq<Frame>, i: nat)
    requires i < |wire|
    ensures Loud(wire) == Loud(Without(wire, i)) + if Quiet(wire[i]) then 0 else 1
  {
    CountRemoved(wire, i, IsLoud);
  }

  lemma LoudLess(wire: seq<Frame>, i: nat)
    requires i < |wire|
    ensures Loud(Without(wire, i)) <= Loud(wire)
  {
    LoudWithout(wire, i);
  }

  lemma LoudWithQuiet(wire: seq<Frame>, answers: seq<Frame>)
    requires AllQuiet(answers)
    ensures Loud(wire + answers) == Loud(wire)
  {
    CountConcat(wire, answers, IsLoud);
    CountNone(answers, IsLoud);
  }

  /** However the frame is delivered, at most `share` of the hosts answer it. */
  ghost predicate AtMost(hosts: seq<Host>, share: nat, f: Frame) {
    forall tails :: Deliverable(hosts, f, tails) ==> |Answers(hosts, f, tails)| <= share
  }

  ghost predicate AllAtMost(hosts: seq<Host>, share: nat, frames: seq<Frame>) {
    forall k :: 0 <= k < |frames| ==> AtMost(hosts, share, frames[k])
  }

  lemma QuietAtMost(hosts: seq<Host>, share: nat, f: Frame)
    requires Quiet(f)
    ensures AtMost(hosts, share, f)
  {
    forall tails | Deliverable(hosts, f, tails) ensures |Answers(hosts, f, tails)| <= share {
      QuietIsSilent(hosts, f, tails);
    }
  }

  lemma WholeAtMost(hosts: seq<Host>, share: nat, f: Frame)
    requires Whole(f) && forall ip: Ip :: Sharing(hosts, ip) <= share
    ensures AtMost(hosts, share, f)
  {
    forall tails | Deliverable(hosts, f, tails) ensures |Answers(hosts, f, tails)| <= share {
      AnswersBound(hosts, f, tails);
    }
  }

  lemma AnyAtMost(hosts: seq<Host>, f: Frame)
    ensures AtMost(hosts, |hosts|, f)
  {
    forall tails | Deliverable(hosts, f, tails) ensures |Answers(hosts, f, tails)| <= |hosts| {
      AnswersBound(hosts, f, tails);
    }
  }

  /** Every frame sent is paid for by an injected frame that is no longer loud. */
  ghost predicate Paid(hosts: seq<Host>, s: State, share: nat) {
    && AllAtMost(hosts, share, s.wire)
    && Loud(s.wire) <= s.injected
    && s.sent <= Budget(share, s.injected - Loud(s.wire))
  }

  /** The product, as repeated addition. */
  function Budget(share: nat, n: nat): nat {
    if n == 0 then 0 else Budget(share, n - 1) + share
  }

  lemma {:induction false} BudgetIsProduct(share: nat, n: nat)
    ensures Budget(share, n) == share * n
  {
    if n > 0 {
      BudgetIsProduct(share, n - 1);
    }
  }

  lemma {:induction false} MoreBudget(share: nat, a: nat, b: nat)
    requires a <= b
    ensures Budget(share, a) <= Budget(share, b)
  {
    if a < b {
      MoreBudget(share, a, b - 1);
    }
  }

  lemma InjectPays(hosts: seq<Host>, share: nat, s: State, f: Frame)
    requires Paid(hosts, s, share) && AtMost(hosts, share, f)
    ensures Paid(hosts, s.(wire := s.wire + [f], injected := s.injected + 1), share)
  {
    LoudMore(s.wire, f);
    MoreBudget(share, s.injected - Loud(s.wire), s.injected + 1 - Loud(s.wire + [f]));
  }

  lemma WithoutAtMost(hosts: seq<Host>, share: nat, wire: seq<Frame>, i: nat)
    requires i < |wire| && AllAtMost(hosts, share, wire)
    ensures AllAtMost(hosts, share, Without(wire, i))
  {
  }

  lemma LosePays(hosts: seq<Host>, share: nat, s: State, i: nat)
    requires Paid(hosts, s, share) && i < |s.wire|
    ensures Paid(hosts, s.(wire := Without(s.wire, i)), share)
  {
    LoudLess(s.wire, i);
    WithoutAtMost(hosts, share, s.wire, i);
    MoreBudget(share, s.injected - Loud(s.wire), s.injected - Loud(Without(s.wire, i)));
  }

  lemma DeliveredWire(hosts: seq<Host>, share: nat, wire: seq<Frame>, i: nat, answers: seq<Frame>)
    requires i < |wire| && AllAtMost(hosts, share, wire) && AllQuiet(answers)
    ensures AllAtMost(hosts, share, Without(wire, i) + answers)
  {
    forall k | 0 <= k < |answers| ensures AtMost(hosts, share, answers[k]) {
      QuietAtMost(hosts, share, answers[k]);
    }
  }

  /** A delivery that is answered silences one loud frame. */
  lemma DeliveryIsPaid(hosts: seq<Host>, share: nat, wire: seq<Frame>, i: nat, tails: seq<seq<byte>>)
    requires i < |wire| && AllAtMost(hosts, share, wire) && Deliverable(hosts, wire[i], tails)
    ensures var answers := Answers(hosts, wire[i], tails);
            var left := Without(wire, i) + answers;
            && AllAtMost(hosts, share, left)
            && ((Loud(wire) == Loud(left) && answers == []) || (Loud(wire) == Loud(left) + 1 && |answers| <= share))
  {
    var answers := Answers(hosts, wire[i], tails);
    assert AtMost(hosts, share, wire[i]);
    AnswersAreQuiet(hosts, wire[i], tails);
    DeliveredWire(hosts, share, wire, i, answers);
    LoudWithout(wire, i);
    LoudWithQuiet(Without(wire, i), answers);
    if Quiet(wire[i]) {
      QuietIsSilent(hosts, wire[i], tails);
    }
  }

  lemma DeliverPays(hosts: seq<Host>, share: nat, s: State, i: nat, tails: seq<seq<byte>>)
    requires Enabled(hosts, s, Deliver(i, tails)) && Paid(hosts, s, share)
    ensures Paid(hosts, Step(hosts, s, Deliver(i, tails)), share)
  {
    DeliveryIsPaid(hosts, share, s.wire, i, tails);
  }

  ghost predicate InjectsAtMost(hosts: seq<Host>, share: nat, events: seq<Event>) {
    forall k :: 0 <= k < |events| && events[k].Inject? ==> AtMost(hosts, share, events[k].frame)
  }

  lemma {:induction false} RunPays(hosts: seq<Host>, share: nat, events: seq<Event>)
    requires InjectsAtMost(hosts, share, events) && Run(hosts, events).Some?
    ensures Paid(hosts, Run(hosts, events).value, share)
    decreases |events|
  {
    if events != [] {
      var n := |events| - 1;
      RunPays(hosts, share, events[..n]);
      var s := Run(hosts, events[..n]).value;
      match events[n]
      case Inject(f) => InjectPays(hosts, share, s, f);
      case Lose(i) => LosePays(hosts, share, s, i);
      case Deliver(i, tails) => DeliverPays(hosts, share, s, i, tails);
    }
  }

  lemma PaidInFull(hosts: seq<Host>, s: State, share: nat)
    requires Paid(hosts, s, share)
    ensures s.sent <= share * s.injected
  {
    MoreBudget(share, s.injected - Loud(s.wire), s.injected);
    BudgetIsProduct(share, s.injected);
  }

  ghost predicate Bounded(hosts: seq<Host>, share: nat, events: seq<Event>)
    requires Run(hosts, events).Some?
  {
    Run(hosts, events).value.sent <= share * Run(hosts, events).value.injected
  }

  lemma RunIsBounded(hosts: seq<Host>, share: nat, events: seq<Event>)
    requires InjectsAtMost(hosts, share, events) && Run(hosts, events).Some?
    ensures Bounded(hosts, share, events)
  {
    RunPays(hosts, share, events);
    PaidInFull(hosts, Run(hosts, events).value, share);
  }

  /** No reply storm, whatever is injected: in every run the hosts send at most one frame
      each for every frame from outside. */
  lemma NoReplyStorm(hosts: seq<Host>, events: seq<Event>)
    requires Run(hosts, events).Some?
    ensures Bounded(hosts, |hosts|, events)
  {
    forall k | 0 <= k < |events| && events[k].Inject? ensures AtMost(hosts, |hosts|, events[k].frame) {
      AnyAtMost(hosts, events[k].frame);
    }
    RunIsBounded(hosts, |hosts|, events);
  }

  /** Each frame from outside holds the fields that are tested, or is never answered. */
  ghost predicate InjectsWhole(events: seq<Event>) {
    forall k :: 0 <= k < |events| && events[k].Inject? ==> Whole(events[k].frame) || Quiet(events[k].frame)
  }

  lemma WholeIsBounded(hosts: seq<Host>, share: nat, events: seq<Event>)
    requires forall ip: Ip :: Sharing(hosts, ip) <= share
    requires InjectsWhole(events) && Run(hosts, events).Some?
    ensures Bounded(hosts, share, events)
  {
    forall k | 0 <= k < |events| && events[k].Inject? ensures AtMost(hosts, share, events[k].frame) {
      if Whole(events[k].frame) {
        WholeAtMost(hosts, share, events[k].frame);
      } else {
        QuietAtMost(hosts, share, events[k].frame);
      }
    }
    RunIsBounded(hosts, share, events);
  }

  // ----- the bound is reached

  /** An ARP request for `ip` from some station. */
  function Ask(ip: Ip): (f: Frame)
    ensures |f| == 42 && Whole(f) && IsArp(f) && f[20..22] == [0, 1] && f[38..42] == ip
  {
    var mac: seq<byte> := [2, 0, 0, 0, 0, 1];
    [0xFF, 0xFF, 0xFF, 0xFF, 0xFF, 0xFF] + mac + [0x08, 0x06]
    + [0, 1, 8, 0, 6, 4, 0, 1] + mac + [192, 168, 1, 1] + [0, 0, 0, 0, 0, 0] + ip
  }

  function NoTails(hosts: seq<Host>): (tails: seq<seq<byte>>)
    ensures |tails| == |hosts|
  {
    if hosts == [] then [] else [[]] + NoTails(hosts[1..])
  }

  lemma {:induction false} AskedBySharing(hosts: seq<Host>, ip: Ip)
    ensures Deliverable(hosts, Ask(ip), NoTails(hosts))
    ensures |Answers(hosts, Ask(ip), NoTails(hosts))| == Sharing(hosts, ip)
  {
    if hosts != [] {
      AskedBySharing(hosts[1..], ip);
      var f := Ask(ip);
      assert f + [] == f;
      assert f[20] == f[20..22][0] && f[21] == f[20..22][1];
      assert NoTails(hosts)[0] == [] && NoTails(hosts)[1..] == NoTails(hosts[1..]);
      DeliverableCons(hosts, f, NoTails(hosts));
      assert AnswerTo(hosts[0], f, []).Some? <==> hosts[0].ip == ip;
    }
  }

  ghost predicate Asked(hosts: seq<Host>, ip: Ip, n: nat, events: seq<Event>) {
    && InjectsWhole(events) && Run(hosts, events).Some?
    && Run(hosts, events).value.injected == n
    && Run(hosts, events).value.sent == Budget(Sharing(hosts, ip), n)
  }

  lemma AskOnce(hosts: seq<Host>, ip: Ip, n: nat, before: seq<Event>) returns (events: seq<Event>)
    requires Asked(hosts, ip, n, before)
    ensures Asked(hosts, ip, n + 1, events)
  {
    var s := Run(hosts, before).value;
    AskedBySharing(hosts, ip);
    RunOneMore(hosts, before, Inject(Ask(ip)));
    var e := Deliver(|s.wire|, NoTails(hosts));
    assert (s.wire + [Ask(ip)])[|s.wire|] == Ask(ip);
    RunOneMore(hosts, before + [Inject(Ask(ip))], e);
    events := before + [Inject(Ask(ip))] + [e];
  }

  lemma {:induction false} AskRepeatedly(hosts: seq<Host>, ip: Ip, n: nat) returns (events: seq<Event>)
    ensures Asked(hosts, ip, n, events)
  {
    if n == 0 {
      events := [];
    } else {
      var before := AskRepeatedly(hosts, ip, n - 1);
      events := AskOnce(hosts, ip, n - 1, before);
    }
  }

  /** For every address and number there is a run in which each injected frame is
      answered by all the hosts that have the address. */
  lemma BoundReached(hosts: seq<Host>, ip: Ip, n: nat) returns (events: seq<Event>)
    ensures InjectsWhole(events) && Run(hosts, events).Some?
    ensures var s := Run(hosts, events).value; s.injected == n && s.sent == Sharing(hosts, ip) * n
  {
    events := AskRepeatedly(hosts, ip, n);
    BudgetIsProduct(Sharing(hosts, ip), n);
  }

  /** A bound for every run with such frames. */
  ghost predicate SendsAtMost(hosts: seq<Host>, share: nat) {
    forall events :: InjectsWhole(events) && Run(hosts, events).Some? ==> Bounded(hosts, share, events)
  }

  /** The hosts send at most `share` frames for each such frame from outside, in every
      run, if and only if no address is had by more than `share` of them. With `share` 1:
      at most one for one if and only if their addresses are distinct. */
  lemma BoundIffSharing(hosts: seq<Host>, share: nat)
    ensures SendsAtMost(hosts, share) <==> forall ip: Ip :: Sharing(hosts, ip) <= share
  {
    if forall ip: Ip :: Sharing(hosts, ip) <= share {
      forall events | InjectsWhole(events) && Run(hosts, events).Some? ensures Bounded(hosts, share, events) {
        WholeIsBounded(hosts, share, events);
      }
    } else {
      var ip: Ip :| Sharing(hosts, ip) > share;
      var events := BoundReached(hosts, ip, 1);
      assert !Bounded(hosts, share, events);
    }
  }

  lemma {:induction false} DistinctSharing(hosts: seq<Host>, ip: Ip)
    requires forall j, k :: 0 <= j < k < |hosts| ==> hosts[j].ip != hosts[k].ip
    ensures Sharing(hosts, ip) <= 1
    ensures Sharing(hosts, ip) == 0 <==> forall k :: 0 <= k < |hosts| ==> hosts[k].ip != ip
  {
    if hosts != [] {
      DistinctSharing(hosts[1..], ip);
      assert forall k :: 1 <= k < |hosts| ==> hosts[k] == hosts[1..][k - 1];
    }
  }

  lemma {:induction false} SharedTwice(hosts: seq<Host>, j: nat, k: nat)
    requires j < k < |hosts| && hosts[j].ip == hosts[k].ip
    ensures Sharing(hosts, hosts[j].ip) >= 2
  {
    if j > 0 {
      SharedTwice(hosts[1..], j - 1, k - 1);
    } else {
      SharedOnce(hosts[1..], k - 1);
    }
  }

  lemma {:induction false} SharedOnce(hosts: seq<Host>, k: nat)
    requires k < |hosts|
    ensures Sharing(hosts, hosts[k].ip) >= 1
  {
    if k > 0 {
      SharedOnce(hosts[1..], k - 1);
    }
  }

  /** Frames sent are at most frames injected, in every run with such frames, if and only
      if no two hosts have the same address. */
  lemma OneForOneIffDistinct(hosts: seq<Host>)
    ensures SendsAtMost(hosts, 1) <==> forall j, k :: 0 <= j < k < |hosts| ==> hosts[j].ip != hosts[k].ip
  {
    BoundIffSharing(hosts, 1);
    if forall j, k :: 0 <= j < k < |hosts| ==> hosts[j].ip != hosts[k].ip {
      forall ip: Ip ensures Sharing(hosts, ip) <= 1 {
        DistinctSharing(hosts, ip);
      }
    } else {
      var j, k :| 0 <= j < k < |hosts| && hosts[j].ip == hosts[k].ip;
      SharedTwice(hosts, j, k);
    }
  }

  // ----- frames too short for the fields that are tested

  /** Stale bytes that complete a bare IP Ethernet header to an echo request. */
  function StaleTail(h: Host): (tail: seq<byte>)
    ensures |tail| == 28
  {
    [0x45, 0, 0, 28, 0, 0, 0, 0, 64, 1, 0, 0, 192, 168, 1, 1] + h.ip + [8, 0, 0, 0, 0, 0, 0, 0]
  }

  function StaleTails(hosts: seq<Host>): (tails: seq<seq<byte>>)
    ensures |tails| == |hosts|
  {
    if hosts == [] then [] else [StaleTail(hosts[0])] + StaleTails(hosts[1..])
  }

  /** An IP frame that ends with its Ethernet header. */
  predicate Runt(f: Frame) {
    |f| == ETH_HEADER && IsIp(f)
  }

  lemma RuntIsAnswered(h: Host, f: Frame)
    requires Runt(f)
    ensures Readable(h, f + StaleTail(h), |f|) && AnswerTo(h, f, StaleTail(h)).Some?
  {
    var b := f + StaleTail(h);
    assert b[12] == 0x08 && b[13] == 0x00 && b[16] == 0 && b[17] == 28 && b[23] == 1 && b[34] == 8;
    assert b[30..34] == h.ip;
  }

  lemma {:induction false} RuntAnswers(hosts: seq<Host>, f: Frame)
    requires Runt(f)
    ensures Deliverable(hosts, f, StaleTails(hosts))
    ensures |Answers(hosts, f, StaleTails(hosts))| == |hosts|
  {
    if hosts != [] {
      RuntAnswers(hosts[1..], f);
      RuntIsAnswered(hosts[0], f);
      var tails := StaleTails(hosts);
      assert tails[0] == StaleTail(hosts[0]) && tails[1..] == StaleTails(hosts[1..]);
      DeliverableCons(hosts, f, tails);
    }
  }

  /** One such frame can be answered by every host, whatever their addresses. */
  lemma RuntRun(hosts: seq<Host>) returns (events: seq<Event>)
    ensures Run(hosts, events).Some?
    ensures Run(hosts, events).value.injected == 1 && Run(hosts, events).value.sent == |hosts|
  {
    var f: Frame := [0, 0, 0, 0, 0, 0, 0, 0, 0, 0, 0, 0, 0x08, 0x00];
    RuntAnswers(hosts, f);
    RunOneMore(hosts, [], Inject(f));
    events := [] + [Inject(f)];
    RunOneMore(hosts, events, Deliver(0, StaleTails(hosts)));
    events := events + [Deliver(0, StaleTails(hosts))];
  }

  ghost predicate AlwaysSendsAtMost(hosts: seq<Host>, share: nat) {
    forall events :: Run(hosts, events).Some? ==> Bounded(hosts, share, events)
  }

  /** For frames of any length the number of hosts is the exact bound. */
  lemma BoundIffHosts(hosts: seq<Host>, share: nat)
    ensures AlwaysSendsAtMost(hosts, share) <==> |hosts| <= share
  {
    if |hosts| <= share {
      forall events | Run(hosts, events).Some? ensures Bounded(hosts, share, events) {
        NoReplyStorm(hosts, events);
        MoreForEach(|hosts|, share, Run(hosts, events).value.injected);
      }
    } else {
      var events := RuntRun(hosts);
      assert !Bounded(hosts, share, events);
    }
  }

  lemma MoreForEach(a: nat, b: nat, n: nat)
    requires a <= b
    ensures a * n <= b * n
  {
  }
}
