/** Critical sections: `sys_arch_protect` and `sys_arch_unprotect` of src/lwip_port.c,
    the SYS_ARCH_* macros of include/lwip/sys.h over them, and an interrupt handler
    such as `systick_handler` of src/interrupt.c that updates the same variable.

    The main program runs one instruction at a time; between any two of them the
    handler may run, as a whole, unless interrupts are masked. */
module CriticalSection {
  import opened Machine

  // ----- the machine

  datatype Instr =
    | Mrs             // save the mask in the section's own old_level
    | Cpsid           // mask interrupts
    | Msr             // restore the innermost saved mask
    | Load
    | Add(n: uint32)
    | Store

  /** `saved` holds the old_level of each section entered and not left, innermost
      first; `holding` says the program is between a load and its store. */
  datatype Cpu = Cpu(
    todo: seq<Instr>, masked: bool, saved: seq<bool>,
    holding: bool, reg: uint32, mem: uint32, taken: nat)

  function Execute(s: Cpu): Cpu
    requires s.todo != []
  {
    var Cpu(todo, masked, saved, holding, reg, mem, taken) := s;
    var next := todo[1..];
    match todo[0]
    case Mrs => Cpu(next, masked, [masked] + saved, holding, reg, mem, taken)
    case Cpsid => Cpu(next, true, saved, holding, reg, mem, taken)
    case Msr => if saved == [] then Cpu(next, masked, saved, holding, reg, mem, taken)
                else Cpu(next, saved[0], saved[1..], holding, reg, mem, taken)
    case Load => Cpu(next, masked, saved, true, mem, mem, taken)
    case Add(n) => Cpu(next, masked, saved, holding, Add32(reg, n), mem, taken)
    case Store => Cpu(next, masked, saved, false, reg, reg, taken)
  }

  /** The handler adds `tick` to the variable. */
  function Interrupt(s: Cpu, tick: uint32): Cpu {
    s.(mem := Add32(s.mem, tick), taken := s.taken + 1)
  }

  datatype Turn = Main | Handler

  function Step(s: Cpu, turn: Turn, tick: uint32): Cpu {
    match turn
    case Main => if s.todo == [] then s else Execute(s)
    case Handler => if s.masked then s else Interrupt(s, tick)
  }

  /** A schedule gives the processor to the program or to the handler at each point;
      a turn of the handler under the mask does nothing. */
  function Run(s: Cpu, schedule: seq<Turn>, tick: uint32): Cpu {
    if schedule == [] then s
    else Step(Run(s, schedule[..|schedule| - 1], tick), schedule[|schedule| - 1], tick)
  }

  // ----- programs

  /** `Update(n)` is `var += n`; `Locked` is SYS_ARCH_LOCKED, and with an update inside
      it is SYS_ARCH_INC. */
  datatype Code = Skip | Update(n: uint32) | Locked(body: Code) | Then(first: Code, second: Code)

  function Inc(n: uint32): Code {
    Locked(Update(n))
  }

  /** SYS_ARCH_DEC: subtracting is adding the complement modulo 2^32. */
  function Dec(n: uint32): Code {
    Locked(Update(if n == 0 then 0 else 0x1_0000_0000 - n))
  }

  function Compile(c: Code): seq<Instr> {
    match c
    case Skip => []
    case Update(n) => [Load, Add(n), Store]
    case Locked(body) => [Mrs, Cpsid] + Compile(body) + [Msr]
    case Then(first, second) => Compile(first) + Compile(second)
  }

  /** What the program adds to the variable in all. */
  function Total(c: Code): uint32 {
    match c
    case Skip => 0
    case Update(n) => n
    case Locked(body) => Total(body)
    case Then(first, second) => Add32(Total(first), Total(second))
  }

  /** Every update runs with interrupts masked. */
  predicate Protected(c: Code, masked: bool) {
    match c
    case Skip => true
    case Update(_) => masked
    case Locked(body) => Protected(body, true)
    case Then(first, second) => Protected(first, masked) && Protected(second, masked)
  }

  lemma {:induction false} ProtectedUnderMask(c: Code)
    ensures Protected(c, true)
  {
    match c
    case Skip =>
    case Update(_) =>
    case Locked(body) => ProtectedUnderMask(body);
    case Then(first, second) => ProtectedUnderMask(first); ProtectedUnderMask(second);
  }

  // ----- running the program with no interrupt

  function Solo(s: Cpu, n: nat): Cpu
    requires n <= |s.todo|
    decreases n
  {
    if n == 0 then s else Solo(Execute(s), n - 1)
  }

  function Finish(s: Cpu): Cpu {
    Solo(s, |s.todo|)
  }

  lemma {:induction false} SoloTodo(s: Cpu, n: nat)
    requires n <= |s.todo|
    ensures Solo(s, n).todo == s.todo[n..]
    decreases n
  {
    if n > 0 {
      SoloTodo(Execute(s), n - 1);
      assert s.todo[1..][n - 1..] == s.todo[n..];
    }
  }

  lemma {:induction false} SoloSplit(s: Cpu, m: nat, n: nat)
    requires m + n <= |s.todo|
    ensures |Solo(s, m).todo| == |s.todo| - m
    ensures Solo(s, m + n) == Solo(Solo(s, m), n)
    decreases m
  {
    SoloTodo(s, m);
    if m > 0 {
      SoloSplit(Execute(s), m - 1, n);
    }
  }

  lemma Add32Laws(a: uint32, b: uint32, c: uint32)
    ensures Add32(a, b) == Add32(b, a)
    ensures Add32(Add32(a, b), c) == Add32(a, Add32(b, c)) == Add32(Add32(a, c), b)
  {
  }

  /** The state `s` after code that adds `total`: mask and saved masks are as before. */
  ghost predicate Completes(s: Cpu, t: Cpu, rest: seq<Instr>, total: uint32) {
    t == s.(todo := rest, mem := Add32(s.mem, total), reg := t.reg)
  }

  lemma SoloUpdate(n: uint32, s: Cpu, rest: seq<Instr>)
    requires s.todo == Compile(Update(n)) + rest && !s.holding
    ensures Completes(s, Solo(s, 3), rest, n)
  {
    var s1 := Execute(s);
    assert s1.todo == [Add(n), Store] + rest;
    var s2 := Execute(s1);
    assert s2.todo == [Store] + rest;
    var s3 := Execute(s2);
    assert s3.todo == rest;
    assert Solo(s, 3) == Solo(s1, 2) == Solo(s2, 1) == Solo(s3, 0);
  }

  /** Alone, a program adds its total and leaves mask and saved masks as they were. */
  lemma {:induction false} SoloCode(c: Code, s: Cpu, rest: seq<Instr>)
    requires s.todo == Compile(c) + rest && !s.holding
    ensures Completes(s, Solo(s, |Compile(c)|), rest, Total(c))
    decreases c, 0
  {
    match c {
      case Skip =>
        assert s.todo == rest;
      case Update(n) =>
        SoloUpdate(n, s, rest);
      case Locked(body) =>
        SoloLocked(body, s, rest);
      case Then(first, second) =>
        assert s.todo == Compile(first) + (Compile(second) + rest);
        SoloCode(first, s, Compile(second) + rest);
        var s1 := Solo(s, |Compile(first)|);
        SoloCode(second, s1, rest);
        SoloSplit(s, |Compile(first)|, |Compile(second)|);
        Add32Laws(s.mem, Total(first), Total(second));
    }
  }

  lemma {:induction false} SoloLocked(body: Code, s: Cpu, rest: seq<Instr>)
    requires s.todo == Compile(Locked(body)) + rest && !s.holding
    ensures Completes(s, Solo(s, |Compile(Locked(body))|), rest, Total(body))
    decreases body, 1
  {
    var k, inside := |Compile(body)|, Compile(body) + ([Msr] + rest);
    assert s.todo == [Mrs, Cpsid] + inside;
    SoloEnter(s, inside);
    SoloSplit(s, 2, k + 1);
    var s2 := Solo(s, 2);
    SoloCode(body, s2, [Msr] + rest);
    SoloSplit(s2, k, 1);
    var s3 := Solo(s2, k);
    SoloLeave(s3, rest);
    assert s3.saved == [s.masked] + s.saved;
    assert Solo(s, k + 3) == Solo(s3, 1);
  }

  lemma SoloEnter(s: Cpu, inside: seq<Instr>)
    requires s.todo == [Mrs, Cpsid] + inside
    ensures Solo(s, 2) == s.(todo := inside, masked := true, saved := [s.masked] + s.saved)
  {
    var s1 := Execute(s);
    assert s1.todo == [Cpsid] + inside;
    var s2 := Execute(s1);
    assert s2.todo == inside;
    assert Solo(s, 2) == Solo(s1, 1) == Solo(s2, 0);
  }

  lemma SoloLeave(s: Cpu, rest: seq<Instr>)
    requires s.todo == [Msr] + rest && s.saved != []
    ensures Solo(s, 1) == s.(todo := rest, masked := s.saved[0], saved := s.saved[1..])
  {
    var s1 := Execute(s);
    assert s1.todo == rest;
    assert Solo(s, 1) == Solo(s1, 0);
  }

  // ----- the handler may run anywhere in a protected program

  /** From here on, the program stores only what it loaded, and holds a loaded value
      only under the mask. */
  predicate Safe(todo: seq<Instr>, masked: bool, saved: seq<bool>, holding: bool) {
    && (holding ==> masked)
    && (todo != [] ==>
          match todo[0]
          case Mrs => Safe(todo[1..], masked, [masked] + saved, holding)
          case Cpsid => Safe(todo[1..], true, saved, holding)
          case Msr => saved != [] && Safe(todo[1..], saved[0], saved[1..], holding)
          case Load => Safe(todo[1..], masked, saved, true)
          case Add(_) => Safe(todo[1..], masked, saved, holding)
          case Store => holding && Safe(todo[1..], masked, saved, false))
  }

  predicate SafeCpu(s: Cpu) {
    Safe(s.todo, s.masked, s.saved, s.holding)
  }

  lemma UpdateIsSafe(n: uint32, rest: seq<Instr>, masked: bool, saved: seq<bool>)
    requires masked && Safe(rest, masked, saved, false)
    ensures Safe([Load, Add(n), Store] + rest, masked, saved, false)
  {
    var todo := [Load, Add(n), Store] + rest;
    assert todo[1..][1..][1..] == rest;
    assert Safe(todo[1..][1..], masked, saved, true);
    assert Safe(todo[1..], masked, saved, true);
  }

  lemma EnterIsSafe(todo: seq<Instr>, masked: bool, saved: seq<bool>)
    requires Safe(todo, true, [masked] + saved, false)
    ensures Safe([Mrs, Cpsid] + todo, masked, saved, false)
  {
    var all := [Mrs, Cpsid] + todo;
    assert all[1..][1..] == todo;
    assert Safe(all[1..], masked, [masked] + saved, false);
  }

  lemma LeaveIsSafe(rest: seq<Instr>, masked: bool, saved: seq<bool>)
    requires Safe(rest, masked, saved, false)
    ensures Safe([Msr] + rest, true, [masked] + saved, false)
  {
    assert ([Msr] + rest)[1..] == rest && ([masked] + saved)[1..] == saved;
  }

  lemma {:induction false} CompiledIsSafe(c: Code, rest: seq<Instr>, masked: bool, saved: seq<bool>)
    requires Protected(c, masked)
    requires Safe(rest, masked, saved, false)
    ensures Safe(Compile(c) + rest, masked, saved, false)
    decreases c, 0
  {
    match c {
      case Skip =>
        assert Compile(c) + rest == rest;
      case Update(n) =>
        UpdateIsSafe(n, rest, masked, saved);
      case Locked(body) =>
        LockedIsSafe(body, rest, masked, saved);
      case Then(first, second) =>
        CompiledIsSafe(second, rest, masked, saved);
        ThenIsSafe(first, second, rest, masked, saved);
    }
  }

  lemma {:induction false} LockedIsSafe(body: Code, rest: seq<Instr>, masked: bool, saved: seq<bool>)
    requires Protected(body, true)
    requires Safe(rest, masked, saved, false)
    ensures Safe(Compile(Locked(body)) + rest, masked, saved, false)
    decreases body, 1
  {
    var inside := Compile(body) + ([Msr] + rest);
    assert Compile(Locked(body)) + rest == [Mrs, Cpsid] + inside;
    LeaveIsSafe(rest, masked, saved);
    CompiledIsSafe(body, [Msr] + rest, true, [masked] + saved);
    EnterIsSafe(inside, masked, saved);
  }

  lemma {:induction false} ThenIsSafe(first: Code, second: Code, rest: seq<Instr>, masked: bool, saved: seq<bool>)
    requires Protected(first, masked)
    requires Safe(Compile(second) + rest, masked, saved, false)
    ensures Safe(Compile(Then(first, second)) + rest, masked, saved, false)
    decreases first, 1
  {
    assert Compile(Then(first, second)) + rest == Compile(first) + (Compile(second) + rest);
    CompiledIsSafe(first, Compile(second) + rest, masked, saved);
  }

  /** Adding `d` to the variable, and to the register if it holds the variable's
      value, adds `d` to the outcome. */
  lemma {:induction false} ShiftCarriesThrough(s: Cpu, r: uint32, d: uint32)
    requires SafeCpu(s)
    requires s.holding ==> r == Add32(s.reg, d)
    ensures Finish(s.(mem := Add32(s.mem, d), reg := r)).mem == Add32(Finish(s).mem, d)
    decreases |s.todo|
  {
    if s.todo != [] {
      var t := s.(mem := Add32(s.mem, d), reg := r);
      var s', t' := Execute(s), Execute(t);
      if s.todo[0].Add? {
        Add32Laws(s.reg, d, s.todo[0].n);
      }
      assert t' == s'.(mem := t'.mem, reg := t'.reg);
      if s.todo[0].Store? {
        assert t'.mem == Add32(s'.mem, d);
      }
      ShiftCarriesThrough(s', t'.reg, d);
    }
  }

  // ----- no update is lost

  /** `k` ticks. */
  function Ticks(tick: uint32, k: nat): uint32 {
    if k == 0 then 0 else Add32(Ticks(tick, k - 1), tick)
  }

  /** What the state will have come to: all of the program, and the ticks so far. */
  lemma {:induction false} OutcomeKept(s: Cpu, schedule: seq<Turn>, tick: uint32)
    requires SafeCpu(s)
    ensures var t := Run(s, schedule, tick);
            && SafeCpu(t)
            && t.taken >= s.taken
            && Finish(t).mem == Add32(Finish(s).mem, Ticks(tick, t.taken - s.taken))
            && Finish(t).masked == Finish(s).masked
            && Finish(t).saved == Finish(s).saved
    decreases |schedule|
  {
    if schedule != [] {
      var n := |schedule| - 1;
      OutcomeKept(s, schedule[..n], tick);
      var t := Run(s, schedule[..n], tick);
      if schedule[n].Handler? {
        if !t.masked {
          HandlerShiftsOutcome(t, tick);
          Add32Laws(Finish(s).mem, Ticks(tick, t.taken - s.taken), tick);
        }
      } else if t.todo != [] {
        ExecuteKeepsOutcome(t);
      }
    }
  }

  lemma ExecuteKeepsOutcome(t: Cpu)
    requires SafeCpu(t) && t.todo != []
    ensures SafeCpu(Execute(t)) && Execute(t).taken == t.taken
    ensures Finish(Execute(t)) == Finish(t)
  {
  }

  lemma HandlerShiftsOutcome(t: Cpu, tick: uint32)
    requires SafeCpu(t) && !t.masked
    ensures Finish(Interrupt(t, tick)).mem == Add32(Finish(t).mem, tick)
    ensures Finish(Interrupt(t, tick)).masked == Finish(t).masked
    ensures Finish(Interrupt(t, tick)).saved == Finish(t).saved
  {
    ShiftCarriesThrough(t, t.reg, tick);
    SoloAlike(t, Interrupt(t, tick), |t.todo|);
    SoloAlike(t.(mem := Add32(t.mem, tick)), Interrupt(t, tick), |t.todo|);
  }

  /** Masks do not depend on the variable, and nothing depends on the tick count. */
  lemma {:induction false} SoloAlike(s: Cpu, t: Cpu, n: nat)
    requires n <= |s.todo| && s.todo == t.todo && s.masked == t.masked && s.saved == t.saved
    ensures Solo(s, n).masked == Solo(t, n).masked && Solo(s, n).saved == Solo(t, n).saved
    ensures s.mem == t.mem && s.reg == t.reg ==> Solo(s, n).mem == Solo(t, n).mem
    decreases n
  {
    if n > 0 {
      ExecuteAlike(s, t);
      SoloAlike(Execute(s), Execute(t), n - 1);
    }
  }

  lemma ExecuteAlike(s: Cpu, t: Cpu)
    requires s.todo != [] && s.todo == t.todo && s.masked == t.masked && s.saved == t.saved
    ensures var s', t' := Execute(s), Execute(t);
            && s'.todo == t'.todo && s'.masked == t'.masked && s'.saved == t'.saved
            && (s.mem == t.mem && s.reg == t.reg ==> s'.mem == t'.mem && s'.reg == t'.reg)
  {
  }

  /** Inside a program, a piece of code runs as it does on its own. */
  lemma {:induction false} RunBeforeRest(s: Cpu, code: seq<Instr>, rest: seq<Instr>, schedule: seq<Turn>, tick: uint32)
    requires s.todo == code + rest
    ensures |Run(s, schedule, tick).todo| <= |s.todo|
    ensures |Run(s, schedule, tick).todo| >= |rest| ==>
              var t := Run(s.(todo := code), schedule, tick);
              Run(s, schedule, tick) == t.(todo := t.todo + rest)
    decreases |schedule|
  {
    if schedule != [] {
      var n := |schedule| - 1;
      RunBeforeRest(s, code, rest, schedule[..n], tick);
      StepShortens(Run(s, schedule[..n], tick), schedule[n], tick);
      if |Run(s, schedule, tick).todo| >= |rest| {
        StepBeforeRest(Run(s.(todo := code), schedule[..n], tick), rest, schedule[n], tick);
      }
    }
  }

  lemma StepShortens(s: Cpu, turn: Turn, tick: uint32)
    ensures |Step(s, turn, tick).todo| <= |s.todo|
  {
  }

  lemma StepBeforeRest(t: Cpu, rest: seq<Instr>, turn: Turn, tick: uint32)
    requires |Step(t.(todo := t.todo + rest), turn, tick).todo| >= |rest|
    ensures var t' := Step(t, turn, tick);
            Step(t.(todo := t.todo + rest), turn, tick) == t'.(todo := t'.todo + rest)
  {
    if t.todo == [] {
      assert t.todo + rest == rest;
    } else {
      assert (t.todo + rest)[1..] == t.todo[1..] + rest;
    }
  }

  /** Ticks as an ordinary product modulo 2^32. */
  lemma {:induction false} TicksValue(tick: uint32, k: nat)
    ensures Ticks(tick, k) == tick * k % 0x1_0000_0000
  {
    if k > 0 {
      TicksValue(tick, k - 1);
      WrapStep(tick * (k - 1), tick);
      assert tick * k == tick * (k - 1) + tick;
    }
  }

  lemma WrapStep(x: nat, d: uint32)
    ensures Add32(x % 0x1_0000_0000, d) == (x + d) % 0x1_0000_0000
  {
    var q, r := x / 0x1_0000_0000, x % 0x1_0000_0000;
    assert x + d == 0x1_0000_0000 * q + (r + d);
  }

  /** The amounts a program adds, in order. */
  function Updates(c: Code): seq<uint32> {
    match c
    case Skip => []
    case Update(n) => [n]
    case Locked(body) => Updates(body)
    case Then(first, second) => Updates(first) + Updates(second)
  }

  function Sum(amounts: seq<uint32>): nat {
    if amounts == [] then 0 else amounts[0] + Sum(amounts[1..])
  }

  lemma {:induction false} SumConcat(a: seq<uint32>, b: seq<uint32>)
    ensures Sum(a + b) == Sum(a) + Sum(b)
  {
    if a == [] {
      assert a + b == b;
    } else {
      assert (a + b)[1..] == a[1..] + b;
      SumConcat(a[1..], b);
    }
  }

  lemma {:induction false} TotalIsSum(c: Code)
    ensures Total(c) == Sum(Updates(c)) % 0x1_0000_0000
  {
    match c {
      case Skip =>
      case Update(n) =>
        var one: seq<uint32> := [n];
        assert one[1..] == [];
      case Locked(body) =>
        TotalIsSum(body);
      case Then(first, second) =>
        TotalIsSum(first);
        TotalIsSum(second);
        SumConcat(Updates(first), Updates(second));
        var x, y := Sum(Updates(first)), Sum(Updates(second));
        AddWrapped(x, y);
        assert Sum(Updates(c)) == x + y;
    }
  }

  lemma AddWrapped(x: nat, y: nat)
    ensures Add32(x % 0x1_0000_0000, y % 0x1_0000_0000) == (x + y) % 0x1_0000_0000
  {
    var q, r := y / 0x1_0000_0000, y % 0x1_0000_0000;
    WrapStep(x, r);
    WrapAgain(x + r, q);
    assert x + y == x + r + 0x1_0000_0000 * q;
  }

  lemma WrapAgain(x: int, q: int)
    ensures (x + 0x1_0000_0000 * q) % 0x1_0000_0000 == x % 0x1_0000_0000
  {
  }

  /** The outcome as ordinary sums modulo 2^32. */
  lemma OutcomeValue(mem: uint32, c: Code, tick: uint32, k: nat)
    ensures Add32(Add32(mem, Total(c)), Ticks(tick, k)) == (mem + Sum(Updates(c)) + tick * k) % 0x1_0000_0000
  {
    TotalIsSum(c);
    TicksValue(tick, k);
    AddTwice(mem, Sum(Updates(c)), tick * k);
  }

  lemma AddTwice(a: uint32, x: nat, y: nat)
    ensures Add32(Add32(a, x % 0x1_0000_0000), y % 0x1_0000_0000) == (a + x + y) % 0x1_0000_0000
  {
    assert a % 0x1_0000_0000 == a;
    AddWrapped(a, x);
    AddWrapped(a + x, y);
  }

  /** Protected code loses no update in any schedule, at any depth of nesting and in
      any surrounding program: when it has run, the variable has grown, modulo 2^32, by
      its updates and one tick for each interrupt taken meanwhile, and the mask and the
      saved masks are those it started with. */
  lemma NoUpdateLost(c: Code, s: Cpu, rest: seq<Instr>, schedule: seq<Turn>, tick: uint32)
    requires Protected(c, s.masked)
    requires s.todo == Compile(c) + rest && !s.holding
    requires Run(s, schedule, tick).todo == rest
    ensures var t := Run(s, schedule, tick);
            && t.taken >= s.taken
            && t.mem == (s.mem + Sum(Updates(c)) + tick * (t.taken - s.taken)) % 0x1_0000_0000
            && t.masked == s.masked && t.saved == s.saved
  {
    RunBeforeRest(s, Compile(c), rest, schedule, tick);
    var alone := s.(todo := Compile(c));
    var t := Run(alone, schedule, tick);
    assert |t.todo + rest| == |rest|;
    AloneLosesNothing(c, alone, schedule, tick);
    OutcomeValue(s.mem, c, tick, t.taken - s.taken);
  }

  lemma AloneLosesNothing(c: Code, s: Cpu, schedule: seq<Turn>, tick: uint32)
    requires Protected(c, s.masked) && !s.holding && s.todo == Compile(c)
    ensures var t := Run(s, schedule, tick);
            t.todo == [] ==>
              && t.taken >= s.taken
              && t.mem == Add32(Add32(s.mem, Total(c)), Ticks(tick, t.taken - s.taken))
              && t.masked == s.masked && t.saved == s.saved
  {
    assert Compile(c) + [] == Compile(c);
    CompiledIsSafe(c, [], s.masked, s.saved);
    OutcomeKept(s, schedule, tick);
    SoloCode(c, s, []);
  }

  // ----- and unprotected code does lose updates

  function MainTurns(n: nat): seq<Turn> {
    seq(n, _ => Main)
  }

  lemma {:induction false} RunConcat(s: Cpu, a: seq<Turn>, b: seq<Turn>, tick: uint32)
    ensures Run(s, a + b, tick) == Run(Run(s, a, tick), b, tick)
    decreases |b|
  {
    if b == [] {
      assert a + b == a;
    } else {
      var n := |b| - 1;
      assert (a + b)[..|a| + n] == a + b[..n];
      RunConcat(s, a, b[..n], tick);
    }
  }

  lemma {:induction false} SoloIsRun(s: Cpu, n: nat, tick: uint32)
    requires n <= |s.todo|
    ensures Run(s, MainTurns(n), tick) == Solo(s, n)
    decreases n
  {
    if n > 0 {
      assert MainTurns(n)[..n - 1] == MainTurns(n - 1);
      SoloIsRun(s, n - 1, tick);
      SoloSplit(s, n - 1, 1);
      SoloTodo(s, n - 1);
      var t := Solo(s, n - 1);
      assert Solo(t, 1) == Solo(Execute(t), 0);
    }
  }

  /** The run that loses a tick: the handler runs between the load and the store. */
  ghost predicate LosesTick(s: Cpu, t: Cpu, rest: seq<Instr>, total: uint32) {
    t == s.(todo := rest, mem := Add32(s.mem, total), reg := t.reg, taken := s.taken + 1)
  }

  lemma LosingUpdate(n: uint32, s: Cpu, rest: seq<Instr>, tick: uint32)
    requires !s.masked && !s.holding && s.todo == Compile(Update(n)) + rest
    ensures LosesTick(s, Run(s, [Main, Handler, Main, Main], tick), rest, n)
  {
    var s1 := Execute(s);
    assert s1.todo == [Add(n), Store] + rest;
    var s2 := Interrupt(s1, tick);
    var s3 := Execute(s2);
    assert s3.todo == [Store] + rest;
    var s4 := Execute(s3);
    assert s4.todo == rest;
    var w: seq<Turn> := [Main, Handler, Main, Main];
    assert w[..3][..2][..1][..0] == [];
    assert Run(s, w[..3][..2][..1], tick) == s1;
    assert Run(s, w[..3][..2], tick) == s2;
    assert Run(s, w[..3], tick) == s3;
    assert Run(s, w, tick) == s4;
  }

  lemma {:induction false} LosingSchedule(c: Code, s: Cpu, rest: seq<Instr>, tick: uint32) returns (schedule: seq<Turn>)
    requires !Protected(c, s.masked) && !s.holding
    requires s.todo == Compile(c) + rest
    ensures LosesTick(s, Run(s, schedule, tick), rest, Total(c))
    decreases c
  {
    if s.masked {
      ProtectedUnderMask(c);
    }
    match c {
      case Update(n) =>
        schedule := [Main, Handler, Main, Main];
        LosingUpdate(n, s, rest, tick);
      case Locked(body) =>
        ProtectedUnderMask(body);
        schedule := [];
      case Then(first, second) =>
        assert s.todo == Compile(first) + (Compile(second) + rest);
        Add32Laws(s.mem, Total(first), Total(second));
        if !Protected(first, s.masked) {
          var a := LosingSchedule(first, s, Compile(second) + rest, tick);
          var t := Run(s, a, tick);
          SoloCode(second, t, rest);
          SoloIsRun(t, |Compile(second)|, tick);
          schedule := a + MainTurns(|Compile(second)|);
          RunConcat(s, a, MainTurns(|Compile(second)|), tick);
        } else {
          SoloCode(first, s, Compile(second) + rest);
          SoloIsRun(s, |Compile(first)|, tick);
          var t := Solo(s, |Compile(first)|);
          var b := LosingSchedule(second, t, rest, tick);
          schedule := MainTurns(|Compile(first)|) + b;
          RunConcat(s, MainTurns(|Compile(first)|), b, tick);
        }
    }
  }

  /** From `s` to `t` the variable has grown by all updates and ticks. */
  ghost predicate CountsAll(c: Code, s: Cpu, t: Cpu, tick: uint32) {
    && t.taken >= s.taken
    && t.mem == (s.mem + Sum(Updates(c)) + tick * (t.taken - s.taken)) % 0x1_0000_0000
  }

  /** The variable is right after every complete run. */
  ghost predicate NeverLoses(c: Code, s: Cpu, tick: uint32)
    requires s.todo == Compile(c)
  {
    forall schedule :: Run(s, schedule, tick).todo == [] ==> CountsAll(c, s, Run(s, schedule, tick), tick)
  }

  lemma ProtectedNeverLoses(c: Code, s: Cpu, tick: uint32)
    requires s.todo == Compile(c) && !s.holding && Protected(c, s.masked)
    ensures NeverLoses(c, s, tick)
  {
    assert Compile(c) + [] == Compile(c);
    forall schedule | Run(s, schedule, tick).todo == [] ensures CountsAll(c, s, Run(s, schedule, tick), tick) {
      NoUpdateLost(c, s, [], schedule, tick);
    }
  }

  /** Exactly the protected programs lose no update. */
  lemma ProtectedIffNeverLoses(c: Code, s: Cpu, tick: uint32)
    requires s.todo == Compile(c) && !s.holding && tick != 0
    ensures Protected(c, s.masked) <==> NeverLoses(c, s, tick)
  {
    if Protected(c, s.masked) {
      ProtectedNeverLoses(c, s, tick);
    } else {
      UnprotectedLoses(c, s, tick);
    }
  }

  lemma UnprotectedLoses(c: Code, s: Cpu, tick: uint32)
    requires s.todo == Compile(c) && !s.holding && tick != 0 && !Protected(c, s.masked)
    ensures !NeverLoses(c, s, tick)
  {
    var schedule := LosingRun(c, s, tick);
    assert Run(s, schedule, tick).todo == [] && !CountsAll(c, s, Run(s, schedule, tick), tick);
  }

  lemma LosingRun(c: Code, s: Cpu, tick: uint32) returns (schedule: seq<Turn>)
    requires s.todo == Compile(c) && !s.holding && tick != 0 && !Protected(c, s.masked)
    ensures Run(s, schedule, tick).todo == [] && !CountsAll(c, s, Run(s, schedule, tick), tick)
  {
    assert Compile(c) + [] == Compile(c);
    schedule := LosingSchedule(c, s, [], tick);
    OutcomeValue(s.mem, c, tick, 1);
    assert Ticks(tick, 0) == 0 && Ticks(tick, 1) == tick;
    assert Run(s, schedule, tick).taken - s.taken == 1;
  }

  lemma LockedOutcome(n: uint32, s: Cpu, schedule: seq<Turn>, tick: uint32)
    requires !s.holding && s.todo == Compile(Locked(Update(n))) && Run(s, schedule, tick).todo == []
    ensures var t := Run(s, schedule, tick);
            && t.taken >= s.taken
            && t.mem == (s.mem + n + tick * (t.taken - s.taken)) % 0x1_0000_0000
            && t.masked == s.masked && t.saved == s.saved
  {
    var c := Locked(Update(n));
    assert Protected(Update(n), true);
    assert Compile(c) + [] == Compile(c);
    NoUpdateLost(c, s, [], schedule, tick);
    var one: seq<uint32> := [n];
    assert Updates(c) == Updates(Update(n)) == one && one[1..] == [];
  }

  /** SYS_ARCH_INC adds its argument to the variable, modulo 2^32, and loses no tick, in
      every schedule and whether or not interrupts were masked before it. */
  lemma IncOutcome(n: uint32, s: Cpu, schedule: seq<Turn>, tick: uint32)
    requires !s.holding && s.todo == Compile(Inc(n)) && Run(s, schedule, tick).todo == []
    ensures var t := Run(s, schedule, tick);
            && t.taken >= s.taken
            && t.mem == (s.mem + n + tick * (t.taken - s.taken)) % 0x1_0000_0000
            && t.masked == s.masked && t.saved == s.saved
  {
    LockedOutcome(n, s, schedule, tick);
  }

  /** SYS_ARCH_DEC subtracts it. */
  lemma DecOutcome(n: uint32, s: Cpu, schedule: seq<Turn>, tick: uint32)
    requires !s.holding && s.todo == Compile(Dec(n)) && Run(s, schedule, tick).todo == []
    ensures var t := Run(s, schedule, tick);
            && t.taken >= s.taken
            && t.mem == (s.mem - n + tick * (t.taken - s.taken)) % 0x1_0000_0000
            && t.masked == s.masked && t.saved == s.saved
  {
    var m: uint32 := if n == 0 then 0 else 0x1_0000_0000 - n;
    LockedOutcome(m, s, schedule, tick);
    var t := Run(s, schedule, tick);
    WrapAgain(s.mem - n + tick * (t.taken - s.taken), 1);
  }

  /** Alone, each takes six instructions, and one takes back the other. */
  lemma IncThenDec(n: uint32, s: Cpu, tick: uint32)
    requires !s.holding && s.todo == Compile(Then(Inc(n), Dec(n)))
    ensures var t := Run(s, MainTurns(12), tick);
            t.todo == [] && t.mem == s.mem && t.masked == s.masked && t.saved == s.saved
  {
    var c := Then(Inc(n), Dec(n));
    assert |Compile(Inc(n))| == 6 && |Compile(Dec(n))| == 6 && Compile(c) + [] == Compile(c);
    assert Total(c) == 0 by {
      var m: uint32 := if n == 0 then 0 else 0x1_0000_0000 - n;
      assert Total(Inc(n)) == Total(Update(n)) == n && Total(Dec(n)) == Total(Update(m)) == m;
    }
    SoloCode(c, s, []);
    SoloIsRun(s, |Compile(c)|, tick);
  }
}
