/** The RAM disk over every sequence of calls, told by its history alone. */
module RamDiskRuns {
  import opened CLib
  import opened RamDisk

  datatype Op = Init | Create(name: string) | Write(name: string, data: string) | Read(name: string)

  function Apply(d: Disk, op: Op): Disk {
    match op
    case Init => EMPTY
    case Create(name) => DiskCreate(d, name)
    case Write(name, data) => DiskWrite(d, name, data)
    case Read(_) => d
  }

  function RunFrom(d: Disk, ops: seq<Op>): Disk {
    if ops == [] then d else Apply(RunFrom(d, ops[..|ops| - 1]), ops[|ops| - 1])
  }

  function Run(ops: seq<Op>): Disk {
    RunFrom(EMPTY, ops)
  }

  /** What a call returns: its code, and the text a read finds. */
  datatype Output = Output(code: int, text: string)

  function OutputOf(d: Disk, op: Op): Output {
    match op
    case Init => Output(0, "")
    case Create(_) => Output(if d.count < MAX_FILES then 0 else -1, "")
    case Write(name, _) => Output(if name in d.contents then 0 else -1, "")
    case Read(name) => if name in d.contents then Output(0, d.contents[name]) else Output(-1, "")
  }

  function Outputs(d: Disk, ops: seq<Op>): seq<Output> {
    if ops == [] then []
    else
      var n := |ops| - 1;
      Outputs(d, ops[..n]) + [OutputOf(RunFrom(d, ops[..n]), ops[n])]
  }

  predicate IsText(op: Op) {
    match op
    case Init => true
    case Create(name) => NUL !in name
    case Write(name, data) => NUL !in name && NUL !in data
    case Read(name) => NUL !in name
  }

  // ----- the code over a sequence of calls

  /** The calls made one after another on any table, whatever its slots hold: each
      returns what the abstract disk does. */
  method Replay(table: Table, ops: seq<Op>) returns (outputs: seq<Output>)
    requires table.Valid() && forall i :: 0 <= i < |ops| ==> IsText(ops[i])
    modifies table, table.files
    ensures table.Valid() && table.View() == RunFrom(old(table.View()), ops)
    ensures outputs == Outputs(old(table.View()), ops)
  {
    outputs := [];
    for i := 0 to |ops|
      invariant table.Valid() && table.View() == RunFrom(old(table.View()), ops[..i])
      invariant outputs == Outputs(old(table.View()), ops[..i])
    {
      assert ops[..i + 1][..i] == ops[..i];
      var output := Call(table, ops[i]);
      outputs := outputs + [output];
    }
    assert ops[..|ops|] == ops;
  }

  method Call(table: Table, op: Op) returns (output: Output)
    requires table.Valid() && IsText(op)
    modifies table, table.files
    ensures table.Valid() && table.View() == Apply(old(table.View()), op)
    ensures output == OutputOf(old(table.View()), op)
  {
    match op {
      case Init =>
        table.Init();
        output := Output(0, "");
      case Create(name) =>
        var r := table.Create(name);
        output := Output(r, "");
      case Write(name, data) =>
        var r := table.Write(name, data);
        output := Output(r, "");
      case Read(name) =>
        var buffer := new char[MAX_FILE_SIZE](_ => NUL);
        table.ContentsFit(name);
        var r := table.Read(name, buffer);
        if r == 0 {
          ghost var text := table.View().contents[name];
          assert buffer[..][..|text|] == text && buffer[..][|text|] == NUL;
          CStrIs(buffer[..], |text|);
          var n := Strlen(buffer);
          output := Output(0, buffer[..n]);
        } else {
          output := Output(-1, "");
        }
    }
  }

  // ----- the history

  /** The position after the last `Init`. */
  function Since(ops: seq<Op>): (k: nat)
    ensures k <= |ops|
  {
    if ops == [] then 0
    else if ops[|ops| - 1].Init? then |ops|
    else Since(ops[..|ops| - 1])
  }

  /** The creates from the last `Init` up to position `i`. */
  function Creates(ops: seq<Op>, k: nat, i: nat): nat
    requires k <= i <= |ops|
    decreases i
  {
    if i == k then 0 else Creates(ops, k, i - 1) + if ops[i - 1].Create? then 1 else 0
  }

  /** Call `i` created a file that is looked up as `name`. */
  predicate Made(ops: seq<Op>, name: string, i: nat) {
    && Since(ops) <= i < |ops|
    && ops[i].Create? && Take(ops[i].name, 31) == name
    && Creates(ops, Since(ops), i) < 16
  }

  predicate Wrote(ops: seq<Op>, name: string, i: nat) {
    i < |ops| && ops[i].Write? && ops[i].name == name
  }

  lemma {:induction false} CreatesPrefix(ops: seq<Op>, n: nat, k: nat, i: nat)
    requires k <= i <= n <= |ops|
    ensures Creates(ops[..n], k, i) == Creates(ops, k, i)
    decreases i
  {
    if i > k {
      CreatesPrefix(ops, n, k, i - 1);
    }
  }

  lemma MadePrefix(ops: seq<Op>, name: string, i: nat)
    requires ops != [] && !ops[|ops| - 1].Init? && i < |ops| - 1
    ensures Made(ops[..|ops| - 1], name, i) <==> Made(ops, name, i)
  {
    var n := |ops| - 1;
    if Since(ops) <= i {
      CreatesPrefix(ops, n, Since(ops), i);
    }
  }

  // ----- what the disk holds

  /** The table is full exactly when 16 creates have been made since `Init`. */
  lemma {:induction false} CountIsCreates(ops: seq<Op>)
    ensures Run(ops).count
         == var c := Creates(ops, Since(ops), |ops|); if c < 16 then c else 16
    decreases |ops|
  {
    if ops != [] {
      var n := |ops| - 1;
      CountIsCreates(ops[..n]);
      if !ops[n].Init? {
        CreatesPrefix(ops, n, Since(ops), n);
      }
    }
  }

  /** A lookup hits exactly the stored names of the creates that found room since
      `Init`. */
  lemma {:induction false} HitIffMade(ops: seq<Op>, name: string)
    ensures name in Run(ops).contents <==> exists i: nat :: Made(ops, name, i)
    decreases |ops|
  {
    if ops != [] && !ops[|ops| - 1].Init? {
      var n := |ops| - 1;
      HitIffMade(ops[..n], name);
      CountIsCreates(ops[..n]);
      CreatesPrefix(ops, n, Since(ops), n);
      if i: nat :| Made(ops[..n], name, i) {
        MadePrefix(ops, name, i);
      }
      if i: nat :| Made(ops, name, i) && i < n {
        MadePrefix(ops, name, i);
      }
      assert name in Run(ops).contents && name !in Run(ops[..n]).contents ==> Made(ops, name, n);
    }
  }

  /** A read returns the last write to the name since it was made, up to 255
      characters, whatever was written or created in between. */
  lemma {:induction false} ReadReturnsLastWrite(ops: seq<Op>, name: string, i: nat, j: nat)
    requires Made(ops, name, i) && i < j && Wrote(ops, name, j)
    requires forall m: nat :: j < m ==> !Wrote(ops, name, m)
    ensures name in Run(ops).contents
    ensures Run(ops).contents[name] == Take(ops[j].data, 255)
    decreases |ops|
  {
    var n := |ops| - 1;
    SinceLast(ops, i);
    MadePrefix(ops, name, i);
    HitIffMade(ops[..n], name);
    if j < n {
      assert !Wrote(ops, name, n);
      forall m: nat | j < m ensures !Wrote(ops[..n], name, m) {
        assert !Wrote(ops, name, m);
      }
      ReadReturnsLastWrite(ops[..n], name, i, j);
    }
  }

  lemma SinceLast(ops: seq<Op>, i: nat)
    requires Since(ops) <= i < |ops| - 1
    ensures !ops[|ops| - 1].Init?
  {
  }

  /** A file made and not written since reads as empty; so a new file never shows what
      its slot held before. */
  lemma {:induction false} UnwrittenReadsEmpty(ops: seq<Op>, name: string, i: nat)
    requires Made(ops, name, i)
    requires forall m: nat :: m < i ==> !Made(ops, name, m)
    requires forall m: nat :: i < m ==> !Wrote(ops, name, m)
    ensures name in Run(ops).contents && Run(ops).contents[name] == ""
    decreases |ops|
  {
    var n := |ops| - 1;
    if i < n {
      SinceLast(ops, i);
      MadePrefix(ops, name, i);
      assert !Wrote(ops, name, n);
      forall m: nat | m < i ensures !Made(ops[..n], name, m) {
        MadePrefix(ops, name, m);
      }
      forall m: nat | i < m ensures !Wrote(ops[..n], name, m) {
        assert !Wrote(ops, name, m);
      }
      UnwrittenReadsEmpty(ops[..n], name, i);
    } else {
      HitIffMade(ops[..n], name);
      if m: nat :| Made(ops[..n], name, m) {
        MadePrefix(ops, name, m);
      }
      CountIsCreates(ops[..n]);
      CreatesPrefix(ops, n, Since(ops), n);
    }
  }

  // ----- what the calls return

  lemma {:induction false} OutputAt(d: Disk, ops: seq<Op>, n: nat)
    requires n < |ops|
    ensures |Outputs(d, ops)| == |ops|
    ensures Outputs(d, ops)[n] == OutputOf(RunFrom(d, ops[..n]), ops[n])
    decreases |ops|
  {
    var m := |ops| - 1;
    if m > 0 {
      OutputAt(d, ops[..m], if n < m then n else 0);
    }
    if n < m {
      assert ops[..m][..n] == ops[..n];
    }
  }

  /** The code of each call, told by the calls before it: a create fails exactly after 16
      creates since the last `Init`, and a write or read exactly if its name was not made. */
  lemma CodeOfCall(ops: seq<Op>, n: nat)
    requires n < |ops|
    ensures |Outputs(EMPTY, ops)| == |ops|
    ensures var before, code := ops[..n], Outputs(EMPTY, ops)[n].code;
            match ops[n]
            case Init => code == 0
            case Create(_) => code == if Creates(before, Since(before), n) < 16 then 0 else -1
            case Write(name, _) => code == if exists i: nat :: Made(before, name, i) then 0 else -1
            case Read(name) => code == if exists i: nat :: Made(before, name, i) then 0 else -1
  {
    OutputAt(EMPTY, ops, n);
    CountIsCreates(ops[..n]);
    match ops[n]
    case Write(name, _) => HitIffMade(ops[..n], name);
    case Read(name) => HitIffMade(ops[..n], name);
    case _ =>
  }

  /** The text of a read: the last write to the name since it was made, up to 255
      characters; or nothing, if there was none. */
  lemma TextOfRead(ops: seq<Op>, n: nat, name: string, i: nat)
    requires n < |ops| && ops[n] == Read(name) && Made(ops[..n], name, i)
    ensures |Outputs(EMPTY, ops)| == |ops|
    ensures forall j: nat :: i < j && Wrote(ops[..n], name, j) && (forall m: nat :: j < m ==> !Wrote(ops[..n], name, m)) ==>
              Outputs(EMPTY, ops)[n] == Output(0, Take(ops[j].data, 255))
    ensures (forall m: nat :: m < i ==> !Made(ops[..n], name, m)) && (forall m: nat :: i < m ==> !Wrote(ops[..n], name, m)) ==>
              Outputs(EMPTY, ops)[n] == Output(0, "")
  {
    OutputAt(EMPTY, ops, n);
    forall j: nat | i < j && Wrote(ops[..n], name, j) && (forall m: nat :: j < m ==> !Wrote(ops[..n], name, m))
      ensures Outputs(EMPTY, ops)[n] == Output(0, Take(ops[j].data, 255))
    {
      ReadReturnsLastWrite(ops[..n], name, i, j);
    }
    if (forall m: nat :: m < i ==> !Made(ops[..n], name, m)) && (forall m: nat :: i < m ==> !Wrote(ops[..n], name, m)) {
      UnwrittenReadsEmpty(ops[..n], name, i);
    }
  }

  /** Nothing from before an `Init` is seen after it, on any table. */
  lemma {:induction false} InitForgets(d: Disk, before: seq<Op>, after: seq<Op>)
    ensures RunFrom(d, before + [Init] + after) == Run(after)
    decreases |after|
  {
    var ops := before + [Init] + after;
    if after == [] {
      assert ops[|ops| - 1] == Init;
    } else {
      assert ops[..|ops| - 1] == before + [Init] + after[..|after| - 1];
      InitForgets(d, before, after[..|after| - 1]);
    }
  }

  /** A file created a second time: two slots are taken, and reads go on finding what was
      written to the first. */
  lemma SecondCreate(name: string, data: string)
    requires |name| <= 31 && |data| <= 255
    ensures var d := Run([Create(name), Write(name, data), Create(name)]);
            d.count == 2 && d.contents == map[name := data]
  {
    var one: seq<Op> := [Create(name)];
    var two := one + [Write(name, data)];
    assert one[..0] == [] && two[..1] == one && (two + one)[..2] == two;
    assert Run(one) == Apply(Run([]), Create(name)) == Disk(1, map[name := ""]);
    assert Run(two) == Apply(Run(one), Write(name, data)) == Disk(1, map[name := data]);
    assert two + one == [Create(name), Write(name, data), Create(name)];
  }
}
