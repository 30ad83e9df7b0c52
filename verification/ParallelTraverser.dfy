// The task system running the parallel bootstrap traverser (bin/parallel-bootstrap-traverser.py:93-401)
// refines the plain collection of pending operations, so what holds of all interleavings there holds
// of all runs of the workers here.
module ParallelTraverser {
  import opened Wrappers
  import opened BootstrapGraph
  import opened BootstrapOps
  import opened BootstrapLedger
  import opened BootstrapRuns
  import opened TaskSystem

  // ---- The operations that the threads hold ----

  function InTodo(todo: seq<Item>, op: Op): nat {
    if todo == [] then 0 else (if todo[0].op == op then 1 else 0) + InTodo(todo[1..], op)
  }

  function AtPc(pc: Pc, op: Op): nat {
    match pc
    case Popped(o) => if o == op then 1 else 0
    case Running(todo) => InTodo(todo, op)
    case Adding(o, _, rest) => (if o == op then 1 else 0) + InTodo(rest, op)
    case Appending(o, _, rest) => (if o == op then 1 else 0) + InTodo(rest, op)
    case _ => 0
  }

  function InCell(c: Cell, op: Op): nat {
    multiset(c.queue)[op] + AtPc(c.pc, op)
  }

  function InCells(cells: seq<Cell>, op: Op): nat {
    if cells == [] then 0 else InCell(cells[0], op) + InCells(cells[1..], op)
  }

  // What is pending is what is in the queues and what the threads have yet to do or to add.
  ghost predicate Represents(m: Machine, s: State) {
    && s.shared == m.shared
    && s.started == (m.round != Blobs)
    && forall op :: s.pending[op] == InCells(m.cells, op) + AtPc(m.main, op)
  }

  lemma {:induction false} CellsUpdate(cells: seq<Cell>, i: nat, c: Cell, op: Op)
    requires i < |cells|
    ensures InCell(cells[i], op) <= InCells(cells, op)
    ensures InCells(cells[i := c], op) == InCells(cells, op) - InCell(cells[i], op) + InCell(c, op)
  {
    if i == 0 {
      assert cells[0 := c][1..] == cells[1..];
    } else {
      CellsUpdate(cells[1..], i - 1, c, op);
      assert cells[i := c][1..] == cells[1..][i - 1 := c];
    }
  }

  lemma {:induction false} TodoConcat(a: seq<Item>, b: seq<Item>, op: Op)
    ensures InTodo(a + b, op) == InTodo(a, op) + InTodo(b, op)
  {
    if a == [] {
      assert a + b == b;
    } else {
      TodoConcat(a[1..], b, op);
      assert (a + b)[1..] == a[1..] + b;
    }
  }

  lemma {:induction false} InTasks(ops: seq<Op>, op: Op)
    ensures InTodo(Dos(ops), op) == multiset(ops)[op] == InTodo(Adds(ops), op)
  {
    if ops != [] {
      InTasks(ops[1..], op);
      assert ops == [ops[0]] + ops[1..];
      assert Dos(ops)[1..] == Dos(ops[1..]) && Adds(ops)[1..] == Adds(ops[1..]);
    }
  }

  // ---- Each step of a thread is a step on what is pending, or nothing there ----

  // Nothing but the places of the operations differs.
  ghost predicate SameWork(m: Machine, m': Machine) {
    && m'.shared == m.shared && m'.round == m.round
    && forall op :: InCells(m'.cells, op) + AtPc(m'.main, op) == InCells(m.cells, op) + AtPc(m.main, op)
  }

  lemma TookFirst(queue: seq<Op>, op: Op)
    requires queue != []
    ensures multiset(queue)[op] == multiset(queue[1..])[op] + if queue[0] == op then 1 else 0
  {
    assert queue == [queue[0]] + queue[1..];
  }

  lemma QueueCell(m: Machine, i: nat, m': Machine, op: Op)
    requires i < |m.cells| && QueueStep(m, i, m')
    ensures |m'.cells| == |m.cells| && InCell(m'.cells[i], op) == InCell(m.cells[i], op)
  {
    var c := m.cells[i];
    if c.queue != [] {
      TookFirst(c.queue, op);
    }
    if c.pc.Popped? {
      assert InTodo([Do(c.pc.op)], op) == (if c.pc.op == op then 1 else 0) + InTodo([], op);
    }
  }

  lemma QueueStepSame(m: Machine, i: nat, m': Machine)
    requires i < |m.cells| && QueueStep(m, i, m')
    ensures SameWork(m, m')
  {
    forall op ensures InCells(m'.cells, op) == InCells(m.cells, op) {
      QueueCell(m, i, m', op);
      CellsUpdate(m.cells, i, m'.cells[i], op);
      assert m'.cells == m.cells[i := m'.cells[i]];
    }
  }

  lemma ExecCell(g: Graph, m: Machine, i: nat, o: Op, m': Machine, op: Op)
    requires i < |m.cells| && ExecStep(g, m, i, o, m')
    ensures
      var e := Exec(g, m.shared, o);
      InCells(m'.cells, op) == InCells(m.cells, op) - (if o == op then 1 else 0) + multiset(e.next)[op]
          + multiset(e.tasks)[op]
    ensures o == op ==> InCells(m.cells, op) > 0
  {
    var c, c', e := m.cells[i], m'.cells[i], Exec(g, m.shared, o);
    var rest := c.pc.todo[1..];
    InTasks(e.next, op);
    InTasks(e.tasks, op);
    TodoConcat(Dos(e.next) + Adds(e.tasks), rest, op);
    TodoConcat(Dos(e.next), Adds(e.tasks), op);
    CellsUpdate(m.cells, i, c', op);
    assert AtPc(c.pc, op) == (if o == op then 1 else 0) + InTodo(rest, op);
    assert InCell(c', op) == InCell(c, op) - (if o == op then 1 else 0) + multiset(e.next)[op] + multiset(e.tasks)[op];
  }

  lemma ExecStepSimulates(g: Graph, m: Machine, i: nat, o: Op, m': Machine, s: State) returns (s': State)
    requires i < |m.cells| && ExecStep(g, m, i, o, m') && Represents(m, s)
    ensures OpStep(g, s, o, s') && Represents(m', s')
  {
    var e := Exec(g, m.shared, o);
    s' := State(s.pending - multiset{o} + multiset(e.next) + multiset(e.tasks), e.shared, s.started);
    ExecCell(g, m, i, o, m', o);
    forall op ensures s'.pending[op] == InCells(m'.cells, op) + AtPc(m'.main, op) {
      ExecCell(g, m, i, o, m', op);
    }
  }

  // One step of add leaves out nothing and duplicates nothing.
  lemma AddStepSame(m: Machine, pc: Pc, m1: Machine, pc': Pc, op: Op)
    requires AddStep(m, pc, m1, pc')
    ensures InCells(m1.cells, op) + AtPc(pc', op) == InCells(m.cells, op) + AtPc(pc, op)
    ensures m1.shared == m.shared && m1.main == m.main && m1.round == m.round
    ensures |m1.cells| == |m.cells| && forall j | 0 <= j < |m.cells| :: m1.cells[j].pc == m.cells[j].pc
  {
    if pc.Appending? {
      CellsUpdate(m.cells, pc.target, m1.cells[pc.target], op);
      assert multiset(m.cells[pc.target].queue + [pc.op]) == multiset(m.cells[pc.target].queue) + multiset([pc.op]);
    }
  }

  lemma WorkerAddSame(m: Machine, i: nat, m1: Machine, pc': Pc, m': Machine)
    requires i < |m.cells| && AddStep(m, m.cells[i].pc, m1, pc') && |m1.cells| == |m.cells| && m' == WithPc(m1, i, pc')
    ensures SameWork(m, m')
  {
    forall op ensures InCells(m'.cells, op) + AtPc(m'.main, op) == InCells(m.cells, op) + AtPc(m.main, op) {
      AddStepSame(m, m.cells[i].pc, m1, pc', op);
      CellsUpdate(m1.cells, i, m1.cells[i].(pc := pc'), op);
    }
    AddStepSame(m, m.cells[i].pc, m1, pc', WriteBlob(""));
  }

  lemma MainAddSame(m: Machine, m1: Machine, pc': Pc, m': Machine)
    requires AddStep(m, m.main, m1, pc') && m' == m1.(main := pc')
    ensures SameWork(m, m')
  {
    forall op ensures InCells(m'.cells, op) + AtPc(m'.main, op) == InCells(m.cells, op) + AtPc(m.main, op) {
      AddStepSame(m, m.main, m1, pc', op);
    }
    AddStepSame(m, m.main, m1, pc', WriteBlob(""));
  }

  lemma {:induction false} QuietCells(cells: seq<Cell>, pc: Pc, op: Op)
    requires (pc == Suspended || pc == Top) && forall i | 0 <= i < |cells| :: cells[i] == Cell([], pc)
    ensures InCells(cells, op) == 0
  {
    if cells != [] {
      assert forall i | 0 <= i < |cells[1..]| :: cells[1..][i] == cells[i + 1];
      QuietCells(cells[1..], pc, op);
    }
  }

  // finish returns only when nothing is pending.
  lemma FinishesWhenDone(m: Machine, s: State)
    requires Valid(m) && Represents(m, s) && m.main == Pc.Running([]) && m.total == 0
    ensures s.pending == multiset{}
  {
    ZeroMeansQuiet(m);
    forall op ensures s.pending[op] == 0 {
      QuietCells(m.cells, Suspended, op);
    }
  }

  lemma InRunning(tasks: seq<Op>, op: Op)
    ensures AtPc(Pc.Running(Adds(tasks)), op) == multiset(tasks)[op]
  {
    InTasks(tasks, op);
  }

  lemma FinishStepSimulates(g: Graph, targets: Targets, m: Machine, m': Machine, s: State) returns (s': State)
    requires Valid(m) && FinishStep(targets, m, m') && Represents(m, s)
    ensures Represents(m', s') && s.pending == multiset{}
    ensures if m.round == Blobs then StartStep(targets, s, s') else s' == s
  {
    hide Valid, TargetTasks, InCells, AtPc;
    FinishesWhenDone(m, s);
    if m.round == Blobs {
      var tasks :| multiset(tasks) == TargetTasks(targets)
          && m' == m.(round := Artifacts, main := Pc.Running(Adds(tasks)));
      s' := State(TargetTasks(targets), s.shared, true);
      forall op ensures s'.pending[op] == InCells(m'.cells, op) + AtPc(m'.main, op) {
        InRunning(tasks, op);
        assert s.pending[op] == 0;
      }
    } else {
      s' := s;
    }
  }

  // What a step of the machine means for what is pending: no step of it, with less rank then; or a
  // step, which costs at most twelve for each operation that is added or executed.
  ghost predicate Simulates(g: Graph, targets: Targets, m: Machine, m': Machine, s: State, o: Option<Option<Op>>,
                            s': State)
  {
    match o
    case None => s' == s && Rank(m') < Rank(m)
    case Some(op) => TakesStep(g, targets, s, op, s') && Rank(m') < Rank(m) + 12 * (1 + |s'.pending| - |s.pending|)
  }

  lemma WorkerStepSimulates(g: Graph, targets: Targets, m: Machine, i: nat, m': Machine, s: State)
    returns (o: Option<Option<Op>>, s': State)
    requires Valid(m) && WorkerStep(g, m, i, m') && Represents(m, s)
    ensures Represents(m', s') && Simulates(g, targets, m, m', s, o, s')
  {
    o, s' := None, s;
    if QueueStep(m, i, m') {
      QueueStepSame(m, i, m');
      QueueStepRank(m, i, m');
    } else if op :| ExecStep(g, m, i, op, m') {
      s' := ExecStepSimulates(g, m, i, op, m', s);
      o := Some(Some(op));
      ExecStepRank(g, m, i, op, m');
      assert |s'.pending| == |s.pending| - 1 + |Exec(g, m.shared, op).next| + |Exec(g, m.shared, op).tasks|;
    } else {
      var m1, pc' :| AddStep(m, m.cells[i].pc, m1, pc') && |m1.cells| == |m.cells| && m' == WithPc(m1, i, pc');
      WorkerAddSame(m, i, m1, pc', m');
      WorkerAddRank(m, i, m1, pc', m');
    }
  }

  lemma FinishStepRank(targets: Targets, m: Machine, m': Machine)
    requires FinishStep(targets, m, m')
    ensures if m.round == Blobs then Rank(m') == Rank(m) - 1 + 11 * |TargetTasks(targets)| else Rank(m') < Rank(m)
  {
    if m.round == Blobs {
      var tasks :| multiset(tasks) == TargetTasks(targets)
          && m' == m.(round := Artifacts, main := Pc.Running(Adds(tasks)));
      RankOfOps(tasks);
      assert |multiset(tasks)| == |tasks|;
    }
  }

  lemma StepSimulates(g: Graph, targets: Targets, m: Machine, m': Machine, s: State)
    returns (o: Option<Option<Op>>, s': State)
    requires Valid(m) && MachineStep(g, targets, m, m') && Represents(m, s)
    ensures Represents(m', s') && Simulates(g, targets, m, m', s, o, s')
  {
    o, s' := None, s;
    if FinishStep(targets, m, m') {
      s' := FinishStepSimulates(g, targets, m, m', s);
      FinishStepRank(targets, m, m');
      if m.round == Blobs {
        o := Some(None);
      }
    } else if MainStep(targets, m, m') {
      var m1, pc' :| AddStep(m, m.main, m1, pc') && m' == m1.(main := pc');
      MainAddSame(m, m1, pc', m');
      AddStepRank(m, m.main, m1, pc');
    } else {
      var i: nat :| WorkerStep(g, m, i, m');
      o, s' := WorkerStepSimulates(g, targets, m, i, m', s);
    }
  }

  // ---- Runs of the task system ----

  ghost predicate IsExecution(g: Graph, targets: Targets, ms: seq<Machine>) {
    && ms != [] && Initial(g, ms[0])
    && forall i | 0 <= i < |ms| - 1 :: MachineStep(g, targets, ms[i], ms[i + 1])
  }

  lemma ExecutionPrefix(g: Graph, targets: Targets, ms: seq<Machine>, n: nat)
    requires IsExecution(g, targets, ms) && 0 < n <= |ms|
    ensures IsExecution(g, targets, ms[..n])
  {
    var p := ms[..n];
    forall i | 0 <= i < |p| - 1 ensures MachineStep(g, targets, p[i], p[i + 1]) {
      assert MachineStep(g, targets, ms[i], ms[i + 1]);
    }
  }

  lemma InitialIsStart(g: Graph, m: Machine) returns (s: State)
    requires Initial(g, m)
    ensures Start(g, s) && Represents(m, s)
    ensures Rank(m) <= 5 * |m.cells| + 8 + 12 * |s.pending|
  {
    var tasks :| multiset(tasks) == multiset(set id | id in g.blobs :: WriteBlob(id))
        && m.main == Pc.Running(Adds(tasks));
    s := State(multiset(tasks), m.shared, false);
    forall op ensures s.pending[op] == InCells(m.cells, op) + AtPc(m.main, op) {
      InTasks(tasks, op);
      QuietCells(m.cells, Top, op);
    }
    InitialRank(m.cells);
    RankOfOps(tasks);
  }

  lemma ExtendedIsRun(g: Graph, targets: Targets, states: seq<State>, ops: seq<Option<Op>>, o: Option<Op>, s: State)
    requires IsRun(g, targets, states, ops) && TakesStep(g, targets, states[|ops|], o, s)
    ensures IsRun(g, targets, states + [s], ops + [o])
  {
    var states', ops' := states + [s], ops + [o];
    forall i | 0 <= i < |ops'| ensures TakesStep(g, targets, states'[i], ops'[i], states'[i + 1]) {
      if i < |ops| {
        assert TakesStep(g, targets, states[i], ops[i], states[i + 1]);
        assert states'[i] == states[i] && states'[i + 1] == states[i + 1] && ops'[i] == ops[i];
      } else {
        assert states'[i] == states[|ops|] && ops'[i] == o;
      }
    }
  }

  // Every execution of the task system is a run on what is pending, and each of its steps uses up some
  // of the rank.
  lemma {:induction false} ExecutionIsRun(g: Graph, targets: Targets, ms: seq<Machine>)
    returns (states: seq<State>, ops: seq<Option<Op>>)
    requires IsExecution(g, targets, ms)
    ensures Valid(ms[|ms| - 1])
    ensures IsRun(g, targets, states, ops) && Represents(ms[|ms| - 1], states[|ops|])
    ensures ms[|ms| - 1].round == Over ==> states[|ops|].pending == multiset{}
    ensures |ms| + Rank(ms[|ms| - 1]) <= 5 * |ms[0].cells| + 9 + 12 * (|ops| + |states[|ops|].pending|)
    decreases |ms|
  {
    var n := |ms| - 1;
    if n == 0 {
      InitialIsValid(g, ms[0]);
      var s := InitialIsStart(g, ms[0]);
      states, ops := [s], [];
    } else {
      assert MachineStep(g, targets, ms[n - 1], ms[n]);
      ExecutionPrefix(g, targets, ms, n);
      states, ops := ExecutionIsRun(g, targets, ms[..n]);
      StepKeepsValid(g, targets, ms[n - 1], ms[n]);
      states, ops := NextRun(g, targets, ms[n - 1], ms[n], states, ops);
    }
  }

  lemma NextRun(g: Graph, targets: Targets, m: Machine, m': Machine, states: seq<State>, ops: seq<Option<Op>>)
    returns (states': seq<State>, ops': seq<Option<Op>>)
    requires Valid(m) && MachineStep(g, targets, m, m') && IsRun(g, targets, states, ops)
    requires Represents(m, states[|ops|])
    requires m.round == Over ==> states[|ops|].pending == multiset{}
    ensures IsRun(g, targets, states', ops') && Represents(m', states'[|ops'|])
    ensures m'.round == Over ==> states'[|ops'|].pending == multiset{}
    ensures Rank(m') < Rank(m) + 12 * (|ops'| + |states'[|ops'|].pending| - |ops| - |states[|ops|].pending|)
  {
    var o, s := StepSimulates(g, targets, m, m', states[|ops|]);
    OverStaysOver(g, targets, m, m', states[|ops|], o, s);
    if o.None? {
      states', ops' := states, ops;
    } else {
      states', ops' := states + [s], ops + [o.value];
      ExtendedIsRun(g, targets, states, ops, o.value, s);
    }
  }

  // Nothing is pending once the traverser is through.
  lemma OverStaysOver(g: Graph, targets: Targets, m: Machine, m': Machine, s: State, o: Option<Option<Op>>, s': State)
    requires Valid(m) && MachineStep(g, targets, m, m') && Represents(m, s) && Represents(m', s')
    requires Simulates(g, targets, m, m', s, o, s')
    requires m.round == Over ==> s.pending == multiset{}
    ensures m'.round == Over ==> s'.pending == multiset{}
  {
    if m'.round == Over {
      if m.round == Over {
        assert s' == s;
      } else if FinishStep(targets, m, m') {
        FinishesWhenDone(m, s);
        forall op ensures s'.pending[op] == 0 {
          assert s.pending[op] == 0;
        }
      } else {
        RoundStays(g, targets, m, m');
      }
    }
  }

  // No execution is longer than this, and it can go on until the traverser is through: whatever the
  // interleaving, every execution ends, and with the last round then.
  lemma ExecutionsEnd(g: Graph, targets: Targets, ms: seq<Machine>)
    requires IsExecution(g, targets, ms) && ClosedFor(g, targets)
    ensures |ms| <= 5 * |ms[0].cells| + 9 + 12 * |Work(g, targets)|
    ensures GoesOn(g, targets, ms[|ms| - 1]) <==> ms[|ms| - 1].round != Over
  {
    var states, ops := ExecutionIsRun(g, targets, ms);
    RunsEnd(g, targets, states, ops);
    GoesOnUntilOver(g, targets, ms[|ms| - 1]);
  }

  // When no thread can go on any more, exactly the targets that do not depend on themselves are linked,
  // each one to its value, and no command has been run twice.
  lemma TraverserIsCorrect(g: Graph, targets: Targets, ms: seq<Machine>)
    requires IsExecution(g, targets, ms) && ClosedFor(g, targets) && !GoesOn(g, targets, ms[|ms| - 1])
    ensures
      var sh := ms[|ms| - 1].shared;
      && NoRepeats(sh.log)
      && AllComplete(g, sh)
      && (forall k | k in sh.log :: k in sh.results && IsValue(g, k, sh.results[k]))
      && forall l | l in targets ::
           && (ToOut(l) in sh.links <==> AcyclicArtifact(g, targets[l]))
           && (ToOut(l) in sh.links ==>
                 && sh.links[ToOut(l)] == PathOf(targets[l])
                 && IsArtifactValue(g, targets[l], Deref(sh.blobs, sh.results, sh.links[ToOut(l)]))
                 && (KeyOf(targets[l]).Some? ==> IsComplete(sh, KeyOf(targets[l]).value)))
  {
    var states, ops := ExecutionIsRun(g, targets, ms);
    GoesOnUntilOver(g, targets, ms[|ms| - 1]);
    AllBuiltInTheEnd(g, targets, states, ops);
    var L := RunIsAccountedFor(g, targets, states, ops);
  }

  lemma RoundStays(g: Graph, targets: Targets, m: Machine, m': Machine)
    requires MachineStep(g, targets, m, m') && !FinishStep(targets, m, m')
    ensures m'.round == m.round
  {
    if MainStep(targets, m, m') {
      var m1, pc' :| AddStep(m, m.main, m1, pc') && m' == m1.(main := pc');
    } else {
      var i: nat :| WorkerStep(g, m, i, m');
      if !QueueStep(m, i, m') && !exists op :: ExecStep(g, m, i, op, m') {
        var m1, pc' :| AddStep(m, m.cells[i].pc, m1, pc') && |m1.cells| == |m.cells| && m' == WithPc(m1, i, pc');
      }
    }
  }
}
