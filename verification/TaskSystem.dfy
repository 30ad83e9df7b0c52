// The task system of the parallel bootstrap traverser (bin/parallel-bootstrap-traverser.py:93-151):
// one queue per worker, a counter of the work left, and a main thread that hands out tasks and waits
// for the counter to become zero. Every access to a queue, to the counter, and to the shared state of
// the tasks is a step of its own; locks only restrict the interleavings considered here.
module TaskSystem {
  import opened BootstrapGraph
  import opened BootstrapOps

  // What a thread has yet to do within its current task.
  datatype Item = Do(op: Op) | Add(op: Op)

  datatype Pc =
    | Top                                              // at the head of the loop
    | Suspended                                        // waiting for a task in its queue, not counted as active
    | Resumed                                          // woken up, not yet counted as active
    | Holding                                          // counted as active again
    | Popped(op: Op)                                   // the task is taken from the queue, but still counted
    | Running(todo: seq<Item>)
    | Adding(op: Op, target: nat, rest: seq<Item>)     // within add: the queue is chosen
    | Appending(op: Op, target: nat, rest: seq<Item>)  // within add: the task is counted, but not in the queue

  datatype Cell = Cell(queue: seq<Op>, pc: Pc)

  // The main thread writes the blobs, then has the artifacts built.
  datatype Round = Blobs | Artifacts | Over

  datatype Machine = Machine(cells: seq<Cell>, total: int, index: nat, main: Pc, round: Round, shared: Shared)

  // ---- Steps ----

  function Dos(ops: seq<Op>): seq<Item> {
    if ops == [] then [] else [Do(ops[0])] + Dos(ops[1..])
  }

  function Adds(ops: seq<Op>): seq<Item> {
    if ops == [] then [] else [Add(ops[0])] + Adds(ops[1..])
  }

  function WithPc(m: Machine, i: nat, pc: Pc): Machine
    requires i < |m.cells|
  {
    m.(cells := m.cells[i := m.cells[i].(pc := pc)])
  }

  function Enqueued(m: Machine, i: nat, op: Op): Machine
    requires i < |m.cells|
  {
    m.(cells := m.cells[i := m.cells[i].(queue := m.cells[i].queue + [op])])
  }

  // A thread at pc executes one step of add, and is at pc' then.
  predicate AddStep(m: Machine, pc: Pc, m': Machine, pc': Pc) {
    match pc
    case Running(todo) =>
      && todo != [] && todo[0].Add? && |m.cells| > 0
      && pc' == Adding(todo[0].op, m.index % |m.cells|, todo[1..])
      && m' == m.(index := m.index + 1)
    case Adding(op, target, rest) =>
      pc' == Appending(op, target, rest) && m' == m.(total := m.total + 1)
    case Appending(op, target, rest) =>
      pc' == Running(rest) && target < |m.cells| && m' == Enqueued(m, target, op)
    case _ => false
  }

  // Worker i looks into its queue.
  predicate QueueStep(m: Machine, i: nat, m': Machine)
    requires i < |m.cells|
  {
    var Cell(queue, pc) := m.cells[i];
    match pc
    case Top =>
      if queue == [] then m' == WithPc(m, i, Suspended).(total := m.total - 1)
      else m' == m.(cells := m.cells[i := Cell(queue[1..], Popped(queue[0]))])
    case Suspended => queue != [] && m' == WithPc(m, i, Resumed)
    case Resumed => m' == WithPc(m, i, Holding).(total := m.total + 1)
    case Holding =>
      if queue == [] then m' == WithPc(m, i, Top)
      else m' == m.(cells := m.cells[i := Cell(queue[1..], Popped(queue[0]))])
    case Popped(op) => m' == WithPc(m, i, Running([Do(op)])).(total := m.total - 1)
    case Running(todo) => todo == [] && m' == WithPc(m, i, Top)
    case _ => false
  }

  // Worker i executes an operation of its task.
  predicate ExecStep(g: Graph, m: Machine, i: nat, op: Op, m': Machine)
    requires i < |m.cells|
  {
    var pc := m.cells[i].pc;
    var e := Exec(g, m.shared, op);
    && pc.Running? && pc.todo != [] && pc.todo[0] == Do(op)
    && m' == WithPc(m, i, Running(Dos(e.next) + Adds(e.tasks) + pc.todo[1..])).(shared := e.shared)
  }

  ghost predicate WorkerStep(g: Graph, m: Machine, i: nat, m': Machine) {
    && i < |m.cells|
    && (|| QueueStep(m, i, m')
        || (exists op :: ExecStep(g, m, i, op, m'))
        || (exists m1, pc' :: AddStep(m, m.cells[i].pc, m1, pc') && |m1.cells| == |m.cells|
              && m' == WithPc(m1, i, pc')))
  }

  // The main thread has added all tasks of the round, finds the counter at zero, and goes on.
  ghost predicate FinishStep(targets: Targets, m: Machine, m': Machine) {
    && m.main == Running([]) && m.total == 0
    && ((m.round == Blobs && exists tasks ::
          multiset(tasks) == TargetTasks(targets) && m' == m.(round := Artifacts, main := Running(Adds(tasks))))
        || (m.round == Artifacts && m' == m.(round := Over)))
  }

  ghost predicate MainStep(targets: Targets, m: Machine, m': Machine) {
    || FinishStep(targets, m, m')
    || exists m1, pc' :: AddStep(m, m.main, m1, pc') && m' == m1.(main := pc')
  }

  ghost predicate MachineStep(g: Graph, targets: Targets, m: Machine, m': Machine) {
    MainStep(targets, m, m') || exists i :: WorkerStep(g, m, i, m')
  }

  // max_workers many workers, all of them active; the main thread is about to add the blobs.
  ghost predicate Initial(g: Graph, m: Machine) {
    && |m.cells| > 0 && (forall i | 0 <= i < |m.cells| :: m.cells[i] == Cell([], Top))
    && m.total == |m.cells| && m.index == 0 && m.round == Blobs
    && (exists tasks :: multiset(tasks) == multiset(set id | id in g.blobs :: WriteBlob(id))
          && m.main == Running(Adds(tasks)))
    && m.shared == Shared({}, map[], map[], map[], map[], [])
  }

  // ---- The counter ----

  predicate Active(pc: Pc) {
    pc != Suspended && pc != Resumed
  }

  // A task that the counter includes, but that is in no queue.
  function Extra(pc: Pc): nat {
    if pc.Popped? || pc.Appending? then 1 else 0
  }

  function Weight(c: Cell): nat {
    |c.queue| + (if Active(c.pc) then 1 else 0) + Extra(c.pc)
  }

  function TotalWeight(cells: seq<Cell>): nat {
    if cells == [] then 0 else Weight(cells[0]) + TotalWeight(cells[1..])
  }

  lemma {:induction false} TotalWeightUpdate(cells: seq<Cell>, i: nat, c: Cell)
    requires i < |cells|
    ensures TotalWeight(cells[i := c]) == TotalWeight(cells) - Weight(cells[i]) + Weight(c)
  {
    if i == 0 {
      assert cells[0 := c][1..] == cells[1..];
    } else {
      TotalWeightUpdate(cells[1..], i - 1, c);
      assert cells[i := c][1..] == cells[1..][i - 1 := c];
    }
  }

  predicate PcOk(pc: Pc, n: nat) {
    (pc.Adding? || pc.Appending?) ==> pc.target < n
  }

  // The main thread only adds.
  predicate MainOk(pc: Pc) {
    match pc
    case Running(todo) => forall x | x in todo :: x.Add?
    case Adding(_, _, rest) => forall x | x in rest :: x.Add?
    case Appending(_, _, rest) => forall x | x in rest :: x.Add?
    case _ => false
  }

  ghost predicate Valid(m: Machine) {
    && |m.cells| > 0
    && (forall i | 0 <= i < |m.cells| :: PcOk(m.cells[i].pc, |m.cells|))
    && (forall i | 0 <= i < |m.cells| && (m.cells[i].pc == Resumed || m.cells[i].pc == Holding) ::
          m.cells[i].queue != [])
    && PcOk(m.main, |m.cells|) && MainOk(m.main)
    && (m.round == Over ==> m.main == Running([]) && m.total == 0)
    && m.total == TotalWeight(m.cells) + Extra(m.main)
  }

  lemma AddsOnly(ops: seq<Op>)
    ensures forall x | x in Adds(ops) :: x.Add?
  {
  }

  lemma {:induction false} InitialWeight(cells: seq<Cell>)
    requires forall i | 0 <= i < |cells| :: cells[i] == Cell([], Top)
    ensures TotalWeight(cells) == |cells|
  {
    if cells != [] {
      assert forall i | 0 <= i < |cells[1..]| :: cells[1..][i] == cells[i + 1];
      InitialWeight(cells[1..]);
    }
  }

  lemma InitialIsValid(g: Graph, m: Machine)
    requires Initial(g, m)
    ensures Valid(m)
  {
    InitialWeight(m.cells);
    var tasks :| m.main == Running(Adds(tasks));
    AddsOnly(tasks);
  }

  lemma QueueStepValid(m: Machine, i: nat, m': Machine)
    requires Valid(m) && m.round != Over && i < |m.cells| && QueueStep(m, i, m')
    ensures Valid(m')
  {
    TotalWeightUpdate(m.cells, i, m'.cells[i]);
    assert m'.cells == m.cells[i := m'.cells[i]];
  }

  lemma ExecStepValid(g: Graph, m: Machine, i: nat, op: Op, m': Machine)
    requires Valid(m) && m.round != Over && i < |m.cells| && ExecStep(g, m, i, op, m')
    ensures Valid(m')
  {
    TotalWeightUpdate(m.cells, i, m'.cells[i]);
  }

  // One step of add, before the thread's own place is updated.
  lemma AddStepWeight(m: Machine, pc: Pc, m1: Machine, pc': Pc)
    requires AddStep(m, pc, m1, pc') && Valid(m) && PcOk(pc, |m.cells|)
    ensures |m1.cells| == |m.cells| && PcOk(pc', |m.cells|) && Active(pc) && Active(pc')
    ensures m1.main == m.main && m1.round == m.round
    ensures m1.total - TotalWeight(m1.cells) - Extra(pc') == m.total - TotalWeight(m.cells) - Extra(pc)
    ensures forall j | 0 <= j < |m.cells| ::
              m1.cells[j].pc == m.cells[j].pc && (m.cells[j].queue != [] ==> m1.cells[j].queue != [])
    ensures MainOk(pc) ==> MainOk(pc')
  {
    if pc.Appending? {
      TotalWeightUpdate(m.cells, pc.target, m1.cells[pc.target]);
    }
  }

  lemma WorkerAddValid(m: Machine, i: nat, m1: Machine, pc': Pc, m': Machine)
    requires Valid(m) && m.round != Over
    requires i < |m.cells| && AddStep(m, m.cells[i].pc, m1, pc') && |m1.cells| == |m.cells| && m' == WithPc(m1, i, pc')
    ensures Valid(m')
  {
    AddStepWeight(m, m.cells[i].pc, m1, pc');
    TotalWeightUpdate(m1.cells, i, m1.cells[i].(pc := pc'));
  }

  lemma MainAddValid(m: Machine, m1: Machine, pc': Pc, m': Machine)
    requires Valid(m) && AddStep(m, m.main, m1, pc') && m' == m1.(main := pc')
    ensures Valid(m')
  {
    AddStepWeight(m, m.main, m1, pc');
  }

  // The counter is the number of queued tasks and active workers, and of the tasks just being moved,
  // at every moment.
  lemma StepKeepsValid(g: Graph, targets: Targets, m: Machine, m': Machine)
    requires Valid(m) && MachineStep(g, targets, m, m')
    ensures Valid(m')
  {
    if FinishStep(targets, m, m') {
      if m.round == Blobs {
        var tasks :| multiset(tasks) == TargetTasks(targets)
            && m' == m.(round := Artifacts, main := Running(Adds(tasks)));
        AddsOnly(tasks);
      }
    } else if MainStep(targets, m, m') {
      var m1, pc' :| AddStep(m, m.main, m1, pc') && m' == m1.(main := pc');
      MainAddValid(m, m1, pc', m');
    } else {
      var i: nat :| WorkerStep(g, m, i, m');
      WorkerStepValid(g, m, i, m');
    }
  }

  lemma WorkerStepValid(g: Graph, m: Machine, i: nat, m': Machine)
    requires Valid(m) && WorkerStep(g, m, i, m')
    ensures Valid(m')
  {
    if m.round == Over {
      ZeroIsStable(g, m, i, m');
    } else if QueueStep(m, i, m') {
      QueueStepValid(m, i, m');
    } else if op :| ExecStep(g, m, i, op, m') {
      ExecStepValid(g, m, i, op, m');
    } else {
      var m1, pc' :| AddStep(m, m.cells[i].pc, m1, pc') && |m1.cells| == |m.cells| && m' == WithPc(m1, i, pc');
      WorkerAddValid(m, i, m1, pc', m');
    }
  }

  // ---- Quiescence ----

  lemma {:induction false} WeightZero(cells: seq<Cell>, i: nat)
    requires i < |cells|
    ensures Weight(cells[i]) <= TotalWeight(cells)
  {
    if i > 0 {
      WeightZero(cells[1..], i - 1);
    }
  }

  ghost predicate Quiet(m: Machine) {
    forall i | 0 <= i < |m.cells| :: m.cells[i] == Cell([], Suspended)
  }

  lemma {:induction false} QuietWeight(cells: seq<Cell>)
    requires forall i | 0 <= i < |cells| :: cells[i] == Cell([], Suspended)
    ensures TotalWeight(cells) == 0
  {
    if cells != [] {
      assert forall i | 0 <= i < |cells[1..]| :: cells[1..][i] == cells[i + 1];
      QuietWeight(cells[1..]);
    }
  }

  // The counter is zero exactly if all queues are empty and all workers wait, and the main thread is
  // not about to put a task into a queue.
  lemma ZeroMeansQuiet(m: Machine)
    requires Valid(m)
    ensures m.total == 0 <==> Quiet(m) && !m.main.Appending?
    ensures m.total >= 0
  {
    if m.total == 0 {
      forall i | 0 <= i < |m.cells| ensures m.cells[i] == Cell([], Suspended) {
        WeightZero(m.cells, i);
      }
    }
    if Quiet(m) {
      QuietWeight(m.cells);
    }
  }

  // Once zero, it stays so until the main thread adds a task: no worker can do anything.
  lemma ZeroIsStable(g: Graph, m: Machine, i: nat, m': Machine)
    requires Valid(m) && m.total == 0
    ensures !WorkerStep(g, m, i, m')
  {
    ZeroMeansQuiet(m);
  }

  // Waiting for zero is not in vain: as long as there is work, some worker can go on.
  lemma NoDeadlock(g: Graph, m: Machine) returns (i: nat, m': Machine)
    requires Valid(m) && m.total != 0 && !m.main.Appending?
    ensures WorkerStep(g, m, i, m')
  {
    ZeroMeansQuiet(m);
    i :| 0 <= i < |m.cells| && m.cells[i] != Cell([], Suspended);
    m' := Next(g, m, i);
  }

  // The main thread can go on unless it waits for zero, or is through.
  lemma MainGoesOn(targets: Targets, m: Machine) returns (m': Machine)
    requires Valid(m) && m.round != Over && (m.main != Running([]) || m.total == 0)
    ensures MainStep(targets, m, m')
  {
    var pc := m.main;
    if pc == Running([]) {
      if m.round == Blobs {
        var tasks := Listed(TargetTasks(targets));
        m' := m.(round := Artifacts, main := Running(Adds(tasks)));
      } else {
        m' := m.(round := Over);
      }
      assert FinishStep(targets, m, m');
    } else {
      var pc' := if pc.Adding? then Appending(pc.op, pc.target, pc.rest)
                 else if pc.Appending? then Running(pc.rest)
                 else Adding(pc.todo[0].op, m.index % |m.cells|, pc.todo[1..]);
      var m1 := if pc.Adding? then m.(total := m.total + 1)
                else if pc.Appending? then Enqueued(m, pc.target, pc.op)
                else m.(index := m.index + 1);
      assert AddStep(m, m.main, m1, pc');
      m' := m1.(main := pc');
    }
  }

  ghost predicate GoesOn(g: Graph, targets: Targets, m: Machine) {
    exists m' :: MachineStep(g, targets, m, m')
  }

  // Some thread can go on if and only if the traverser is not through.
  lemma GoesOnUntilOver(g: Graph, targets: Targets, m: Machine)
    requires Valid(m)
    ensures GoesOn(g, targets, m) <==> m.round != Over
  {
    if m.round == Over {
      forall m' ensures !MachineStep(g, targets, m, m') {
        forall i ensures !WorkerStep(g, m, i, m') {
          if i >= 0 {
            ZeroIsStable(g, m, i, m');
          }
        }
      }
    } else if m.main == Running([]) && m.total != 0 {
      var i, m' := NoDeadlock(g, m);
      assert MachineStep(g, targets, m, m');
    } else {
      var m' := MainGoesOn(targets, m);
      assert MachineStep(g, targets, m, m');
    }
  }

  lemma Next(g: Graph, m: Machine, i: nat) returns (m': Machine)
    requires Valid(m) && i < |m.cells| && m.cells[i] != Cell([], Suspended)
    ensures WorkerStep(g, m, i, m')
  {
    var Cell(queue, pc) := m.cells[i];
    if pc.Adding? || pc.Appending? || (pc.Running? && pc.todo != [] && pc.todo[0].Add?) {
      var pc' := if pc.Adding? then Appending(pc.op, pc.target, pc.rest)
                 else if pc.Appending? then Running(pc.rest)
                 else Adding(pc.todo[0].op, m.index % |m.cells|, pc.todo[1..]);
      var m1 := if pc.Adding? then m.(total := m.total + 1)
                else if pc.Appending? then Enqueued(m, pc.target, pc.op)
                else m.(index := m.index + 1);
      assert AddStep(m, m.cells[i].pc, m1, pc');
      m' := WithPc(m1, i, pc');
    } else if pc.Running? && pc.todo != [] {
      var e := Exec(g, m.shared, pc.todo[0].op);
      m' := WithPc(m, i, Running(Dos(e.next) + Adds(e.tasks) + pc.todo[1..])).(shared := e.shared);
      assert ExecStep(g, m, i, pc.todo[0].op, m');
    } else {
      m' := NextInQueue(m, i);
    }
  }

  function NextInQueue(m: Machine, i: nat): (m': Machine)
    requires i < |m.cells| && m.cells[i] != Cell([], Suspended)
    requires !m.cells[i].pc.Adding? && !m.cells[i].pc.Appending?
    requires m.cells[i].pc.Running? ==> m.cells[i].pc.todo == []
    ensures QueueStep(m, i, m')
  {
    var Cell(queue, pc) := m.cells[i];
    match pc
    case Top =>
      if queue == [] then WithPc(m, i, Suspended).(total := m.total - 1)
      else m.(cells := m.cells[i := Cell(queue[1..], Popped(queue[0]))])
    case Suspended => WithPc(m, i, Resumed)
    case Resumed => WithPc(m, i, Holding).(total := m.total + 1)
    case Holding =>
      if queue == [] then WithPc(m, i, Top)
      else m.(cells := m.cells[i := Cell(queue[1..], Popped(queue[0]))])
    case Popped(op) => WithPc(m, i, Running([Do(op)])).(total := m.total - 1)
    case Running(_) => WithPc(m, i, Top)
  }

  // ---- How long threads can go on without executing an operation ----

  // The steps left: to add a task takes three, and to have it popped and be waiting again afterwards
  // takes eight.
  function TodoRank(todo: seq<Item>): nat {
    if todo == [] then 0 else (if todo[0].Do? then 1 else 11) + TodoRank(todo[1..])
  }

  function PcRank(pc: Pc): nat {
    match pc
    case Suspended => 4
    case Resumed => 3
    case Holding => 2
    case Top => 5
    case Popped(_) => 8
    case Running(todo) => 6 + TodoRank(todo)
    case Adding(_, _, rest) => 16 + TodoRank(rest)
    case Appending(_, _, rest) => 15 + TodoRank(rest)
  }

  function CellRank(c: Cell): nat {
    8 * |c.queue| + PcRank(c.pc)
  }

  function CellsRank(cells: seq<Cell>): nat {
    if cells == [] then 0 else CellRank(cells[0]) + CellsRank(cells[1..])
  }

  function Rank(m: Machine): nat {
    CellsRank(m.cells) + PcRank(m.main) + (if m.round == Blobs then 2 else if m.round == Artifacts then 1 else 0)
  }

  lemma {:induction false} CellsRankUpdate(cells: seq<Cell>, i: nat, c: Cell)
    requires i < |cells|
    ensures CellsRank(cells[i := c]) == CellsRank(cells) - CellRank(cells[i]) + CellRank(c)
  {
    if i == 0 {
      assert cells[0 := c][1..] == cells[1..];
    } else {
      CellsRankUpdate(cells[1..], i - 1, c);
      assert cells[i := c][1..] == cells[1..][i - 1 := c];
    }
  }

  lemma {:induction false} RankConcat(a: seq<Item>, b: seq<Item>)
    ensures TodoRank(a + b) == TodoRank(a) + TodoRank(b)
  {
    if a == [] {
      assert a + b == b;
    } else {
      RankConcat(a[1..], b);
      assert (a + b)[1..] == a[1..] + b;
    }
  }

  lemma {:induction false} RankOfOps(ops: seq<Op>)
    ensures TodoRank(Dos(ops)) == |ops| && TodoRank(Adds(ops)) == 11 * |ops|
  {
    if ops != [] {
      RankOfOps(ops[1..]);
      assert Dos(ops)[1..] == Dos(ops[1..]) && Adds(ops)[1..] == Adds(ops[1..]);
    }
  }

  lemma QueueStepRank(m: Machine, i: nat, m': Machine)
    requires Valid(m) && i < |m.cells| && QueueStep(m, i, m')
    ensures Rank(m') < Rank(m)
  {
    CellsRankUpdate(m.cells, i, m'.cells[i]);
    assert m'.cells == m.cells[i := m'.cells[i]];
    var pc := m.cells[i].pc;
    if pc.Popped? {
      assert TodoRank([Do(pc.op)]) == 1 + TodoRank([]);
    }
  }

  lemma ExecStepRank(g: Graph, m: Machine, i: nat, op: Op, m': Machine)
    requires i < |m.cells| && ExecStep(g, m, i, op, m')
    ensures var e := Exec(g, m.shared, op); Rank(m') == Rank(m) - 1 + |e.next| + 11 * |e.tasks|
  {
    var e, rest := Exec(g, m.shared, op), m.cells[i].pc.todo[1..];
    CellsRankUpdate(m.cells, i, m'.cells[i]);
    RankOfOps(e.next);
    RankOfOps(e.tasks);
    RankConcat(Dos(e.next) + Adds(e.tasks), rest);
    RankConcat(Dos(e.next), Adds(e.tasks));
  }

  lemma AddStepRank(m: Machine, pc: Pc, m1: Machine, pc': Pc)
    requires AddStep(m, pc, m1, pc')
    ensures CellsRank(m1.cells) + PcRank(pc') == CellsRank(m.cells) + PcRank(pc) - 1
    ensures |m1.cells| == |m.cells| && m1.main == m.main && m1.round == m.round
    ensures forall j | 0 <= j < |m.cells| :: m1.cells[j].pc == m.cells[j].pc
  {
    if pc.Appending? {
      CellsRankUpdate(m.cells, pc.target, m1.cells[pc.target]);
    }
  }

  lemma WorkerAddRank(m: Machine, i: nat, m1: Machine, pc': Pc, m': Machine)
    requires i < |m.cells| && AddStep(m, m.cells[i].pc, m1, pc') && |m1.cells| == |m.cells| && m' == WithPc(m1, i, pc')
    ensures Rank(m') < Rank(m)
  {
    AddStepRank(m, m.cells[i].pc, m1, pc');
    CellsRankUpdate(m1.cells, i, m1.cells[i].(pc := pc'));
  }

  lemma {:induction false} InitialRank(cells: seq<Cell>)
    requires forall i | 0 <= i < |cells| :: cells[i] == Cell([], Top)
    ensures CellsRank(cells) == 5 * |cells|
  {
    if cells != [] {
      assert forall i | 0 <= i < |cells[1..]| :: cells[1..][i] == cells[i + 1];
      InitialRank(cells[1..]);
    }
  }
}
