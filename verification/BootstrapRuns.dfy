// What holds of every run of the parallel bootstrap traverser, whatever the interleaving
// (bin/parallel-bootstrap-traverser.py:195-401).
module BootstrapRuns {
  import opened Wrappers
  import opened BootstrapGraph
  import opened BootstrapOps
  import opened BootstrapLedger
  import opened BootstrapKeys
  import opened BootstrapTurns

  // ---- Runs ----

  // One step: an operation is executed, or (None) the targets are handed out.
  ghost predicate TakesStep(g: Graph, targets: Targets, s: State, o: Option<Op>, s': State) {
    if o.None? then StartStep(targets, s, s') else OpStep(g, s, o.value, s')
  }

  ghost predicate IsRun(g: Graph, targets: Targets, states: seq<State>, ops: seq<Option<Op>>) {
    && |states| == |ops| + 1
    && Start(g, states[0])
    && forall i | 0 <= i < |ops| :: TakesStep(g, targets, states[i], ops[i], states[i + 1])
  }

  // Every run is accounted for by a ledger, in which all that has been executed is past.
  lemma {:induction false} RunIsAccountedFor(g: Graph, targets: Targets, states: seq<State>, ops: seq<Option<Op>>)
    returns (L: Ledger)
    requires IsRun(g, targets, states, ops) && ClosedFor(g, targets)
    ensures Inv(g, targets, states[|ops|], L)
    ensures forall o | o in ops :: if o.None? then states[|ops|].started else Past(g, targets, L, o.value)
    decreases |ops|
  {
    hide Inv, ClosedFor, Past, IsValue, WellFounded;
    if ops == [] {
      L := FirstInv(g, targets, states[0]);
    } else {
      var n := |ops| - 1;
      var last := ops[n];
      assert TakesStep(g, targets, states[n], last, states[n + 1]);
      var K := RunIsAccountedFor(g, targets, states[..n + 1], ops[..n]);
      L := NextLedger(g, targets, states[n], K, last, states[n + 1]);
      forall o | o in ops ensures if o.None? then states[n + 1].started else Past(g, targets, L, o.value) {
        if o in ops[..n] {
          if o.Some? {
            PastStays(g, targets, K, L, o.value);
          }
        } else {
          assert o == last;
        }
      }
    }
  }

  lemma NextLedger(g: Graph, targets: Targets, s: State, L: Ledger, o: Option<Op>, s': State) returns (L': Ledger)
    requires Inv(g, targets, s, L) && ClosedFor(g, targets) && TakesStep(g, targets, s, o, s')
    ensures Inv(g, targets, s', L') && Advances(L, L')
    ensures if o.None? then s'.started else s'.started == s.started && Past(g, targets, L', o.value)
  {
    if o.None? {
      L' := StartKeepsInv(g, targets, s, L, s');
    } else {
      StepKeepsInv(g, targets, s, L, o.value, s');
      L' :| Accounts(g, targets, s', L, L', o.value);
    }
  }

  lemma RunPrefix(g: Graph, targets: Targets, states: seq<State>, ops: seq<Option<Op>>, n: nat)
    requires IsRun(g, targets, states, ops) && n <= |ops|
    ensures IsRun(g, targets, states[..n + 1], ops[..n])
  {
    var ss, os := states[..n + 1], ops[..n];
    forall i | 0 <= i < |os| ensures TakesStep(g, targets, ss[i], os[i], ss[i + 1]) {
      assert TakesStep(g, targets, states[i], ops[i], states[i + 1]);
    }
  }

  // ---- At most once ----

  // No operation is ever executed twice: no command is run, no callback is called, and no link is
  // made a second time.
  lemma NothingHappensTwice(g: Graph, targets: Targets, states: seq<State>, ops: seq<Option<Op>>)
    requires IsRun(g, targets, states, ops) && ClosedFor(g, targets)
    ensures NoRepeats(ops)
  {
    forall i, j | 0 <= i < j < |ops| ensures ops[i] != ops[j] {
      RunPrefix(g, targets, states, ops, j);
      var L := RunIsAccountedFor(g, targets, states[..j + 1], ops[..j]);
      assert ops[i] in ops[..j] by {
        assert ops[..j][i] == ops[i];
      }
      assert TakesStep(g, targets, states[j], ops[j], states[j + 1]);
      if ops[i].Some? {
        PastIsNotPending(g, targets, L, ops[i].value);
        assert states[j].pending[ops[i].value] == 0;
      }
    }
  }

  // A command is run only when all its inputs are linked, to what they are worth; a link is made
  // only once, and only when the action or tree it leads to is complete.
  lemma EverythingInItsTurn(g: Graph, targets: Targets, states: seq<State>, ops: seq<Option<Op>>, i: nat, op: Op)
    requires IsRun(g, targets, states, ops) && ClosedFor(g, targets) && i < |ops| && ops[i] == Some(op)
    ensures op.Run? ==>
              && g.Has(op.key) && op.key !in states[i].shared.log
              && forall l | l in g.Inputs(op.key) ::
                   && ToInput(op.key, l) in states[i].shared.links
                   && states[i].shared.links[ToInput(op.key, l)] == PathOf(g.Inputs(op.key)[l])
                   && IsArtifactValue(g, g.Inputs(op.key)[l],
                         Deref(states[i].shared.blobs, states[i].shared.results, PathOf(g.Inputs(op.key)[l])))
    ensures op.Fire? && op.callback.output.None? ==>
              && op.callback.base !in states[i].shared.links
              && IsWanted(g, targets, op.callback.base)
              && op.path == PathOf(Want(g, targets, op.callback.base))
              && forall k | HasKey(g, targets, op.callback.base, k) ::
                    k in states[i].shared.log && k in states[i].shared.callbacks && states[i].shared.callbacks[k].None?
  {
    RunPrefix(g, targets, states, ops, i);
    var s, s' := states[i], states[i + 1];
    var L := RunIsAccountedFor(g, targets, states[..i + 1], ops[..i]);
    assert TakesStep(g, targets, s, ops[i], s');
    if op.Run? {
      RunTurn(g, targets, s, L, op, Exec(g, s.shared, op), s');
      forall l | l in g.Inputs(op.key)
        ensures s.shared.links[ToInput(op.key, l)] == PathOf(g.Inputs(op.key)[l])
        ensures IsArtifactValue(g, g.Inputs(op.key)[l],
            Deref(s.shared.blobs, s.shared.results, PathOf(g.Inputs(op.key)[l])))
      {
        LinkIsValue(g, targets, s, L, ToInput(op.key, l));
      }
    } else if op.Fire? && op.callback.output.None? {
      FireTurn(g, targets, s, L, op, Exec(g, s.shared, op), s');
      FireReady(g, targets, s, L, op);
    }
  }

  // Whatever is linked leads to the value of the artifact.
  lemma LinkIsValue(g: Graph, targets: Targets, s: State, L: Ledger, b: Base)
    requires Inv(g, targets, s, L) && b in s.shared.links
    ensures IsWanted(g, targets, b) && s.shared.links[b] == PathOf(Want(g, targets, b))
    ensures IsArtifactValue(g, Want(g, targets, b), Deref(s.shared.blobs, s.shared.results, s.shared.links[b]))
  {
    assert At(L, b, Linked) || At(L, b, Done);
    assert IsReady(g, targets, L, b);
    LinkedValue(g, targets, L, s, b);
  }

  // At every point of every run, an action that is complete is what its command has made of a directory
  // with just its inputs, each of them worth what it is worth, and a tree is the directory of its entries.
  lemma CompletedHasRun(g: Graph, targets: Targets, states: seq<State>, ops: seq<Option<Op>>, i: nat)
    requires IsRun(g, targets, states, ops) && ClosedFor(g, targets) && i <= |ops|
    ensures
      var results := states[i].shared.results;
      forall id | ActionKey(id) in results ::
        var c := results[ActionKey(id)];
        && id in g.actions && c.Ran? && c.command == g.actions[id].command
        && c.inputs.Keys == g.actions[id].input.Keys
        && forall l | l in c.inputs :: IsArtifactValue(g, g.actions[id].input[l], c.inputs[l])
    ensures
      var results := states[i].shared.results;
      forall id | TreeKey(id) in results ::
        var c := results[TreeKey(id)];
        && id in g.trees && c.Directory? && c.entries.Keys == g.trees[id].Keys
        && forall l | l in c.entries :: IsArtifactValue(g, g.trees[id][l], c.entries[l])
    ensures forall k :: k in states[i].shared.log <==> k in states[i].shared.results
  {
    RunPrefix(g, targets, states, ops, i);
    var L := RunIsAccountedFor(g, targets, states[..i + 1], ops[..i]);
    ResultsAreValues(g, targets, states[i], L);
    hide IsRun, Inv, ClosedFor;
  }

  lemma ResultsAreValues(g: Graph, targets: Targets, s: State, L: Ledger)
    requires Inv(g, targets, s, L)
    ensures forall k | k in s.shared.results :: IsValue(g, k, s.shared.results[k])
    ensures forall k :: k in s.shared.log <==> k in s.shared.results
  {
    hide IsValue;
  }

  lemma FireReady(g: Graph, targets: Targets, s: State, L: Ledger, op: Op)
    requires Inv(g, targets, s, L) && op in s.pending && op.Fire? && op.callback.output.None?
    ensures IsWanted(g, targets, op.callback.base) && op.path == PathOf(Want(g, targets, op.callback.base))
    ensures forall k | HasKey(g, targets, op.callback.base, k) ::
              k in s.shared.log && k in s.shared.callbacks && s.shared.callbacks[k].None?
  {
    FirePending(g, targets, L, s.pending, op);
    var b := op.callback.base;
    assert At(L, b, Firing) && IsReady(g, targets, L, b);
    forall k | HasKey(g, targets, b, k) ensures k in s.shared.log && k in s.shared.callbacks
        && s.shared.callbacks[k].None?
    {
      assert KeyAt(L, k, Cleared);
    }
  }

  // ---- Every run ends ----

  function Keys(g: Graph): set<Key> {
    (set id | id in g.actions :: ActionKey(id)) + (set id | id in g.trees :: TreeKey(id))
  }

  function Bases(g: Graph, targets: Targets): set<Base> {
    (set l | l in targets :: ToOut(l)) + (set k, l | k in Keys(g) && g.Has(k) && l in g.Inputs(k) :: ToInput(k, l))
  }

  // All that there is to do for a graph and targets; None stands for handing out the targets.
  function Work(g: Graph, targets: Targets): set<Option<Op>> {
    {None}
    + (set id | id in g.blobs :: Some(WriteBlob(id)))
    + (set k | k in Keys(g) :: Some(Init(k)))
    + (set k | k in Keys(g) :: Some(CountEmpty(k)))
    + (set k | k in Keys(g) :: Some(Run(k)))
    + (set k | k in Keys(g) :: Some(Clear(k)))
    + (set b, st | b in Bases(g, targets) && st in {Building, Registering, Waiting, Selecting, Firing, Linked, Done} ::
        OpFor(g, targets, b, st))
  }

  lemma KeysAreThere(g: Graph, targets: Targets)
    ensures forall k :: k in Keys(g) <==> g.Has(k)
    ensures forall b :: b in Bases(g, targets) <==> IsWanted(g, targets, b)
  {
    assert forall b: Base | b.ToInput? && IsWanted(g, targets, b) :: b.key in Keys(g);
  }

  lemma PendingIsWork(g: Graph, targets: Targets, s: State, L: Ledger, op: Op)
    requires Inv(g, targets, s, L) && op in s.pending
    ensures Some(op) in Work(g, targets)
  {
    hide PendingMatches, CallbacksMatch, CountsMatch, LinksMatch, ResultsMatch, IsValue, WellFounded, KeyOf, PathOf,
        Bases, Keys;
    KeysAreThere(g, targets);
    PendingOp(g, targets, L, s.pending, op);
    if BaseOf(op).Some? {
      var b := BaseOf(op).value;
      assert b in Bases(g, targets);
      var st := L.stage[b];
      assert st in {Building, Registering, Waiting, Selecting, Firing, Linked, Done};
      assert OpFor(g, targets, b, st) == Some(op);
    } else if !op.WriteBlob? {
      assert op.key in L.keys && g.Has(op.key);
      assert op.key in Keys(g);
    }
  }

  lemma {:induction false} NoRepeatsBound<T>(s: seq<T>, xs: set<T>)
    requires NoRepeats(s) && forall x | x in s :: x in xs
    ensures |s| <= |xs|
  {
    if s != [] {
      assert forall i | 0 <= i < |s[1..]| :: s[1..][i] == s[i + 1];
      NoRepeatsBound(s[1..], xs - {s[0]});
    }
  }

  lemma OpsAreWork(g: Graph, targets: Targets, states: seq<State>, ops: seq<Option<Op>>)
    requires IsRun(g, targets, states, ops) && ClosedFor(g, targets)
    ensures forall o | o in ops :: o in Work(g, targets)
  {
    hide Inv, Work, Start;
    forall o | o in ops ensures o in Work(g, targets) {
      var i :| 0 <= i < |ops| && ops[i] == o;
      RunPrefix(g, targets, states, ops, i);
      var L := RunIsAccountedFor(g, targets, states[..i + 1], ops[..i]);
      assert TakesStep(g, targets, states[i], ops[i], states[i + 1]);
      if o.Some? {
        PendingIsWork(g, targets, states[i], L, o.value);
      } else {
        StartingIsWork(g, targets);
      }
    }
  }

  lemma StartingIsWork(g: Graph, targets: Targets)
    ensures None in Work(g, targets)
  {
  }

  // The pending operations, each of which is pending once.
  lemma PendingListed(g: Graph, targets: Targets, L: Ledger, pending: multiset<Op>) returns (list: seq<Option<Op>>)
    requires PendingMatches(g, targets, L, pending)
    ensures |list| == |pending| && NoRepeats(list) && forall o | o in list :: o.Some? && o.value in pending
  {
    var ops := Listed(pending);
    list := seq(|ops|, i requires 0 <= i < |ops| => Some(ops[i]));
    forall i, j | 0 <= i < j < |list| ensures list[i] != list[j] {
      if ops[i] == ops[j] {
        RepeatedTwice(ops, i, j);
      }
    }
    forall o | o in list ensures o.Some? && o.value in pending {
      var i :| 0 <= i < |list| && list[i] == o;
      assert ops[i] in multiset(ops);
    }
  }

  lemma RepeatedTwice<T>(s: seq<T>, i: nat, j: nat)
    requires i < j < |s| && s[i] == s[j]
    ensures multiset(s)[s[i]] >= 2
  {
    assert s == s[..j] + s[j..] && s[..j][i] == s[i] && s[j..][0] == s[j];
    assert s[i] in multiset(s[..j]) && s[i] in multiset(s[j..]);
  }

  // What has been executed and what is pending is all different, and part of the work; so no run takes
  // more steps than there is work, cyclic graph or not.
  lemma RunsEnd(g: Graph, targets: Targets, states: seq<State>, ops: seq<Option<Op>>)
    requires IsRun(g, targets, states, ops) && ClosedFor(g, targets)
    ensures |ops| + |states[|ops|].pending| <= |Work(g, targets)|
  {
    hide IsRun, Work, Past, PendingMatches, IsPending;
    var L := RunIsAccountedFor(g, targets, states, ops);
    LastOf(g, targets, states, ops);
    var s := states[|ops|];
    PendingOfInv(g, targets, s, L);
    var waiting := PendingListed(g, targets, L, s.pending);
    NothingHappensTwice(g, targets, states, ops);
    OpsAreWork(g, targets, states, ops);
    forall o | o in waiting ensures o in Work(g, targets) && o !in ops {
      PendingIsWork(g, targets, s, L, o.value);
      IsPendingOnce(g, targets, L, s.pending, o.value);
      if o in ops {
        PastIsNotPending(g, targets, L, o.value);
      }
    }
    var all := ops + waiting;
    forall i, j | 0 <= i < j < |all| ensures all[i] != all[j] {
      assert j >= |ops| ==> all[j] in waiting;
      assert i < |ops| ==> all[i] in ops;
    }
    NoRepeatsBound(all, Work(g, targets));
  }

  lemma LastOf(g: Graph, targets: Targets, states: seq<State>, ops: seq<Option<Op>>)
    requires IsRun(g, targets, states, ops)
    ensures |ops| < |states|
  {
  }

  lemma PendingOfInv(g: Graph, targets: Targets, s: State, L: Ledger)
    requires Inv(g, targets, s, L)
    ensures PendingMatches(g, targets, L, s.pending)
  {
  }

  lemma IsPendingOnce(g: Graph, targets: Targets, L: Ledger, pending: multiset<Op>, op: Op)
    requires PendingMatches(g, targets, L, pending) && op in pending
    ensures IsPending(g, targets, L, op)
  {
  }

  // ---- Where runs end ----

  // Nothing is left to do.
  ghost predicate Finished(g: Graph, targets: Targets, s: State) {
    !exists s' :: Step(g, targets, s, s')
  }

  lemma FinishedMeansIdle(g: Graph, targets: Targets, s: State)
    requires Finished(g, targets, s)
    ensures s.started && s.pending == multiset{}
  {
    if s.pending != multiset{} {
      var op :| op in s.pending;
      var e := Exec(g, s.shared, op);
      var s' := State(s.pending - multiset{op} + multiset(e.next) + multiset(e.tasks), e.shared, s.started);
      assert OpStep(g, s, op, s');
      assert Step(g, targets, s, s');
    } else if !s.started {
      assert Step(g, targets, s, State(TargetTasks(targets), s.shared, true));
    }
  }

  // Nothing is pending, so everything waits for something else.
  ghost predicate Idle(g: Graph, targets: Targets, L: Ledger, started: bool) {
    PendingMatches(g, targets, L, multiset{}) && StagesOk(g, targets, L, started) && KeysOk(g, L)
  }

  lemma IdleLink(g: Graph, targets: Targets, L: Ledger, started: bool, b: Base)
    requires Idle(g, targets, L, started) && b in L.stage
    ensures At(L, b, Done) || At(L, b, Waiting)
  {
    var op := OpFor(g, targets, b, L.stage[b]);
    if op.Some? {
      assert IsPending(g, targets, L, op.value);
    }
  }

  lemma IdleKey(g: Graph, targets: Targets, L: Ledger, started: bool, key: Key)
    requires Idle(g, targets, L, started) && key in L.keys && L.keys[key] != Cleared
    ensures KeyAt(L, key, Counting) && g.Has(key) && !AllDone(g, L, key)
  {
    assert !IsPending(g, targets, L, Init(key)) && !IsPending(g, targets, L, Run(key));
    assert !IsPending(g, targets, L, Clear(key)) && !IsPending(g, targets, L, CountEmpty(key));
  }

  // Whoever is stuck waits for an input that is stuck.
  lemma StuckBehind(g: Graph, targets: Targets, L: Ledger, started: bool, key: Key) returns (l: string, k: Key)
    requires Idle(g, targets, L, started) && key in L.keys && L.keys[key] != Cleared
    ensures g.Has(key) && l in g.Inputs(key) && KeyOf(g.Inputs(key)[l]) == Some(k)
    ensures k in L.keys && L.keys[k] != Cleared
  {
    IdleKey(g, targets, L, started, key);
    l :| l in g.Inputs(key) && !At(L, ToInput(key, l), Done);
    var b := ToInput(key, l);
    IdleLink(g, targets, L, started, b);
    assert At(L, b, Waiting);
    k :| k in L.keys && HasKey(g, targets, b, k) && L.keys[k] != Cleared;
  }

  // What does not depend on itself is not stuck: it would be waiting for something smaller.
  lemma {:induction false} NoneStuck(g: Graph, targets: Targets, L: Ledger, started: bool, key: Key, n: nat)
    requires Idle(g, targets, L, started) && key in L.keys && WellFounded(g, key, n)
    ensures L.keys[key] == Cleared
    decreases n
  {
    if L.keys[key] != Cleared {
      var l, k := StuckBehind(g, targets, L, started, key);
      assert WellFoundedArtifact(g, g.Inputs(key)[l], n - 1);
      NoneStuck(g, targets, L, started, k, n - 1);
    }
  }

  // At the end of every run, exactly the targets that do not depend on themselves are linked, each
  // one to its value; their actions and trees are complete, with all that they depend on.
  lemma AllBuiltInTheEnd(g: Graph, targets: Targets, states: seq<State>, ops: seq<Option<Op>>)
    requires IsRun(g, targets, states, ops) && ClosedFor(g, targets) && Finished(g, targets, states[|ops|])
    ensures
      var sh := states[|ops|].shared;
      forall l | l in targets ::
        && (ToOut(l) in sh.links <==> AcyclicArtifact(g, targets[l]))
        && (ToOut(l) in sh.links ==>
              && sh.links[ToOut(l)] == PathOf(targets[l])
              && IsArtifactValue(g, targets[l], Deref(sh.blobs, sh.results, sh.links[ToOut(l)]))
              && (KeyOf(targets[l]).Some? ==> IsComplete(sh, KeyOf(targets[l]).value)))
    ensures AllComplete(g, states[|ops|].shared)
    ensures forall k | k in states[|ops|].shared.log ::
              k in states[|ops|].shared.results && IsValue(g, k, states[|ops|].shared.results[k])
  {
    var s := states[|ops|];
    var L := RunIsAccountedFor(g, targets, states, ops);
    ResultsAreValues(g, targets, s, L);
    FinishedMeansIdle(g, targets, s);
    forall l | l in targets
      ensures ToOut(l) in s.shared.links <==> AcyclicArtifact(g, targets[l])
      ensures ToOut(l) in s.shared.links ==>
                && s.shared.links[ToOut(l)] == PathOf(targets[l])
                && IsArtifactValue(g, targets[l], Deref(s.shared.blobs, s.shared.results, s.shared.links[ToOut(l)]))
                && (KeyOf(targets[l]).Some? ==> IsComplete(s.shared, KeyOf(targets[l]).value))
    {
      TargetInTheEnd(g, targets, s, L, l);
    }
    forall k, l | k in s.shared.log && g.Has(k) && l in g.Inputs(k) && KeyOf(g.Inputs(k)[l]).Some?
      ensures IsComplete(s.shared, KeyOf(g.Inputs(k)[l]).value)
    {
      InputInTheEnd(g, targets, s, L, k, l);
    }
  }

  // The command has been run, or the tree copied, and those waiting for it have been called.
  predicate IsComplete(sh: Shared, key: Key) {
    key in sh.log && key in sh.results && key in sh.callbacks && sh.callbacks[key].None?
  }

  ghost predicate AllComplete(g: Graph, sh: Shared) {
    forall k, l | k in sh.log && g.Has(k) && l in g.Inputs(k) && KeyOf(g.Inputs(k)[l]).Some? ::
        IsComplete(sh, KeyOf(g.Inputs(k)[l]).value)
  }

  lemma ReadyIsComplete(g: Graph, targets: Targets, s: State, L: Ledger, b: Base, key: Key)
    requires Inv(g, targets, s, L) && (At(L, b, Linked) || At(L, b, Done)) && HasKey(g, targets, b, key)
    ensures IsComplete(s.shared, key) && Acyclic(g, key)
  {
    hide IsValue, Acyclic;
    assert IsReady(g, targets, L, b);
    assert KeyAt(L, key, Cleared);
    assert IsValue(g, key, s.shared.results[key]);
    ValueIsAcyclic(g, key, s.shared.results[key]);
  }

  lemma TargetInTheEnd(g: Graph, targets: Targets, s: State, L: Ledger, l: string)
    requires Inv(g, targets, s, L) && s.pending == multiset{} && s.started && l in targets
    ensures ToOut(l) in s.shared.links <==> AcyclicArtifact(g, targets[l])
    ensures ToOut(l) in s.shared.links ==>
              && s.shared.links[ToOut(l)] == PathOf(targets[l])
              && IsArtifactValue(g, targets[l], Deref(s.shared.blobs, s.shared.results, s.shared.links[ToOut(l)]))
              && (KeyOf(targets[l]).Some? ==> IsComplete(s.shared, KeyOf(targets[l]).value))
  {
    var b := ToOut(l);
    assert Idle(g, targets, L, s.started) && b in L.stage && Want(g, targets, b) == targets[l];
    IdleLink(g, targets, L, s.started, b);
    if At(L, b, Done) {
      LinkIsValue(g, targets, s, L, b);
      if KeyOf(targets[l]).Some? {
        ReadyIsComplete(g, targets, s, L, b, KeyOf(targets[l]).value);
      }
    } else {
      var k :| k in L.keys && HasKey(g, targets, b, k) && L.keys[k] != Cleared;
      NotAcyclic(g, targets, L, s.started, k);
    }
  }

  lemma NotAcyclic(g: Graph, targets: Targets, L: Ledger, started: bool, key: Key)
    requires Idle(g, targets, L, started) && key in L.keys && L.keys[key] != Cleared
    ensures !Acyclic(g, key)
  {
    forall n: nat ensures !WellFounded(g, key, n) {
      if WellFounded(g, key, n) {
        NoneStuck(g, targets, L, started, key, n);
      }
    }
  }

  lemma InputInTheEnd(g: Graph, targets: Targets, s: State, L: Ledger, k: Key, l: string)
    requires Inv(g, targets, s, L) && k in s.shared.log && g.Has(k) && l in g.Inputs(k) && KeyOf(g.Inputs(k)[l]).Some?
    ensures IsComplete(s.shared, KeyOf(g.Inputs(k)[l]).value)
  {
    assert AllDone(g, L, k);
    assert At(L, ToInput(k, l), Done);
    ReadyIsComplete(g, targets, s, L, ToInput(k, l), KeyOf(g.Inputs(k)[l]).value);
  }
}
