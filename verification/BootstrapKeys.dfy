// The operations on actions and trees keep the state in line with a ledger
// (bin/parallel-bootstrap-traverser.py:195-401).
module BootstrapKeys {
  import opened Wrappers
  import opened BootstrapGraph
  import opened BootstrapOps
  import opened BootstrapLedger

  // ---- A callback for an action or tree that is there already ----

  lemma RegisterReadyKeepsInv(g: Graph, targets: Targets, s: State, L: Ledger, b: Base, key: Key, s': State)
    returns (L': Ledger)
    requires Inv(g, targets, s, L) && At(L, b, Registering) && HasKey(g, targets, b, key) && KeyAt(L, key, Cleared)
    requires
      var st := if Want(g, targets, b).Action? then Selecting else Firing;
      After(s, Register(key, CallbackFor(g, targets, b)), Effect(s.shared, Ops(OpFor(g, targets, b, st)), []), s')
    ensures Inv(g, targets, s', L') && L' == Moved(L, b, if Want(g, targets, b).Action? then Selecting else Firing)
  {
    hide PendingMatches, CallbacksMatch, CountsMatch, LinksMatch, ResultsMatch, KeysOk;
    var st := if Want(g, targets, b).Action? then Selecting else Firing;
    assert OpFor(g, targets, b, st) == Some(Fire(if st == Selecting then CallbackFor(g, targets, b)
        else Callback(b, None),
                                                if st == Selecting then Dir(key) else PathOf(Want(g, targets, b))));
    L' := Moved(L, b, st);
    RegisteringOp(g, targets, b, key);
    MoveKeepsInv(g, targets, s, L, Register(key, CallbackFor(g, targets, b)), b, st, s');
  }

  // ---- Moving an action or tree from one stage to the next ----

  function KeyOp(g: Graph, key: Key, st: KeyStage): seq<Op> {
    match st
    case Initing => [Init(key)]
    case Counting => if g.Has(key) && |g.Inputs(key)| == 0 then [CountEmpty(key)] else []
    case Running => [Run(key)]
    case Clearing => [Clear(key)]
    case Cleared => []
  }

  lemma KeyMovedPending(g: Graph, targets: Targets, L: Ledger, key: Key, from: KeyStage, st: KeyStage,
                        pending: multiset<Op>, op: Op)
    requires PendingMatches(g, targets, L, pending) && op in pending
    requires KeyAt(L, key, from) && KeyOp(g, key, from) == [op] && KeyOp(g, key, st) != [op]
    ensures PendingMatches(g, targets, KeyMoved(L, key, st),
        pending - multiset{op} + multiset(KeyOp(g, key, st)) + multiset([]))
  {
    hide PendingMatches;
    var L', next := KeyMoved(L, key, st), KeyOp(g, key, st);
    forall o ensures IsPending(g, targets, L', o) <==> (IsPending(g, targets, L, o) && o != op) || o in next + [] {
      if BaseOf(o).Some? {
        assert IsPending(g, targets, L', o) == IsPending(g, targets, L, o);
      }
    }
    PendingUpdate(g, targets, L, L', pending, op, next, []);
  }

  lemma KeyMovedCallbacks(g: Graph, targets: Targets, L: Ledger, key: Key, st: KeyStage, sh: Shared, sh': Shared)
    requires CallbacksMatch(g, targets, L, sh) && key in L.keys && L.keys[key] != Cleared && st != Cleared
    requires sh'.callbacks == sh.callbacks
    ensures CallbacksMatch(g, targets, KeyMoved(L, key, st), sh')
  {
    var L' := KeyMoved(L, key, st);
    forall k, cb ensures IsWaitingFor(g, targets, L', k, cb) <==> IsWaitingFor(g, targets, L, k, cb) {
    }
    assert L'.keys.Keys == L.keys.Keys;
  }

  lemma KeyMovedStages(g: Graph, targets: Targets, L: Ledger, key: Key, st: KeyStage, started: bool)
    requires StagesOk(g, targets, L, started) && key in L.keys && L.keys[key] !in {Initing, Cleared}
    requires st !in {Initing, Cleared}
    ensures StagesOk(g, targets, KeyMoved(L, key, st), started)
  {
    var L' := KeyMoved(L, key, st);
    forall c | c in L'.stage && PastWaiting(L'.stage[c]) ensures IsReady(g, targets, L', c) {
      assert IsReady(g, targets, L, c);
    }
    forall c | At(L', c, Waiting) ensures exists k | k in L'.keys :: HasKey(g, targets, c, k) && L'.keys[k] != Cleared {
      assert At(L, c, Waiting);
      var k :| k in L.keys && HasKey(g, targets, c, k) && L.keys[k] != Cleared;
      assert k in L'.keys && L'.keys[k] != Cleared;
    }
  }

  // ---- Counting without inputs ----

  lemma CountEmptyKeepsInv(g: Graph, targets: Targets, s: State, L: Ledger, key: Key, s': State)
    requires Inv(g, targets, s, L) && KeyAt(L, key, Counting) && g.Has(key) && |g.Inputs(key)| == 0
    requires key in s.shared.count
    requires After(s, CountEmpty(key), Effect(s.shared.(count := s.shared.count[key := s.shared.count[key] - 1]),
        [Run(key)], []), s')
    ensures Inv(g, targets, s', KeyMoved(L, key, Running))
  {
    hide PendingMatches, CallbacksMatch, CountsMatch, LinksMatch, ResultsMatch, StagesOk, KeysOk;
    var L' := KeyMoved(L, key, Running);
    KeyMovedPending(g, targets, L, key, Counting, Running, s.pending, CountEmpty(key));
    KeyMovedCallbacks(g, targets, L, key, Running, s.shared, s'.shared);
    KeyMovedStages(g, targets, L, key, Running, s.started);
    CountEmptyCounts(g, L, key, s.shared);
    CountEmptyKeys(g, L, key);
    KeyMovedResults(g, targets, L, key, Running, s.shared);
    CountsOnly(g, targets, L', s.shared, s'.shared);
  }

  lemma CountEmptyCounts(g: Graph, L: Ledger, key: Key, sh: Shared)
    requires CountsMatch(g, L, sh) && KeyAt(L, key, Counting) && g.Has(key) && |g.Inputs(key)| == 0 && key in sh.count
    ensures CountsMatch(g, KeyMoved(L, key, Running), sh.(count := sh.count[key := sh.count[key] - 1]))
  {
    OpenSame(g, L, KeyMoved(L, key, Running));
    assert Open(g, L, key) == {};
  }

  lemma CountEmptyKeys(g: Graph, L: Ledger, key: Key)
    requires KeysOk(g, L) && KeyAt(L, key, Counting) && g.Has(key) && |g.Inputs(key)| == 0
    ensures KeysOk(g, KeyMoved(L, key, Running))
  {
    OpenSame(g, L, KeyMoved(L, key, Running));
    assert AllDone(g, L, key);
  }

  lemma KeyMovedResults(g: Graph, targets: Targets, L: Ledger, key: Key, st: KeyStage, sh: Shared)
    requires ResultsMatch(g, L, sh) && LinksMatch(g, targets, L, sh) && key in L.keys
    requires (L.keys[key] in {Clearing, Cleared}) == (st in {Clearing, Cleared})
    ensures ResultsMatch(g, KeyMoved(L, key, st), sh) && LinksMatch(g, targets, KeyMoved(L, key, st), sh)
  {
    var L' := KeyMoved(L, key, st);
    forall k ensures KeyAt(L', k, Clearing) || KeyAt(L', k, Cleared)
        <==> KeyAt(L, k, Clearing) || KeyAt(L, k, Cleared)
    {
    }
    forall c, i ensures At(L', c, i) <==> At(L, c, i) {
    }
  }

  // ---- Running a command ----

  // A link to an artifact that is there leads to its value.
  lemma LinkedValue(g: Graph, targets: Targets, L: Ledger, s: State, b: Base)
    requires ResultsMatch(g, L, s.shared) && BlobsOk(g, L, s) && s.started && IsReady(g, targets, L, b)
    ensures IsArtifactValue(g, Want(g, targets, b),
        Deref(s.shared.blobs, s.shared.results, PathOf(Want(g, targets, b))))
  {
    var a := Want(g, targets, b);
    assert KeyOf(a).Some? ==> HasKey(g, targets, b, KeyOf(a).value) && KeyAt(L, KeyOf(a).value, Cleared);
    assert s.shared.blobs == g.blobs;
    DerefValue(g, s.shared.results, a);
  }

  lemma RunValue(g: Graph, targets: Targets, s: State, L: Ledger, key: Key)
    requires ResultsMatch(g, L, s.shared) && LinksMatch(g, targets, L, s.shared) && BlobsOk(g, L, s)
    requires StagesOk(g, targets, L, s.started) && KeysOk(g, L) && KeyAt(L, key, Running)
    ensures g.Has(key) && forall l | l in g.Inputs(key) :: ToInput(key, l) in s.shared.links
    ensures IsValue(g, key, Built(g, key, LinkedInputs(g, s.shared, key)))
  {
    hide IsValue, IsArtifactValue, WellFounded, Built, Deref, PathOf;
    var sh, inputs := s.shared, g.Inputs(key);
    forall l | l in inputs
      ensures ToInput(key, l) in sh.links
      ensures IsArtifactValue(g, inputs[l], Deref(sh.blobs, sh.results, sh.links[ToInput(key, l)]))
    {
      var b := ToInput(key, l);
      assert AllDone(g, L, key);
      assert At(L, b, Done) && IsReady(g, targets, L, b);
      LinkedValue(g, targets, L, s, b);
    }
    var linked := LinkedInputs(g, sh, key);
    assert linked.Keys == inputs.Keys;
    forall l | l in linked ensures IsArtifactValue(g, inputs[l], linked[l]) {
    }
    KeyValueFromInputs(g, key, linked);
  }

  lemma RunResults(g: Graph, targets: Targets, L: Ledger, key: Key, sh: Shared, c: Content)
    requires ResultsMatch(g, L, sh) && LinksMatch(g, targets, L, sh) && KeyAt(L, key, Running) && IsValue(g, key, c)
    ensures ResultsMatch(g, KeyMoved(L, key, Clearing), sh.(results := sh.results[key := c], log := sh.log + [key]))
    ensures LinksMatch(g, targets, KeyMoved(L, key, Clearing),
        sh.(results := sh.results[key := c], log := sh.log + [key]))
    ensures key !in sh.log
  {
    var L', log' := KeyMoved(L, key, Clearing), sh.log + [key];
    assert key !in sh.log;
    assert NoRepeats(log');
    assert forall k :: k in log' <==> k in sh.log || k == key;
    forall k ensures KeyAt(L', k, Clearing) || KeyAt(L', k, Cleared)
        <==> k == key || KeyAt(L, k, Clearing) || KeyAt(L, k, Cleared)
    {
    }
    forall x, i ensures At(L', x, i) <==> At(L, x, i) {
    }
  }

  lemma KeyMovedCounts(g: Graph, L: Ledger, key: Key, st: KeyStage, sh: Shared, sh': Shared)
    requires CountsMatch(g, L, sh) && KeysOk(g, L) && key in L.keys && L.keys[key] in {Running, Clearing}
    requires st in {Clearing, Cleared}
    requires sh'.count == sh.count
    ensures CountsMatch(g, KeyMoved(L, key, st), sh') && KeysOk(g, KeyMoved(L, key, st))
  {
    OpenSame(g, L, KeyMoved(L, key, st));
  }

  lemma RunShared(g: Graph, targets: Targets, s: State, L: Ledger, key: Key, c: Content, sh': Shared)
    requires Inv(g, targets, s, L) && KeyAt(L, key, Running) && g.Has(key)
    requires c == Built(g, key, LinkedInputs(g, s.shared, key))
    requires sh' == s.shared.(results := s.shared.results[key := c], log := s.shared.log + [key])
    ensures ResultsMatch(g, KeyMoved(L, key, Clearing), sh') && LinksMatch(g, targets, KeyMoved(L, key, Clearing), sh')
    ensures CallbacksMatch(g, targets, KeyMoved(L, key, Clearing), sh')
    ensures CountsMatch(g, KeyMoved(L, key, Clearing), sh') && KeysOk(g, KeyMoved(L, key, Clearing))
    ensures key !in s.shared.log && forall l | l in g.Inputs(key) :: ToInput(key, l) in s.shared.links
  {
    RunValue(g, targets, s, L, key);
    RunResults(g, targets, L, key, s.shared, c);
    KeyMovedCallbacks(g, targets, L, key, Clearing, s.shared, sh');
    KeyMovedCounts(g, L, key, Clearing, s.shared, sh');
  }

  lemma RunKeepsInv(g: Graph, targets: Targets, s: State, L: Ledger, key: Key, c: Content, s': State)
    requires Inv(g, targets, s, L) && KeyAt(L, key, Running) && g.Has(key)
    requires c == Built(g, key, LinkedInputs(g, s.shared, key))
    requires After(s, Run(key), Effect(s.shared.(results := s.shared.results[key := c], log := s.shared.log + [key]),
        [Clear(key)], []), s')
    ensures Inv(g, targets, s', KeyMoved(L, key, Clearing))
    ensures key !in s.shared.log && forall l | l in g.Inputs(key) :: ToInput(key, l) in s.shared.links
  {
    hide PendingMatches, CallbacksMatch, CountsMatch, LinksMatch, ResultsMatch, StagesOk, KeysOk, IsValue, Built,
        LinkedInputs, WellFounded;
    RunShared(g, targets, s, L, key, c, s'.shared);
    KeyMovedPending(g, targets, L, key, Running, Clearing, s.pending, Run(key));
    KeyMovedStages(g, targets, L, key, Clearing, s.started);
  }

  // ---- Clearing: calling whoever waits ----

  // Everyone waiting for the key is called.
  ghost function Released(g: Graph, targets: Targets, L: Ledger, key: Key): Ledger {
    L.(keys := L.keys[key := Cleared],
       stage := map b | b in L.stage ::
         if L.stage[b] == Waiting && HasKey(g, targets, b, key)
             then (if Want(g, targets, b).Action? then Selecting else Firing)
         else L.stage[b])
  }

  lemma {:induction false} CallbackTasksMembers(callbacks: seq<Callback>, path: Path)
    requires NoRepeats(callbacks)
    ensures NoRepeats(CallbackTasks(callbacks, path))
    ensures forall o :: o in CallbackTasks(callbacks, path) <==> o.Fire? && o.callback in callbacks && o.path == path
  {
    if callbacks != [] {
      assert forall i | 0 <= i < |callbacks[1..]| :: callbacks[1..][i] == callbacks[i + 1];
      CallbackTasksMembers(callbacks[1..], path);
    }
  }

  predicate IsRelease(g: Graph, targets: Targets, L: Ledger, key: Key, o: Op) {
    && o.Fire? && o.path == Dir(key)
    && At(L, o.callback.base, Waiting) && o.callback == CallbackFor(g, targets, o.callback.base)
          && HasKey(g, targets, o.callback.base, key)
  }

  lemma ReleasedOp(g: Graph, targets: Targets, L: Ledger, key: Key, o: Op)
    requires KeyAt(L, key, Clearing)
    ensures IsPending(g, targets, Released(g, targets, L, key), o)
        <==> (IsPending(g, targets, L, o) && o != Clear(key)) || IsRelease(g, targets, L, key, o)
    ensures IsRelease(g, targets, L, key, o) ==> !IsPending(g, targets, L, o) && o != Clear(key)
  {
    var L' := Released(g, targets, L, key);
    if BaseOf(o).Some? {
      var b := BaseOf(o).value;
      if At(L, b, Waiting) && HasKey(g, targets, b, key) {
        assert b in L'.stage && !IsPending(g, targets, L, o);
        assert KeyOf(Want(g, targets, b)) == Some(key);
        assert OpFor(g, targets, b, L'.stage[b]) == Some(Fire(CallbackFor(g, targets, b), Dir(key)));
      } else {
        assert b in L.stage ==> L'.stage[b] == L.stage[b];
        assert IsPending(g, targets, L', o) <==> IsPending(g, targets, L, o);
      }
    }
  }

  lemma ReleasePending(g: Graph, targets: Targets, L: Ledger, key: Key, pending: multiset<Op>, tasks: seq<Op>)
    requires PendingMatches(g, targets, L, pending) && Clear(key) in pending
    requires NoRepeats(tasks) && forall o :: o in tasks <==> IsRelease(g, targets, L, key, o)
    ensures PendingMatches(g, targets, Released(g, targets, L, key),
        pending - multiset{Clear(key)} + multiset([]) + multiset(tasks))
  {
    var L' := Released(g, targets, L, key);
    assert [] + tasks == tasks;
    assert IsPending(g, targets, L, Clear(key));
    forall o ensures IsPending(g, targets, L', o)
        <==> (IsPending(g, targets, L, o) && o != Clear(key)) || o in [] + tasks
             ensures o in [] + tasks ==> o != Clear(key) && !IsPending(g, targets, L, o)
    {
      ReleasedOp(g, targets, L, key, o);
    }
    PendingUpdate(g, targets, L, L', pending, Clear(key), [], tasks);
  }

  lemma ReleaseCallbacks(g: Graph, targets: Targets, L: Ledger, key: Key, sh: Shared)
    requires CallbacksMatch(g, targets, L, sh) && KeyAt(L, key, Clearing)
    ensures CallbacksMatch(g, targets, Released(g, targets, L, key), sh.(callbacks := sh.callbacks[key := None]))
  {
    var L' := Released(g, targets, L, key);
    forall k, cb | k != key ensures IsWaitingFor(g, targets, L', k, cb) <==> IsWaitingFor(g, targets, L, k, cb) {
    }
    assert L'.keys.Keys == L.keys.Keys;
  }

  lemma ReleaseCounts(g: Graph, targets: Targets, L: Ledger, key: Key, sh: Shared, sh': Shared)
    requires CountsMatch(g, L, sh) && KeysOk(g, L) && KeyAt(L, key, Clearing) && sh'.count == sh.count
    ensures CountsMatch(g, Released(g, targets, L, key), sh') && KeysOk(g, Released(g, targets, L, key))
  {
    OpenSame(g, L, Released(g, targets, L, key));
  }

  lemma ReleaseStages(g: Graph, targets: Targets, L: Ledger, key: Key, started: bool)
    requires StagesOk(g, targets, L, started) && KeyAt(L, key, Clearing)
    ensures StagesOk(g, targets, Released(g, targets, L, key), started)
  {
    ReleaseWaits(g, targets, L, key);
  }

  lemma ReleaseWaits(g: Graph, targets: Targets, L: Ledger, key: Key)
    requires WaitsOk(g, targets, L) && KeyAt(L, key, Clearing)
    ensures WaitsOk(g, targets, Released(g, targets, L, key))
  {
    var L' := Released(g, targets, L, key);
    forall c | c in L'.stage && PastWaiting(L'.stage[c]) ensures IsReady(g, targets, L', c) {
      assert PastWaiting(L.stage[c]) ==> IsReady(g, targets, L, c);
    }
    forall c | At(L', c, Waiting) ensures exists k | k in L'.keys :: HasKey(g, targets, c, k) && L'.keys[k] != Cleared {
      assert At(L, c, Waiting);
      var k :| k in L.keys && HasKey(g, targets, c, k) && L.keys[k] != Cleared;
      assert k in L'.keys && L'.keys[k] != Cleared;
    }
  }

  lemma ReleaseResults(g: Graph, targets: Targets, L: Ledger, key: Key, sh: Shared, sh': Shared)
    requires ResultsMatch(g, L, sh) && LinksMatch(g, targets, L, sh) && KeyAt(L, key, Clearing)
    requires sh' == sh.(callbacks := sh'.callbacks)
    ensures ResultsMatch(g, Released(g, targets, L, key), sh')
    ensures LinksMatch(g, targets, Released(g, targets, L, key), sh')
  {
    var L' := Released(g, targets, L, key);
    forall k ensures KeyAt(L', k, Clearing) || KeyAt(L', k, Cleared)
        <==> KeyAt(L, k, Clearing) || KeyAt(L, k, Cleared)
    {
    }
    forall c ensures At(L', c, Linked) || At(L', c, Done) <==> At(L, c, Linked) || At(L, c, Done) {
    }
  }

  // The callbacks called are those of the links that wait for the key, each one once.
  lemma ClearKeepsInv(g: Graph, targets: Targets, s: State, L: Ledger, key: Key, s': State)
    requires Inv(g, targets, s, L) && KeyAt(L, key, Clearing)
    requires key in s.shared.callbacks && s.shared.callbacks[key].Some?
    requires After(s, Clear(key), Effect(s.shared.(callbacks := s.shared.callbacks[key := None]), [],
                                         CallbackTasks(s.shared.callbacks[key].value, Dir(key))), s')
    ensures Inv(g, targets, s', Released(g, targets, L, key))
  {
    hide PendingMatches, CountsMatch, LinksMatch, ResultsMatch, StagesOk, KeysOk;
    var L' := Released(g, targets, L, key);
    var waiting := s.shared.callbacks[key].value;
    CallbackTasksMembers(waiting, Dir(key));
    ReleasePending(g, targets, L, key, s.pending, CallbackTasks(waiting, Dir(key)));
    ReleaseCallbacks(g, targets, L, key, s.shared);
    ReleaseCounts(g, targets, L, key, s.shared, s'.shared);
    ReleaseStages(g, targets, L, key, s.started);
    ReleaseResults(g, targets, L, key, s.shared, s'.shared);
  }

  // ---- Handing out the targets ----

  lemma StartKeepsInv(g: Graph, targets: Targets, s: State, L: Ledger, s': State) returns (L': Ledger)
    requires Inv(g, targets, s, L) && StartStep(targets, s, s')
    ensures Inv(g, targets, s', L')
    ensures L.stage == map[] && L.keys == map[] && L'.toWrite == {}
  {
    L' := Ledger(map l | l in targets :: ToOut(l) := Building, map[], {});
    hide PendingMatches, Inv;
    NothingDone(g, targets, s, L);
    StartPending(g, targets, L', s'.pending);
    StartedInv(g, targets, s', L');
  }

  // With nothing made and all targets handed out, there is nothing to account for but these.
  lemma StartedInv(g: Graph, targets: Targets, s: State, L: Ledger)
    requires L == Ledger(map l | l in targets :: ToOut(l) := Building, map[], {}) && s.started
    requires s.shared.links == map[] && s.shared.results == map[] && s.shared.callbacks == map[]
        && s.shared.count == map[]
    requires s.shared.blobs == g.blobs && s.shared.log == []
    requires PendingMatches(g, targets, L, s.pending)
    ensures Inv(g, targets, s, L)
  {
    hide PendingMatches;
    assert StagesOk(g, targets, L, true) by {
      assert PlacesOk(g, targets, L, true) && WaitsOk(g, targets, L);
    }
  }

  // Before the start, no link is made and no directory is complete.
  lemma NothingDone(g: Graph, targets: Targets, s: State, L: Ledger)
    requires Inv(g, targets, s, L) && !s.started && s.pending == multiset{}
    ensures L.stage == map[] && L.keys == map[] && L.toWrite == {}
    ensures s.shared.links == map[] && s.shared.results == map[] && s.shared.callbacks == map[]
        && s.shared.count == map[]
    ensures s.shared.blobs == g.blobs && s.shared.log == []
  {
    SomeMember(s.shared.log);
    forall id ensures id !in L.toWrite {
      assert !IsPending(g, targets, L, WriteBlob(id));
    }
    assert L.keys == map[] && L.stage == map[];
  }

  lemma SomeMember<T>(s: seq<T>)
    ensures s != [] ==> exists x :: x in s
  {
    assert s != [] ==> s[0] in s;
  }

  lemma StartPending(g: Graph, targets: Targets, L: Ledger, pending: multiset<Op>)
    requires L == Ledger(map l | l in targets :: ToOut(l) := Building, map[], {})
    requires pending == TargetTasks(targets)
    ensures PendingMatches(g, targets, L, pending)
  {
    var ops := set l | l in targets :: Build(targets[l], ToOut(l));
    forall o ensures o in ops <==> IsPending(g, targets, L, o) {
      if BaseOf(o).Some? && BaseOf(o).value in L.stage {
        var b := BaseOf(o).value;
        assert b.ToOut? && OpFor(g, targets, b, L.stage[b]) == Some(Build(targets[b.location], b));
      }
    }
  }

  lemma FirstInv(g: Graph, targets: Targets, s: State) returns (L: Ledger)
    requires Start(g, s)
    ensures Inv(g, targets, s, L)
  {
    L := Ledger(map[], map[], g.blobs);
    var ops := set id | id in g.blobs :: WriteBlob(id);
    forall o ensures s.pending[o] == if IsPending(g, targets, L, o) then 1 else 0 {
      assert o in ops <==> IsPending(g, targets, L, o);
    }
  }
}
