// Every operation of the parallel bootstrap traverser, executed whenever its turn comes, takes the
// ledger a step ahead (bin/parallel-bootstrap-traverser.py:195-401).
module BootstrapTurns {
  import opened Wrappers
  import opened ByteOrder
  import opened BootstrapGraph
  import opened BootstrapOps
  import opened BootstrapLedger
  import opened BootstrapKeys

  // ---- The ledger only advances, and what is past is not pending ----

  function Rank(st: Stage): nat {
    match st
    case Building => 0
    case Registering => 1
    case Waiting => 2
    case Selecting => 3
    case Firing => 4
    case Linked => 5
    case Done => 6
  }

  function KeyRank(st: KeyStage): nat {
    match st
    case Initing => 0
    case Counting => 1
    case Running => 2
    case Clearing => 3
    case Cleared => 4
  }

  ghost predicate Advances(L: Ledger, L': Ledger) {
    && (forall b | b in L.stage :: b in L'.stage && Rank(L.stage[b]) <= Rank(L'.stage[b]))
    && (forall k | k in L.keys :: k in L'.keys && KeyRank(L.keys[k]) <= KeyRank(L'.keys[k]))
    && L'.toWrite <= L.toWrite
  }

  predicate KeyPast(L: Ledger, key: Key, st: KeyStage) {
    key in L.keys && KeyRank(st) < KeyRank(L.keys[key])
  }

  // The operation has been executed, as far as the ledger tells.
  ghost predicate Past(g: Graph, targets: Targets, L: Ledger, op: Op) {
    match op
    case WriteBlob(id) => id !in L.toWrite
    case Init(key) => KeyPast(L, key, Initing)
    case CountEmpty(key) => KeyPast(L, key, Counting)
    case Run(key) => KeyPast(L, key, Running)
    case Clear(key) => KeyPast(L, key, Clearing)
    case _ =>
      var b := BaseOf(op).value;
      b in L.stage && exists st :: Rank(st) < Rank(L.stage[b]) && OpFor(g, targets, b, st) == Some(op)
  }

  lemma PastStays(g: Graph, targets: Targets, L: Ledger, L': Ledger, op: Op)
    requires Advances(L, L') && Past(g, targets, L, op)
    ensures Past(g, targets, L', op)
  {
    if BaseOf(op).Some? {
      var b := BaseOf(op).value;
      var st :| Rank(st) < Rank(L.stage[b]) && OpFor(g, targets, b, st) == Some(op);
      assert Rank(st) < Rank(L'.stage[b]);
    }
  }

  lemma StageOfOp(g: Graph, targets: Targets, b: Base, st: Stage, st': Stage)
    requires OpFor(g, targets, b, st).Some? && OpFor(g, targets, b, st) == OpFor(g, targets, b, st')
    ensures st == st'
  {
  }

  lemma PastIsNotPending(g: Graph, targets: Targets, L: Ledger, op: Op)
    requires Past(g, targets, L, op)
    ensures !IsPending(g, targets, L, op)
  {
    if BaseOf(op).Some? && IsPending(g, targets, L, op) {
      var b := BaseOf(op).value;
      var st :| Rank(st) < Rank(L.stage[b]) && OpFor(g, targets, b, st) == Some(op);
      StageOfOp(g, targets, b, st, L.stage[b]);
    }
  }

  lemma MovedIsPast(g: Graph, targets: Targets, L: Ledger, b: Base, from: Stage, st: Stage, op: Op)
    requires At(L, b, from) && OpFor(g, targets, b, from) == Some(op) && Rank(from) < Rank(st)
    ensures Advances(L, Moved(L, b, st)) && Past(g, targets, Moved(L, b, st), op)
  {
  }

  lemma SelectedIsPast(g: Graph, targets: Targets, L: Ledger, b: Base, key: Key, op: Op)
    requires At(L, b, Selecting) && HasKey(g, targets, b, key) && Want(g, targets, b).Action?
    requires op == Fire(CallbackFor(g, targets, b), Dir(key))
    ensures Advances(L, Moved(L, b, Firing)) && Past(g, targets, Moved(L, b, Firing), op)
  {
    SelectingOp(g, targets, b, key);
    MovedIsPast(g, targets, L, b, Selecting, Firing, op);
  }

  lemma RegisteredIsPast(g: Graph, targets: Targets, L: Ledger, b: Base, key: Key, st: Stage, op: Op)
    requires At(L, b, Registering) && HasKey(g, targets, b, key) && Rank(st) > 1
    requires op == Register(key, CallbackFor(g, targets, b))
    ensures Advances(L, Moved(L, b, st)) && Past(g, targets, Moved(L, b, st), op)
  {
    RegisteringOp(g, targets, b, key);
    MovedIsPast(g, targets, L, b, Registering, st, op);
  }

  lemma KeyMovedIsPast(g: Graph, targets: Targets, L: Ledger, key: Key, st: KeyStage, op: Op)
    requires key in L.keys && KeyOp(g, key, L.keys[key]) == [op] && KeyRank(L.keys[key]) < KeyRank(st)
    ensures Advances(L, KeyMoved(L, key, st)) && Past(g, targets, KeyMoved(L, key, st), op)
  {
  }

  lemma CreatedIsPast(g: Graph, targets: Targets, L: Ledger, b: Base, key: Key, op: Op)
    requires At(L, b, Registering) && OpFor(g, targets, b, Registering) == Some(op) && key !in L.keys
    ensures Advances(L, Created(L, b, key)) && Past(g, targets, Created(L, b, key), op)
  {
    MovedIsPast(g, targets, L, b, Registering, Waiting, op);
  }

  lemma OpenedIsPast(g: Graph, targets: Targets, L: Ledger, key: Key)
    requires KeyAt(L, key, Initing) && g.Has(key) && forall l :: ToInput(key, l) !in L.stage
    ensures Advances(L, Opened(g, L, key)) && Past(g, targets, Opened(g, L, key), Init(key))
  {
  }

  lemma CountedIsPast(g: Graph, targets: Targets, L: Ledger, key: Key, l: string, last: bool)
    requires At(L, ToInput(key, l), Linked) && KeyAt(L, key, Counting)
    ensures Advances(L, Counted(L, key, l, last))
    ensures Past(g, targets, Counted(L, key, l, last), CountDown(ToInput(key, l)))
  {
    MovedIsPast(g, targets, L, ToInput(key, l), Linked, Done, CountDown(ToInput(key, l)));
  }

  lemma ReleasedIsPast(g: Graph, targets: Targets, L: Ledger, key: Key)
    requires KeyAt(L, key, Clearing)
    ensures Advances(L, Released(g, targets, L, key)) && Past(g, targets, Released(g, targets, L, key), Clear(key))
  {
  }

  // ---- Every operation keeps the invariant and is past afterwards ----

  // s' is accounted for by a ledger in which op is past.
  ghost predicate Accounts(g: Graph, targets: Targets, s': State, L: Ledger, L': Ledger, op: Op) {
    Inv(g, targets, s', L') && Advances(L, L') && Past(g, targets, L', op)
  }

  ghost predicate Accounted(g: Graph, targets: Targets, s': State, L: Ledger, op: Op) {
    exists L' :: Accounts(g, targets, s', L, L', op)
  }

  lemma WriteBlobStep(g: Graph, targets: Targets, s: State, L: Ledger, id: string, s': State)
    requires Inv(g, targets, s, L) && OpStep(g, s, WriteBlob(id), s')
    ensures Accounted(g, targets, s', L, WriteBlob(id))
  {
    hide Inv, OpStep;
    var L' := WriteBlobKeepsInv(g, targets, s, L, id, s');
    assert Accounts(g, targets, s', L, L', WriteBlob(id));
  }

  lemma BuildStep(g: Graph, targets: Targets, s: State, L: Ledger, a: Artifact, b: Base, s': State)
    requires Inv(g, targets, s, L) && At(L, b, Building) && a == Want(g, targets, b)
    requires
      var st := if KeyOf(a).Some? then Registering else Firing;
      After(s, Build(a, b), Effect(s.shared, Ops(OpFor(g, targets, b, st)), []), s')
    ensures Accounted(g, targets, s', L, Build(a, b))
  {
    hide Past, Advances, Inv, After;
    var L' := BuildKeepsInv(g, targets, s, L, b, s');
    MovedIsPast(g, targets, L, b, Building, L'.stage[b], Build(a, b));
    assert Accounts(g, targets, s', L, L', Build(a, b));
  }

  lemma InitStep(g: Graph, targets: Targets, s: State, L: Ledger, key: Key, s': State)
    requires Inv(g, targets, s, L) && KeyAt(L, key, Initing) && g.Has(key)
    requires
      var inputs := g.Inputs(key);
      After(s, Init(key), Effect(s.shared.(count := s.shared.count[key := |inputs|]),
                                 if |inputs| == 0 then [CountEmpty(key)] else [],
                                 InputTasks(key, inputs, Sorted(inputs.Keys))), s')
    ensures Accounted(g, targets, s', L, Init(key))
  {
    hide Past, Advances;
    FreshInputs(g, targets, L, key, s.started);
    InitKeepsInv(g, targets, s, L, key, s');
    OpenedIsPast(g, targets, L, key);
    assert Accounts(g, targets, s', L, Opened(g, L, key), Init(key));
  }

  lemma CreateStep(g: Graph, targets: Targets, s: State, L: Ledger, key: Key, b: Base, op: Op, s': State)
    requires Inv(g, targets, s, L) && At(L, b, Registering) && HasKey(g, targets, b, key) && g.Has(key)
    requires key !in L.keys
    requires op == Register(key, CallbackFor(g, targets, b))
    requires After(s, op, Effect(s.shared.(callbacks := s.shared.callbacks[key := Some([CallbackFor(g, targets, b)])]),
        [Init(key)], []), s')
    ensures Accounted(g, targets, s', L, op)
  {
    hide Past, Advances, Inv, After;
    RegisteringOp(g, targets, b, key);
    RegisterCreateKeepsInv(g, targets, s, L, b, key, s');
    CreatedIsPast(g, targets, L, b, key, op);
    assert Accounts(g, targets, s', L, Created(L, b, key), op);
  }

  lemma WaitStep(g: Graph, targets: Targets, s: State, L: Ledger, key: Key, b: Base, op: Op, s': State)
    requires Inv(g, targets, s, L) && At(L, b, Registering) && HasKey(g, targets, b, key) && key in L.keys
    requires L.keys[key] != Cleared
    requires op == Register(key, CallbackFor(g, targets, b))
    requires After(s, op, Effect(s.shared.(callbacks := s.shared.callbacks[key := Some(s.shared.callbacks[key].value
        + [CallbackFor(g, targets, b)])]), [], []), s')
    ensures Accounted(g, targets, s', L, op)
  {
    hide Past, Advances, Inv, After;
    RegisterWaitKeepsInv(g, targets, s, L, b, key, op, s');
    RegisteredIsPast(g, targets, L, b, key, Waiting, op);
    assert Accounts(g, targets, s', L, Moved(L, b, Waiting), op);
  }

  lemma ReadyStep(g: Graph, targets: Targets, s: State, L: Ledger, key: Key, b: Base, op: Op, s': State)
    requires Inv(g, targets, s, L) && At(L, b, Registering) && HasKey(g, targets, b, key) && KeyAt(L, key, Cleared)
    requires op == Register(key, CallbackFor(g, targets, b))
    requires
      var st := if Want(g, targets, b).Action? then Selecting else Firing;
      After(s, op, Effect(s.shared, Ops(OpFor(g, targets, b, st)), []), s')
    ensures Accounted(g, targets, s', L, op)
  {
    hide Past, Advances, Inv, After;
    var L' := RegisterReadyKeepsInv(g, targets, s, L, b, key, s');
    RegisteredIsPast(g, targets, L, b, key, L'.stage[b], op);
    assert Accounts(g, targets, s', L, L', op);
  }

  lemma SelectStep(g: Graph, targets: Targets, s: State, L: Ledger, b: Base, key: Key, op: Op, s': State)
    requires Inv(g, targets, s, L) && At(L, b, Selecting) && HasKey(g, targets, b, key)
    requires Want(g, targets, b).Action? && op == Fire(CallbackFor(g, targets, b), Dir(key))
    requires After(s, op, Effect(s.shared, [Fire(Callback(b, None), Sub(Dir(key), Want(g, targets, b).path))], []), s')
    ensures Accounted(g, targets, s', L, op)
  {
    hide Past, Advances, Inv, After;
    SelectKeepsInv(g, targets, s, L, b, key, op, s');
    SelectedIsPast(g, targets, L, b, key, op);
    assert Accounts(g, targets, s', L, Moved(L, b, Firing), op);
  }

  lemma LinkStep(g: Graph, targets: Targets, s: State, L: Ledger, b: Base, path: Path, s': State)
    requires Inv(g, targets, s, L) && At(L, b, Firing) && path == PathOf(Want(g, targets, b))
    requires After(s, Fire(Callback(b, None), path),
                   Effect(s.shared.(links := s.shared.links[b := path]), if b.ToInput? then [CountDown(b)]
                       else [], []), s')
    ensures Accounted(g, targets, s', L, Fire(Callback(b, None), path))
    ensures b !in s.shared.links
  {
    hide Past, Advances, Inv, After;
    var st := if b.ToInput? then Linked else Done;
    OpsDiffer(g, targets, b);
    LinkKeepsInv(g, targets, s, L, b, s');
    MovedIsPast(g, targets, L, b, Firing, st, Fire(Callback(b, None), path));
    assert Accounts(g, targets, s', L, Moved(L, b, st), Fire(Callback(b, None), path));
  }

  lemma CountDownStep(g: Graph, targets: Targets, s: State, L: Ledger, key: Key, l: string, e: Effect, s': State)
    requires Inv(g, targets, s, L) && At(L, ToInput(key, l), Linked) && KeyAt(L, key, Counting) && key in s.shared.count
    requires e == Effect(s.shared.(count := s.shared.count[key := s.shared.count[key] - 1]),
        RunIf(key, s.shared.count[key] <= 1), [])
    requires After(s, CountDown(ToInput(key, l)), e, s')
    ensures Accounted(g, targets, s', L, CountDown(ToInput(key, l)))
  {
    hide Past, Advances, Inv, After;
    var last := s.shared.count[key] <= 1;
    CountDownKeepsInv(g, targets, s, L, key, l, last, s');
    CountedIsPast(g, targets, L, key, l, last);
    assert Accounts(g, targets, s', L, Counted(L, key, l, last), CountDown(ToInput(key, l)));
  }

  lemma CountEmptyStep(g: Graph, targets: Targets, s: State, L: Ledger, key: Key, s': State)
    requires Inv(g, targets, s, L) && KeyAt(L, key, Counting) && g.Has(key) && |g.Inputs(key)| == 0
    requires key in s.shared.count
    requires After(s, CountEmpty(key), Effect(s.shared.(count := s.shared.count[key := s.shared.count[key] - 1]),
        [Run(key)], []), s')
    ensures Accounted(g, targets, s', L, CountEmpty(key))
  {
    hide Past, Advances, Inv, After;
    CountEmptyKeepsInv(g, targets, s, L, key, s');
    KeyMovedIsPast(g, targets, L, key, Running, CountEmpty(key));
    assert Accounts(g, targets, s', L, KeyMoved(L, key, Running), CountEmpty(key));
  }

  // A command is run for the first time, and all its inputs are linked.
  lemma RunStep(g: Graph, targets: Targets, s: State, L: Ledger, key: Key, c: Content, s': State)
    requires Inv(g, targets, s, L) && KeyAt(L, key, Running) && g.Has(key)
    requires c == Built(g, key, LinkedInputs(g, s.shared, key))
    requires After(s, Run(key), Effect(s.shared.(results := s.shared.results[key := c], log := s.shared.log + [key]),
        [Clear(key)], []), s')
    ensures Accounted(g, targets, s', L, Run(key))
    ensures key !in s.shared.log && forall l | l in g.Inputs(key) :: ToInput(key, l) in s.shared.links
  {
    hide Past, Advances, Inv, After;
    RunKeepsInv(g, targets, s, L, key, c, s');
    KeyMovedIsPast(g, targets, L, key, Clearing, Run(key));
    assert Accounts(g, targets, s', L, KeyMoved(L, key, Clearing), Run(key));
  }

  lemma ClearStep(g: Graph, targets: Targets, s: State, L: Ledger, key: Key, s': State)
    requires Inv(g, targets, s, L) && KeyAt(L, key, Clearing)
    requires key in s.shared.callbacks && s.shared.callbacks[key].Some?
    requires After(s, Clear(key), Effect(s.shared.(callbacks := s.shared.callbacks[key := None]), [],
                                         CallbackTasks(s.shared.callbacks[key].value, Dir(key))), s')
    ensures Accounted(g, targets, s', L, Clear(key))
  {
    hide Past, Advances, Inv, After;
    ClearKeepsInv(g, targets, s, L, key, s');
    ReleasedIsPast(g, targets, L, key);
    assert Accounts(g, targets, s', L, Released(g, targets, L, key), Clear(key));
  }

  // ---- What each operation does, given where its turn comes ----

  lemma InitEffect(g: Graph, sh: Shared, key: Key)
    requires g.Has(key)
    ensures
      var inputs := g.Inputs(key);
      Exec(g, sh, Init(key)) == Effect(sh.(count := sh.count[key := |inputs|]),
                                       if |inputs| == 0 then [CountEmpty(key)] else [],
                                       InputTasks(key, inputs, Sorted(inputs.Keys)))
  {
  }

  lemma FireEffect(g: Graph, sh: Shared, b: Base, path: Path, p: string)
    ensures Exec(g, sh, Fire(Callback(b, None), path)) ==
              Effect(sh.(links := sh.links[b := path]), if b.ToInput? then [CountDown(b)] else [], [])
    ensures Exec(g, sh, Fire(Callback(b, Some(p)), path)) == Effect(sh, [Fire(Callback(b, None), Sub(path, p))], [])
  {
  }

  lemma CountEffect(g: Graph, sh: Shared, key: Key, l: string)
    requires key in sh.count
    ensures Exec(g, sh, CountDown(ToInput(key, l))) ==
              Effect(sh.(count := sh.count[key := sh.count[key] - 1]), RunIf(key, sh.count[key] <= 1), [])
    ensures Exec(g, sh, CountEmpty(key)) ==
              Effect(sh.(count := sh.count[key := sh.count[key] - 1]), RunIf(key, sh.count[key] <= 1), [])
  {
  }

  lemma RunEffect(g: Graph, sh: Shared, key: Key)
    requires g.Has(key)
    ensures Exec(g, sh, Run(key)) ==
              Effect(sh.(results := sh.results[key := Built(g, key, LinkedInputs(g, sh, key))], log := sh.log + [key]),
                  [Clear(key)], [])
  {
  }

  lemma ClearEffect(g: Graph, sh: Shared, key: Key)
    requires key in sh.callbacks && sh.callbacks[key].Some?
    ensures Exec(g, sh, Clear(key)) ==
              Effect(sh.(callbacks := sh.callbacks[key := None]), [], CallbackTasks(sh.callbacks[key].value, Dir(key)))
  {
  }

  // ---- Each operation, where its turn comes ----

  lemma BuildTurn(g: Graph, targets: Targets, s: State, L: Ledger, op: Op, e: Effect, s': State)
    requires Inv(g, targets, s, L) && After(s, op, e, s') && e == Exec(g, s.shared, op) && op.Build?
    ensures Accounted(g, targets, s', L, op)
  {
    hide PendingMatches, CallbacksMatch, CountsMatch, LinksMatch, ResultsMatch, StagesOk, KeysOk;
    PendingOp(g, targets, L, s.pending, op);
    assert At(L, op.base, Building) && op == Build(Want(g, targets, op.base), op.base);
    BuildEffect(g, targets, s.shared, op.base);
    BuildStep(g, targets, s, L, op.artifact, op.base, s');
  }

  lemma RegisterTurn(g: Graph, targets: Targets, s: State, L: Ledger, op: Op, e: Effect, s': State)
    requires Inv(g, targets, s, L) && ClosedFor(g, targets) && After(s, op, e, s') && e == Exec(g, s.shared, op)
    requires op.Register?
    ensures Accounted(g, targets, s', L, op)
  {
    hide PendingMatches, CallbacksMatch, CountsMatch, LinksMatch, ResultsMatch, StagesOk, KeysOk;
    var b, key := op.callback.base, op.key;
    PendingOp(g, targets, L, s.pending, op);
    assert At(L, b, Registering) && HasKey(g, targets, b, key) && op == Register(key, CallbackFor(g, targets, b));
    WantedKeysExist(g, targets, b, key);
    RegisterEffect(g, targets, L, s.shared, b, key);
    if key !in L.keys {
      CreateStep(g, targets, s, L, key, b, op, s');
    } else if L.keys[key] != Cleared {
      WaitStep(g, targets, s, L, key, b, op, s');
    } else {
      ReadyStep(g, targets, s, L, key, b, op, s');
    }
  }

  // Where a pending call of a callback stands.
  lemma FirePending(g: Graph, targets: Targets, L: Ledger, pending: multiset<Op>, op: Op)
    requires PendingMatches(g, targets, L, pending) && op in pending && op.Fire?
    ensures
      var b := op.callback.base;
      var a := Want(g, targets, b);
      || (At(L, b, Selecting) && a.Action? && HasKey(g, targets, b, ActionKey(a.id))
            && op == Fire(Callback(b, Some(a.path)), Dir(ActionKey(a.id))))
      || (At(L, b, Firing) && op == Fire(Callback(b, None), PathOf(a)))
  {
    PendingOp(g, targets, L, pending, op);
  }

  lemma FireTurn(g: Graph, targets: Targets, s: State, L: Ledger, op: Op, e: Effect, s': State)
    requires Inv(g, targets, s, L) && After(s, op, e, s') && e == Exec(g, s.shared, op) && op.Fire?
    ensures Accounted(g, targets, s', L, op)
    ensures op.callback.output.None? ==> op.callback.base !in s.shared.links
  {
    hide PendingMatches, CallbacksMatch, CountsMatch, LinksMatch, ResultsMatch, StagesOk, KeysOk;
    var b := op.callback.base;
    var a := Want(g, targets, b);
    FirePending(g, targets, L, s.pending, op);
    FireEffect(g, s.shared, b, op.path, if a.Action? then a.path else "");
    if op.callback.output.Some? {
      SelectStep(g, targets, s, L, b, ActionKey(a.id), op, s');
    } else {
      LinkStep(g, targets, s, L, b, PathOf(a), s');
    }
  }

  lemma CountDownReady(g: Graph, targets: Targets, s: State, L: Ledger, key: Key, l: string)
    requires Inv(g, targets, s, L) && At(L, ToInput(key, l), Linked)
    ensures KeyAt(L, key, Counting) && key in s.shared.count
  {
    OpenKeyCounts(g, targets, L, key, l, s.started);
  }

  lemma CountDownEffect(g: Graph, sh: Shared, key: Key, l: string, e: Effect)
    requires key in sh.count && e == Exec(g, sh, CountDown(ToInput(key, l)))
    ensures e == Effect(sh.(count := sh.count[key := sh.count[key] - 1]), RunIf(key, sh.count[key] <= 1), [])
  {
    CountEffect(g, sh, key, l);
  }

  lemma NothingToCount(g: Graph, L: Ledger, key: Key, sh: Shared)
    requires CountsMatch(g, L, sh) && KeyAt(L, key, Counting) && g.Has(key) && |g.Inputs(key)| == 0
    ensures key in sh.count && RunIf(key, sh.count[key] <= 1) == [Run(key)]
  {
    OpenEmpty(g, L, key);
  }

  lemma CountDownTurn(g: Graph, targets: Targets, s: State, L: Ledger, op: Op, e: Effect, s': State)
    requires Inv(g, targets, s, L) && After(s, op, e, s') && e == Exec(g, s.shared, op) && op.CountDown?
    ensures Accounted(g, targets, s', L, op)
  {
    hide PendingMatches, CallbacksMatch, CountsMatch, LinksMatch, ResultsMatch, WaitsOk, KeysOk;
    PendingOp(g, targets, L, s.pending, op);
    assert At(L, op.base, Linked) && op == CountDown(ToInput(op.base.key, op.base.location));
    CountDownReady(g, targets, s, L, op.base.key, op.base.location);
    CountDownEffect(g, s.shared, op.base.key, op.base.location, e);
    CountDownStep(g, targets, s, L, op.base.key, op.base.location, e, s');
  }

  lemma CountEmptyTurn(g: Graph, targets: Targets, s: State, L: Ledger, op: Op, e: Effect, s': State)
    requires Inv(g, targets, s, L) && After(s, op, e, s') && e == Exec(g, s.shared, op) && op.CountEmpty?
    ensures Accounted(g, targets, s', L, op)
  {
    hide PendingMatches, CallbacksMatch, CountsMatch, LinksMatch, ResultsMatch, StagesOk;
    PendingOp(g, targets, L, s.pending, op);
    NothingToCount(g, L, op.key, s.shared);
    CountEffect(g, s.shared, op.key, "");
    CountEmptyStep(g, targets, s, L, op.key, s');
  }

  lemma RunTurn(g: Graph, targets: Targets, s: State, L: Ledger, op: Op, e: Effect, s': State)
    requires Inv(g, targets, s, L) && After(s, op, e, s') && e == Exec(g, s.shared, op) && op.Run?
    ensures Accounted(g, targets, s', L, op)
    ensures g.Has(op.key) && op.key !in s.shared.log
    ensures forall l | l in g.Inputs(op.key) :: ToInput(op.key, l) in s.shared.links
  {
    hide PendingMatches, CallbacksMatch, CountsMatch, LinksMatch, ResultsMatch, StagesOk;
    PendingOp(g, targets, L, s.pending, op);
    assert KeyAt(L, op.key, Running) && g.Has(op.key);
    RunEffect(g, s.shared, op.key);
    RunStep(g, targets, s, L, op.key, Built(g, op.key, LinkedInputs(g, s.shared, op.key)), s');
  }

  lemma InitTurn(g: Graph, targets: Targets, s: State, L: Ledger, op: Op, e: Effect, s': State)
    requires Inv(g, targets, s, L) && After(s, op, e, s') && e == Exec(g, s.shared, op) && op.Init?
    ensures Accounted(g, targets, s', L, op)
  {
    hide PendingMatches, CallbacksMatch, CountsMatch, LinksMatch, ResultsMatch, StagesOk;
    PendingOp(g, targets, L, s.pending, op);
    assert KeyAt(L, op.key, Initing) && g.Has(op.key);
    InitEffect(g, s.shared, op.key);
    InitStep(g, targets, s, L, op.key, s');
  }

  lemma ClearTurn(g: Graph, targets: Targets, s: State, L: Ledger, op: Op, e: Effect, s': State)
    requires Inv(g, targets, s, L) && After(s, op, e, s') && e == Exec(g, s.shared, op) && op.Clear?
    ensures Accounted(g, targets, s', L, op)
  {
    hide PendingMatches, CountsMatch, LinksMatch, ResultsMatch, StagesOk, KeysOk;
    PendingOp(g, targets, L, s.pending, op);
    assert KeyAt(L, op.key, Clearing) && op.key in s.shared.callbacks && s.shared.callbacks[op.key].Some?;
    ClearEffect(g, s.shared, op.key);
    ClearStep(g, targets, s, L, op.key, s');
  }

  lemma StepKeepsInv(g: Graph, targets: Targets, s: State, L: Ledger, op: Op, s': State)
    requires Inv(g, targets, s, L) && ClosedFor(g, targets) && OpStep(g, s, op, s')
    ensures Accounted(g, targets, s', L, op)
  {
    hide Inv, Accounted, Exec;
    var e := Exec(g, s.shared, op);
    assert After(s, op, e, s');
    match op
    case WriteBlob(id) => WriteBlobStep(g, targets, s, L, id, s');
    case Build(_, _) => BuildTurn(g, targets, s, L, op, e, s');
    case Register(_, _) => RegisterTurn(g, targets, s, L, op, e, s');
    case Init(_) => InitTurn(g, targets, s, L, op, e, s');
    case Fire(_, _) => FireTurn(g, targets, s, L, op, e, s');
    case CountDown(_) => CountDownTurn(g, targets, s, L, op, e, s');
    case CountEmpty(_) => CountEmptyTurn(g, targets, s, L, op, e, s');
    case Run(_) => RunTurn(g, targets, s, L, op, e, s');
    case Clear(_) => ClearTurn(g, targets, s, L, op, e, s');
  }
}
