// A ledger of the traversal: for each link to be made and for each action or tree, how far it has
// come. The ledger determines which operations are pending, so that every operation is shown to be
// pending once and to be executed in its turn only.
module BootstrapLedger {
  import opened Wrappers
  import opened ByteOrder
  import opened BootstrapGraph
  import opened BootstrapOps

  // The way of a link: its artifact is dispatched, its callback is registered and waits, is called
  // with the directory, then with the path in it, the link is made, and it is counted.
  datatype Stage = Building | Registering | Waiting | Selecting | Firing | Linked | Done

  // The way of an action or tree.
  datatype KeyStage = Initing | Counting | Running | Clearing | Cleared

  datatype Ledger = Ledger(stage: map<Base, Stage>, keys: map<Key, KeyStage>, toWrite: set<string>)

  // ---- What a link is for ----

  predicate IsWanted(g: Graph, targets: Targets, b: Base) {
    if b.ToOut? then b.location in targets else g.Has(b.key) && b.location in g.Inputs(b.key)
  }

  function Want(g: Graph, targets: Targets, b: Base): Artifact {
    if !IsWanted(g, targets, b) then Known("")
    else if b.ToOut? then targets[b.location] else g.Inputs(b.key)[b.location]
  }

  function CallbackFor(g: Graph, targets: Targets, b: Base): Callback {
    var a := Want(g, targets, b);
    Callback(b, if a.Action? then Some(a.path) else None)
  }

  predicate HasKey(g: Graph, targets: Targets, b: Base, key: Key) {
    KeyOf(Want(g, targets, b)) == Some(key)
  }

  // ---- The operations a ledger stands for ----

  predicate At(L: Ledger, b: Base, st: Stage) {
    b in L.stage && L.stage[b] == st
  }

  predicate KeyAt(L: Ledger, key: Key, st: KeyStage) {
    key in L.keys && L.keys[key] == st
  }

  // The link that an operation is about.
  function BaseOf(op: Op): Option<Base> {
    match op
    case Build(_, b) => Some(b)
    case Register(_, cb) => Some(cb.base)
    case Fire(cb, _) => Some(cb.base)
    case CountDown(b) => Some(b)
    case _ => None
  }

  // What is to be done next about a link.
  function OpFor(g: Graph, targets: Targets, b: Base, st: Stage): (op: Option<Op>)
    ensures op.Some? ==> BaseOf(op.value) == Some(b)
  {
    var a := Want(g, targets, b);
    match st
    case Building => Some(Build(a, b))
    case Registering => if KeyOf(a).Some? then Some(Register(KeyOf(a).value, CallbackFor(g, targets, b))) else None
    case Waiting => None
    case Selecting => if a.Action? then Some(Fire(CallbackFor(g, targets, b), Dir(ActionKey(a.id)))) else None
    case Firing => Some(Fire(Callback(b, None), PathOf(a)))
    case Linked => Some(CountDown(b))
    case Done => None
  }

  predicate IsPending(g: Graph, targets: Targets, L: Ledger, op: Op) {
    match op
    case WriteBlob(id) => id in L.toWrite
    case Init(key) => KeyAt(L, key, Initing)
    case CountEmpty(key) => KeyAt(L, key, Counting) && g.Has(key) && |g.Inputs(key)| == 0
    case Run(key) => KeyAt(L, key, Running)
    case Clear(key) => KeyAt(L, key, Clearing)
    case _ =>
      var b := BaseOf(op).value;
      b in L.stage && OpFor(g, targets, b, L.stage[b]) == Some(op)
  }

  // Each of them is pending once.
  ghost predicate PendingMatches(g: Graph, targets: Targets, L: Ledger, pending: multiset<Op>) {
    forall op :: pending[op] == if IsPending(g, targets, L, op) then 1 else 0
  }

  // ---- The shared state a ledger stands for ----

  ghost predicate IsWaitingFor(g: Graph, targets: Targets, L: Ledger, key: Key, cb: Callback) {
    At(L, cb.base, Waiting) && cb == CallbackFor(g, targets, cb.base) && HasKey(g, targets, cb.base, key)
  }

  ghost predicate NoRepeats<T>(s: seq<T>) {
    forall i, j | 0 <= i < j < |s| :: s[i] != s[j]
  }

  ghost predicate CallbacksMatch(g: Graph, targets: Targets, L: Ledger, sh: Shared) {
    && sh.callbacks.Keys == L.keys.Keys
    && (forall k | k in L.keys :: sh.callbacks[k].None? <==> L.keys[k] == Cleared)
    && (forall k | k in L.keys && L.keys[k] != Cleared ::
          && NoRepeats(sh.callbacks[k].value)
          && forall cb :: cb in sh.callbacks[k].value <==> IsWaitingFor(g, targets, L, k, cb))
  }

  // The inputs not yet counted.
  ghost function Open(g: Graph, L: Ledger, key: Key): set<string>
    requires g.Has(key)
  {
    set l | l in g.Inputs(key) && !At(L, ToInput(key, l), Done)
  }

  ghost predicate CountsMatch(g: Graph, L: Ledger, sh: Shared) {
    && (forall k :: k in sh.count <==> k in L.keys && L.keys[k] != Initing)
    && (forall k | k in sh.count && g.Has(k) ::
          sh.count[k] == if |g.Inputs(k)| == 0 && L.keys[k] != Counting then -1 else |Open(g, L, k)|)
  }

  ghost predicate LinksMatch(g: Graph, targets: Targets, L: Ledger, sh: Shared) {
    && (forall b :: b in sh.links <==> At(L, b, Linked) || At(L, b, Done))
    && (forall b | b in sh.links :: sh.links[b] == PathOf(Want(g, targets, b)))
  }

  ghost predicate ResultsMatch(g: Graph, L: Ledger, sh: Shared) {
    && (forall k :: k in sh.results <==> KeyAt(L, k, Clearing) || KeyAt(L, k, Cleared))
    && (forall k | k in sh.results :: IsValue(g, k, sh.results[k]))
    && (forall k :: k in sh.log <==> k in sh.results)
    && NoRepeats(sh.log)
  }

  // ---- The order of things ----

  // The artifact of the link is there to be linked.
  ghost predicate IsReady(g: Graph, targets: Targets, L: Ledger, b: Base) {
    forall k | HasKey(g, targets, b, k) :: KeyAt(L, k, Cleared)
  }

  predicate PastWaiting(st: Stage) {
    st == Selecting || st == Firing || st == Linked || st == Done
  }

  // Which links and keys there are at what time.
  ghost predicate PlacesOk(g: Graph, targets: Targets, L: Ledger, started: bool) {
    && (L.keys != map[] ==> started)
    && (forall b | b in L.stage :: started && IsWanted(g, targets, b))
    && (forall k, l | ToInput(k, l) in L.stage :: k in L.keys && L.keys[k] != Initing)
    && (forall l | ToOut(l) in L.stage :: L.stage[ToOut(l)] != Linked)
    && (started ==> forall l | l in targets :: ToOut(l) in L.stage)
    && (forall k, l | k in L.keys && L.keys[k] != Initing && g.Has(k) && l in g.Inputs(k) :: ToInput(k, l) in L.stage)
    && (forall b | At(L, b, Registering) :: KeyOf(Want(g, targets, b)).Some?)
    && (forall b | At(L, b, Selecting) :: Want(g, targets, b).Action?)
  }

  // A link waits as long as its artifact is not there, and no longer.
  ghost predicate WaitsOk(g: Graph, targets: Targets, L: Ledger) {
    && (forall b | At(L, b, Waiting) :: exists k | k in L.keys :: HasKey(g, targets, b, k) && L.keys[k] != Cleared)
    && (forall b | b in L.stage && PastWaiting(L.stage[b]) :: IsReady(g, targets, L, b))
  }

  ghost predicate StagesOk(g: Graph, targets: Targets, L: Ledger, started: bool) {
    PlacesOk(g, targets, L, started) && WaitsOk(g, targets, L)
  }

  ghost predicate AllDone(g: Graph, L: Ledger, key: Key) {
    g.Has(key) && forall l | l in g.Inputs(key) :: At(L, ToInput(key, l), Done)
  }

  ghost predicate KeysOk(g: Graph, L: Ledger) {
    && (forall k | k in L.keys :: g.Has(k))
    && (forall k | KeyAt(L, k, Running) || KeyAt(L, k, Clearing) || KeyAt(L, k, Cleared) :: AllDone(g, L, k))
    && (forall k | KeyAt(L, k, Counting) && AllDone(g, L, k) :: |g.Inputs(k)| == 0)
  }

  ghost predicate BlobsOk(g: Graph, L: Ledger, s: State) {
    && s.shared.blobs == g.blobs - L.toWrite
    && L.toWrite <= g.blobs
    && (s.started ==> L.toWrite == {})
  }

  ghost predicate Inv(g: Graph, targets: Targets, s: State, L: Ledger) {
    && PendingMatches(g, targets, L, s.pending)
    && CallbacksMatch(g, targets, L, s.shared)
    && CountsMatch(g, L, s.shared)
    && LinksMatch(g, targets, L, s.shared)
    && ResultsMatch(g, L, s.shared)
    && StagesOk(g, targets, L, s.started)
    && KeysOk(g, L)
    && BlobsOk(g, L, s)
  }

  // Every target and every input is described.
  ghost predicate ClosedFor(g: Graph, targets: Targets) {
    Closed(g) && forall l | l in targets :: KeyOf(targets[l]).Some? ==> g.Has(KeyOf(targets[l]).value)
  }

  lemma WantedKeysExist(g: Graph, targets: Targets, b: Base, k: Key)
    requires ClosedFor(g, targets) && HasKey(g, targets, b, k)
    ensures g.Has(k)
  {
  }

  lemma RegisteringOp(g: Graph, targets: Targets, b: Base, key: Key)
    requires HasKey(g, targets, b, key)
    ensures OpFor(g, targets, b, Registering) == Some(Register(key, CallbackFor(g, targets, b)))
    ensures OpFor(g, targets, b, Waiting) == None && BaseOf(Register(key, CallbackFor(g, targets, b))) == Some(b)
  {
  }

  lemma SelectingOp(g: Graph, targets: Targets, b: Base, key: Key)
    requires HasKey(g, targets, b, key) && Want(g, targets, b).Action?
    ensures OpFor(g, targets, b, Selecting) == Some(Fire(CallbackFor(g, targets, b), Dir(key)))
    ensures BaseOf(Fire(CallbackFor(g, targets, b), Dir(key))) == Some(b)
  {
  }

  // ---- Each operation keeps the state in line with a ledger ----

  ghost function Moved(L: Ledger, b: Base, st: Stage): Ledger {
    L.(stage := L.stage[b := st])
  }

  ghost function KeyMoved(L: Ledger, k: Key, st: KeyStage): Ledger {
    L.(keys := L.keys[k := st])
  }

  lemma {:induction false} NoRepeatsOnce<T>(s: seq<T>, x: T)
    requires NoRepeats(s)
    ensures multiset(s)[x] == if x in s then 1 else 0
  {
    if s != [] {
      NoRepeatsOnce(s[1..], x);
      assert s == [s[0]] + s[1..];
      assert forall i | 0 <= i < |s[1..]| :: s[1..][i] == s[i + 1];
    }
  }

  // Executing op and adding new operations: what is pending afterwards.
  lemma PendingUpdate(g: Graph, targets: Targets, L: Ledger, L': Ledger, pending: multiset<Op>, op: Op, next: seq<Op>,
                      tasks: seq<Op>)
    requires PendingMatches(g, targets, L, pending) && op in pending
    requires NoRepeats(next + tasks)
    requires forall o | o in next + tasks :: o != op && !IsPending(g, targets, L, o)
    requires forall o :: IsPending(g, targets, L', o) <==> (IsPending(g, targets, L, o) && o != op) || o in next + tasks
    ensures PendingMatches(g, targets, L', pending - multiset{op} + multiset(next) + multiset(tasks))
  {
    var pending' := pending - multiset{op} + multiset(next) + multiset(tasks);
    forall o ensures pending'[o] == if IsPending(g, targets, L', o) then 1 else 0 {
      NoRepeatsOnce(next + tasks, o);
      assert multiset(next + tasks)[o] == multiset(next)[o] + multiset(tasks)[o];
      assert IsPending(g, targets, L, op);
    }
  }

  // ---- Moving a link from one stage to the next ----

  function Ops(op: Option<Op>): seq<Op> {
    if op.None? then [] else [op.value]
  }

  lemma MovePending(g: Graph, targets: Targets, L: Ledger, b: Base, st: Stage, pending: multiset<Op>, op: Op)
    requires PendingMatches(g, targets, L, pending) && op in pending && BaseOf(op) == Some(b)
    requires OpFor(g, targets, b, st) != Some(op)
    ensures b in L.stage && OpFor(g, targets, b, L.stage[b]) == Some(op)
    ensures PendingMatches(g, targets, Moved(L, b, st),
        pending - multiset{op} + multiset(Ops(OpFor(g, targets, b, st))) + multiset([]))
  {
    var L', next := Moved(L, b, st), Ops(OpFor(g, targets, b, st));
    assert IsPending(g, targets, L, op);
    forall o ensures IsPending(g, targets, L', o) <==> (IsPending(g, targets, L, o) && o != op) || o in next + [] {
      if BaseOf(o) == Some(b) {
        assert IsPending(g, targets, L', o) <==> OpFor(g, targets, b, st) == Some(o);
      } else {
        assert IsPending(g, targets, L', o) == IsPending(g, targets, L, o);
      }
    }
    PendingUpdate(g, targets, L, L', pending, op, next, []);
  }

  lemma MoveCallbacks(g: Graph, targets: Targets, L: Ledger, b: Base, st: Stage, sh: Shared)
    requires CallbacksMatch(g, targets, L, sh) && !At(L, b, Waiting) && st != Waiting
    ensures CallbacksMatch(g, targets, Moved(L, b, st), sh)
  {
    var L' := Moved(L, b, st);
    forall k, cb ensures IsWaitingFor(g, targets, L', k, cb) <==> IsWaitingFor(g, targets, L, k, cb) {
    }
  }

  lemma OpenSame(g: Graph, L: Ledger, L': Ledger)
    requires forall k, l :: At(L', ToInput(k, l), Done) <==> At(L, ToInput(k, l), Done)
    ensures forall k | g.Has(k) :: Open(g, L', k) == Open(g, L, k)
    ensures forall k :: AllDone(g, L', k) <==> AllDone(g, L, k)
  {
  }

  lemma MoveCounts(g: Graph, L: Ledger, b: Base, st: Stage, sh: Shared)
    requires CountsMatch(g, L, sh) && KeysOk(g, L) && (b.ToOut? || (!At(L, b, Done) && st != Done))
    ensures CountsMatch(g, Moved(L, b, st), sh) && KeysOk(g, Moved(L, b, st))
  {
    OpenSame(g, L, Moved(L, b, st));
  }

  predicate HasLink(st: Stage) {
    st == Linked || st == Done
  }

  lemma MoveStages(g: Graph, targets: Targets, L: Ledger, b: Base, st: Stage, started: bool)
    requires StagesOk(g, targets, L, started) && b in L.stage
    requires st == Waiting ==> exists k | k in L.keys :: HasKey(g, targets, b, k) && L.keys[k] != Cleared
    requires PastWaiting(st) ==> IsReady(g, targets, L, b)
    requires st == Registering ==> KeyOf(Want(g, targets, b)).Some?
    requires st == Selecting ==> Want(g, targets, b).Action?
    requires st == Linked ==> b.ToInput?
    ensures StagesOk(g, targets, Moved(L, b, st), started)
  {
    hide PlacesOk, WaitsOk;
    MovePlaces(g, targets, L, b, st, started);
    MoveWaits(g, targets, L, b, st);
  }

  lemma MovePlaces(g: Graph, targets: Targets, L: Ledger, b: Base, st: Stage, started: bool)
    requires PlacesOk(g, targets, L, started) && b in L.stage
    requires st == Registering ==> KeyOf(Want(g, targets, b)).Some?
    requires st == Selecting ==> Want(g, targets, b).Action?
    requires st == Linked ==> b.ToInput?
    ensures PlacesOk(g, targets, Moved(L, b, st), started)
  {
  }

  lemma MoveWaits(g: Graph, targets: Targets, L: Ledger, b: Base, st: Stage)
    requires WaitsOk(g, targets, L)
    requires st == Waiting ==> exists k | k in L.keys :: HasKey(g, targets, b, k) && L.keys[k] != Cleared
    requires PastWaiting(st) ==> IsReady(g, targets, L, b)
    ensures WaitsOk(g, targets, Moved(L, b, st))
  {
    var L' := Moved(L, b, st);
    forall c | c in L'.stage && PastWaiting(L'.stage[c]) ensures IsReady(g, targets, L', c) {
      assert c != b ==> IsReady(g, targets, L, c);
    }
    forall c | At(L', c, Waiting) ensures exists k | k in L'.keys :: HasKey(g, targets, c, k) && L'.keys[k] != Cleared {
      assert c != b ==> At(L, c, Waiting);
    }
  }

  // ---- Each operation keeps the state in line with a ledger ----

  lemma WriteBlobPending(g: Graph, targets: Targets, L: Ledger, pending: multiset<Op>, id: string)
    requires PendingMatches(g, targets, L, pending) && WriteBlob(id) in pending
    ensures PendingMatches(g, targets, L.(toWrite := L.toWrite - {id}),
        pending - multiset{WriteBlob(id)} + multiset([]) + multiset([]))
  {
    var L' := L.(toWrite := L.toWrite - {id});
    forall o ensures IsPending(g, targets, L', o)
        <==> (IsPending(g, targets, L, o) && o != WriteBlob(id)) || o in [] + []
    {
      assert BaseOf(o).Some? ==> IsPending(g, targets, L', o) == IsPending(g, targets, L, o);
    }
    PendingUpdate(g, targets, L, L', pending, WriteBlob(id), [], []);
  }

  lemma WriteBlobKeepsInv(g: Graph, targets: Targets, s: State, L: Ledger, id: string, s': State) returns (L': Ledger)
    requires Inv(g, targets, s, L) && OpStep(g, s, WriteBlob(id), s')
    ensures Inv(g, targets, s', L') && L' == L.(toWrite := L.toWrite - {id})
  {
    L' := L.(toWrite := L.toWrite - {id});
    WriteBlobPending(g, targets, L, s.pending, id);
    assert IsPending(g, targets, L, WriteBlob(id));
    OpenSame(g, L, L');
    assert CallbacksMatch(g, targets, L', s'.shared) by {
      forall k, cb ensures IsWaitingFor(g, targets, L', k, cb) <==> IsWaitingFor(g, targets, L, k, cb) {
      }
    }
    assert StagesOk(g, targets, L', s'.started) by {
      forall b ensures IsReady(g, targets, L', b) <==> IsReady(g, targets, L, b) {
      }
    }
  }

  lemma MoveLinks(g: Graph, targets: Targets, L: Ledger, b: Base, st: Stage, sh: Shared)
    requires LinksMatch(g, targets, L, sh) && b in L.stage && HasLink(L.stage[b]) == HasLink(st)
    ensures LinksMatch(g, targets, Moved(L, b, st), sh)
  {
  }

  lemma MoveResults(g: Graph, L: Ledger, b: Base, st: Stage, sh: Shared)
    requires ResultsMatch(g, L, sh)
    ensures ResultsMatch(g, Moved(L, b, st), sh)
  {
    forall k, kst ensures KeyAt(Moved(L, b, st), k, kst) <==> KeyAt(L, k, kst) {
    }
  }

  // An operation that takes a link one stage further without touching the shared state.
  lemma MoveKeepsInv(g: Graph, targets: Targets, s: State, L: Ledger, op: Op, b: Base, st: Stage, s': State)
    requires Inv(g, targets, s, L) && op in s.pending && BaseOf(op) == Some(b)
    requires OpFor(g, targets, b, st) != Some(op) && st != Waiting && st != Done && st != Linked
    requires !At(L, b, Linked)
    requires s' == State(s.pending - multiset{op} + multiset(Ops(OpFor(g, targets, b, st))) + multiset([]), s.shared,
        s.started)
    requires st in {Selecting, Firing} ==> IsReady(g, targets, L, b)
    requires st == Registering ==> KeyOf(Want(g, targets, b)).Some?
    requires st == Selecting ==> Want(g, targets, b).Action?
    ensures Inv(g, targets, s', Moved(L, b, st))
  {
    hide PendingMatches, CallbacksMatch, CountsMatch, LinksMatch, ResultsMatch, StagesOk, KeysOk;
    MovePending(g, targets, L, b, st, s.pending, op);
    MoveCallbacks(g, targets, L, b, st, s.shared);
    MoveCounts(g, L, b, st, s.shared);
    MoveLinks(g, targets, L, b, st, s.shared);
    MoveResults(g, L, b, st, s.shared);
    MoveStages(g, targets, L, b, st, s.started);
  }

  // A pending operation is the one for the stage of its link.
  lemma PendingOp(g: Graph, targets: Targets, L: Ledger, pending: multiset<Op>, op: Op)
    requires PendingMatches(g, targets, L, pending) && op in pending
    ensures IsPending(g, targets, L, op)
    ensures BaseOf(op).Some? ==>
              BaseOf(op).value in L.stage && OpFor(g, targets, BaseOf(op).value, L.stage[BaseOf(op).value]) == Some(op)
  {
  }

  lemma BuildEffect(g: Graph, targets: Targets, sh: Shared, b: Base)
    ensures
      var a := Want(g, targets, b);
      var st := if KeyOf(a).Some? then Registering else Firing;
      Exec(g, sh, Build(a, b)) == Effect(sh, Ops(OpFor(g, targets, b, st)), [])
  {
  }

  // s' is s after an operation with the given effect.
  ghost predicate After(s: State, op: Op, e: Effect, s': State) {
    && op in s.pending
    && s' == State(s.pending - multiset{op} + multiset(e.next) + multiset(e.tasks), e.shared, s.started)
  }

  lemma BuildKeepsInv(g: Graph, targets: Targets, s: State, L: Ledger, b: Base, s': State) returns (L': Ledger)
    requires Inv(g, targets, s, L) && At(L, b, Building)
    requires
      var st := if KeyOf(Want(g, targets, b)).Some? then Registering else Firing;
      After(s, Build(Want(g, targets, b), b), Effect(s.shared, Ops(OpFor(g, targets, b, st)), []), s')
    ensures Inv(g, targets, s', L')
    ensures L' == Moved(L, b, if KeyOf(Want(g, targets, b)).Some? then Registering else Firing)
  {
    var a := Want(g, targets, b);
    var st := if KeyOf(a).Some? then Registering else Firing;
    L' := Moved(L, b, st);
    MoveKeepsInv(g, targets, s, L, Build(a, b), b, st, s');
  }

  // ---- Registering a callback ----

  lemma RegisterEffect(g: Graph, targets: Targets, L: Ledger, sh: Shared, b: Base, key: Key)
    requires CallbacksMatch(g, targets, L, sh) && HasKey(g, targets, b, key)
    ensures
      var cb := CallbackFor(g, targets, b);
      Exec(g, sh, Register(key, cb)) ==
        if key !in L.keys then Effect(sh.(callbacks := sh.callbacks[key := Some([cb])]), [Init(key)], [])
        else if L.keys[key] != Cleared then
          Effect(sh.(callbacks := sh.callbacks[key := Some(sh.callbacks[key].value + [cb])]), [], [])
        else
          Effect(sh, Ops(OpFor(g, targets, b, if Want(g, targets, b).Action? then Selecting else Firing)), [])
  {
  }

  // The callback joins those waiting.
  lemma WaitCallbacks(g: Graph, targets: Targets, L: Ledger, b: Base, key: Key, sh: Shared)
    requires CallbacksMatch(g, targets, L, sh) && At(L, b, Registering) && HasKey(g, targets, b, key)
    requires key in L.keys && L.keys[key] != Cleared
    ensures CallbacksMatch(g, targets, Moved(L, b, Waiting),
                           sh.(callbacks := sh.callbacks[key := Some(sh.callbacks[key].value
                               + [CallbackFor(g, targets, b)])]))
  {
    var L', cb := Moved(L, b, Waiting), CallbackFor(g, targets, b);
    forall k, c ensures IsWaitingFor(g, targets, L', k, c)
        <==> IsWaitingFor(g, targets, L, k, c) || (k == key && c == cb)
    {
    }
    assert !IsWaitingFor(g, targets, L, key, cb);
  }

  lemma RegisterWaitKeepsInv(g: Graph, targets: Targets, s: State, L: Ledger, b: Base, key: Key, op: Op, s': State)
    requires Inv(g, targets, s, L) && At(L, b, Registering) && HasKey(g, targets, b, key)
    requires key in L.keys && L.keys[key] != Cleared && op == Register(key, CallbackFor(g, targets, b))
    requires After(s, op, Effect(s.shared.(callbacks := s.shared.callbacks[key := Some(s.shared.callbacks[key].value
        + [CallbackFor(g, targets, b)])]), [], []), s')
    ensures Inv(g, targets, s', Moved(L, b, Waiting))
  {
    hide PendingMatches, CallbacksMatch, CountsMatch, LinksMatch, ResultsMatch, StagesOk, KeysOk;
    RegisteringOp(g, targets, b, key);
    MovePending(g, targets, L, b, Waiting, s.pending, op);
    WaitShared(g, targets, L, b, key, s.shared, s'.shared);
    MoveStages(g, targets, L, b, Waiting, s.started);
  }

  lemma WaitShared(g: Graph, targets: Targets, L: Ledger, b: Base, key: Key, sh: Shared, sh': Shared)
    requires CallbacksMatch(g, targets, L, sh) && CountsMatch(g, L, sh) && LinksMatch(g, targets, L, sh)
    requires ResultsMatch(g, L, sh) && KeysOk(g, L)
    requires At(L, b, Registering) && HasKey(g, targets, b, key) && key in L.keys && L.keys[key] != Cleared
    requires sh' == sh.(callbacks := sh.callbacks[key := Some(sh.callbacks[key].value + [CallbackFor(g, targets, b)])])
    ensures CallbacksMatch(g, targets, Moved(L, b, Waiting), sh') && CountsMatch(g, Moved(L, b, Waiting), sh')
    ensures LinksMatch(g, targets, Moved(L, b, Waiting), sh') && ResultsMatch(g, Moved(L, b, Waiting), sh')
    ensures KeysOk(g, Moved(L, b, Waiting))
  {
    WaitCallbacks(g, targets, L, b, key, sh);
    MoveCounts(g, L, b, Waiting, sh);
    MoveLinks(g, targets, L, b, Waiting, sh);
    MoveResults(g, L, b, Waiting, sh);
    SharedKept(g, targets, Moved(L, b, Waiting), sh, sh');
  }

  // Only the callbacks differ.
  lemma SharedKept(g: Graph, targets: Targets, L: Ledger, sh: Shared, sh': Shared)
    requires sh' == sh.(callbacks := sh'.callbacks)
    requires CountsMatch(g, L, sh) && LinksMatch(g, targets, L, sh) && ResultsMatch(g, L, sh)
    ensures CountsMatch(g, L, sh') && LinksMatch(g, targets, L, sh') && ResultsMatch(g, L, sh')
  {
  }

  // The first callback for a key creates it.
  ghost function Created(L: Ledger, b: Base, key: Key): Ledger {
    L.(stage := L.stage[b := Waiting], keys := L.keys[key := Initing])
  }

  lemma CreateCallbacks(g: Graph, targets: Targets, L: Ledger, b: Base, key: Key, sh: Shared)
    requires CallbacksMatch(g, targets, L, sh) && At(L, b, Registering) && HasKey(g, targets, b, key) && key !in L.keys
    requires forall c | At(L, c, Waiting) :: !HasKey(g, targets, c, key)
    ensures CallbacksMatch(g, targets, Created(L, b, key),
        sh.(callbacks := sh.callbacks[key := Some([CallbackFor(g, targets, b)])]))
  {
    var L', cb := Created(L, b, key), CallbackFor(g, targets, b);
    forall k, c ensures IsWaitingFor(g, targets, L', k, c)
        <==> IsWaitingFor(g, targets, L, k, c) || (k == key && c == cb)
    {
    }
    forall c ensures !IsWaitingFor(g, targets, L, key, c) {
    }
  }

  lemma CreatePending(g: Graph, targets: Targets, L: Ledger, b: Base, key: Key, pending: multiset<Op>, op: Op)
    requires PendingMatches(g, targets, L, pending) && op in pending && BaseOf(op) == Some(b)
    requires key !in L.keys
    ensures PendingMatches(g, targets, Created(L, b, key),
        pending - multiset{op} + multiset([Init(key)]) + multiset([]))
  {
    var L' := Created(L, b, key);
    assert IsPending(g, targets, L, op);
    forall o ensures IsPending(g, targets, L', o)
        <==> (IsPending(g, targets, L, o) && o != op) || o in [Init(key)] + []
    {
      if BaseOf(o) == Some(b) {
        assert !IsPending(g, targets, L', o);
      } else if BaseOf(o).Some? {
        assert IsPending(g, targets, L', o) == IsPending(g, targets, L, o);
      }
    }
    PendingUpdate(g, targets, L, L', pending, op, [Init(key)], []);
  }

  lemma CreateStages(g: Graph, targets: Targets, L: Ledger, b: Base, key: Key, started: bool)
    requires StagesOk(g, targets, L, started) && At(L, b, Registering) && HasKey(g, targets, b, key) && key !in L.keys
    ensures StagesOk(g, targets, Created(L, b, key), started)
  {
    hide PlacesOk, WaitsOk;
    CreatePlaces(g, targets, L, b, key, started);
    CreateWaits(g, targets, L, b, key);
  }

  lemma CreatePlaces(g: Graph, targets: Targets, L: Ledger, b: Base, key: Key, started: bool)
    requires PlacesOk(g, targets, L, started) && At(L, b, Registering) && key !in L.keys
    ensures PlacesOk(g, targets, Created(L, b, key), started)
  {
  }

  lemma CreateWaits(g: Graph, targets: Targets, L: Ledger, b: Base, key: Key)
    requires WaitsOk(g, targets, L) && At(L, b, Registering) && HasKey(g, targets, b, key) && key !in L.keys
    ensures WaitsOk(g, targets, Created(L, b, key))
  {
    var L' := Created(L, b, key);
    forall c | c in L'.stage && PastWaiting(L'.stage[c]) ensures IsReady(g, targets, L', c) {
      assert IsReady(g, targets, L, c);
    }
    forall c | At(L', c, Waiting) ensures exists k | k in L'.keys :: HasKey(g, targets, c, k) && L'.keys[k] != Cleared {
      if c == b {
        assert key in L'.keys;
      } else {
        assert At(L, c, Waiting);
      }
    }
  }

  lemma CreateCounts(g: Graph, L: Ledger, b: Base, key: Key, sh: Shared)
    requires KeysOk(g, L) && CountsMatch(g, L, sh) && At(L, b, Registering) && key !in L.keys && g.Has(key)
    ensures KeysOk(g, Created(L, b, key)) && CountsMatch(g, Created(L, b, key), sh)
  {
    OpenSame(g, L, Created(L, b, key));
  }

  lemma CreateResults(g: Graph, targets: Targets, L: Ledger, b: Base, key: Key, sh: Shared)
    requires ResultsMatch(g, L, sh) && LinksMatch(g, targets, L, sh) && At(L, b, Registering) && key !in L.keys
    ensures ResultsMatch(g, Created(L, b, key), sh) && LinksMatch(g, targets, Created(L, b, key), sh)
  {
    var L' := Created(L, b, key);
    forall k ensures KeyAt(L', k, Clearing) || KeyAt(L', k, Cleared)
        <==> KeyAt(L, k, Clearing) || KeyAt(L, k, Cleared)
    {
    }
    forall c ensures At(L', c, Linked) || At(L', c, Done) <==> At(L, c, Linked) || At(L, c, Done) {
    }
  }

  lemma RegisterCreateKeepsInv(g: Graph, targets: Targets, s: State, L: Ledger, b: Base, key: Key, s': State)
    requires Inv(g, targets, s, L) && At(L, b, Registering) && HasKey(g, targets, b, key)
    requires key !in L.keys && g.Has(key)
    requires
      var cb := CallbackFor(g, targets, b);
      After(s, Register(key, cb), Effect(s.shared.(callbacks := s.shared.callbacks[key := Some([cb])]), [Init(key)],
          []), s')
    ensures Inv(g, targets, s', Created(L, b, key))
  {
    hide PendingMatches, CallbacksMatch, CountsMatch, LinksMatch, ResultsMatch, StagesOk, KeysOk;
    var L' := Created(L, b, key);
    NobodyWaits(g, targets, L, key, s.started);
    RegisteringOp(g, targets, b, key);
    CreatePending(g, targets, L, b, key, s.pending, Register(key, CallbackFor(g, targets, b)));
    CreateCallbacks(g, targets, L, b, key, s.shared);
    CreateStages(g, targets, L, b, key, s.started);
    CreateCounts(g, L, b, key, s.shared);
    CreateResults(g, targets, L, b, key, s.shared);
    SharedKept(g, targets, L', s.shared, s'.shared);
  }

  lemma NobodyWaits(g: Graph, targets: Targets, L: Ledger, key: Key, started: bool)
    requires StagesOk(g, targets, L, started) && key !in L.keys
    ensures forall c | At(L, c, Waiting) :: !HasKey(g, targets, c, key)
  {
  }

  // ---- Setting up an action or tree ----

  // The countdown is set and the inputs are handed out.
  ghost function Opened(g: Graph, L: Ledger, key: Key): Ledger
    requires g.Has(key)
  {
    L.(keys := L.keys[key := Counting],
       stage := L.stage + map l | l in g.Inputs(key) :: ToInput(key, l) := Building)
  }

  lemma {:induction false} InputTasksMembers(key: Key, inputs: map<string, Artifact>, ls: seq<string>)
    requires (forall l | l in ls :: l in inputs) && NoRepeats(ls)
    ensures NoRepeats(InputTasks(key, inputs, ls))
    ensures forall o :: o in InputTasks(key, inputs, ls) <==>
              o.Build? && o.base.ToInput? && o.base.key == key && o.base.location in ls
                  && o.artifact == inputs[o.base.location]
  {
    if ls != [] {
      assert forall l | l in ls[1..] :: l in ls;
      assert forall i | 0 <= i < |ls[1..]| :: ls[1..][i] == ls[i + 1];
      InputTasksMembers(key, inputs, ls[1..]);
    }
  }

  lemma SortedNoRepeats(s: set<string>)
    ensures NoRepeats(Sorted(s))
  {
    var r := Sorted(s);
    forall i, j | 0 <= i < j < |r| ensures r[i] != r[j] {
      LessTotal(r[i], r[j]);
    }
  }

  lemma SetupOps(g: Graph, key: Key) returns (next: seq<Op>, tasks: seq<Op>)
    requires g.Has(key)
    ensures next == if |g.Inputs(key)| == 0 then [CountEmpty(key)] else []
    ensures tasks == InputTasks(key, g.Inputs(key), Sorted(g.Inputs(key).Keys))
    ensures NoRepeats(next + tasks)
    ensures forall o :: o in next + tasks <==> IsSetupOp(g, key, o)
  {
    var inputs := g.Inputs(key);
    next := if |inputs| == 0 then [CountEmpty(key)] else [];
    tasks := InputTasks(key, inputs, Sorted(inputs.Keys));
    SortedNoRepeats(inputs.Keys);
    InputTasksMembers(key, inputs, Sorted(inputs.Keys));
    forall o ensures o in next + tasks <==> IsSetupOp(g, key, o) {
      assert o in next + tasks <==> o in next || o in tasks;
    }
    assert CountEmpty(key) !in tasks;
  }

  predicate IsSetupOp(g: Graph, key: Key, o: Op)
    requires g.Has(key)
  {
    || (o == CountEmpty(key) && |g.Inputs(key)| == 0)
    || (o.Build? && o.base.ToInput? && o.base.key == key && o.base.location in g.Inputs(key)
          && o.artifact == g.Inputs(key)[o.base.location])
  }

  lemma OpenPending(g: Graph, targets: Targets, L: Ledger, key: Key, pending: multiset<Op>, next: seq<Op>,
                    tasks: seq<Op>)
    requires PendingMatches(g, targets, L, pending) && Init(key) in pending && g.Has(key)
    requires forall l :: ToInput(key, l) !in L.stage
    requires NoRepeats(next + tasks) && forall o :: o in next + tasks <==> IsSetupOp(g, key, o)
    ensures PendingMatches(g, targets, Opened(g, L, key),
        pending - multiset{Init(key)} + multiset(next) + multiset(tasks))
  {
    assert IsPending(g, targets, L, Init(key));
    forall o ensures IsPending(g, targets, Opened(g, L, key), o)
        <==> (IsPending(g, targets, L, o) && o != Init(key)) || o in next + tasks
             ensures o in next + tasks ==> o != Init(key) && !IsPending(g, targets, L, o)
    {
      OpenedOp(g, targets, L, key, o);
    }
    PendingUpdate(g, targets, L, Opened(g, L, key), pending, Init(key), next, tasks);
  }

  lemma OpenedOp(g: Graph, targets: Targets, L: Ledger, key: Key, o: Op)
    requires g.Has(key) && KeyAt(L, key, Initing) && forall l :: ToInput(key, l) !in L.stage
    ensures IsPending(g, targets, Opened(g, L, key), o)
        <==> (IsPending(g, targets, L, o) && o != Init(key)) || IsSetupOp(g, key, o)
    ensures IsSetupOp(g, key, o) ==> !IsPending(g, targets, L, o) && o != Init(key)
  {
    var L' := Opened(g, L, key);
    if BaseOf(o).Some? {
      var b := BaseOf(o).value;
      if b.ToInput? && b.key == key && b.location in g.Inputs(key) {
        assert b in L'.stage && L'.stage[b] == Building && b !in L.stage;
        assert Want(g, targets, b) == g.Inputs(key)[b.location];
        assert IsPending(g, targets, L', o) <==> o == Build(Want(g, targets, b), b);
      } else {
        assert b in L'.stage <==> b in L.stage;
        assert b in L.stage ==> L'.stage[b] == L.stage[b];
        assert IsPending(g, targets, L', o) <==> IsPending(g, targets, L, o);
      }
    }
  }

  lemma OpenCallbacks(g: Graph, targets: Targets, L: Ledger, key: Key, sh: Shared, sh': Shared)
    requires CallbacksMatch(g, targets, L, sh) && KeyAt(L, key, Initing) && g.Has(key)
    requires forall l :: ToInput(key, l) !in L.stage
    requires sh'.callbacks == sh.callbacks
    ensures CallbacksMatch(g, targets, Opened(g, L, key), sh')
  {
    var L' := Opened(g, L, key);
    forall k, cb ensures IsWaitingFor(g, targets, L', k, cb) <==> IsWaitingFor(g, targets, L, k, cb) {
    }
    assert L'.keys.Keys == L.keys.Keys;
  }

  lemma OpenOpen(g: Graph, L: Ledger, key: Key)
    requires KeyAt(L, key, Initing) && g.Has(key) && forall l :: ToInput(key, l) !in L.stage
    ensures forall k | g.Has(k) :: Open(g, Opened(g, L, key), k) == Open(g, L, k)
    ensures Open(g, L, key) == g.Inputs(key).Keys && |Open(g, L, key)| == |g.Inputs(key)|
  {
    OpenSame(g, L, Opened(g, L, key));
    assert Open(g, L, key) == g.Inputs(key).Keys;
    assert |g.Inputs(key).Keys| == |g.Inputs(key)|;
  }

  lemma OpenCounts(g: Graph, L: Ledger, key: Key, sh: Shared)
    requires CountsMatch(g, L, sh) && KeyAt(L, key, Initing) && g.Has(key) && forall l :: ToInput(key, l) !in L.stage
    ensures CountsMatch(g, Opened(g, L, key), sh.(count := sh.count[key := |g.Inputs(key)|]))
  {
    OpenOpen(g, L, key);
  }

  lemma OpenKeys(g: Graph, L: Ledger, key: Key)
    requires KeysOk(g, L) && KeyAt(L, key, Initing) && g.Has(key) && forall l :: ToInput(key, l) !in L.stage
    ensures KeysOk(g, Opened(g, L, key))
  {
    OpenSame(g, L, Opened(g, L, key));
    assert AllDone(g, L, key) ==> g.Inputs(key) == map[];
  }

  lemma OpenStages(g: Graph, targets: Targets, L: Ledger, key: Key, started: bool)
    requires StagesOk(g, targets, L, started) && started && KeyAt(L, key, Initing) && g.Has(key)
    ensures StagesOk(g, targets, Opened(g, L, key), started)
  {
    hide PlacesOk, WaitsOk;
    OpenPlaces(g, targets, L, key);
    OpenWaits(g, targets, L, key);
  }

  lemma OpenPlaces(g: Graph, targets: Targets, L: Ledger, key: Key)
    requires PlacesOk(g, targets, L, true) && KeyAt(L, key, Initing) && g.Has(key)
    ensures PlacesOk(g, targets, Opened(g, L, key), true)
  {
  }

  lemma OpenWaits(g: Graph, targets: Targets, L: Ledger, key: Key)
    requires WaitsOk(g, targets, L) && KeyAt(L, key, Initing) && g.Has(key)
    ensures WaitsOk(g, targets, Opened(g, L, key))
  {
    var L' := Opened(g, L, key);
    forall c | c in L'.stage && PastWaiting(L'.stage[c]) ensures IsReady(g, targets, L', c) {
      assert c in L.stage && IsReady(g, targets, L, c);
    }
    forall c | At(L', c, Waiting) ensures exists k | k in L'.keys :: HasKey(g, targets, c, k) && L'.keys[k] != Cleared {
      assert At(L, c, Waiting);
    }
  }

  lemma OpenResults(g: Graph, targets: Targets, L: Ledger, key: Key, sh: Shared)
    requires ResultsMatch(g, L, sh) && LinksMatch(g, targets, L, sh) && KeyAt(L, key, Initing) && g.Has(key)
    requires forall l :: ToInput(key, l) !in L.stage
    ensures ResultsMatch(g, Opened(g, L, key), sh) && LinksMatch(g, targets, Opened(g, L, key), sh)
  {
    var L' := Opened(g, L, key);
    forall k ensures KeyAt(L', k, Clearing) || KeyAt(L', k, Cleared)
        <==> KeyAt(L, k, Clearing) || KeyAt(L, k, Cleared)
    {
    }
    forall c ensures At(L', c, Linked) || At(L', c, Done) <==> At(L, c, Linked) || At(L, c, Done) {
    }
  }

  lemma InitKeepsInv(g: Graph, targets: Targets, s: State, L: Ledger, key: Key, s': State)
    requires Inv(g, targets, s, L) && KeyAt(L, key, Initing) && g.Has(key)
    requires
      var inputs := g.Inputs(key);
      After(s, Init(key), Effect(s.shared.(count := s.shared.count[key := |inputs|]),
                                 if |inputs| == 0 then [CountEmpty(key)] else [],
                                 InputTasks(key, inputs, Sorted(inputs.Keys))), s')
    ensures Inv(g, targets, s', Opened(g, L, key))
  {
    hide PendingMatches, CallbacksMatch, CountsMatch, LinksMatch, ResultsMatch, StagesOk, KeysOk;
    var L' := Opened(g, L, key);
    FreshInputs(g, targets, L, key, s.started);
    var next, tasks := SetupOps(g, key);
    OpenPending(g, targets, L, key, s.pending, next, tasks);
    OpenCallbacks(g, targets, L, key, s.shared, s'.shared);
    OpenCounts(g, L, key, s.shared);
    OpenKeys(g, L, key);
    OpenStages(g, targets, L, key, s.started);
    OpenResults(g, targets, L, key, s.shared);
    CountsOnly(g, targets, L', s.shared, s'.shared);
  }

  lemma FreshInputs(g: Graph, targets: Targets, L: Ledger, key: Key, started: bool)
    requires StagesOk(g, targets, L, started) && KeyAt(L, key, Initing)
    ensures started && forall l :: ToInput(key, l) !in L.stage
  {
  }

  // Only the counts differ.
  lemma CountsOnly(g: Graph, targets: Targets, L: Ledger, sh: Shared, sh': Shared)
    requires sh' == sh.(count := sh'.count)
    requires LinksMatch(g, targets, L, sh) && ResultsMatch(g, L, sh)
    ensures LinksMatch(g, targets, L, sh') && ResultsMatch(g, L, sh')
  {
  }

  // ---- Calling a callback ----

  lemma OpsDiffer(g: Graph, targets: Targets, b: Base)
    ensures OpFor(g, targets, b, Firing) == Some(Fire(Callback(b, None), PathOf(Want(g, targets, b))))
    ensures OpFor(g, targets, b, Linked) == Some(CountDown(b)) && OpFor(g, targets, b, Done) == None
    ensures Want(g, targets, b).Action? ==> CallbackFor(g, targets, b) != Callback(b, None)
  {
  }

  lemma SelectKeepsInv(g: Graph, targets: Targets, s: State, L: Ledger, b: Base, key: Key, op: Op, s': State)
    requires Inv(g, targets, s, L) && At(L, b, Selecting) && HasKey(g, targets, b, key)
    requires Want(g, targets, b).Action? && op == Fire(CallbackFor(g, targets, b), Dir(key))
    requires After(s, op, Effect(s.shared, [Fire(Callback(b, None), Sub(Dir(key), Want(g, targets, b).path))], []), s')
    ensures Inv(g, targets, s', Moved(L, b, Firing)) && OpFor(g, targets, b, Selecting) == Some(op)
  {
    OpsDiffer(g, targets, b);
    SelectingOp(g, targets, b, key);
    MoveKeepsInv(g, targets, s, L, op, b, Firing, s');
  }

  lemma LinkLinks(g: Graph, targets: Targets, L: Ledger, b: Base, st: Stage, sh: Shared)
    requires LinksMatch(g, targets, L, sh) && HasLink(st)
    ensures LinksMatch(g, targets, Moved(L, b, st), sh.(links := sh.links[b := PathOf(Want(g, targets, b))]))
  {
    var L' := Moved(L, b, st);
    forall c | c != b ensures At(L', c, Linked) || At(L', c, Done) <==> At(L, c, Linked) || At(L, c, Done) {
    }
  }

  // Only the links differ.
  lemma LinksOnly(g: Graph, targets: Targets, L: Ledger, sh: Shared, sh': Shared)
    requires sh' == sh.(links := sh'.links)
    requires CallbacksMatch(g, targets, L, sh) && CountsMatch(g, L, sh) && ResultsMatch(g, L, sh)
    ensures CallbacksMatch(g, targets, L, sh') && CountsMatch(g, L, sh') && ResultsMatch(g, L, sh')
  {
  }

  // The link is made, for the first time, now that its artifact is there.
  lemma LinkKeepsInv(g: Graph, targets: Targets, s: State, L: Ledger, b: Base, s': State)
    requires Inv(g, targets, s, L) && At(L, b, Firing)
    requires
      var path := PathOf(Want(g, targets, b));
      After(s, Fire(Callback(b, None), path),
            Effect(s.shared.(links := s.shared.links[b := path]), if b.ToInput? then [CountDown(b)] else [], []), s')
    ensures Inv(g, targets, s', Moved(L, b, if b.ToInput? then Linked else Done))
    ensures b !in s.shared.links
  {
    hide PendingMatches, CallbacksMatch, CountsMatch, ResultsMatch, KeysOk, PlacesOk;
    var st := if b.ToInput? then Linked else Done;
    OpsDiffer(g, targets, b);
    MovePending(g, targets, L, b, st, s.pending, Fire(Callback(b, None), PathOf(Want(g, targets, b))));
    MoveCallbacks(g, targets, L, b, st, s.shared);
    MoveCounts(g, L, b, st, s.shared);
    LinkLinks(g, targets, L, b, st, s.shared);
    MoveResults(g, L, b, st, s.shared);
    assert IsReady(g, targets, L, b);
    MoveStages(g, targets, L, b, st, s.started);
    LinksOnly(g, targets, Moved(L, b, st), s.shared, s'.shared);
  }

  // ---- Counting down ----

  // The input is counted; if it was the last one, the command is due.
  ghost function Counted(L: Ledger, key: Key, l: string, last: bool): Ledger {
    L.(stage := L.stage[ToInput(key, l) := Done], keys := if last then L.keys[key := Running] else L.keys)
  }

  function RunIf(key: Key, last: bool): seq<Op> {
    if last then [Run(key)] else []
  }

  lemma CountPending(g: Graph, targets: Targets, L: Ledger, key: Key, l: string, last: bool, pending: multiset<Op>)
    requires PendingMatches(g, targets, L, pending) && CountDown(ToInput(key, l)) in pending
    requires KeyAt(L, key, Counting) && g.Has(key) && l in g.Inputs(key)
    ensures PendingMatches(g, targets, Counted(L, key, l, last),
                           pending - multiset{CountDown(ToInput(key, l))} + multiset(RunIf(key, last)) + multiset([]))
  {
    var b, L' := ToInput(key, l), Counted(L, key, l, last);
    var next := RunIf(key, last);
    assert IsPending(g, targets, L, CountDown(b)) && |g.Inputs(key)| != 0;
    forall o ensures IsPending(g, targets, L', o)
        <==> (IsPending(g, targets, L, o) && o != CountDown(b)) || o in next + []
    {
      if BaseOf(o) == Some(b) {
        assert !IsPending(g, targets, L', o);
        assert IsPending(g, targets, L, o) <==> o == CountDown(b);
      } else if BaseOf(o).Some? {
        assert IsPending(g, targets, L', o) == IsPending(g, targets, L, o);
      }
    }
    PendingUpdate(g, targets, L, L', pending, CountDown(b), next, []);
  }

  lemma CountCallbacks(g: Graph, targets: Targets, L: Ledger, key: Key, l: string, last: bool, sh: Shared, sh': Shared)
    requires CallbacksMatch(g, targets, L, sh) && KeyAt(L, key, Counting) && At(L, ToInput(key, l), Linked)
    requires sh'.callbacks == sh.callbacks
    ensures CallbacksMatch(g, targets, Counted(L, key, l, last), sh')
  {
    var L' := Counted(L, key, l, last);
    forall k, cb ensures IsWaitingFor(g, targets, L', k, cb) <==> IsWaitingFor(g, targets, L, k, cb) {
    }
    assert L'.keys.Keys == L.keys.Keys;
  }

  lemma CountOpen(g: Graph, L: Ledger, key: Key, l: string, last: bool)
    requires g.Has(key) && l in Open(g, L, key)
    ensures Open(g, Counted(L, key, l, last), key) == Open(g, L, key) - {l}
    ensures |Open(g, Counted(L, key, l, last), key)| == |Open(g, L, key)| - 1
    ensures forall k | g.Has(k) && k != key :: Open(g, Counted(L, key, l, last), k) == Open(g, L, k)
  {
    assert Open(g, Counted(L, key, l, last), key) == Open(g, L, key) - {l};
    forall k | g.Has(k) && k != key ensures Open(g, Counted(L, key, l, last), k) == Open(g, L, k) {
      assert forall i :: At(Counted(L, key, l, last), ToInput(k, i), Done) == At(L, ToInput(k, i), Done);
    }
  }

  lemma CountCounts(g: Graph, L: Ledger, key: Key, l: string, last: bool, sh: Shared)
    requires CountsMatch(g, L, sh) && KeyAt(L, key, Counting) && g.Has(key) && l in Open(g, L, key) && key in sh.count
    ensures CountsMatch(g, Counted(L, key, l, last), sh.(count := sh.count[key := sh.count[key] - 1]))
  {
    CountOpen(g, L, key, l, last);
    assert l in g.Inputs(key) && |g.Inputs(key)| != 0;
  }

  lemma OpenEmpty(g: Graph, L: Ledger, key: Key)
    requires g.Has(key)
    ensures AllDone(g, L, key) <==> |Open(g, L, key)| == 0
  {
    if |Open(g, L, key)| == 0 {
      forall l | l in g.Inputs(key) ensures At(L, ToInput(key, l), Done) {
        assert l !in Open(g, L, key);
      }
    } else {
      var l :| l in Open(g, L, key);
    }
  }

  lemma CountKeys(g: Graph, L: Ledger, key: Key, l: string, last: bool, sh: Shared)
    requires CountsMatch(g, L, sh) && KeysOk(g, L) && KeyAt(L, key, Counting) && g.Has(key)
    requires l in Open(g, L, key) && key in sh.count && last == (sh.count[key] <= 1)
    ensures KeysOk(g, Counted(L, key, l, last))
  {
    hide CountsMatch, Open;
    CountOpen(g, L, key, l, last);
    CountIsOpen(g, L, key, sh);
    OpenIsInput(g, L, key, l);
    OpenEmpty(g, Counted(L, key, l, last), key);
    assert last <==> AllDone(g, Counted(L, key, l, last), key);
    assert !AllDone(g, L, key);
    forall k | k != key ensures AllDone(g, Counted(L, key, l, last), k) <==> AllDone(g, L, k) {
    }
  }

  lemma CountIsOpen(g: Graph, L: Ledger, key: Key, sh: Shared)
    requires CountsMatch(g, L, sh) && KeyAt(L, key, Counting) && g.Has(key) && key in sh.count
    ensures sh.count[key] == |Open(g, L, key)|
  {
  }

  lemma OpenIsInput(g: Graph, L: Ledger, key: Key, l: string)
    requires g.Has(key) && l in Open(g, L, key)
    ensures l in g.Inputs(key) && |g.Inputs(key)| != 0 && !AllDone(g, L, key)
  {
  }

  lemma CountStages(g: Graph, targets: Targets, L: Ledger, key: Key, l: string, last: bool, started: bool)
    requires StagesOk(g, targets, L, started) && KeyAt(L, key, Counting) && At(L, ToInput(key, l), Linked)
    ensures StagesOk(g, targets, Counted(L, key, l, last), started)
  {
    hide PlacesOk, WaitsOk;
    CountPlaces(g, targets, L, key, l, last, started);
    CountWaits(g, targets, L, key, l, last);
  }

  lemma CountPlaces(g: Graph, targets: Targets, L: Ledger, key: Key, l: string, last: bool, started: bool)
    requires PlacesOk(g, targets, L, started) && KeyAt(L, key, Counting) && At(L, ToInput(key, l), Linked)
    ensures PlacesOk(g, targets, Counted(L, key, l, last), started)
  {
  }

  lemma CountWaits(g: Graph, targets: Targets, L: Ledger, key: Key, l: string, last: bool)
    requires WaitsOk(g, targets, L) && KeyAt(L, key, Counting) && At(L, ToInput(key, l), Linked)
    ensures WaitsOk(g, targets, Counted(L, key, l, last))
  {
    var L' := Counted(L, key, l, last);
    forall c | c in L'.stage && PastWaiting(L'.stage[c]) ensures IsReady(g, targets, L', c) {
      assert c in L.stage && IsReady(g, targets, L, c);
    }
    forall c | At(L', c, Waiting) ensures exists k | k in L'.keys :: HasKey(g, targets, c, k) && L'.keys[k] != Cleared {
      assert At(L, c, Waiting);
      var k :| k in L.keys && HasKey(g, targets, c, k) && L.keys[k] != Cleared;
      assert k in L'.keys && L'.keys[k] != Cleared;
    }
  }

  lemma CountResults(g: Graph, targets: Targets, L: Ledger, key: Key, l: string, last: bool, sh: Shared)
    requires ResultsMatch(g, L, sh) && LinksMatch(g, targets, L, sh) && KeyAt(L, key, Counting)
    requires At(L, ToInput(key, l), Linked)
    ensures ResultsMatch(g, Counted(L, key, l, last), sh) && LinksMatch(g, targets, Counted(L, key, l, last), sh)
  {
    var L' := Counted(L, key, l, last);
    forall k ensures KeyAt(L', k, Clearing) || KeyAt(L', k, Cleared)
        <==> KeyAt(L, k, Clearing) || KeyAt(L, k, Cleared)
    {
    }
    forall c ensures At(L', c, Linked) || At(L', c, Done) <==> At(L, c, Linked) || At(L, c, Done) {
    }
  }

  // An input that is not counted yet keeps its action or tree counting.
  lemma OpenKeyCounts(g: Graph, targets: Targets, L: Ledger, key: Key, l: string, started: bool)
    requires StagesOk(g, targets, L, started) && KeysOk(g, L) && ToInput(key, l) in L.stage
    requires !At(L, ToInput(key, l), Done)
    ensures KeyAt(L, key, Counting) && g.Has(key) && l in g.Inputs(key) && l in Open(g, L, key)
  {
    assert IsWanted(g, targets, ToInput(key, l));
    assert !AllDone(g, L, key);
  }

  lemma CountShared(g: Graph, targets: Targets, L: Ledger, key: Key, l: string, last: bool, sh: Shared, sh': Shared)
    requires CallbacksMatch(g, targets, L, sh) && CountsMatch(g, L, sh) && LinksMatch(g, targets, L, sh)
    requires ResultsMatch(g, L, sh)
    requires KeyAt(L, key, Counting) && g.Has(key) && l in Open(g, L, key) && key in sh.count
    requires At(L, ToInput(key, l), Linked)
    requires sh' == sh.(count := sh.count[key := sh.count[key] - 1]) && KeysOk(g, L) && last == (sh.count[key] <= 1)
    ensures CallbacksMatch(g, targets, Counted(L, key, l, last), sh') && CountsMatch(g, Counted(L, key, l, last), sh')
    ensures LinksMatch(g, targets, Counted(L, key, l, last), sh') && ResultsMatch(g, Counted(L, key, l, last), sh')
    ensures KeysOk(g, Counted(L, key, l, last))
  {
    var L' := Counted(L, key, l, last);
    CountCallbacks(g, targets, L, key, l, last, sh, sh');
    CountCounts(g, L, key, l, last, sh);
    CountResults(g, targets, L, key, l, last, sh);
    CountsOnly(g, targets, L', sh, sh');
    CountKeys(g, L, key, l, last, sh);
  }

  lemma CountDownShared(g: Graph, targets: Targets, s: State, L: Ledger, key: Key, l: string, last: bool, sh': Shared)
    requires Inv(g, targets, s, L) && At(L, ToInput(key, l), Linked)
    requires key in s.shared.count && last == (s.shared.count[key] <= 1)
    requires sh' == s.shared.(count := s.shared.count[key := s.shared.count[key] - 1])
    ensures KeyAt(L, key, Counting) && g.Has(key) && l in g.Inputs(key)
    ensures CallbacksMatch(g, targets, Counted(L, key, l, last), sh') && CountsMatch(g, Counted(L, key, l, last), sh')
    ensures LinksMatch(g, targets, Counted(L, key, l, last), sh') && ResultsMatch(g, Counted(L, key, l, last), sh')
    ensures KeysOk(g, Counted(L, key, l, last))
  {
    OpenKeyCounts(g, targets, L, key, l, s.started);
    CountShared(g, targets, L, key, l, last, s.shared, sh');
  }

  lemma CountDownKeepsInv(g: Graph, targets: Targets, s: State, L: Ledger, key: Key, l: string, last: bool, s': State)
    requires Inv(g, targets, s, L) && At(L, ToInput(key, l), Linked)
    requires key in s.shared.count && last == (s.shared.count[key] <= 1)
    requires After(s, CountDown(ToInput(key, l)),
                   Effect(s.shared.(count := s.shared.count[key := s.shared.count[key] - 1]), RunIf(key, last), []), s')
    ensures Inv(g, targets, s', Counted(L, key, l, last))
  {
    hide PendingMatches, CallbacksMatch, CountsMatch, LinksMatch, ResultsMatch, StagesOk, KeysOk;
    CountDownShared(g, targets, s, L, key, l, last, s'.shared);
    CountPending(g, targets, L, key, l, last, s.pending);
    CountStages(g, targets, L, key, l, last, s.started);
  }
}
