// The parallel bootstrap traverser (bin/parallel-bootstrap-traverser.py:195-401) as atomic
// operations on shared state. A task runs as a sequence of such operations; executing one may
// call for further ones, to be done next by the same worker or to be queued as tasks.
module BootstrapOps {
  import opened Wrappers
  import opened ByteOrder
  import opened BootstrapGraph

  // Where a link is made: below the output directory, or as an input of an action or entry of a tree.
  datatype Base = ToOut(location: string) | ToInput(key: Key, location: string)

  // do_link of a base, possibly wrapped by link_output of build_action.
  datatype Callback = Callback(base: Base, output: Option<string>)

  datatype Op =
    | WriteBlob(id: string)
    | Build(artifact: Artifact, base: Base)      // build(desc, callback)
    | Register(key: Key, callback: Callback)     // g_CALLBACKS_PER_ID.add(key, callback)
    | Init(key: Key)                             // create the countdown and add the tasks for the inputs
    | Fire(callback: Callback, path: Path)       // callback(path)
    | CountDown(base: Base)                      // the counter decrement after an input has been linked
    | CountEmpty(key: Key)                       // the same, called directly if there are no inputs
    | Run(key: Key)                              // run the command, or copy the tree
    | Clear(key: Key)                            // fetch_clear(key) and add the tasks for the callbacks

  datatype Shared = Shared(
    blobs: set<string>,                          // the blobs written
    callbacks: map<Key, Option<seq<Callback>>>,  // AtomicListMap: no entry, waiting callbacks, or cleared
    count: map<Key, int>,                        // num_deps, num_entries
    links: map<Base, Path>,
    results: map<Key, Content>,                  // the directories completed
    log: seq<Key>)                               // the commands run and trees copied, in order

  datatype Effect = Effect(shared: Shared, next: seq<Op>, tasks: seq<Op>)

  function InputTasks(key: Key, inputs: map<string, Artifact>, locations: seq<string>): seq<Op>
    requires forall l | l in locations :: l in inputs
  {
    if locations == [] then []
    else
      assert forall l | l in locations[1..] :: l in locations;
      [Build(inputs[locations[0]], ToInput(key, locations[0]))] + InputTasks(key, inputs, locations[1..])
  }

  function CallbackTasks(callbacks: seq<Callback>, path: Path): seq<Op> {
    if callbacks == [] then [] else [Fire(callbacks[0], path)] + CallbackTasks(callbacks[1..], path)
  }

  // What the links of an action or tree lead to at this moment.
  function LinkedInputs(g: Graph, sh: Shared, key: Key): map<string, Content>
    requires g.Has(key)
  {
    map l | l in g.Inputs(key) && ToInput(key, l) in sh.links :: Deref(sh.blobs, sh.results, sh.links[ToInput(key, l)])
  }

  function Decrement(sh: Shared, key: Key): Effect {
    var count := if key in sh.count then sh.count[key] else 0;
    Effect(sh.(count := sh.count[key := count - 1]), if count <= 1 then [Run(key)] else [], [])
  }

  function Exec(g: Graph, sh: Shared, op: Op): Effect {
    match op
    case WriteBlob(id) =>
      Effect(sh.(blobs := sh.blobs + {id}), [], [])
    case Build(artifact, base) =>
      (match artifact
       case Known(_) => Effect(sh, [Fire(Callback(base, None), PathOf(artifact))], [])
       case Local(_, _) => Effect(sh, [Fire(Callback(base, None), PathOf(artifact))], [])
       case Action(id, path) => Effect(sh, [Register(ActionKey(id), Callback(base, Some(path)))], [])
       case Tree(id) => Effect(sh, [Register(TreeKey(id), Callback(base, None))], []))
    case Register(key, callback) =>
      if key !in sh.callbacks then
        Effect(sh.(callbacks := sh.callbacks[key := Some([callback])]), [Init(key)], [])
      else if sh.callbacks[key].Some? then
        Effect(sh.(callbacks := sh.callbacks[key := Some(sh.callbacks[key].value + [callback])]), [], [])
      else
        Effect(sh, [Fire(callback, Dir(key))], [])
    case Init(key) =>
      if !g.Has(key) then Effect(sh, [], [])
      else
        var inputs := g.Inputs(key);
        Effect(sh.(count := sh.count[key := |inputs|]),
               if |inputs| == 0 then [CountEmpty(key)] else [],
               InputTasks(key, inputs, Sorted(inputs.Keys)))
    case Fire(callback, path) =>
      if callback.output.Some? then
        Effect(sh, [Fire(Callback(callback.base, None), Sub(path, callback.output.value))], [])
      else
        Effect(sh.(links := sh.links[callback.base := path]),
               if callback.base.ToInput? then [CountDown(callback.base)] else [], [])
    case CountDown(base) =>
      if base.ToOut? then Effect(sh, [], []) else Decrement(sh, base.key)
    case CountEmpty(key) =>
      Decrement(sh, key)
    case Run(key) =>
      if !g.Has(key) then Effect(sh, [], [])
      else
        Effect(sh.(results := sh.results[key := Built(g, key, LinkedInputs(g, sh, key))], log := sh.log + [key]),
            [Clear(key)], [])
    case Clear(key) =>
      var waiting := if key in sh.callbacks && sh.callbacks[key].Some? then sh.callbacks[key].value else [];
      Effect(sh.(callbacks := sh.callbacks[key := None]), [], CallbackTasks(waiting, Dir(key)))
  }

  // ---- All interleavings ----

  // The operations still to be done, by whichever worker, and whether the artifacts to build have
  // been handed out; before that, only blobs are written.
  datatype State = State(pending: multiset<Op>, shared: Shared, started: bool)

  // Pending operations, in some order.
  lemma {:induction false} Listed<T>(items: multiset<T>) returns (list: seq<T>)
    ensures multiset(list) == items && |list| == |items|
    decreases |items|
  {
    list := [];
    if items != multiset{} {
      var x :| x in items;
      var rest := Listed(items - multiset{x});
      list := [x] + rest;
    }
  }

  type Targets = map<string, Artifact>

  ghost function TargetTasks(targets: Targets): multiset<Op> {
    multiset(set l | l in targets :: Build(targets[l], ToOut(l)))
  }

  ghost predicate Start(g: Graph, s: State) {
    && s.pending == multiset(set id | id in g.blobs :: WriteBlob(id))
    && s.shared == Shared({}, map[], map[], map[], map[], [])
    && !s.started
  }

  // Any pending operation may be the next one.
  ghost predicate OpStep(g: Graph, s: State, op: Op, s': State) {
    var e := Exec(g, s.shared, op);
    && op in s.pending
    && s'.pending == s.pending - multiset{op} + multiset(e.next) + multiset(e.tasks)
    && s'.shared == e.shared
    && s'.started == s.started
  }

  // Once all blobs are written, the tasks for the targets are added.
  ghost predicate StartStep(targets: Targets, s: State, s': State) {
    && !s.started && s.pending == multiset{}
    && s' == State(TargetTasks(targets), s.shared, true)
  }

  ghost predicate Step(g: Graph, targets: Targets, s: State, s': State) {
    StartStep(targets, s, s') || exists op :: OpStep(g, s, op, s')
  }
}
