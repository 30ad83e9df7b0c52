// Concurrent insertion of one entry into the file storage, from files and from bytes, as interleaved
// system calls (src/buildtool/file_system/file_storage.hpp:95-205,
// src/buildtool/file_system/file_system_manager.hpp:236-309). Any call may fail at any time; nobody
// deletes the entry or changes the source files.
module FileStorage {
  import opened Wrappers

  datatype StoreMode = FirstWins | LastWins

  // One call of AddFromFile or AddFromBytes for the entry: the content, and for files the inode of the
  // source and whether the source is owned.
  datatype Writer = FromFile(data: string, source: nat, isOwner: bool) | FromBytes(data: string)

  // How far a call has come.
  datatype Pc =
    | Begin
    | MakeDirectory
    | LinkDirectly           // create_hard_link(source, entry)
    | CheckAfterLink         // IsFile(entry) of create_directly
    | Create                 // the temporary file is to be created
    | Write                  // its content is being written
    | Stage(linked: bool)    // it is complete; linked, if it is a hard link of the source
    | Unlink(linked: bool)   // it has been linked to the entry, and is to be removed
    | CheckBeforeRemove      // IsFile(entry) of StageFile
    | Remove
    | FinalCheck             // IsFile(entry) at the end
    | Done(result: bool, staged: bool)

  // Inodes are numbered; files holds their contents.
  datatype State = State(entry: Option<nat>, temps: map<nat, nat>, files: seq<string>, pcs: seq<Pc>)

  function At(s: State, i: nat, pc: Pc): State
    requires i < |s.pcs|
  {
    s.(pcs := s.pcs[i := pc])
  }

  function Without(temps: map<nat, nat>, i: nat): map<nat, nat> {
    temps - {i}
  }

  predicate BeginStep(mode: StoreMode, w: Writer, s: State, i: nat, s': State)
    requires i < |s.pcs|
  {
    if mode == LastWins || s.entry.None? then s' == At(s, i, MakeDirectory) else s' == At(s, i, FinalCheck)
  }

  predicate DirectoryStep(mode: StoreMode, w: Writer, s: State, i: nat, s': State)
    requires i < |s.pcs|
  {
    || s' == At(s, i, FinalCheck)
    || s' == At(s, i, if mode == FirstWins && w.FromFile? && w.isOwner then LinkDirectly else Create)
  }

  predicate LinkStep(w: Writer, s: State, i: nat, s': State)
    requires i < |s.pcs|
  {
    || s' == At(s, i, CheckAfterLink)
    || (w.FromFile? && s.entry.None? && s' == At(s, i, Done(true, false)).(entry := Some(w.source)))
  }

  // CreateFileFromPath and CreateFileFromBytes; copying starts with an empty file.
  predicate CreateStep(w: Writer, s: State, i: nat, s': State)
    requires i < |s.pcs|
  {
    || s' == At(s, i, FinalCheck)
    || (w.FromFile? && w.isOwner && s' == At(s, i, Stage(true)).(temps := s.temps[i := w.source]))
    || s' == At(s, i, Write).(temps := s.temps[i := |s.files|], files := s.files + [""])
  }

  predicate WriteStep(w: Writer, s: State, i: nat, s': State)
    requires i < |s.pcs|
  {
    || s' == At(s, i, FinalCheck)
    || (i in s.temps && s.temps[i] < |s.files| && s.files[s.temps[i]] < w.data
        && exists k :: |s.files[s.temps[i]]| < k <= |w.data| && s' == s.(files := s.files[s.temps[i] := w.data[..k]]))
    || (i in s.temps && s.temps[i] < |s.files| && s.files[s.temps[i]] == w.data && s' == At(s, i, Stage(false)))
  }

  // link(temp, entry) in first-wins mode, rename(temp, entry) in last-wins mode. A rename between two
  // links of one file does nothing, and succeeds.
  predicate StageStep(mode: StoreMode, s: State, i: nat, linked: bool, s': State)
    requires i < |s.pcs|
  {
    i in s.temps &&
    match mode
    case FirstWins =>
      || s' == At(s, i, CheckBeforeRemove)
      || (s.entry.None? && s' == At(s, i, Unlink(linked)).(entry := Some(s.temps[i])))
    case LastWins =>
      || s' == At(s, i, FinalCheck)
      || (s.entry == Some(s.temps[i]) && s' == At(s, i, Done(true, true)))
      || (s.entry != Some(s.temps[i]) && s' == At(s, i, Done(true, true)).(entry := Some(s.temps[i]),
            temps := Without(s.temps, i)))
  }

  predicate RemoveStep(s: State, i: nat, otherwise: Pc, s': State)
    requires i < |s.pcs|
  {
    || s' == At(s, i, otherwise)
    || s' == At(s, i, Done(true, true)).(temps := Without(s.temps, i))
  }

  // Call i takes a step.
  predicate Step(mode: StoreMode, writers: seq<Writer>, s: State, i: nat, s': State) {
    i < |writers| == |s.pcs| &&
    var w := writers[i];
    match s.pcs[i]
    case Begin => BeginStep(mode, w, s, i, s')
    case MakeDirectory => DirectoryStep(mode, w, s, i, s')
    case LinkDirectly => LinkStep(w, s, i, s')
    case CheckAfterLink => s' == At(s, i, if s.entry.Some? then Done(true, false) else FinalCheck)
    case Create => CreateStep(w, s, i, s')
    case Write => WriteStep(w, s, i, s')
    case Stage(linked) => StageStep(mode, s, i, linked, s')
    case Unlink(_) => RemoveStep(s, i, CheckBeforeRemove, s')
    case CheckBeforeRemove => s' == At(s, i, if s.entry.Some? then Remove else FinalCheck)
    case Remove => RemoveStep(s, i, FinalCheck, s')
    case FinalCheck => s' == At(s, i, Done(s.entry.Some?, false))
    case Done(_, _) => false
  }

  // ---- What every step keeps ----

  // The inode holds the full content of one of the writers.
  ghost predicate IsWhole(writers: seq<Writer>, s: State, n: nat) {
    n < |s.files| && exists i :: 0 <= i < |writers| && s.files[n] == writers[i].data
  }

  // Nobody else knows the file that call i has created.
  ghost predicate IsPrivate(writers: seq<Writer>, s: State, i: nat) {
    && i in s.temps && s.temps[i] < |s.files|
    && s.entry != Some(s.temps[i])
    && (forall j | j in s.temps && j != i :: s.temps[j] != s.temps[i])
    && (forall j | 0 <= j < |writers| && writers[j].FromFile? :: writers[j].source != s.temps[i])
  }

  ghost predicate PcOk(writers: seq<Writer>, s: State, i: nat)
    requires i < |writers| && i < |s.pcs|
  {
    match s.pcs[i]
    case Write => IsPrivate(writers, s, i) && s.files[s.temps[i]] <= writers[i].data
    case Stage(linked) =>
      && i in s.temps && s.temps[i] < |s.files| && s.files[s.temps[i]] == writers[i].data
      && (if linked then writers[i].FromFile? && writers[i].isOwner && s.temps[i] == writers[i].source
            else IsPrivate(writers, s, i))
    case Unlink(_) => s.entry.Some?
    case Remove => s.entry.Some?
    case Done(result, staged) => result ==> s.entry.Some?
    case _ => true
  }

  ghost predicate Inv(writers: seq<Writer>, s: State) {
    && |writers| == |s.pcs|
    && (forall i | 0 <= i < |writers| && writers[i].FromFile? ::
          writers[i].source < |s.files| && s.files[writers[i].source] == writers[i].data)
    && (s.entry.Some? ==> IsWhole(writers, s, s.entry.value))
    && (forall i | i in s.temps :: s.temps[i] < |s.files|)
    && (forall i | 0 <= i < |writers| :: PcOk(writers, s, i))
  }

  // Nothing of this entry exists, and all calls are yet to begin.
  ghost predicate Initial(writers: seq<Writer>, s: State) {
    && |writers| == |s.pcs| && s.entry == None && s.temps == map[]
    && (forall i | 0 <= i < |s.pcs| :: s.pcs[i] == Begin)
    && (forall i | 0 <= i < |writers| && writers[i].FromFile? ::
          writers[i].source < |s.files| && s.files[writers[i].source] == writers[i].data)
  }

  predicate IsSource(writers: seq<Writer>, n: nat) {
    exists j :: 0 <= j < |writers| && writers[j].FromFile? && writers[j].source == n
  }

  // How little a step of call i changes.
  ghost predicate IsSmall(writers: seq<Writer>, s: State, i: nat, s': State) {
    HasSmallPlaces(s, i, s') && HasSmallFiles(writers, s, i, s')
  }

  ghost predicate HasSmallPlaces(s: State, i: nat, s': State) {
    && i < |s.pcs| == |s'.pcs|
    && (forall j | 0 <= j < |s.pcs| && j != i :: s'.pcs[j] == s.pcs[j])
    && (forall j | j != i :: j in s'.temps <==> j in s.temps)
    && (forall j | j != i && j in s.temps :: s'.temps[j] == s.temps[j])
  }

  ghost predicate HasSmallFiles(writers: seq<Writer>, s: State, i: nat, s': State) {
    && i < |s.pcs|
    && (i in s'.temps ==>
          (i in s.temps && s'.temps[i] == s.temps[i]) || IsSource(writers, s'.temps[i]) || s'.temps[i] == |s.files|)
    && |s.files| <= |s'.files| && (i in s'.temps ==> s'.temps[i] < |s'.files|)
    && (forall n | 0 <= n < |s.files| && !(s.pcs[i].Write? && i in s.temps && s.temps[i] == n) ::
          s'.files[n] == s.files[n])
    && (s'.entry == s.entry
        || (s'.entry.Some? && IsSource(writers, s'.entry.value))
        || (s'.entry.Some? && s.pcs[i].Stage? && i in s.temps && s'.entry.value == s.temps[i]))
  }

  lemma StepIsSmall(mode: StoreMode, writers: seq<Writer>, s: State, i: nat, s': State)
    requires Step(mode, writers, s, i, s') && (i in s.temps ==> s.temps[i] < |s.files|)
    requires writers[i].FromFile? ==> writers[i].source < |s.files|
    ensures IsSmall(writers, s, i, s')
  {
    hide Step, HasSmallPlaces, HasSmallFiles;
    StepIsInPlace(mode, writers, s, i, s');
    StepWritesLittle(mode, writers, s, i, s');
  }

  lemma StepIsInPlace(mode: StoreMode, writers: seq<Writer>, s: State, i: nat, s': State)
    requires Step(mode, writers, s, i, s')
    ensures HasSmallPlaces(s, i, s')
  {
  }

  lemma StepWritesLittle(mode: StoreMode, writers: seq<Writer>, s: State, i: nat, s': State)
    requires Step(mode, writers, s, i, s') && (i in s.temps ==> s.temps[i] < |s.files|)
    requires writers[i].FromFile? ==> writers[i].source < |s.files|
    ensures HasSmallFiles(writers, s, i, s')
  {
  }

  lemma OthersOk(writers: seq<Writer>, s: State, i: nat, s': State, j: nat)
    requires Inv(writers, s) && IsSmall(writers, s, i, s') && j < |writers| && j != i
    ensures PcOk(writers, s', j)
  {
    assert PcOk(writers, s, j) && PcOk(writers, s, i);
    if j in s.temps && IsPrivate(writers, s, j) {
      assert !IsSource(writers, s.temps[j]);
      assert IsPrivate(writers, s', j);
    }
  }

  // What call i itself may rely on in its next step.
  lemma OwnOk(mode: StoreMode, writers: seq<Writer>, s: State, i: nat, s': State)
    requires Inv(writers, s) && Step(mode, writers, s, i, s') && i < |s'.pcs|
    ensures PcOk(writers, s', i)
  {
    hide PcOk;
    if s.pcs[i].Create? {
      OwnOkCreated(mode, writers, s, i, s');
    } else if s.pcs[i].Write? {
      OwnOkWritten(mode, writers, s, i, s');
    } else {
      OwnOkElse(mode, writers, s, i, s');
    }
  }

  lemma OwnOkCreated(mode: StoreMode, writers: seq<Writer>, s: State, i: nat, s': State)
    requires Inv(writers, s) && i < |s.pcs| && s.pcs[i].Create? && Step(mode, writers, s, i, s') && i < |s'.pcs|
    ensures PcOk(writers, s', i)
  {
    if s'.pcs[i] == Write {
      assert IsPrivate(writers, s', i);
    }
  }

  lemma OwnOkWritten(mode: StoreMode, writers: seq<Writer>, s: State, i: nat, s': State)
    requires Inv(writers, s) && i < |s.pcs| && s.pcs[i].Write? && Step(mode, writers, s, i, s') && i < |s'.pcs|
    ensures PcOk(writers, s', i)
  {
    assert PcOk(writers, s, i);
    if s'.pcs[i] != FinalCheck {
      assert IsPrivate(writers, s', i);
    }
  }

  lemma OwnOkElse(mode: StoreMode, writers: seq<Writer>, s: State, i: nat, s': State)
    requires Inv(writers, s) && i < |s.pcs| && !s.pcs[i].Create? && !s.pcs[i].Write?
    requires Step(mode, writers, s, i, s') && i < |s'.pcs|
    ensures PcOk(writers, s', i)
  {
    assert PcOk(writers, s, i);
  }

  lemma EntryWhole(mode: StoreMode, writers: seq<Writer>, s: State, i: nat, s': State)
    requires Inv(writers, s) && Step(mode, writers, s, i, s') && IsSmall(writers, s, i, s') && s'.entry.Some?
    ensures IsWhole(writers, s', s'.entry.value)
  {
    assert PcOk(writers, s, i);
    var n := s'.entry.value;
    if s'.entry == s.entry {
      var j :| 0 <= j < |writers| && s.files[n] == writers[j].data;
      assert s'.files[n] == writers[j].data;
    } else if IsSource(writers, n) {
      var j :| 0 <= j < |writers| && writers[j].FromFile? && writers[j].source == n;
      assert s'.files[n] == writers[j].data;
    } else {
      assert s'.files[n] == writers[i].data;
    }
  }

  // The entry holds the whole content of one of the calls, whenever it exists.
  lemma StepKeepsInv(mode: StoreMode, writers: seq<Writer>, s: State, i: nat, s': State)
    requires Inv(writers, s) && Step(mode, writers, s, i, s')
    ensures Inv(writers, s')
  {
    StepIsSmall(mode, writers, s, i, s');
    forall j | 0 <= j < |writers| ensures PcOk(writers, s', j) {
      if j == i {
        OwnOk(mode, writers, s, i, s');
      } else {
        OthersOk(writers, s, i, s', j);
      }
    }
    if s'.entry.Some? {
      EntryWhole(mode, writers, s, i, s');
    }
    assert PcOk(writers, s, i);
    forall j | 0 <= j < |writers| && writers[j].FromFile? ensures s'.files[writers[j].source] == writers[j].data {
      assert IsSource(writers, writers[j].source);
    }
    forall j | j in s'.temps ensures s'.temps[j] < |s'.files| {
    }
  }

  function Content(s: State): Option<string> {
    if s.entry.Some? && s.entry.value < |s.files| then Some(s.files[s.entry.value]) else None
  }

  // An entry that exists goes on existing, and in first-wins mode it is never replaced.
  lemma EntryStays(mode: StoreMode, writers: seq<Writer>, s: State, i: nat, s': State)
    requires Inv(writers, s) && Step(mode, writers, s, i, s') && s.entry.Some?
    ensures s'.entry.Some?
    ensures mode == FirstWins ==> s'.entry == s.entry && Content(s') == Content(s)
  {
    assert PcOk(writers, s, i);
  }

  // ---- All interleavings ----

  // calls[k] takes the step from states[k].
  ghost predicate IsRun(mode: StoreMode, writers: seq<Writer>, states: seq<State>, calls: seq<nat>) {
    && |states| == |calls| + 1 && Initial(writers, states[0])
    && forall k | 0 <= k < |calls| :: Step(mode, writers, states[k], calls[k], states[k + 1])
  }

  lemma {:induction false} RunKeepsInv(mode: StoreMode, writers: seq<Writer>, states: seq<State>, calls: seq<nat>,
                                       k: nat)
    requires IsRun(mode, writers, states, calls) && k < |states|
    ensures Inv(writers, states[k])
  {
    if k > 0 {
      RunKeepsInv(mode, writers, states, calls, k - 1);
      StepKeepsInv(mode, writers, states[k - 1], calls[k - 1], states[k]);
    }
  }

  ghost predicate StaysWithin(mode: StoreMode, s: State, s': State) {
    s.entry.Some? ==> s'.entry.Some? && (mode == FirstWins ==> Content(s') == Content(s))
  }

  lemma StepStays(mode: StoreMode, writers: seq<Writer>, states: seq<State>, calls: seq<nat>, k: nat)
    requires IsRun(mode, writers, states, calls) && k < |calls|
    ensures StaysWithin(mode, states[k], states[k + 1])
  {
    RunKeepsInv(mode, writers, states, calls, k);
    if states[k].entry.Some? {
      EntryStays(mode, writers, states[k], calls[k], states[k + 1]);
    }
  }

  lemma {:induction false} EntryStaysLater(mode: StoreMode, writers: seq<Writer>, states: seq<State>, calls: seq<nat>,
                                           k: nat, l: nat)
    requires |states| == |calls| + 1 && k <= l < |states| && forall j | 0 <= j < |calls| ::
          StaysWithin(mode, states[j], states[j + 1])
    ensures StaysWithin(mode, states[k], states[l])
  {
    if k < l {
      EntryStaysLater(mode, writers, states, calls, k, l - 1);
      assert StaysWithin(mode, states[l - 1], states[l - 1 + 1]);
    }
  }

  lemma EntryKept(mode: StoreMode, writers: seq<Writer>, states: seq<State>, calls: seq<nat>, k: nat, l: nat)
    requires IsRun(mode, writers, states, calls) && k <= l < |states|
    ensures StaysWithin(mode, states[k], states[l])
  {
    forall j | 0 <= j < |calls| ensures StaysWithin(mode, states[j], states[j + 1]) {
      StepStays(mode, writers, states, calls, j);
    }
    EntryStaysLater(mode, writers, states, calls, k, l);
  }

  // ---- Whose content is stored ----

  // A call in last-wins mode does not link.
  ghost predicate NeverLinks(pc: Pc) {
    !pc.LinkDirectly? && !pc.CheckAfterLink? && !pc.Unlink? && !pc.CheckBeforeRemove? && !pc.Remove?
  }

  ghost predicate NoneLinks(s: State) {
    forall i | 0 <= i < |s.pcs| :: NeverLinks(s.pcs[i])
  }

  lemma StepNeverLinks(writers: seq<Writer>, s: State, i: nat, s': State)
    requires Step(LastWins, writers, s, i, s') && NoneLinks(s)
    ensures NoneLinks(s')
  {
    StepIsInPlace(LastWins, writers, s, i, s');
    assert NeverLinks(s.pcs[i]);
    assert NeverLinks(s'.pcs[i]);
  }

  lemma {:induction false} RunNeverLinks(writers: seq<Writer>, states: seq<State>, calls: seq<nat>, k: nat)
    requires IsRun(LastWins, writers, states, calls) && k < |states|
    ensures NoneLinks(states[k])
  {
    hide Step;
    if k > 0 {
      RunNeverLinks(writers, states, calls, k - 1);
      StepNeverLinks(writers, states[k - 1], calls[k - 1], states[k - 1 + 1]);
    }
  }

  // A step that leaves the entry alone leaves its content alone: what is being written is private.
  lemma ContentStays(mode: StoreMode, writers: seq<Writer>, s: State, i: nat, s': State)
    requires Inv(writers, s) && Step(mode, writers, s, i, s') && s'.entry == s.entry
    ensures Content(s') == Content(s)
  {
    StepIsSmall(mode, writers, s, i, s');
    assert PcOk(writers, s, i);
  }

  // When the entry changes, it is to the content of the call that takes the step.
  lemma EntryIsOwn(mode: StoreMode, writers: seq<Writer>, s: State, i: nat, s': State)
    requires Inv(writers, s) && Step(mode, writers, s, i, s') && s'.entry != s.entry
    ensures Content(s') == Some(writers[i].data)
  {
    assert PcOk(writers, s, i);
  }

  // In last-wins mode a call that stages successfully makes its content the one stored, whatever was
  // there before, and no other step changes what is stored.
  lemma LastWinsStep(writers: seq<Writer>, s: State, i: nat, s': State)
    requires Inv(writers, s) && Step(LastWins, writers, s, i, s') && NoneLinks(s)
    ensures Content(s') == if s'.pcs[i] == Done(true, true) then Some(writers[i].data) else Content(s)
  {
    assert PcOk(writers, s, i) && NeverLinks(s.pcs[i]);
    if s'.entry != s.entry {
      EntryIsOwn(LastWins, writers, s, i, s');
    } else {
      ContentStays(LastWins, writers, s, i, s');
    }
  }

  // By step j a call has staged successfully.
  ghost predicate StagesAt(states: seq<State>, calls: seq<nat>, j: nat) {
    j < |calls| && j + 1 < |states| && calls[j] < |states[j + 1].pcs|
    && states[j + 1].pcs[calls[j]] == Done(true, true)
  }

  // Step j is the last one before state k by which a call has staged successfully.
  ghost predicate StagesLast(states: seq<State>, calls: seq<nat>, j: nat, k: nat) {
    j < k && StagesAt(states, calls, j) && forall l | j < l < k :: !StagesAt(states, calls, l)
  }

  ghost predicate HoldsLastStaged(writers: seq<Writer>, states: seq<State>, calls: seq<nat>, k: nat)
    requires k < |states|
  {
    && (forall j: nat | StagesLast(states, calls, j, k) ::
          calls[j] < |writers| && Content(states[k]) == Some(writers[calls[j]].data))
    && ((forall j: nat | j < k :: !StagesAt(states, calls, j)) ==> Content(states[k]) == None)
  }

  lemma LastStageNext(states: seq<State>, calls: seq<nat>, j: nat, k: nat)
    ensures StagesLast(states, calls, j, k + 1)
        <==> if StagesAt(states, calls, k) then j == k else StagesLast(states, calls, j, k)
  {
    hide StagesAt;
  }

  lemma LastStageInRange(states: seq<State>, calls: seq<nat>, k: nat)
    ensures forall j: nat | StagesLast(states, calls, j, k) :: j < |calls|
  {
  }

  lemma NoneStagesNext(states: seq<State>, calls: seq<nat>, k: nat)
    ensures (forall j: nat | j < k + 1 :: !StagesAt(states, calls, j))
        <==> !StagesAt(states, calls, k) && forall j: nat | j < k :: !StagesAt(states, calls, j)
  {
    hide StagesAt;
  }

  lemma HoldsLastStagedNext(writers: seq<Writer>, states: seq<State>, calls: seq<nat>, k: nat)
    requires k < |calls| && |states| == |calls| + 1 && HoldsLastStaged(writers, states, calls, k)
    requires calls[k] < |writers|
    requires Content(states[k + 1])
        == if StagesAt(states, calls, k) then Some(writers[calls[k]].data) else Content(states[k])
    ensures HoldsLastStaged(writers, states, calls, k + 1)
  {
    hide Content, StagesAt, StagesLast;
    NoneStagesNext(states, calls, k);
    LastStageInRange(states, calls, k + 1);
    forall j: nat | StagesLast(states, calls, j, k + 1)
      ensures calls[j] < |writers| && Content(states[k + 1]) == Some(writers[calls[j]].data)
    {
      LastStageNext(states, calls, j, k);
    }
  }

  // In last-wins mode, what is stored at any time is the content of the call that was the last to stage
  // successfully; nothing is stored before one does.
  lemma {:induction false} LastStagedWins(writers: seq<Writer>, states: seq<State>, calls: seq<nat>, k: nat)
    requires IsRun(LastWins, writers, states, calls) && k < |states|
    ensures forall j: nat | StagesLast(states, calls, j, k) ::
              calls[j] < |writers| && Content(states[k]) == Some(writers[calls[j]].data)
    ensures (forall j: nat | j < k :: !StagesAt(states, calls, j)) ==> Content(states[k]) == None
  {
    hide Step, Inv, NoneLinks, StagesAt;
    if k > 0 {
      var s, i, s' := states[k - 1], calls[k - 1], states[k - 1 + 1];
      LastStagedWins(writers, states, calls, k - 1);
      RunKeepsInv(LastWins, writers, states, calls, k - 1);
      RunNeverLinks(writers, states, calls, k - 1);
      CallsAreInRange(LastWins, writers, s, i, s');
      LastWinsStep(writers, s, i, s');
      StagesNow(states, calls, k - 1);
      HoldsLastStagedNext(writers, states, calls, k - 1);
    }
  }

  lemma StagesNow(states: seq<State>, calls: seq<nat>, k: nat)
    requires k < |calls| && |states| == |calls| + 1 && calls[k] < |states[k + 1].pcs|
    ensures StagesAt(states, calls, k) <==> states[k + 1].pcs[calls[k]] == Done(true, true)
  {
  }

  lemma CallsAreInRange(mode: StoreMode, writers: seq<Writer>, s: State, i: nat, s': State)
    requires Step(mode, writers, s, i, s')
    ensures i < |writers| && i < |s'.pcs|
  {
    StepIsInPlace(mode, writers, s, i, s');
  }

  // Step j creates the entry.
  ghost predicate CreatesAt(states: seq<State>, calls: seq<nat>, j: nat) {
    j < |calls| && j + 1 < |states| && states[j].entry == None && states[j + 1].entry.Some?
  }

  // In first-wins mode it is, from then on, the content of the call that created the entry.
  lemma FirstInsertedWins(writers: seq<Writer>, states: seq<State>, calls: seq<nat>, j: nat, k: nat)
    requires IsRun(FirstWins, writers, states, calls) && j < k < |states| && CreatesAt(states, calls, j)
    ensures calls[j] < |writers| && Content(states[k]) == Some(writers[calls[j]].data)
  {
    hide Step, Inv;
    RunKeepsInv(FirstWins, writers, states, calls, j);
    EntryIsOwn(FirstWins, writers, states[j], calls[j], states[j + 1]);
    CallsAreInRange(FirstWins, writers, states[j], calls[j], states[j + 1]);
    EntryKept(FirstWins, writers, states, calls, j + 1, k);
  }

  // By step j a call returns false.
  ghost predicate FailsAt(states: seq<State>, calls: seq<nat>, j: nat) {
    j < |calls| && j + 1 < |states| && calls[j] < |states[j + 1].pcs|
    && states[j + 1].pcs[calls[j]].Done? && !states[j + 1].pcs[calls[j]].result
  }

  // A call returns false only if the entry is missing at that moment.
  lemma FailsOnlyIfMissing(mode: StoreMode, writers: seq<Writer>, s: State, i: nat, s': State)
    requires Step(mode, writers, s, i, s') && i < |s'.pcs| && s'.pcs[i].Done? && !s'.pcs[i].result
    ensures s'.entry == None
  {
  }

  // Whatever the interleaving: the entry only ever holds the whole content of one of the calls, in
  // first-wins mode that of the call that created it, and in last-wins mode that of the call that was the
  // last to stage successfully; from the moment a call has returned true, it exists, and when one returns
  // false, it does not.
  lemma InsertionIsAtomic(mode: StoreMode, writers: seq<Writer>, states: seq<State>, calls: seq<nat>, k: nat, l: nat)
    requires IsRun(mode, writers, states, calls) && k <= l < |states|
    ensures states[k].entry.Some? ==> exists i :: 0 <= i < |writers| && Content(states[k]) == Some(writers[i].data)
    ensures states[k].entry.Some? ==>
              states[l].entry.Some? && (mode == FirstWins ==> Content(states[l]) == Content(states[k]))
    ensures mode == FirstWins ==> forall j: nat | CreatesAt(states, calls, j) && j < l ::
              calls[j] < |writers| && Content(states[l]) == Some(writers[calls[j]].data)
    ensures mode == LastWins ==> forall j: nat | StagesLast(states, calls, j, l) ::
              calls[j] < |writers| && Content(states[l]) == Some(writers[calls[j]].data)
    ensures forall i | 0 <= i < |states[k].pcs| && states[k].pcs[i].Done? && states[k].pcs[i].result ::
              states[l].entry.Some?
    ensures forall j: nat | FailsAt(states, calls, j) && j < l :: states[j + 1].entry == None
  {
    hide Step, StagesLast;
    forall j: nat | FailsAt(states, calls, j) && j < l ensures states[j + 1].entry == None {
      FailsOnlyIfMissing(mode, writers, states[j], calls[j], states[j + 1]);
    }
    RunKeepsInv(mode, writers, states, calls, k);
    EntryKept(mode, writers, states, calls, k, l);
    if mode == LastWins {
      LastStageInRange(states, calls, l);
      LastStagedWins(writers, states, calls, l);
    } else {
      forall j: nat | CreatesAt(states, calls, j) && j < l
        ensures calls[j] < |writers| && Content(states[l]) == Some(writers[calls[j]].data)
      {
        FirstInsertedWins(writers, states, calls, j, l);
      }
    }
    if states[k].entry.Some? {
      var i :| 0 <= i < |writers| && states[k].files[states[k].entry.value] == writers[i].data;
      assert Content(states[k]) == Some(writers[i].data);
    }
    forall i | 0 <= i < |states[k].pcs| && states[k].pcs[i].Done? && states[k].pcs[i].result
        ensures states[l].entry.Some?
    {
      assert PcOk(writers, states[k], i);
    }
  }

  // ---- Temporary files ----

  // A temporary file that is the entry already is an owned source: content written or copied anew is
  // never staged onto itself.
  lemma OnlyOwnedFilesAreLeft(writers: seq<Writer>, s: State, i: nat)
    requires Inv(writers, s) && i < |writers| && s.pcs[i].Stage? && i in s.temps && s.entry == Some(s.temps[i])
    ensures writers[i].FromFile? && writers[i].isOwner && s.entry == Some(writers[i].source)
  {
    assert PcOk(writers, s, i);
  }

  // In last-wins mode, call i stages its owned source, which the entry is a link of already.
  predicate StagesItself(mode: StoreMode, writers: seq<Writer>, s: State, i: nat) {
    && mode == LastWins && i < |writers| == |s.pcs|
    && writers[i].FromFile? && writers[i].isOwner
    && s.pcs[i] == Stage(true) && s.entry == Some(writers[i].source)
  }

  // The step that stages successfully leaves the temporary file behind in just that case.
  lemma StagingStep(mode: StoreMode, writers: seq<Writer>, s: State, i: nat, s': State)
    requires Inv(writers, s) && Step(mode, writers, s, i, s')
    requires i < |s'.pcs| && s'.pcs[i] == Done(true, true)
    ensures i in s'.temps <==> StagesItself(mode, writers, s, i)
  {
    assert PcOk(writers, s, i);
  }

  // Step j stages the source of call i onto itself, successfully.
  predicate StagedItselfAt(mode: StoreMode, writers: seq<Writer>, states: seq<State>, calls: seq<nat>, i: nat, j: nat) {
    && j < |calls| && j + 1 < |states| && calls[j] == i && StagesItself(mode, writers, states[j], i)
    && i < |states[j + 1].pcs| && states[j + 1].pcs[i] == Done(true, true)
  }

  lemma {:induction false} DoneStays(mode: StoreMode, writers: seq<Writer>, states: seq<State>, calls: seq<nat>,
                                     i: nat, j: nat, k: nat)
    requires IsRun(mode, writers, states, calls) && j <= k < |states| && i < |writers|
    requires |states[j].pcs| == |writers| && states[j].pcs[i].Done?
    ensures |states[k].pcs| == |writers| && states[k].pcs[i] == states[j].pcs[i]
    ensures forall l | j <= l < k :: calls[l] != i
  {
    hide Step, Inv, Initial;
    if j < k {
      DoneStays(mode, writers, states, calls, i, j, k - 1);
      RunKeepsInv(mode, writers, states, calls, k - 1);
      StepOfOther(mode, writers, states[k - 1], calls[k - 1], states[k - 1 + 1], i);
    }
  }

  lemma CallsCounted(writers: seq<Writer>, s: State)
    requires Inv(writers, s)
    ensures |s.pcs| == |writers|
  {
  }

  // Only the call that takes the step moves on, and none that is done.
  lemma StepOfOther(mode: StoreMode, writers: seq<Writer>, s: State, i: nat, s': State, j: nat)
    requires Inv(writers, s) && Step(mode, writers, s, i, s') && j < |writers|
    ensures i < |writers| == |s.pcs| == |s'.pcs| && (s.pcs[j].Done? ==> i != j)
    ensures i != j ==> s'.pcs[j] == s.pcs[j] && (j in s'.temps <==> j in s.temps)
  {
    StepIsSmall(mode, writers, s, i, s');
  }

  lemma NoneDoneAtFirst(writers: seq<Writer>, s: State, i: nat)
    requires Initial(writers, s) && i < |writers|
    ensures s.pcs[i] == Begin
  {
  }

  // In every run, a call that has staged its file successfully has left its temporary file behind if
  // and only if it staged, in last-wins mode, an owned source that the entry was at that moment.
  lemma {:induction false} StagingCleansUp(mode: StoreMode, writers: seq<Writer>, states: seq<State>, calls: seq<nat>,
                                           k: nat, i: nat)
    requires IsRun(mode, writers, states, calls) && k < |states| && i < |writers| == |states[k].pcs|
    requires states[k].pcs[i] == Done(true, true)
    ensures i in states[k].temps <==> exists j :: 0 <= j < k && StagedItselfAt(mode, writers, states, calls, i, j)
  {
    hide Step, Inv, Initial, StagesItself;
    if k == 0 {
      NoneDoneAtFirst(writers, states[0], i);
    } else {
      RunKeepsInv(mode, writers, states, calls, k - 1);
      StepOfOther(mode, writers, states[k - 1], calls[k - 1], states[k - 1 + 1], i);
      if calls[k - 1] == i {
        StagingStep(mode, writers, states[k - 1], i, states[k]);
        forall j | 0 <= j < k - 1 ensures !StagedItselfAt(mode, writers, states, calls, i, j) {
          if StagedItselfAt(mode, writers, states, calls, i, j) {
            RunKeepsInv(mode, writers, states, calls, j + 1);
            CallsCounted(writers, states[j + 1]);
            DoneStays(mode, writers, states, calls, i, j + 1, k);
          }
        }
        assert i in states[k].temps <==> StagedItselfAt(mode, writers, states, calls, i, k - 1);
      } else {
        StagingCleansUp(mode, writers, states, calls, k - 1, i);
        assert !StagedItselfAt(mode, writers, states, calls, i, k - 1);
      }
    }
  }

  // So nothing is left in first-wins mode, nor if no call owns its source.
  lemma NothingIsLeft(mode: StoreMode, writers: seq<Writer>, states: seq<State>, calls: seq<nat>, k: nat, i: nat)
    requires IsRun(mode, writers, states, calls) && k < |states| && i < |writers| == |states[k].pcs|
    requires states[k].pcs[i] == Done(true, true)
    requires mode == FirstWins || forall w | w in writers :: w.FromFile? ==> !w.isOwner
    ensures i !in states[k].temps
  {
    StagingCleansUp(mode, writers, states, calls, k, i);
    assert writers[i] in writers;
  }

  // It does happen: an owned file is added in last-wins mode by two calls, one after the other.
  lemma TemporaryFileCanBeLeft() returns (writers: seq<Writer>, states: seq<State>, calls: seq<nat>, last: State)
    ensures IsRun(LastWins, writers, states, calls) && last == states[|calls|]
    ensures last.pcs == [Done(true, true), Done(true, true)] && 1 in last.temps
  {
    var w := FromFile("x", 0, true);
    writers := [w, w];
    var first := FirstCall(writers);
    var second := SecondCall(writers);
    last := second[4];
    states, calls := first + second[1..], [0, 0, 0, 0, 1, 1, 1, 1];
    forall k | 0 <= k < 8 ensures Step(LastWins, writers, states[k], calls[k], states[k + 1]) {
      assert if k < 4 then calls[k] == 0 else calls[k] == 1;
      if k < 4 {
        assert Step(LastWins, writers, first[k], 0, first[k + 1]);
      } else {
        assert Step(LastWins, writers, second[k - 4], 1, second[k - 3]);
      }
    }
  }

  lemma FirstCall(writers: seq<Writer>) returns (states: seq<State>)
    requires writers == [FromFile("x", 0, true), FromFile("x", 0, true)]
    ensures |states| == 5 && states[0] == State(None, map[], ["x"], [Begin, Begin])
    ensures states[4] == State(Some(0), map[], ["x"], [Done(true, true), Begin])
    ensures forall k | 0 <= k < 4 :: Step(LastWins, writers, states[k], 0, states[k + 1])
  {
    var s0 := State(None, map[], ["x"], [Begin, Begin]);
    var s1 := s0.(pcs := [MakeDirectory, Begin]);
    var s2 := s0.(pcs := [Create, Begin]);
    var s3 := s0.(pcs := [Stage(true), Begin], temps := map[0 := 0]);
    var s4 := s0.(pcs := [Done(true, true), Begin], entry := Some(0));
    assert Without(map[0 := 0], 0) == map[];
    states := [s0, s1, s2, s3, s4];
    assert Step(LastWins, writers, s0, 0, s1) && Step(LastWins, writers, s1, 0, s2);
    assert Step(LastWins, writers, s2, 0, s3) && Step(LastWins, writers, s3, 0, s4);
  }

  lemma SecondCall(writers: seq<Writer>) returns (states: seq<State>)
    requires writers == [FromFile("x", 0, true), FromFile("x", 0, true)]
    ensures |states| == 5 && states[0] == State(Some(0), map[], ["x"], [Done(true, true), Begin])
    ensures states[4] == State(Some(0), map[1 := 0], ["x"], [Done(true, true), Done(true, true)])
    ensures forall k | 0 <= k < 4 :: Step(LastWins, writers, states[k], 1, states[k + 1])
  {
    var s0 := State(Some(0), map[], ["x"], [Done(true, true), Begin]);
    var s1 := s0.(pcs := [Done(true, true), MakeDirectory]);
    var s2 := s0.(pcs := [Done(true, true), Create]);
    var s3 := s0.(pcs := [Done(true, true), Stage(true)], temps := map[1 := 0]);
    var s4 := s3.(pcs := [Done(true, true), Done(true, true)]);
    states := [s0, s1, s2, s3, s4];
    assert Step(LastWins, writers, s0, 1, s1) && Step(LastWins, writers, s1, 1, s2);
    assert Step(LastWins, writers, s2, 1, s3) && Step(LastWins, writers, s3, 1, s4);
  }
}
