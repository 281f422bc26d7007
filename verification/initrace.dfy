/** Any number of interleaved `initialize` calls with I/O errors, rollbacks, process deaths and power loss
    between any two system calls: the exclusive creation of `identity.pub` guards `identity.key.enc`. */
module InitRace {
  import opened Results
  import opened ByteStrings
  import opened Primitives
  import opened Identity
  import opened Store
  import opened WriteSteps

  /** The three writes, in order. */
  datatype Stage = Unlock | Public | Encrypted

  /** `Checking(n)` stands in front of the n-th existence check. */
  datatype Pc =
    | Checking(n: nat)
    | Write(stage: Stage, phase: Phase)
    | RollingBack
    | Done(result: Result<PublicProfile>)
    | Dead

  datatype Call = Call(unlockPath: Path, draw: InitDraw, pc: Pc)

  /** `owners` records, for the proof only, which call created a file. */
  datatype State = State(files: Files, synced: set<Path>, owners: map<Path, nat>, calls: map<nat, Call>)

  datatype Event =
    | Start(id: nat, unlockPath: Path, draw: InitDraw)
    | Step(id: nat, size: nat)
    | Fail(id: nat)
    | Crash(id: nat)
    | PowerLoss(kept: map<Path, nat>)

  function Target(st: StatePaths, call: Call, stage: Stage): Path {
    match stage
    case Unlock => call.unlockPath
    case Public => st.IdentityPublic()
    case Encrypted => st.IdentityEncrypted()
  }

  function Content(s: LawfulSuite, call: Call, stage: Stage): Bytes {
    match stage
    case Unlock => EncodeUnlockKey(call.draw.unlockKey)
    case Public => Encode(ProfileOf(s, call.draw.secrets))
    case Encrypted => EncryptedIdentity(s, call.draw.secrets, call.draw.unlockKey, call.draw.nonce)
  }

  function Initial(files: Files): State {
    State(files, files.Keys, map[], map[])
  }

  function Moved(state: State, id: nat, pc: Pc): State
    requires id in state.calls
  {
    state.(calls := state.calls[id := state.calls[id].(pc := pc)])
  }

  /** An error inside a write: only the last one rolls back. */
  function AfterFailure(stage: Stage, kind: IoKind): Pc {
    if stage.Encrypted? then RollingBack else Done(Err(Io(kind)))
  }

  function AfterWrite(s: LawfulSuite, call: Call, stage: Stage): Pc {
    match stage
    case Unlock => Write(Public, Creating)
    case Public => Write(Encrypted, Creating)
    case Encrypted => Done(Ok(ProfileOf(s, call.draw.secrets)))
  }

  function CheckedPath(st: StatePaths, call: Call, n: nat): Path {
    if n == 0 then st.IdentityPublic() else if n == 1 then st.IdentityEncrypted() else call.unlockPath
  }

  /** The next system call of call `id`. */
  function Advance(s: LawfulSuite, st: StatePaths, state: State, id: nat, size: nat): State
    requires id in state.calls
  {
    var call := state.calls[id];
    match call.pc
    case Checking(n) =>
      Moved(state, id,
            if CheckedPath(st, call, n) in state.files
            then Done(if n < 2 then Invalid(IdentityExists) else Invalid(UnlockExists))
            else if n < 2 then Checking(n + 1) else Write(Unlock, Creating))
    case Write(stage, phase) =>
      var path := Target(st, call, stage);
      var step := WriteStep(state.files, path, Content(s, call, stage), phase, size);
      if step.Refused? then Moved(state, id, AfterFailure(stage, AlreadyExists))
      else
        Moved(state, id, if step.phase.Complete? then AfterWrite(s, call, stage) else Write(stage, step.phase)).(
          files := step.files,
          synced := if phase.Syncing? then state.synced + {path} else state.synced,
          owners := if phase.Creating? then state.owners[path := id] else state.owners)
    case RollingBack =>
      Moved(state, id, Done(Err(Io(Other)))).(
        files := state.files - {st.IdentityPublic()},
        synced := state.synced - {st.IdentityPublic()},
        owners := state.owners - {st.IdentityPublic()})
    case Done(_) => state
    case Dead => state
  }

  function AfterPowerLoss(state: State, kept: map<Path, nat>): State {
    state.(files := AfterLoss(state.files, state.synced, kept),
           calls := map id | id in state.calls ::
             if state.calls[id].pc.Done? then state.calls[id] else state.calls[id].(pc := Dead))
  }

  function Apply(s: LawfulSuite, st: StatePaths, state: State, event: Event): State {
    match event
    case Start(id, unlockPath, draw) =>
      if id in state.calls then state
      else
        state.(calls := state.calls[id := Call(unlockPath, draw,
          if st.root <= unlockPath then Done(Invalid(UnlockInsideState)) else Checking(0))])
    case Step(id, size) => if id in state.calls then Advance(s, st, state, id, size) else state
    case Fail(id) =>
      if id !in state.calls then state
      else
        var pc := state.calls[id].pc;
        if pc.Done? || pc.Dead? then state
        else Moved(state, id, if pc.Write? then AfterFailure(pc.stage, Other) else Done(Err(Io(Other))))
    case Crash(id) => if id in state.calls && !state.calls[id].pc.Done? then Moved(state, id, Dead) else state
    case PowerLoss(kept) => AfterPowerLoss(state, kept)
  }

  function Run(s: LawfulSuite, st: StatePaths, state: State, events: seq<Event>): State
    decreases |events|
  {
    if events == [] then state else Run(s, st, Apply(s, st, state, events[0]), events[1..])
  }

  // ---------------------------------------------------------------- invariant

  /** Call `id` created the file of `stage`, which holds what its write has reached, durably once synced. */
  ghost predicate Owns(s: LawfulSuite, st: StatePaths, state: State, id: nat, call: Call, stage: Stage, phase: Phase) {
    var path := Target(st, call, stage);
    && path in state.owners && state.owners[path] == id && path in state.files
    && HoldsUpTo(state.files, path, Content(s, call, stage), phase)
    && (phase.Restricting? || phase.Complete? ==> path in state.synced)
  }

  ghost predicate OwnsAll(s: LawfulSuite, st: StatePaths, state: State, id: nat, call: Call, stage: Stage) {
    Owns(s, st, state, id, call, stage, Complete)
  }

  ghost predicate CallInv(s: LawfulSuite, st: StatePaths, state: State, id: nat, call: Call) {
    match call.pc
    case Checking(_) => !(st.root <= call.unlockPath)
    case Write(stage, phase) =>
      && !(st.root <= call.unlockPath) && !phase.Complete?
      && (!phase.Creating? ==> Owns(s, st, state, id, call, stage, phase))
      && (!stage.Unlock? ==> OwnsAll(s, st, state, id, call, Unlock))
      && (stage.Encrypted? ==> OwnsAll(s, st, state, id, call, Public))
    case RollingBack =>
      && !(st.root <= call.unlockPath)
      && OwnsAll(s, st, state, id, call, Unlock) && OwnsAll(s, st, state, id, call, Public)
    case Done(result) =>
      result.Ok? ==>
        && result.value == ProfileOf(s, call.draw.secrets)
        && OwnsAll(s, st, state, id, call, Unlock) && OwnsAll(s, st, state, id, call, Public)
        && OwnsAll(s, st, state, id, call, Encrypted)
    case Dead => true
  }

  ghost predicate Inv(s: LawfulSuite, st: StatePaths, state: State) {
    && state.owners.Keys <= state.files.Keys
    && forall id :: id in state.calls ==> CallInv(s, st, state, id, state.calls[id])
  }

  /** A step of call `id` touches only files that it owns or that did not exist. */
  ghost predicate Spares(state: State, next: State, id: nat) {
    forall p :: p in state.owners && state.owners[p] != id ==>
      && p in next.owners && next.owners[p] == state.owners[p]
      && (p in state.files ==> p in next.files && next.files[p] == state.files[p])
      && (p in state.synced ==> p in next.synced)
  }

  lemma OthersKept(s: LawfulSuite, st: StatePaths, state: State, next: State, id: nat, other: nat, call: Call)
    requires state.owners.Keys <= state.files.Keys && Spares(state, next, id) && other != id
    requires CallInv(s, st, state, other, call)
    ensures CallInv(s, st, next, other, call)
  {
    hide Content;
    forall stage: Stage, phase: Phase | Owns(s, st, state, other, call, stage, phase)
      ensures Owns(s, st, next, other, call, stage, phase)
    {
    }
  }

  /** The targets of one call are three different files. */
  lemma TargetsDistinct(st: StatePaths, call: Call, a: Stage, b: Stage)
    requires !(st.root <= call.unlockPath) && a != b
    ensures Target(st, call, a) != Target(st, call, b)
  {
    IdentityPathsDistinct(st);
  }

  lemma WriteSpares(s: LawfulSuite, st: StatePaths, state: State, id: nat, size: nat)
    requires Inv(s, st, state) && id in state.calls && state.calls[id].pc.Write?
    ensures var next := Advance(s, st, state, id, size);
            && Spares(state, next, id) && next.owners.Keys <= next.files.Keys
  {
    hide Content;
    var call := state.calls[id];
    assert CallInv(s, st, state, id, call);
    var stage, phase := call.pc.stage, call.pc.phase;
    var step := WriteStep(state.files, Target(st, call, stage), Content(s, call, stage), phase, size);
    if step.Stepped? {
      WriteStepKeeps(state.files, Target(st, call, stage), Content(s, call, stage), phase, size);
    }
  }

  /** The file being written advances; the files finished earlier are other files. */
  lemma SteppedKeepsOwn(s: LawfulSuite, st: StatePaths, state: State, id: nat, size: nat, next: State, step: Stepped)
    requires Inv(s, st, state) && id in state.calls && state.calls[id].pc.Write?
    requires next == Advance(s, st, state, id, size) && step.Stepped?
    requires var call := state.calls[id];
             step == WriteStep(state.files, Target(st, call, call.pc.stage), Content(s, call, call.pc.stage),
                               call.pc.phase, size)
    ensures var call := state.calls[id];
            && Owns(s, st, next, id, call, call.pc.stage, step.phase) && !step.phase.Creating?
            && (!call.pc.stage.Unlock? ==> OwnsAll(s, st, next, id, call, Unlock))
            && (call.pc.stage.Encrypted? ==> OwnsAll(s, st, next, id, call, Public))
  {
    hide Content;
    var call := state.calls[id];
    assert CallInv(s, st, state, id, call);
    var stage, phase := call.pc.stage, call.pc.phase;
    var path := Target(st, call, stage);
    WriteStepKeeps(state.files, path, Content(s, call, stage), phase, size);
    if !stage.Unlock? {
      TargetsDistinct(st, call, Unlock, stage);
      OwnedElsewhere(s, st, state, next, id, call, Unlock, path);
    }
    if stage.Encrypted? {
      TargetsDistinct(st, call, Public, stage);
      OwnedElsewhere(s, st, state, next, id, call, Public, path);
    }
  }

  lemma WriteKeepsOwn(s: LawfulSuite, st: StatePaths, state: State, id: nat, size: nat)
    requires Inv(s, st, state) && id in state.calls && state.calls[id].pc.Write?
    ensures var next := Advance(s, st, state, id, size);
            CallInv(s, st, next, id, next.calls[id])
  {
    hide Content;
    var call := state.calls[id];
    assert CallInv(s, st, state, id, call);
    var stage, phase := call.pc.stage, call.pc.phase;
    var step := WriteStep(state.files, Target(st, call, stage), Content(s, call, stage), phase, size);
    var next := Advance(s, st, state, id, size);
    SameTargets(s, st, next, id, call, next.calls[id]);
    if step.Stepped? {
      SteppedKeepsOwn(s, st, state, id, size, next, step);
    } else if stage.Encrypted? {
      OwnedUnchanged(s, st, state, next, id, call, Unlock);
      OwnedUnchanged(s, st, state, next, id, call, Public);
    }
  }

  lemma OwnedElsewhere(s: LawfulSuite, st: StatePaths, state: State, next: State, id: nat, call: Call,
                       stage: Stage, path: Path)
    requires OwnsAll(s, st, state, id, call, stage) && Target(st, call, stage) != path
    requires forall q :: q in state.files && q != path ==> q in next.files && next.files[q] == state.files[q]
    requires forall q :: q in state.owners && q != path ==> q in next.owners && next.owners[q] == state.owners[q]
    requires state.synced <= next.synced
    ensures OwnsAll(s, st, next, id, call, stage)
  {
  }

  lemma OwnedUnchanged(s: LawfulSuite, st: StatePaths, state: State, next: State, id: nat, call: Call, stage: Stage)
    requires OwnsAll(s, st, state, id, call, stage)
    requires next.files == state.files && next.owners == state.owners && next.synced == state.synced
    ensures OwnsAll(s, st, next, id, call, stage)
  {
  }

  /** Ownership does not depend on the program counter. */
  lemma SameTargets(s: LawfulSuite, st: StatePaths, state: State, id: nat, a: Call, b: Call)
    requires a.unlockPath == b.unlockPath && a.draw == b.draw
    ensures forall stage: Stage, phase: Phase ::
              Owns(s, st, state, id, a, stage, phase) <==> Owns(s, st, state, id, b, stage, phase)
  {
  }

  lemma AdvanceKeepsInv(s: LawfulSuite, st: StatePaths, state: State, id: nat, size: nat)
    requires Inv(s, st, state) && id in state.calls
    ensures Inv(s, st, Advance(s, st, state, id, size))
  {
    hide Content;
    var next := Advance(s, st, state, id, size);
    assert CallInv(s, st, state, id, state.calls[id]);
    if state.calls[id].pc.Write? {
      WriteSpares(s, st, state, id, size);
      WriteKeepsOwn(s, st, state, id, size);
    }
    assert Spares(state, next, id) && CallInv(s, st, next, id, next.calls[id]);
    CombineInv(s, st, state, next, id);
  }

  lemma CombineInv(s: LawfulSuite, st: StatePaths, state: State, next: State, id: nat)
    requires Inv(s, st, state) && Spares(state, next, id) && next.owners.Keys <= next.files.Keys
    requires id in next.calls && CallInv(s, st, next, id, next.calls[id])
    requires forall o :: o in next.calls && o != id ==> o in state.calls && next.calls[o] == state.calls[o]
    ensures Inv(s, st, next)
  {
    hide Content;
    forall other | other in next.calls && other != id
      ensures CallInv(s, st, next, other, next.calls[other])
    {
      OthersKept(s, st, state, next, id, other, state.calls[other]);
    }
  }

  /** Power loss ends every call that is still at work, and spares the files of those that have succeeded. */
  lemma PowerLossKeepsInv(s: LawfulSuite, st: StatePaths, state: State, kept: map<Path, nat>)
    requires Inv(s, st, state)
    ensures Inv(s, st, AfterPowerLoss(state, kept))
  {
    hide Content, AfterLoss;
    var next := AfterPowerLoss(state, kept);
    LossKeepsPrefixes(state.files, state.synced, kept);
    assert next.calls.Keys == state.calls.Keys;
    forall id | id in next.calls
      ensures CallInv(s, st, next, id, next.calls[id])
    {
      assert CallInv(s, st, state, id, state.calls[id]);
    }
  }

  lemma ApplyKeepsInv(s: LawfulSuite, st: StatePaths, state: State, event: Event)
    requires Inv(s, st, state)
    ensures Inv(s, st, Apply(s, st, state, event))
  {
    hide Content, Advance;
    var next := Apply(s, st, state, event);
    if event.Step? {
      if event.id in state.calls {
        AdvanceKeepsInv(s, st, state, event.id, event.size);
      }
    } else if event.PowerLoss? {
      PowerLossKeepsInv(s, st, state, event.kept);
    } else if next != state {
      var id := event.id;
      if id in state.calls {
        assert CallInv(s, st, state, id, state.calls[id]);
        SameTargets(s, st, next, id, state.calls[id], next.calls[id]);
        assert forall stage: Stage :: OwnsAll(s, st, state, id, state.calls[id], stage)
                 ==> OwnsAll(s, st, next, id, state.calls[id], stage);
      }
      CombineInv(s, st, state, next, id);
    }
  }

  lemma {:induction false} RunKeepsInv(s: LawfulSuite, st: StatePaths, state: State, events: seq<Event>)
    requires Inv(s, st, state)
    ensures Inv(s, st, Run(s, st, state, events))
    decreases |events|
  {
    if events != [] {
      ApplyKeepsInv(s, st, state, events[0]);
      RunKeepsInv(s, st, Apply(s, st, state, events[0]), events[1..]);
    }
  }

  // ---------------------------------------------------------------- every run

  /** Call `id` has returned Ok. */
  ghost predicate Succeeded(state: State, id: nat) {
    id in state.calls && state.calls[id].pc.Done? && state.calls[id].pc.result.Ok?
  }

  /** The files that were there from the start are as they were, and nobody owns them. */
  ghost predicate KeepsInitial(files: Files, state: State) {
    && files.Keys <= state.files.Keys && files.Keys <= state.synced && files.Keys !! state.owners.Keys
    && forall p :: p in files ==> state.files[p] == files[p]
  }

  lemma AdvanceKeepsInitial(s: LawfulSuite, st: StatePaths, files: Files, state: State, id: nat, size: nat)
    requires id in state.calls && CallInv(s, st, state, id, state.calls[id]) && KeepsInitial(files, state)
    ensures KeepsInitial(files, Advance(s, st, state, id, size))
  {
    hide Content, HoldsUpTo;
  }

  lemma {:induction false} RunKeepsInitial(s: LawfulSuite, st: StatePaths, files: Files, state: State,
                                           events: seq<Event>)
    requires Inv(s, st, state) && KeepsInitial(files, state)
    ensures KeepsInitial(files, Run(s, st, state, events))
    decreases |events|
  {
    hide Advance, Content, CallInv, AfterLoss;
    if events != [] {
      var event := events[0];
      if event.Step? && event.id in state.calls {
        AdvanceKeepsInitial(s, st, files, state, event.id, event.size);
      } else if event.PowerLoss? {
        LossKeepsPrefixes(state.files, state.synced, event.kept);
      }
      ApplyKeepsInv(s, st, state, event);
      RunKeepsInitial(s, st, files, Apply(s, st, state, event), events[1..]);
    }
  }

  /** No interleaving changes or removes a file that was there from the start, power loss included. */
  lemma InitialFilesKept(s: LawfulSuite, st: StatePaths, files: Files, events: seq<Event>, p: Path)
    requires p in files
    ensures var after := Run(s, st, Initial(files), events).files; p in after && after[p] == files[p]
  {
    hide Run;
    RunKeepsInitial(s, st, files, Initial(files), events);
  }

  /** Every call is still at its checks, or over. */
  ghost predicate Untouched(st: StatePaths, files: Files, state: State) {
    && state.files == files && files.Keys <= state.synced
    && forall id :: id in state.calls ==>
         var pc := state.calls[id].pc;
         Over(pc) || pc == Checking(0) || (pc == Checking(1) && st.IdentityPublic() !in files)
  }

  lemma AdvanceLeavesUntouched(s: LawfulSuite, st: StatePaths, files: Files, state: State, id: nat, size: nat)
    requires Untouched(st, files, state) && id in state.calls
    requires st.IdentityPublic() in files || st.IdentityEncrypted() in files
    ensures Untouched(st, files, Advance(s, st, state, id, size))
  {
    hide Content, WriteStep;
  }

  lemma {:induction false} RunLeavesUntouched(s: LawfulSuite, st: StatePaths, files: Files, state: State,
                                              events: seq<Event>)
    requires Untouched(st, files, state) && (st.IdentityPublic() in files || st.IdentityEncrypted() in files)
    ensures Untouched(st, files, Run(s, st, state, events))
    decreases |events|
  {
    hide Advance, AfterLoss;
    if events != [] {
      var event := events[0];
      if event.Step? && event.id in state.calls {
        AdvanceLeavesUntouched(s, st, files, state, event.id, event.size);
      } else if event.PowerLoss? {
        LossKeepsPrefixes(state.files, state.synced, event.kept);
        assert AfterLoss(state.files, state.synced, event.kept) == files;
      }
      RunLeavesUntouched(s, st, files, Apply(s, st, state, event), events[1..]);
    }
  }

  /** A store that holds a profile or a key file is never touched again: in no interleaving does any `initialize`
      create, change or remove any file, let alone succeed. */
  lemma OccupiedStoreUntouched(s: LawfulSuite, st: StatePaths, files: Files, events: seq<Event>)
    requires st.IdentityPublic() in files || st.IdentityEncrypted() in files
    ensures var after := Run(s, st, Initial(files), events);
            after.files == files && forall id :: !Succeeded(after, id)
  {
    hide Run;
    RunLeavesUntouched(s, st, files, Initial(files), events);
  }

  /** In every run at most one `initialize` returns Ok. */
  lemma AtMostOneInitialize(s: LawfulSuite, st: StatePaths, files: Files, events: seq<Event>, i: nat, j: nat)
    requires Succeeded(Run(s, st, Initial(files), events), i) && Succeeded(Run(s, st, Initial(files), events), j)
    ensures i == j
  {
    hide Content, Run;
    var state := Run(s, st, Initial(files), events);
    RunKeepsInv(s, st, Initial(files), events);
    assert CallInv(s, st, state, i, state.calls[i]) && CallInv(s, st, state, j, state.calls[j]);
  }

  /** From the moment a call has returned Ok, and whatever the other calls do afterwards, power loss included,
      the identity loads with that call's unlock path to that call's secrets and profile. */
  lemma InitializedStaysLoadable(s: LawfulSuite, st: StatePaths, files: Files, events: seq<Event>,
                                 later: seq<Event>, i: nat, dirs: set<Path>)
    requires Succeeded(Run(s, st, Initial(files), events), i)
    requires var call := Run(s, st, Initial(files), events).calls[i];
             {call.unlockPath, st.IdentityPublic(), st.IdentityEncrypted()} !! dirs
    ensures var call := Run(s, st, Initial(files), events).calls[i];
            var after := Run(s, st, Initial(files), events + later);
            && i in after.calls && after.calls[i] == call
            && LoadIdentityOf(s, Fs(after.files, dirs), st, call.unlockPath)
               == Ok(LoadedIdentity(call.draw.secrets, call.pc.result.value))
  {
    var now := Run(s, st, Initial(files), events);
    RunConcat(s, st, Initial(files), events, later);
    RunKeepsDone(s, st, now, later, i);
    RunKeepsInv(s, st, Initial(files), events + later);
    var after := Run(s, st, Initial(files), events + later);
    var call := after.calls[i];
    assert CallInv(s, st, after, i, call);
    assert OwnsAll(s, st, after, i, call, Unlock) && OwnsAll(s, st, after, i, call, Public)
           && OwnsAll(s, st, after, i, call, Encrypted);
    assert HoldsIdentity(s, Fs(after.files, dirs), st, call.unlockPath, call.draw);
    HeldIdentityLoads(s, Fs(after.files, dirs), st, call.unlockPath, call.draw);
  }

  lemma {:induction false} RunKeepsDone(s: LawfulSuite, st: StatePaths, state: State, events: seq<Event>, i: nat)
    requires i in state.calls && state.calls[i].pc.Done?
    ensures var after := Run(s, st, state, events); i in after.calls && after.calls[i] == state.calls[i]
    decreases |events|
  {
    hide Content;
    if events != [] {
      var next := Apply(s, st, state, events[0]);
      assert i in next.calls && next.calls[i] == state.calls[i];
      RunKeepsDone(s, st, next, events[1..], i);
    }
  }

  lemma {:induction false} RunConcat(s: LawfulSuite, st: StatePaths, state: State, first: seq<Event>,
                                     second: seq<Event>)
    ensures Run(s, st, state, first + second) == Run(s, st, Run(s, st, state, first), second)
    decreases |first|
  {
    if first == [] {
      assert first + second == second;
    } else {
      assert (first + second)[1..] == first[1..] + second;
      RunConcat(s, st, Apply(s, st, state, first[0]), first[1..], second);
    }
  }

  /** The call has failed or died. */
  predicate Over(pc: Pc) {
    pc.Dead? || (pc.Done? && pc.result.Err?)
  }

  /** `identity.key.enc` exists, but no call is writing it and none has succeeded. */
  ghost predicate Stranded(st: StatePaths, state: State) {
    && st.IdentityEncrypted() in state.files
    && forall id :: id in state.calls ==>
         && !Succeeded(state, id)
         && (state.calls[id].pc.Write? && state.calls[id].pc.stage.Encrypted? ==> state.calls[id].pc.phase.Creating?)
  }

  /** A stranded `identity.key.enc`, as a broken last write leaves it behind its rollback, blocks every
      present and future `initialize`, in every run. */
  lemma {:induction false} StrandedKeyBlocksInitialize(s: LawfulSuite, st: StatePaths, state: State,
                                                       events: seq<Event>, i: nat)
    requires Stranded(st, state)
    ensures Stranded(st, Run(s, st, state, events)) && !Succeeded(Run(s, st, state, events), i)
    decreases |events|
  {
    if events != [] {
      StrandedStep(s, st, state, events[0]);
      StrandedKeyBlocksInitialize(s, st, Apply(s, st, state, events[0]), events[1..], i);
    }
  }

  lemma KeyNeverRemoved(s: LawfulSuite, st: StatePaths, state: State, event: Event)
    requires st.IdentityEncrypted() in state.files
    ensures st.IdentityEncrypted() in Apply(s, st, state, event).files
  {
    hide Content;
    IdentityPathsDistinct(st);
  }

  /** A step on a stranded store leaves it stranded: the last write is refused before it can begin. */
  lemma AdvanceKeepsStranded(s: LawfulSuite, st: StatePaths, state: State, id: nat, size: nat)
    requires Stranded(st, state) && id in state.calls
    ensures var pc := Advance(s, st, state, id, size).calls[id].pc;
            && !(pc.Done? && pc.result.Ok?)
            && (pc.Write? && pc.stage.Encrypted? ==> pc.phase.Creating?)
  {
    hide Content;
    assert !Succeeded(state, id);
  }

  lemma StrandedStep(s: LawfulSuite, st: StatePaths, state: State, event: Event)
    requires Stranded(st, state)
    ensures Stranded(st, Apply(s, st, state, event))
  {
    hide Content, Advance, AfterLoss;
    var next := Apply(s, st, state, event);
    KeyNeverRemoved(s, st, state, event);
    if event.Step? && event.id in state.calls {
      AdvanceKeepsStranded(s, st, state, event.id, event.size);
      OthersStay(s, st, state, event.id, event.size);
    }
    forall id | id in next.calls
      ensures !Succeeded(next, id)
      ensures next.calls[id].pc.Write? && next.calls[id].pc.stage.Encrypted? ==> next.calls[id].pc.phase.Creating?
    {
      assert id in state.calls ==> !Succeeded(state, id);
    }
  }

  lemma OthersStay(s: LawfulSuite, st: StatePaths, state: State, id: nat, size: nat)
    requires id in state.calls
    ensures var next := Advance(s, st, state, id, size);
            next.calls.Keys == state.calls.Keys
            && forall o :: o in state.calls && o != id ==> next.calls[o] == state.calls[o]
  {
    hide Content, WriteStep;
  }

  /** Only one call at a time is past the creation of `identity.pub`. */
  lemma AloneAtLastWrite(s: LawfulSuite, st: StatePaths, state: State, id: nat)
    requires Inv(s, st, state) && id in state.calls
    requires state.calls[id].pc.Write? && state.calls[id].pc.stage.Encrypted?
    ensures forall other :: other in state.calls ==>
              && !Succeeded(state, other)
              && (other != id && state.calls[other].pc.Write? ==> !state.calls[other].pc.stage.Encrypted?)
  {
    hide Content, HoldsUpTo;
    assert CallInv(s, st, state, id, state.calls[id]);
    forall other | other in state.calls
      ensures !Succeeded(state, other)
      ensures other != id && state.calls[other].pc.Write? ==> !state.calls[other].pc.stage.Encrypted?
    {
      assert CallInv(s, st, state, other, state.calls[other]);
    }
  }

  /** Exactly when a last write that fails, with its rollback, strands the key file: in every phase behind the
      creation of the file, and in front of it when the file was there already. What was written stays. */
  lemma RollbackStrands(s: LawfulSuite, st: StatePaths, state: State, id: nat, phase: Phase)
    requires Inv(s, st, state) && id in state.calls && state.calls[id].pc == Write(Encrypted, phase)
    ensures var after := Run(s, st, state, [Fail(id), Step(id, 0)]);
            && id in after.calls && Over(after.calls[id].pc)
            && st.IdentityPublic() !in after.files && state.calls[id].unlockPath in after.files
            && (Stranded(st, after) <==> !phase.Creating? || st.IdentityEncrypted() in state.files)
            && HoldsUpTo(after.files, st.IdentityEncrypted(), Content(s, state.calls[id], Encrypted), phase)
  {
    hide Content;
    IdentityPathsDistinct(st);
    var call := state.calls[id];
    assert CallInv(s, st, state, id, call);
    assert OwnsAll(s, st, state, id, call, Unlock);
    assert !phase.Creating? ==> Owns(s, st, state, id, call, Encrypted, phase);
    TargetsDistinct(st, call, Unlock, Public);
    AloneAtLastWrite(s, st, state, id);
    var failed := Apply(s, st, state, Fail(id));
    assert failed == Moved(state, id, RollingBack);
    var after := Apply(s, st, failed, Step(id, 0));
    assert [Fail(id), Step(id, 0)][1..] == [Step(id, 0)];
    assert Run(s, st, failed, [Step(id, 0)]) == after;
    assert forall other :: other in after.calls && other != id ==> after.calls[other] == state.calls[other];
  }

  // ---------------------------------------------------------------- a stranded profile

  /** `identity.pub` exists and no call at work has created it: nobody will ever remove it. */
  ghost predicate StrandedProfile(st: StatePaths, state: State) {
    var path := st.IdentityPublic();
    && path in state.files
    && (path in state.owners ==> state.owners[path] in state.calls && Over(state.calls[state.owners[path]].pc))
  }

  lemma ProfileStaysStranded(s: LawfulSuite, st: StatePaths, state: State, event: Event)
    requires Inv(s, st, state) && StrandedProfile(st, state)
    ensures StrandedProfile(st, Apply(s, st, state, event))
  {
    hide Content, HoldsUpTo;
    if event.Step? && event.id in state.calls {
      var id := event.id;
      assert CallInv(s, st, state, id, state.calls[id]);
      StepSparesProfile(s, st, state, id, event.size);
    }
  }

  lemma StepSparesProfile(s: LawfulSuite, st: StatePaths, state: State, id: nat, size: nat)
    requires id in state.calls && CallInv(s, st, state, id, state.calls[id]) && StrandedProfile(st, state)
    ensures StrandedProfile(st, Advance(s, st, state, id, size))
  {
    hide Content, HoldsUpTo;
    IdentityPathsDistinct(st);
  }

  /** A stranded profile, as an `initialize` leaves it that dies behind the creation of the file or breaks off
      writing it, blocks every present and future `initialize`, in every run. */
  lemma {:induction false} StrandedProfileBlocksInitialize(s: LawfulSuite, st: StatePaths, state: State,
                                                           events: seq<Event>, i: nat)
    requires Inv(s, st, state) && StrandedProfile(st, state)
    ensures StrandedProfile(st, Run(s, st, state, events)) && !Succeeded(Run(s, st, state, events), i)
    decreases |events|
  {
    hide Apply, Content, HoldsUpTo;
    if events == [] {
      if Succeeded(state, i) {
        assert CallInv(s, st, state, i, state.calls[i]);
      }
    } else {
      ProfileStaysStranded(s, st, state, events[0]);
      ApplyKeepsInv(s, st, state, events[0]);
      StrandedProfileBlocksInitialize(s, st, Apply(s, st, state, events[0]), events[1..], i);
    }
  }

  /** The call has created `identity.pub` and not yet returned. */
  predicate HoldsProfile(pc: Pc) {
    match pc
    case Write(stage, phase) => stage.Encrypted? || (stage.Public? && !phase.Creating?)
    case RollingBack => true
    case _ => false
  }

  /** Exactly which interruptions of a call that has created the profile strand it: all but an error in the
      last write, which leads to the rollback. */
  lemma InterruptionStrandsExactly(s: LawfulSuite, st: StatePaths, state: State, id: nat, event: Event)
    requires Inv(s, st, state) && id in state.calls && HoldsProfile(state.calls[id].pc)
    requires event == Fail(id) || event == Crash(id) || event.PowerLoss?
    ensures StrandedProfile(st, Apply(s, st, state, event)) <==>
            !(event.Fail? && state.calls[id].pc.Write? && state.calls[id].pc.stage.Encrypted?)
  {
    hide Content, HoldsUpTo;
    assert CallInv(s, st, state, id, state.calls[id]);
    assert st.IdentityPublic() in state.files && st.IdentityPublic() in state.owners
           && state.owners[st.IdentityPublic()] == id;
  }

  // ---------------------------------------------------------------- success is possible

  lemma ContentNotEmpty(s: LawfulSuite, call: Call, stage: Stage)
    ensures Content(s, call, stage) != []
  {
    IdentityAtRestRoundTrip(s, call.draw.secrets, call.draw.unlockKey, call.draw.nonce);
  }

  /** `state` after call `id` has created `path` with `bytes` in it and moved on to `pc`. */
  function Filled(state: State, synced: set<Path>, id: nat, path: Path, bytes: Bytes, pc: Pc): State
    requires id in state.calls
  {
    State(state.files[path := bytes], synced, state.owners[path := id],
          state.calls[id := state.calls[id].(pc := pc)])
  }

  /** One step of a write that is not refused. */
  lemma SoloAdvance(s: LawfulSuite, st: StatePaths, state: State, id: nat, stage: Stage, phase: Phase, size: nat)
    requires id in state.calls && state.calls[id].pc == Write(stage, phase)
    requires WriteStep(state.files, Target(st, state.calls[id], stage), Content(s, state.calls[id], stage), phase,
                       size).Stepped?
    ensures var call := state.calls[id];
            var path := Target(st, call, stage);
            var step := WriteStep(state.files, path, Content(s, call, stage), phase, size);
            Apply(s, st, state, Step(id, size))
            == State(step.files,
                     if phase.Syncing? then state.synced + {path} else state.synced,
                     if phase.Creating? then state.owners[path := id] else state.owners,
                     state.calls[id := call.(pc := if step.phase.Complete? then AfterWrite(s, call, stage)
                                                   else Write(stage, step.phase))])
  {
    hide Content, WriteStep, AfterWrite, Target;
  }

  lemma SoloCreate(s: LawfulSuite, st: StatePaths, state: State, id: nat, stage: Stage)
    requires id in state.calls && state.calls[id].pc == Write(stage, Creating)
    requires Target(st, state.calls[id], stage) !in state.files
    ensures Apply(s, st, state, Step(id, 0))
         == Filled(state, state.synced, id, Target(st, state.calls[id], stage), [], Write(stage, Writing(0)))
  {
    hide Content, Apply;
    SoloAdvance(s, st, state, id, stage, Creating, 0);
  }

  /** Neither content nor targets depend on where the call stands. */
  lemma SameContent(s: LawfulSuite, st: StatePaths, a: Call, b: Call, stage: Stage)
    requires a.draw == b.draw && a.unlockPath == b.unlockPath
    ensures Content(s, a, stage) == Content(s, b, stage) && Target(st, a, stage) == Target(st, b, stage)
    ensures AfterWrite(s, a, stage) == AfterWrite(s, b, stage)
  {
  }

  /** One write of `size` bytes into the empty file. */
  lemma SoloFill(s: LawfulSuite, st: StatePaths, state: State, id: nat, stage: Stage, size: nat)
    requires id in state.calls && 0 < size <= |Content(s, state.calls[id], stage)|
    ensures var call := state.calls[id];
            var path := Target(st, call, stage);
            Apply(s, st, Filled(state, state.synced, id, path, [], Write(stage, Writing(0))), Step(id, size))
            == Filled(state, state.synced, id, path, Content(s, call, stage)[..size], Write(stage, Writing(size)))
  {
    hide Apply, Content, AfterWrite, Target;
    var call := state.calls[id];
    var path, content := Target(st, call, stage), Content(s, call, stage);
    var empty := Filled(state, state.synced, id, path, [], Write(stage, Writing(0)));
    SameContent(s, st, call, empty.calls[id], stage);
    SoloAdvance(s, st, empty, id, stage, Writing(0), size);
    assert [] + content[0..size] == content[..size];
  }

  /** One step on a file that is complete. */
  lemma SoloMove(s: LawfulSuite, st: StatePaths, state: State, synced: set<Path>, id: nat, stage: Stage,
                 phase: Phase)
    requires id in state.calls
    requires phase == Writing(|Content(s, state.calls[id], stage)|) || phase.Syncing? || phase.Restricting?
    ensures var call := state.calls[id];
            var path := Target(st, call, stage);
            var bytes := Content(s, call, stage);
            Apply(s, st, Filled(state, synced, id, path, bytes, Write(stage, phase)), Step(id, 0))
            == Filled(state, if phase.Syncing? then synced + {path} else synced, id, path, bytes,
                      if phase.Writing? then Write(stage, Syncing)
                      else if phase.Syncing? then Write(stage, Restricting)
                      else AfterWrite(s, call, stage))
  {
    hide Apply, Content, AfterWrite, Target;
    var call := state.calls[id];
    var filled := Filled(state, synced, id, Target(st, call, stage), Content(s, call, stage), Write(stage, phase));
    SameContent(s, st, call, filled.calls[id], stage);
    SoloAdvance(s, st, filled, id, stage, phase, 0);
  }

  lemma SoloClose(s: LawfulSuite, st: StatePaths, state: State, id: nat, stage: Stage, bytes: Bytes)
    requires id in state.calls && bytes == Content(s, state.calls[id], stage)
    ensures var call := state.calls[id];
            var path := Target(st, call, stage);
            Run(s, st, Filled(state, state.synced, id, path, bytes, Write(stage, Writing(|bytes|))),
                [Step(id, 0), Step(id, 0), Step(id, 0)])
            == Filled(state, state.synced + {path}, id, path, bytes, AfterWrite(s, call, stage))
  {
    hide Content, Apply, Filled, Target, AfterWrite;
    var path, synced := Target(st, state.calls[id], stage), state.synced;
    var s0 := Filled(state, synced, id, path, bytes, Write(stage, Writing(|bytes|)));
    var s1 := Filled(state, synced, id, path, bytes, Write(stage, Syncing));
    var s2 := Filled(state, synced + {path}, id, path, bytes, Write(stage, Restricting));
    SoloMove(s, st, state, synced, id, stage, Writing(|bytes|));
    SoloMove(s, st, state, synced, id, stage, Syncing);
    SoloMove(s, st, state, synced + {path}, id, stage, Restricting);
    RunCons(s, st, s2, Step(id, 0), []);
    RunCons(s, st, s1, Step(id, 0), [Step(id, 0)]);
    RunCons(s, st, s0, Step(id, 0), [Step(id, 0), Step(id, 0)]);
  }

  /** Five undisturbed steps carry one file from nothing to its end. */
  function StageSteps(id: nat, size: nat): seq<Event> {
    [Step(id, 0)] + ([Step(id, size)] + [Step(id, 0), Step(id, 0), Step(id, 0)])
  }

  /** `state` after the whole write of one file. */
  function Finished(s: LawfulSuite, st: StatePaths, state: State, id: nat, stage: Stage): State
    requires id in state.calls
  {
    var call := state.calls[id];
    var path := Target(st, call, stage);
    Filled(state, state.synced + {path}, id, path, Content(s, call, stage), AfterWrite(s, call, stage))
  }

  lemma SoloStage(s: LawfulSuite, st: StatePaths, state: State, id: nat, stage: Stage, bytes: Bytes)
    requires id in state.calls && state.calls[id].pc == Write(stage, Creating)
    requires Target(st, state.calls[id], stage) !in state.files && bytes == Content(s, state.calls[id], stage)
    ensures Run(s, st, state, StageSteps(id, |bytes|))
         == Finished(s, st, state, id, stage)
  {
    hide Content, Apply, Filled, Run;
    var path := Target(st, state.calls[id], stage);
    var created := Filled(state, state.synced, id, path, [], Write(stage, Writing(0)));
    SoloCreate(s, st, state, id, stage);
    ContentNotEmpty(s, state.calls[id], stage);
    SoloFill(s, st, state, id, stage, |bytes|);
    assert bytes[..|bytes|] == bytes;
    SoloClose(s, st, state, id, stage, bytes);
    RunCons(s, st, created, Step(id, |bytes|), [Step(id, 0), Step(id, 0), Step(id, 0)]);
    RunCons(s, st, state, Step(id, 0), [Step(id, |bytes|)] + [Step(id, 0), Step(id, 0), Step(id, 0)]);
  }

  lemma RunCons(s: LawfulSuite, st: StatePaths, state: State, event: Event, events: seq<Event>)
    ensures Run(s, st, state, [event] + events) == Run(s, st, Apply(s, st, state, event), events)
  {
    assert ([event] + events)[1..] == events;
  }

  /** One call that has not touched a file yet. */
  function SoloAt(files: Files, id: nat, unlockPath: Path, draw: InitDraw, pc: Pc): State {
    State(files, files.Keys, map[], map[id := Call(unlockPath, draw, pc)])
  }

  /** What the checks in front of the first effect decide. */
  function AfterChecks(st: StatePaths, files: Files, unlockPath: Path): Pc {
    if st.root <= unlockPath then Done(Invalid(UnlockInsideState))
    else if st.IdentityPublic() in files || st.IdentityEncrypted() in files then Done(Invalid(IdentityExists))
    else if unlockPath in files then Done(Invalid(UnlockExists))
    else Write(Unlock, Creating)
  }

  lemma SoloCheck(s: LawfulSuite, st: StatePaths, files: Files, id: nat, unlockPath: Path, draw: InitDraw, pc: Pc)
    requires pc.Checking? || pc.Done?
    ensures Apply(s, st, SoloAt(files, id, unlockPath, draw, pc), Step(id, 0))
         == SoloAt(files, id, unlockPath, draw,
                   if pc.Done? then pc
                   else if CheckedPath(st, Call(unlockPath, draw, pc), pc.n) in files
                   then Done(if pc.n < 2 then Invalid(IdentityExists) else Invalid(UnlockExists))
                   else if pc.n < 2 then Checking(pc.n + 1) else Write(Unlock, Creating))
  {
    hide Content, CheckedPath;
    var solo := SoloAt(files, id, unlockPath, draw, pc);
    assert solo.calls[id] == Call(unlockPath, draw, pc);
    assert forall a: Pc :: solo.calls[id := Call(unlockPath, draw, a)] == map[id := Call(unlockPath, draw, a)];
  }

  /** Exactly what stops an undisturbed `initialize` in front of its first write, and with which answer; in every
      case no file has changed. */
  lemma SoloChecksExactly(s: LawfulSuite, st: StatePaths, files: Files, id: nat, unlockPath: Path, draw: InitDraw)
    ensures Run(s, st, Initial(files), [Start(id, unlockPath, draw), Step(id, 0), Step(id, 0), Step(id, 0)])
         == SoloAt(files, id, unlockPath, draw, AfterChecks(st, files, unlockPath))
  {
    hide Content, Advance;
    var pc0 := if st.root <= unlockPath then Done(Invalid(UnlockInsideState)) else Checking(0);
    var s0 := SoloAt(files, id, unlockPath, draw, pc0);
    assert Apply(s, st, Initial(files), Start(id, unlockPath, draw)) == s0;
    hide Apply, SoloAt;
    SoloCheck(s, st, files, id, unlockPath, draw, pc0);
    var s1 := Apply(s, st, s0, Step(id, 0));
    var pc1 := if pc0.Done? then pc0
               else if st.IdentityPublic() in files then Done(Invalid(IdentityExists)) else Checking(1);
    SoloCheck(s, st, files, id, unlockPath, draw, pc1);
    var s2 := Apply(s, st, s1, Step(id, 0));
    var pc2 := if pc1.Done? then pc1
               else if st.IdentityEncrypted() in files then Done(Invalid(IdentityExists)) else Checking(2);
    SoloCheck(s, st, files, id, unlockPath, draw, pc2);
    RunCons(s, st, s2, Step(id, 0), []);
    RunCons(s, st, s1, Step(id, 0), [Step(id, 0)]);
    RunCons(s, st, s0, Step(id, 0), [Step(id, 0), Step(id, 0)]);
    RunCons(s, st, Initial(files), Start(id, unlockPath, draw), [Step(id, 0), Step(id, 0), Step(id, 0)]);
  }

  lemma ThenStage(s: LawfulSuite, st: StatePaths, files: Files, events: seq<Event>, id: nat, stage: Stage)
    returns (more: seq<Event>)
    requires var state := Run(s, st, Initial(files), events);
             && id in state.calls && state.calls[id].pc == Write(stage, Creating)
             && Target(st, state.calls[id], stage) !in state.files
    ensures Run(s, st, Initial(files), more) == Finished(s, st, Run(s, st, Initial(files), events), id, stage)
  {
    hide Content, Run, Finished;
    var state := Run(s, st, Initial(files), events);
    var bytes := Content(s, state.calls[id], stage);
    SoloStage(s, st, state, id, stage, bytes);
    RunConcat(s, st, Initial(files), events, StageSteps(id, |bytes|));
    more := events + StageSteps(id, |bytes|);
  }

  /** A run in which one call gets as far as the creation of `stage`, with nothing in its way. */
  lemma SoloReaches(s: LawfulSuite, st: StatePaths, files: Files, id: nat, unlockPath: Path, draw: InitDraw,
                    stage: Stage) returns (events: seq<Event>)
    requires {unlockPath, st.IdentityPublic(), st.IdentityEncrypted()} !! files.Keys && !(st.root <= unlockPath)
    ensures var state := Run(s, st, Initial(files), events);
            && id in state.calls && state.calls[id] == Call(unlockPath, draw, Write(stage, Creating))
            && Target(st, state.calls[id], stage) !in state.files
  {
    var call := Call(unlockPath, draw, Write(Unlock, Creating));
    TargetsDistinct(st, call, Unlock, Public);
    TargetsDistinct(st, call, Unlock, Encrypted);
    TargetsDistinct(st, call, Public, Encrypted);
    events := [Start(id, unlockPath, draw), Step(id, 0), Step(id, 0), Step(id, 0)];
    SoloChecksExactly(s, st, files, id, unlockPath, draw);
    hide Run, Content;
    if !stage.Unlock? {
      events := ThenStage(s, st, files, events, id, Unlock);
    }
    if stage.Encrypted? {
      events := ThenStage(s, st, files, events, id, Public);
    }
  }

  /** Runs in which an `initialize` succeeds exist: one that nobody disturbs returns Ok. */
  lemma SoloInitializeSucceeds(s: LawfulSuite, st: StatePaths, files: Files, id: nat, unlockPath: Path,
                               draw: InitDraw) returns (events: seq<Event>)
    requires {unlockPath, st.IdentityPublic(), st.IdentityEncrypted()} !! files.Keys && !(st.root <= unlockPath)
    ensures Succeeded(Run(s, st, Initial(files), events), id)
  {
    hide Run, Content;
    events := SoloReaches(s, st, files, id, unlockPath, draw, Encrypted);
    events := ThenStage(s, st, files, events, id, Encrypted);
  }

  /** A run in which one call has created the file of `stage` and written `size` bytes of it. */
  lemma SoloWritesPart(s: LawfulSuite, st: StatePaths, files: Files, id: nat, unlockPath: Path, draw: InitDraw,
                       stage: Stage, size: nat) returns (events: seq<Event>)
    requires {unlockPath, st.IdentityPublic(), st.IdentityEncrypted()} !! files.Keys && !(st.root <= unlockPath)
    requires size <= |Content(s, Call(unlockPath, draw, Dead), stage)|
    ensures var state := Run(s, st, Initial(files), events);
            && id in state.calls && state.calls[id] == Call(unlockPath, draw, Write(stage, Writing(size)))
  {
    hide Apply, Content;
    events := SoloReaches(s, st, files, id, unlockPath, draw, stage);
    var state := Run(s, st, Initial(files), events);
    var more := [Step(id, 0)] + if size == 0 then [] else [Step(id, size)];
    RunConcat(s, st, Initial(files), events, more);
    RunCons(s, st, state, Step(id, 0), if size == 0 then [] else [Step(id, size)]);
    SoloCreate(s, st, state, id, stage);
    var created := Apply(s, st, state, Step(id, 0));
    if size > 0 {
      SameContent(s, st, state.calls[id], Call(unlockPath, draw, Dead), stage);
      SoloFill(s, st, state, id, stage, size);
      RunCons(s, st, created, Step(id, size), []);
    }
    events := events + more;
  }

  /** An error after any number of bytes of the last file strands the key, and one after any number of bytes
      of the profile strands the profile. Either way no `initialize` ever succeeds again, whatever happens. */
  lemma BrokenInitializeBlocksForever(s: LawfulSuite, st: StatePaths, files: Files, id: nat, unlockPath: Path,
                                      draw: InitDraw, stage: Stage, size: nat) returns (events: seq<Event>)
    requires {unlockPath, st.IdentityPublic(), st.IdentityEncrypted()} !! files.Keys && !(st.root <= unlockPath)
    requires !stage.Unlock? && size <= |Content(s, Call(unlockPath, draw, Dead), stage)|
    ensures var state := Run(s, st, Initial(files), events); id in state.calls && Over(state.calls[id].pc)
    ensures forall later, i :: !Succeeded(Run(s, st, Initial(files), events + later), i)
  {
    var begun := SoloWritesPart(s, st, files, id, unlockPath, draw, stage, size);
    var state := Run(s, st, Initial(files), begun);
    var stop := if stage.Encrypted? then [Fail(id), Step(id, 0)] else [Fail(id)];
    events := begun + stop;
    RunKeepsInv(s, st, Initial(files), begun);
    RunConcat(s, st, Initial(files), begun, stop);
    RunKeepsInv(s, st, Initial(files), events);
    var broken := Run(s, st, Initial(files), events);
    if stage.Encrypted? {
      RollbackStrands(s, st, state, id, Writing(size));
    } else {
      InterruptionStrandsExactly(s, st, state, id, Fail(id));
      assert broken == Apply(s, st, state, Fail(id));
    }
    forall later, i
      ensures !Succeeded(Run(s, st, Initial(files), events + later), i)
    {
      RunConcat(s, st, Initial(files), events, later);
      if stage.Encrypted? {
        StrandedKeyBlocksInitialize(s, st, broken, later, i);
      } else {
        StrandedProfileBlocksInitialize(s, st, broken, later, i);
      }
    }
  }
}
