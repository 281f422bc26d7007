/** Any number of interleaved `trust`, contact look-ups and profile exports, with I/O errors, process deaths
    and power loss between any two system calls: what is pinned under a path never changes. */
module Pins {
  import opened Results
  import opened ByteStrings
  import opened Primitives
  import opened Identity
  import opened Contacts
  import opened Store
  import opened WriteSteps

  datatype Task =
    | Trust(profile: PublicProfile)    // the profile that was parsed from the source file
    | Lookup
    | Export(profile: PublicProfile)

  /** Where a call stands. `Probe` is the existence test of `trust`, `Opening` and `Reading` are the steps of
      `read_regular_limited`. */
  datatype Pc =
    | Probe
    | Opening
    | Reading(buffer: Bytes)
    | Write(phase: Phase)
    | Done(result: Result<PublicProfile>)
    | Dead

  datatype Call = Call(path: Path, task: Task, pc: Pc)

  /** Who created a file, and for which profile; recorded for the proof, never consulted by a step. */
  datatype Origin = Origin(writer: nat, profile: PublicProfile)

  datatype State = State(files: Files, synced: set<Path>, origins: map<Path, Origin>, calls: map<nat, Call>)

  datatype Event =
    | Start(id: nat, path: Path, task: Task)
    | Step(id: nat, size: nat)          // the next system call of the call succeeds
    | Fail(id: nat)                     // it returns an I/O error
    | Crash(id: nat)                    // the process dies in front of it
    | PowerLoss(kept: map<Path, nat>)   // every process dies, unsynced files lose a tail

  function Initial(files: Files): State {
    State(files, files.Keys, map[], map[])
  }

  function StartPc(task: Task): Pc {
    match task
    case Trust(_) => Probe
    case Lookup => Opening
    case Export(_) => Write(Creating)
  }

  /** The end of a read: parse, and for `trust` compare. */
  function Conclude(s: LawfulSuite, task: Task, buffer: Bytes): Result<PublicProfile> {
    if |buffer| > 512 then Invalid(FileTooLarge)
    else
      var pinned :- Parse(s, buffer);
      if task.Trust? && task.profile != pinned then Err(IdentityMismatch) else Ok(pinned)
  }

  function Moved(st: State, id: nat, pc: Pc): State
    requires id in st.calls
  {
    st.(calls := st.calls[id := st.calls[id].(pc := pc)])
  }

  /** The next successful system call of call `id`. */
  function Advance(s: LawfulSuite, st: State, id: nat, size: nat): State
    requires id in st.calls
  {
    var call := st.calls[id];
    var path := call.path;
    match call.pc
    case Probe => Moved(st, id, if path in st.files then Opening else Write(Creating))
    case Opening =>
      Moved(st, id, if path !in st.files then Done(Err(Io(Missing)))
                    else if |st.files[path]| > 512 then Done(Invalid(FileTooLarge))
                    else Reading([]))
    case Reading(buffer) =>
      if path !in st.files then Moved(st, id, Done(Err(Io(Other))))
      else
        var limit := Min(|st.files[path]|, 513);
        if |buffer| < limit then
          var next := Min(|buffer| + Max(size, 1), limit);
          Moved(st, id, Reading(buffer + st.files[path][|buffer|..next]))
        else Moved(st, id, Done(Conclude(s, call.task, buffer)))
    case Write(phase) =>
      if call.task.Lookup? then st
      else
        var profile := call.task.profile;
        var step := WriteStep(st.files, path, Encode(profile), phase, size);
        if step.Refused? then Moved(st, id, Done(Err(Io(AlreadyExists))))
        else
          Moved(st, id, if step.phase.Complete? then Done(Ok(profile)) else Write(step.phase)).(
            files := step.files,
            synced := if phase.Syncing? then st.synced + {path} else st.synced,
            origins := if phase.Creating? then st.origins[path := Origin(id, profile)] else st.origins)
    case Done(_) => st
    case Dead => st
  }

  /** An error ends the call, but an existence test that fails counts as "absent". */
  function AfterFailure(pc: Pc): Pc {
    if pc.Probe? then Write(Creating) else Done(Err(Io(Other)))
  }

  function AfterPowerLoss(st: State, kept: map<Path, nat>): State {
    st.(files := AfterLoss(st.files, st.synced, kept),
        calls := map id | id in st.calls ::
          if st.calls[id].pc.Done? then st.calls[id] else st.calls[id].(pc := Dead))
  }

  /** Events that are not enabled change nothing, so every sequence of events is a run. */
  function Apply(s: LawfulSuite, st: State, event: Event): State {
    match event
    case Start(id, path, task) =>
      if id in st.calls || (!task.Lookup? && !WellFormed(s, task.profile)) then st
      else st.(calls := st.calls[id := Call(path, task, StartPc(task))])
    case Step(id, size) => if id in st.calls then Advance(s, st, id, size) else st
    case Fail(id) =>
      if id in st.calls && !st.calls[id].pc.Done? && !st.calls[id].pc.Dead?
      then Moved(st, id, AfterFailure(st.calls[id].pc)) else st
    case Crash(id) => if id in st.calls && !st.calls[id].pc.Done? then Moved(st, id, Dead) else st
    case PowerLoss(kept) => AfterPowerLoss(st, kept)
  }

  function Run(s: LawfulSuite, st: State, events: seq<Event>): State
    decreases |events|
  {
    if events == [] then st else Run(s, Apply(s, st, events[0]), events[1..])
  }

  // ---------------------------------------------------------------- invariant

  /** A file that was there from the start is untouched; any other file holds a prefix of the encoding of
      the one profile its creator wrote, and all of it once synced. */
  ghost predicate FilesInv(s: LawfulSuite, initial: Files, st: State) {
    FilesShape(initial, st) && forall p :: p in st.origins ==> OriginInv(s, st, p)
  }

  ghost predicate FilesShape(initial: Files, st: State) {
    && st.files.Keys == initial.Keys + st.origins.Keys
    && initial.Keys <= st.synced <= st.files.Keys
    && initial.Keys !! st.origins.Keys
    && (forall p :: p in initial ==> st.files[p] == initial[p])
  }

  ghost predicate OriginInv(s: LawfulSuite, st: State, p: Path)
    requires p in st.origins && p in st.files
  {
    && WellFormed(s, st.origins[p].profile) && st.origins[p].writer in st.calls
    && st.files[p] <= Encode(st.origins[p].profile)
    && (p in st.synced ==> st.files[p] == Encode(st.origins[p].profile))
  }

  /** `profile` is what the file at `path` stands for. */
  ghost predicate StandsFor(s: LawfulSuite, initial: Files, st: State, path: Path, profile: PublicProfile) {
    if path in st.origins then st.origins[path].profile == profile
    else path in initial && Parse(s, initial[path]) == Ok(profile)
  }

  ghost predicate CallInv(s: LawfulSuite, initial: Files, st: State, id: nat, call: Call) {
    && (!call.task.Lookup? ==> WellFormed(s, call.task.profile))
    && match call.pc
       case Probe => call.task.Trust? && !Wrote(st, id, call.path)
       case Opening => !Wrote(st, id, call.path)
       case Reading(buffer) => !Wrote(st, id, call.path) && HasRead(st, call.path, buffer)
       case Write(phase) =>
         && !call.task.Lookup? && !phase.Complete?
         && (phase.Creating? ==> !Wrote(st, id, call.path))
         && (!phase.Creating? ==>
               && call.path in st.origins && st.origins[call.path] == Origin(id, call.task.profile)
               && HoldsUpTo(st.files, call.path, Encode(call.task.profile), phase)
               && (phase.Restricting? ==> call.path in st.synced))
       case Done(result) =>
         result.Ok? ==>
           && StandsFor(s, initial, st, call.path, result.value)
           && (Wrote(st, id, call.path) ==> call.path in st.synced)
       case Dead => true
  }

  /** Call `id` created the file at `path`. */
  ghost predicate Wrote(st: State, id: nat, path: Path) {
    path in st.origins && st.origins[path].writer == id
  }

  ghost predicate HasRead(st: State, path: Path, buffer: Bytes) {
    path in st.files && buffer <= st.files[path]
  }

  ghost predicate Inv(s: LawfulSuite, initial: Files, st: State) {
    && FilesInv(s, initial, st)
    && forall id :: id in st.calls ==> CallInv(s, initial, st, id, st.calls[id])
  }

  /** What a step of call `id` may do to the files of others: nothing, and to its own only append. */
  ghost predicate Extends(st: State, next: State, id: nat) {
    && st.synced <= next.synced && st.calls.Keys <= next.calls.Keys
    && (forall p :: p in st.files ==> p in next.files && st.files[p] <= next.files[p])
    && (forall p :: p in st.origins ==> p in next.origins && next.origins[p] == st.origins[p])
    && (forall p :: p in st.files && !Wrote(st, id, p) ==> next.files[p] == st.files[p])
    && (forall p :: p in next.origins && p !in st.origins ==> p !in st.files && next.origins[p].writer == id)
  }

  lemma OthersKept(s: LawfulSuite, initial: Files, st: State, next: State, id: nat, other: nat, call: Call)
    requires FilesInv(s, initial, st) && Extends(st, next, id) && other != id
    requires CallInv(s, initial, st, other, call)
    ensures CallInv(s, initial, next, other, call)
  {
    hide Encode, Parse;
  }

  lemma AdvanceKeepsInv(s: LawfulSuite, initial: Files, st: State, id: nat, size: nat)
    requires Inv(s, initial, st) && id in st.calls
    ensures Inv(s, initial, Advance(s, st, id, size))
  {
    hide Encode, Parse, Advance, Extends, CallInv, FilesInv;
    var next := Advance(s, st, id, size);
    OtherCallsKept(s, st, id, size);
    OwnStepKept(s, initial, st, id, size);
    forall other | other in next.calls
      ensures CallInv(s, initial, next, other, next.calls[other])
    {
      if other != id {
        assert next.calls[other] == st.calls[other];
        OthersKept(s, initial, st, next, id, other, st.calls[other]);
      }
    }
  }

  lemma OtherCallsKept(s: LawfulSuite, st: State, id: nat, size: nat)
    requires id in st.calls
    ensures var next := Advance(s, st, id, size);
            next.calls.Keys == st.calls.Keys && forall o :: o in st.calls && o != id ==> next.calls[o] == st.calls[o]
  {
    hide Encode, Conclude, WriteStep;
  }

  lemma OwnStepKept(s: LawfulSuite, initial: Files, st: State, id: nat, size: nat)
    requires Inv(s, initial, st) && id in st.calls
    ensures var next := Advance(s, st, id, size);
            && FilesInv(s, initial, next) && Extends(st, next, id) && CallInv(s, initial, next, id, next.calls[id])
  {
    hide Advance, Inv, FilesInv, Extends, CallInv;
    if st.calls[id].pc.Write? {
      OwnWriteKept(s, initial, st, id, size);
    } else {
      QuietStep(s, initial, st, id, size);
    }
  }

  lemma OwnWriteKept(s: LawfulSuite, initial: Files, st: State, id: nat, size: nat)
    requires Inv(s, initial, st) && id in st.calls && st.calls[id].pc.Write?
    ensures var next := Advance(s, st, id, size);
            && FilesInv(s, initial, next) && Extends(st, next, id) && CallInv(s, initial, next, id, next.calls[id])
  {
    hide Advance, OriginInv, WriteDelta, Extends, CallInv;
    var next, path := Advance(s, st, id, size), st.calls[id].path;
    assert CallInv(s, initial, st, id, st.calls[id]);
    assert st.origins.Keys <= st.files.Keys;
    hide FilesShape;
    WriteEffect(s, initial, st, id, size);
    WriteKeepsOrigin(s, initial, st, id, size);
    DeltaKeepsShape(initial, st, next, path, id);
    DeltaKeepsFiles(s, initial, st, next, path, id);
    WriteKeepsOwn(s, initial, st, id, size);
  }

  /** Changing a program counter leaves the files as they are. */
  lemma MovedKeepsFiles(s: LawfulSuite, initial: Files, st: State, id: nat, pc: Pc)
    requires FilesInv(s, initial, st) && id in st.calls
    ensures FilesInv(s, initial, Moved(st, id, pc)) && Extends(st, Moved(st, id, pc), id)
  {
    hide Encode, Parse;
    forall p | p in st.origins
      ensures OriginInv(s, Moved(st, id, pc), p)
    {
      OriginKept(s, st, Moved(st, id, pc), p);
    }
  }

  /** Outside of writes, a step changes nothing but the program counter of its call. */
  lemma QuietMoves(s: LawfulSuite, st: State, id: nat, size: nat)
    requires id in st.calls && !st.calls[id].pc.Write?
    ensures var next := Advance(s, st, id, size); id in next.calls && next == Moved(st, id, next.calls[id].pc)
  {
    hide Conclude;
    var call := st.calls[id];
    assert st == Moved(st, id, call.pc);
  }

  lemma QuietKeepsOwn(s: LawfulSuite, initial: Files, st: State, id: nat, size: nat)
    requires id in st.calls && CallInv(s, initial, st, id, st.calls[id])
    requires !st.calls[id].pc.Write? && !st.calls[id].pc.Reading?
    ensures var next := Advance(s, st, id, size); CallInv(s, initial, next, id, next.calls[id])
  {
    hide Encode, Parse, WellFormed;
  }

  lemma QuietStep(s: LawfulSuite, initial: Files, st: State, id: nat, size: nat)
    requires Inv(s, initial, st) && id in st.calls && !st.calls[id].pc.Write?
    ensures var next := Advance(s, st, id, size);
            && FilesInv(s, initial, next) && Extends(st, next, id) && CallInv(s, initial, next, id, next.calls[id])
  {
    hide Advance, Moved, FilesInv, CallInv, Extends;
    QuietMoves(s, st, id, size);
    MovedKeepsFiles(s, initial, st, id, Advance(s, st, id, size).calls[id].pc);
    assert CallInv(s, initial, st, id, st.calls[id]);
    if st.calls[id].pc.Reading? {
      ReadKeepsInv(s, initial, st, id, size);
    } else {
      QuietKeepsOwn(s, initial, st, id, size);
    }
  }

  lemma ReadKeepsInv(s: LawfulSuite, initial: Files, st: State, id: nat, size: nat)
    requires Inv(s, initial, st) && id in st.calls && st.calls[id].pc.Reading?
    ensures var next := Advance(s, st, id, size);
            CallInv(s, initial, next, id, next.calls[id])
  {
    hide Encode, Parse, WellFormed;
    var call := st.calls[id];
    assert CallInv(s, initial, st, id, call);
    var buffer, file := call.pc.buffer, st.files[call.path];
    var limit := Min(|file|, 513);
    if |buffer| < limit {
      hide FilesInv, Conclude, StandsFor;
      var upTo := Min(|buffer| + Max(size, 1), limit);
      assert file[..|buffer|] + file[|buffer|..upTo] == file[..upTo];
    } else {
      ReadEndStandsFor(s, initial, st, call, buffer);
      hide FilesInv, Conclude, StandsFor;
      assert Advance(s, st, id, size) == Moved(st, id, Done(Conclude(s, call.task, buffer)));
    }
  }

  /** A read that comes to its end has seen the whole file, or too much to be a profile. */
  lemma ReadEndStandsFor(s: LawfulSuite, initial: Files, st: State, call: Call, buffer: Bytes)
    requires FilesInv(s, initial, st) && HasRead(st, call.path, buffer)
    requires |buffer| >= Min(|st.files[call.path]|, 513)
    ensures var verdict := Conclude(s, call.task, buffer);
            verdict.Ok? ==> StandsFor(s, initial, st, call.path, verdict.value)
  {
    hide Encode, Parse;
    var verdict := Conclude(s, call.task, buffer);
    if verdict.Ok? {
      assert buffer == st.files[call.path];
      ReadStandsFor(s, initial, st, call.path, verdict.value);
    }
  }

  /** A file that parses is complete: it parses to what it stands for. */
  lemma ReadStandsFor(s: LawfulSuite, initial: Files, st: State, path: Path, profile: PublicProfile)
    requires FilesInv(s, initial, st) && path in st.files && Parse(s, st.files[path]) == Ok(profile)
    ensures StandsFor(s, initial, st, path, profile)
    ensures path in st.origins ==> st.files[path] == Encode(profile)
  {
    hide Parse;
    if path in st.origins {
      var origin := st.origins[path].profile;
      assert OriginInv(s, st, path);
      ParseExact(s, st.files[path], profile);
      assert |st.files[path]| == |Encode(origin)|;
      EncodeInjective(s, profile, origin);
    }
  }

  /** The creator's own file stays a prefix of its encoding, and is complete once it is synced. */
  lemma WriteKeepsOrigin(s: LawfulSuite, initial: Files, st: State, id: nat, size: nat)
    requires Inv(s, initial, st) && id in st.calls && st.calls[id].pc.Write?
    ensures var next, path := Advance(s, st, id, size), st.calls[id].path;
            path in next.origins ==> path in next.files && OriginInv(s, next, path)
  {
    hide Encode, Parse;
    var call := st.calls[id];
    assert CallInv(s, initial, st, id, call);
    assert call.path in st.origins ==> OriginInv(s, st, call.path);
    var content := Encode(call.task.profile);
    var step := WriteStep(st.files, call.path, content, call.pc.phase, size);
    if step.Stepped? {
      WriteStepKeeps(st.files, call.path, content, call.pc.phase, size);
      if call.pc.phase.Writing? {
        assert |content[..call.pc.phase.done]| == call.pc.phase.done;
      }
    }
  }

  /** All that a step of `write_new_private` does to files, synced files and origins. */
  ghost predicate WriteDelta(st: State, next: State, path: Path, id: nat) {
    && next.calls.Keys == st.calls.Keys
    && next.files.Keys == st.files.Keys + (next.origins.Keys - st.origins.Keys)
    && (forall p :: p in st.files && p != path ==> next.files[p] == st.files[p])
    && (path in st.files ==> st.files[path] <= next.files[path])
    && (path in st.files && !Wrote(st, id, path) ==> next.files[path] == st.files[path])
    && st.synced <= next.synced <= st.synced + (st.files.Keys * {path})
    && (next.origins == st.origins
        || (path !in st.files && path in next.origins && next.origins[path].writer == id
            && next.origins == st.origins[path := next.origins[path]]))
  }

  lemma WriteEffect(s: LawfulSuite, initial: Files, st: State, id: nat, size: nat)
    requires id in st.calls && st.calls[id].pc.Write? && CallInv(s, initial, st, id, st.calls[id])
    requires st.origins.Keys <= st.files.Keys
    ensures WriteDelta(st, Advance(s, st, id, size), st.calls[id].path, id)
  {
    hide Encode, Parse;
    var call := st.calls[id];
    var content := Encode(call.task.profile);
    var step := WriteStep(st.files, call.path, content, call.pc.phase, size);
    if step.Stepped? {
      WriteStepKeeps(st.files, call.path, content, call.pc.phase, size);
    }
  }

  lemma DeltaKeepsShape(initial: Files, st: State, next: State, path: Path, id: nat)
    requires FilesShape(initial, st) && WriteDelta(st, next, path, id)
    ensures FilesShape(initial, next) && Extends(st, next, id)
  {
    hide Encode;
    DeltaExtends(initial, st, next, path, id);
    assert next.files.Keys == initial.Keys + next.origins.Keys;
    forall p | p in initial
      ensures next.files[p] == initial[p]
    {
      assert p in st.files && !Wrote(st, id, p);
    }
  }

  lemma DeltaExtends(initial: Files, st: State, next: State, path: Path, id: nat)
    requires FilesShape(initial, st) && WriteDelta(st, next, path, id)
    ensures Extends(st, next, id)
  {
    hide Encode;
    assert forall p :: p in next.origins && p !in st.origins ==> p == path;
  }

  lemma OriginKept(s: LawfulSuite, st: State, next: State, p: Path)
    requires p in st.origins && p in st.files && OriginInv(s, st, p)
    requires p in next.origins && p in next.files && next.origins[p] == st.origins[p] && next.files[p] == st.files[p]
    requires st.calls.Keys <= next.calls.Keys && (p in next.synced ==> p in st.synced)
    ensures OriginInv(s, next, p)
  {
    hide Encode;
  }

  lemma DeltaKeepsFiles(s: LawfulSuite, initial: Files, st: State, next: State, path: Path, id: nat)
    requires FilesInv(s, initial, st) && WriteDelta(st, next, path, id)
    requires FilesShape(initial, next)
    requires path in next.origins ==> OriginInv(s, next, path)
    ensures FilesInv(s, initial, next)
  {
    hide Encode;
    forall p | p in next.origins && p != path
      ensures OriginInv(s, next, p)
    {
      OriginKept(s, st, next, p);
    }
  }

  lemma WriteKeepsOwn(s: LawfulSuite, initial: Files, st: State, id: nat, size: nat)
    requires Inv(s, initial, st) && id in st.calls && st.calls[id].pc.Write?
    ensures var next := Advance(s, st, id, size); CallInv(s, initial, next, id, next.calls[id])
  {
    hide Encode, Parse, WellFormed, HoldsUpTo;
    var call := st.calls[id];
    assert CallInv(s, initial, st, id, call);
    var content := Encode(call.task.profile);
    var step := WriteStep(st.files, call.path, content, call.pc.phase, size);
    if step.Stepped? {
      WriteStepKeeps(st.files, call.path, content, call.pc.phase, size);
    }
  }

  // ---------------------------------------------------------------- every run

  lemma MoveKeepsInv(s: LawfulSuite, initial: Files, st: State, id: nat, pc: Pc)
    requires Inv(s, initial, st) && id in st.calls
    requires pc == Dead || pc == AfterFailure(st.calls[id].pc)
    ensures Inv(s, initial, Moved(st, id, pc))
  {
    hide Encode, Parse;
    var next := Moved(st, id, pc);
    MovedKeepsFiles(s, initial, st, id, pc);
    assert CallInv(s, initial, st, id, st.calls[id]);
    forall other | other in next.calls && other != id
      ensures CallInv(s, initial, next, other, next.calls[other])
    {
      OthersKept(s, initial, st, next, id, other, st.calls[other]);
    }
  }

  lemma StartKeepsFiles(s: LawfulSuite, initial: Files, st: State, id: nat, call: Call)
    requires FilesInv(s, initial, st) && id !in st.calls
    ensures var next := st.(calls := st.calls[id := call]);
            FilesInv(s, initial, next) && Extends(st, next, id) && !Wrote(next, id, call.path)
  {
    hide Encode, Parse, WellFormed;
    var next := st.(calls := st.calls[id := call]);
    forall p | p in st.origins
      ensures OriginInv(s, next, p) && !Wrote(st, id, p)
    {
      assert OriginInv(s, st, p);
      OriginKept(s, st, next, p);
    }
  }

  lemma StartKeepsInv(s: LawfulSuite, initial: Files, st: State, id: nat, path: Path, task: Task)
    requires Inv(s, initial, st) && id !in st.calls && (!task.Lookup? ==> WellFormed(s, task.profile))
    ensures Inv(s, initial, Apply(s, st, Start(id, path, task)))
  {
    hide Encode, Parse, FilesInv, Extends;
    var call := Call(path, task, StartPc(task));
    var next := st.(calls := st.calls[id := call]);
    StartKeepsFiles(s, initial, st, id, call);
    assert CallInv(s, initial, next, id, call);
    hide CallInv;
    forall other | other in st.calls
      ensures CallInv(s, initial, next, other, next.calls[other])
    {
      OthersKept(s, initial, st, next, id, other, st.calls[other]);
    }
  }

  lemma PowerLossKeepsFiles(s: LawfulSuite, initial: Files, st: State, kept: map<Path, nat>)
    requires FilesInv(s, initial, st)
    ensures FilesInv(s, initial, AfterPowerLoss(st, kept))
  {
    hide Encode, Parse;
    hide AfterLoss;
    var next := AfterPowerLoss(st, kept);
    LossKeepsPrefixes(st.files, st.synced, kept);
    assert next.calls.Keys == st.calls.Keys;
    forall p | p in st.origins
      ensures OriginInv(s, next, p)
    {
      assert OriginInv(s, st, p);
    }
  }

  lemma PowerLossKeepsInv(s: LawfulSuite, initial: Files, st: State, kept: map<Path, nat>)
    requires Inv(s, initial, st)
    ensures Inv(s, initial, AfterPowerLoss(st, kept))
  {
    hide Encode, Parse;
    var next := AfterPowerLoss(st, kept);
    PowerLossKeepsFiles(s, initial, st, kept);
    forall id | id in next.calls
      ensures CallInv(s, initial, next, id, next.calls[id])
    {
      assert CallInv(s, initial, st, id, st.calls[id]);
    }
  }

  lemma ApplyKeepsInv(s: LawfulSuite, initial: Files, st: State, event: Event)
    requires Inv(s, initial, st)
    ensures Inv(s, initial, Apply(s, st, event))
  {
    hide Encode, Parse;
    match event
    case Start(id, path, task) =>
      if id !in st.calls && (task.Lookup? || WellFormed(s, task.profile)) {
        StartKeepsInv(s, initial, st, id, path, task);
      }
    case Step(id, size) =>
      if id in st.calls {
        AdvanceKeepsInv(s, initial, st, id, size);
      }
    case Fail(id) =>
      if id in st.calls {
        MoveKeepsInv(s, initial, st, id, AfterFailure(st.calls[id].pc));
      }
    case Crash(id) =>
      if id in st.calls {
        MoveKeepsInv(s, initial, st, id, Dead);
      }
    case PowerLoss(kept) => PowerLossKeepsInv(s, initial, st, kept);
  }

  lemma {:induction false} RunKeepsInv(s: LawfulSuite, initial: Files, st: State, events: seq<Event>)
    requires Inv(s, initial, st)
    ensures Inv(s, initial, Run(s, st, events))
    decreases |events|
  {
    if events != [] {
      ApplyKeepsInv(s, initial, st, events[0]);
      RunKeepsInv(s, initial, Apply(s, st, events[0]), events[1..]);
    }
  }

  lemma {:induction false} RunConcat(s: LawfulSuite, st: State, first: seq<Event>, second: seq<Event>)
    ensures Run(s, st, first + second) == Run(s, Run(s, st, first), second)
    decreases |first|
  {
    if first == [] {
      assert first + second == second;
    } else {
      assert (first + second)[1..] == first[1..] + second;
      RunConcat(s, Apply(s, st, first[0]), first[1..], second);
    }
  }

  /** A call that answers Ok to a `trust` or an export answers the profile that it was asked about, and an export
      never reads. */
  ghost predicate AnswersOwn(call: Call) {
    !call.task.Lookup? ==>
      && (call.task.Export? ==> !call.pc.Probe? && !call.pc.Opening? && !call.pc.Reading?)
      && (call.pc.Done? && call.pc.result.Ok? ==> call.pc.result.value == call.task.profile)
  }

  ghost predicate AllAnswerOwn(st: State) {
    forall id :: id in st.calls ==> AnswersOwn(st.calls[id])
  }

  lemma AdvanceAnswersOwn(s: LawfulSuite, st: State, id: nat, size: nat)
    requires id in st.calls && AnswersOwn(st.calls[id])
    ensures AnswersOwn(Advance(s, st, id, size).calls[id])
  {
    hide Encode, Parse, WriteStep;
  }

  lemma ApplyAnswersOwn(s: LawfulSuite, st: State, event: Event)
    requires AllAnswerOwn(st)
    ensures AllAnswerOwn(Apply(s, st, event))
  {
    hide Advance, WellFormed, AfterLoss;
    if event.Step? && event.id in st.calls {
      AdvanceAnswersOwn(s, st, event.id, event.size);
      OtherCallsKept(s, st, event.id, event.size);
    }
  }

  lemma {:induction false} RunAnswersOwn(s: LawfulSuite, st: State, events: seq<Event>)
    requires AllAnswerOwn(st)
    ensures AllAnswerOwn(Run(s, st, events))
    decreases |events|
  {
    hide Apply, AnswersOwn;
    if events != [] {
      ApplyAnswersOwn(s, st, events[0]);
      RunAnswersOwn(s, Apply(s, st, events[0]), events[1..]);
    }
  }

  /** In every run from any files, a `trust` that is confirmed has pinned the very profile it was given. */
  lemma TrustAnswersItsProfile(s: LawfulSuite, initial: Files, events: seq<Event>, i: nat)
    requires var st := Run(s, Initial(initial), events);
             i in st.calls && !st.calls[i].task.Lookup? && st.calls[i].pc.Done? && st.calls[i].pc.result.Ok?
    ensures var st := Run(s, Initial(initial), events);
            st.calls[i].pc.result == Ok(st.calls[i].task.profile)
  {
    hide Run;
    RunAnswersOwn(s, Initial(initial), events);
    assert AnswersOwn(Run(s, Initial(initial), events).calls[i]);
  }

  /** In every run from any files: all calls about one path that ended in Ok carry the same profile, and it is the
      one that each of them was asked to pin. */
  lemma PinsNeverDisagree(s: LawfulSuite, initial: Files, events: seq<Event>, i: nat, j: nat)
    requires var st := Run(s, Initial(initial), events);
             && i in st.calls && j in st.calls && st.calls[i].path == st.calls[j].path
             && st.calls[i].pc.Done? && st.calls[j].pc.Done?
             && st.calls[i].pc.result.Ok? && st.calls[j].pc.result.Ok?
    ensures var st := Run(s, Initial(initial), events);
            && st.calls[i].pc.result == st.calls[j].pc.result
            && (!st.calls[i].task.Lookup? ==> st.calls[j].pc.result == Ok(st.calls[i].task.profile))
  {
    hide Parse, Run;
    RunKeepsInv(s, initial, Initial(initial), events);
    var st := Run(s, Initial(initial), events);
    assert CallInv(s, initial, st, i, st.calls[i]) && CallInv(s, initial, st, j, st.calls[j]);
    if !st.calls[i].task.Lookup? {
      TrustAnswersItsProfile(s, initial, events, i);
    }
  }

  /** Whatever a file holds at any moment of any run, it parses to nothing but the profile that calls about
      it have answered or will ever answer. */
  lemma ReadersSeeTheWinner(s: LawfulSuite, initial: Files, events: seq<Event>, later: seq<Event>,
                            path: Path, profile: PublicProfile, i: nat)
    requires var now := Run(s, Initial(initial), events);
             path in now.files && Parse(s, now.files[path]) == Ok(profile)
    requires var st := Run(s, Initial(initial), events + later);
             && i in st.calls && st.calls[i].path == path
             && st.calls[i].pc.Done? && st.calls[i].pc.result.Ok?
    ensures Run(s, Initial(initial), events + later).calls[i].pc.result == Ok(profile)
  {
    hide Parse, Run;
    var now := Run(s, Initial(initial), events);
    var st := Run(s, Initial(initial), events + later);
    RunKeepsInv(s, initial, Initial(initial), events);
    RunConcat(s, Initial(initial), events, later);
    RunKeepsInv(s, initial, now, later);
    RunKeepsOrigins(s, now, later);
    ReadStandsFor(s, initial, now, path, profile);
    assert CallInv(s, initial, st, i, st.calls[i]);
  }

  lemma {:induction false} RunKeepsOrigins(s: LawfulSuite, st: State, events: seq<Event>)
    requires st.origins.Keys <= st.files.Keys
    ensures OriginsGrow(st, Run(s, st, events))
    decreases |events|
  {
    hide Apply;
    if events != [] {
      ApplyKeepsOrigins(s, st, events[0]);
      RunKeepsOrigins(s, Apply(s, st, events[0]), events[1..]);
    }
  }

  /** Origins are only ever added, and only with a new file. */
  ghost predicate OriginsGrow(st: State, after: State) {
    && st.files.Keys <= after.files.Keys && st.synced <= after.synced
    && (forall p :: p in st.origins ==> p in after.origins && after.origins[p] == st.origins[p])
    && (forall p :: p in st.files && p !in st.origins ==> p !in after.origins)
    && after.origins.Keys <= after.files.Keys
  }

  lemma AdvanceKeepsOrigins(s: LawfulSuite, st: State, id: nat, size: nat)
    requires st.origins.Keys <= st.files.Keys && id in st.calls
    ensures OriginsGrow(st, Advance(s, st, id, size))
  {
    hide Encode, Conclude;
  }

  lemma ApplyKeepsOrigins(s: LawfulSuite, st: State, event: Event)
    requires st.origins.Keys <= st.files.Keys
    ensures OriginsGrow(st, Apply(s, st, event))
  {
    hide Advance, WellFormed, AfterLoss;
    match event
    case Step(id, size) =>
      if id in st.calls {
        AdvanceKeepsOrigins(s, st, id, size);
      }
    case PowerLoss(kept) => LossKeepsPrefixes(st.files, st.synced, kept);
    case _ =>
  }

  /** Whoever is recorded as the creator of a file is a `trust` or an export of that path and profile. */
  ghost predicate Authored(st: State) {
    forall p :: p in st.origins ==> Creates(st, st.origins[p].writer, p, st.origins[p].profile)
  }

  /** Call `id` set out to write `profile` to `path`. */
  ghost predicate Creates(st: State, id: nat, path: Path, profile: PublicProfile) {
    id in st.calls && st.calls[id].path == path && !st.calls[id].task.Lookup? && st.calls[id].task.profile == profile
  }

  lemma AdvanceKeepsAuthors(s: LawfulSuite, st: State, id: nat, size: nat)
    requires Authored(st) && id in st.calls
    ensures Authored(Advance(s, st, id, size))
  {
    hide Encode, Conclude, WriteStep;
  }

  lemma ApplyKeepsAuthors(s: LawfulSuite, st: State, event: Event)
    requires Authored(st)
    ensures Authored(Apply(s, st, event))
  {
    hide Advance, WellFormed, AfterLoss;
    if event.Step? && event.id in st.calls {
      AdvanceKeepsAuthors(s, st, event.id, event.size);
    }
  }

  lemma {:induction false} RunKeepsAuthors(s: LawfulSuite, st: State, events: seq<Event>)
    requires Authored(st)
    ensures Authored(Run(s, st, events))
    decreases |events|
  {
    hide Apply;
    if events != [] {
      ApplyKeepsAuthors(s, st, events[0]);
      RunKeepsAuthors(s, Apply(s, st, events[0]), events[1..]);
    }
  }

  /** Every answer is an error or the winner's profile, even when the winner never returned. A call about a
      path that ended in Ok answers what was there from the start, and otherwise the profile of the one
      call that created the file, whether that call is still at work, has failed, or has died. */
  lemma AnswersAreTheCreators(s: LawfulSuite, initial: Files, events: seq<Event>, i: nat)
    requires var st := Run(s, Initial(initial), events);
             i in st.calls && st.calls[i].pc.Done? && st.calls[i].pc.result.Ok?
    ensures var st := Run(s, Initial(initial), events);
            var path, answer := st.calls[i].path, st.calls[i].pc.result.value;
            && (!st.calls[i].task.Lookup? ==> answer == st.calls[i].task.profile)
            && if path in initial then Parse(s, initial[path]) == Ok(answer)
               else path in st.origins && Creates(st, st.origins[path].writer, path, answer)
  {
    hide Parse, Run;
    if !Run(s, Initial(initial), events).calls[i].task.Lookup? {
      TrustAnswersItsProfile(s, initial, events, i);
    }
    var st := Run(s, Initial(initial), events);
    RunKeepsInv(s, initial, Initial(initial), events);
    RunKeepsAuthors(s, Initial(initial), events);
    assert CallInv(s, initial, st, i, st.calls[i]);
  }

  /** The same for the files themselves, at every moment of every run and after every crash or power loss: a
      contact is not there, does not read, or is exactly the profile of the call that created its file. */
  lemma ReadersSeeTheCreator(s: LawfulSuite, initial: Files, events: seq<Event>, st: StatePaths, alias: Bytes,
                             dirs: set<Path>)
    requires st.ContactPath(alias) !in initial
    ensures var now := Run(s, Initial(initial), events);
            var path := st.ContactPath(alias);
            var read := ContactOf(s, Fs(now.files, dirs), st, alias);
            && (path !in now.files && path !in dirs && ValidateAlias(alias) ==> read == Err(NotPinned))
            && (read.Ok? ==> path in now.origins
                             && Creates(now, now.origins[path].writer, path, read.value.profile)
                             && now.files[path] == Encode(read.value.profile))
  {
    hide Parse, Run, Encode;
    var now := Run(s, Initial(initial), events);
    var path := st.ContactPath(alias);
    RunKeepsInv(s, initial, Initial(initial), events);
    RunKeepsAuthors(s, Initial(initial), events);
    var read := ContactOf(s, Fs(now.files, dirs), st, alias);
    if read.Ok? {
      ReadStandsFor(s, initial, now, path, read.value.profile);
    }
  }

  /** Once a `trust` or export that created the file has returned Ok, the file holds the whole profile and
      the contact looks up to it, through every later event, power loss included. */
  lemma WinnerIsDurable(s: LawfulSuite, initial: Files, events: seq<Event>, later: seq<Event>, i: nat,
                        st: StatePaths, alias: Bytes, dirs: set<Path>)
    requires var now := Run(s, Initial(initial), events);
             && i in now.calls && now.calls[i].path == st.ContactPath(alias)
             && now.calls[i].pc.Done? && now.calls[i].pc.result.Ok? && Wrote(now, i, st.ContactPath(alias))
    requires ValidateAlias(alias) && st.ContactPath(alias) !in dirs
    ensures var profile := Run(s, Initial(initial), events).calls[i].pc.result.value;
            var files := Run(s, Initial(initial), events + later).files;
            && st.ContactPath(alias) in files && files[st.ContactPath(alias)] == Encode(profile)
            && ContactOf(s, Fs(files, dirs), st, alias) == Ok(Contact(alias, profile))
  {
    hide Encode, Parse, Run;
    var path := st.ContactPath(alias);
    var now := Run(s, Initial(initial), events);
    var after := Run(s, Initial(initial), events + later);
    RunKeepsInv(s, initial, Initial(initial), events);
    assert CallInv(s, initial, now, i, now.calls[i]);
    RunConcat(s, Initial(initial), events, later);
    RunKeepsInv(s, initial, now, later);
    RunKeepsOrigins(s, now, later);
    assert OriginInv(s, after, path);
    ParseExact(s, after.files[path], now.calls[i].pc.result.value);
  }

  /** The state right after an undisturbed `trust` has created its file. */
  function SoloCreated(initial: Files, id: nat, path: Path, profile: PublicProfile): State {
    State(initial[path := []], initial.Keys, map[path := Origin(id, profile)],
          map[id := Call(path, Trust(profile), Write(Writing(0)))])
  }

  /** Whether or not the existence test fails, a fresh path gets created. */
  lemma SoloBegin(s: LawfulSuite, initial: Files, id: nat, path: Path, profile: PublicProfile, probe: Event)
    requires path !in initial && WellFormed(s, profile) && (probe == Step(id, 0) || probe == Fail(id))
    ensures Run(s, Initial(initial), [Start(id, path, Trust(profile)), probe, Step(id, 0)])
         == SoloCreated(initial, id, path, profile)
  {
    hide Encode, Conclude, WellFormed;
    var s1 := State(initial, initial.Keys, map[], map[id := Call(path, Trust(profile), Probe)]);
    var s2 := State(initial, initial.Keys, map[], map[id := Call(path, Trust(profile), Write(Creating))]);
    assert Apply(s, Initial(initial), Start(id, path, Trust(profile))) == s1;
    assert Apply(s, s1, probe) == s2;
    assert Apply(s, s2, Step(id, 0)) == SoloCreated(initial, id, path, profile);
    RunCons(s, s2, Step(id, 0), []);
    RunCons(s, s1, probe, [Step(id, 0)]);
    RunCons(s, Initial(initial), Start(id, path, Trust(profile)), [probe, Step(id, 0)]);
  }

  /** The state when the file is complete but not yet synced. */
  function SoloFilled(files: Files, synced: set<Path>, id: nat, path: Path, profile: PublicProfile, pc: Pc): State {
    State(files, synced, map[path := Origin(id, profile)], map[id := Call(path, Trust(profile), pc)])
  }

  lemma SoloFill(s: LawfulSuite, initial: Files, id: nat, path: Path, profile: PublicProfile)
    requires path !in initial
    ensures Apply(s, SoloCreated(initial, id, path, profile), Step(id, 240))
         == SoloFilled(initial[path := Encode(profile)], initial.Keys, id, path, profile, Write(Writing(240)))
  {
    assert [] + Encode(profile)[0..240] == Encode(profile);
  }

  lemma SoloClose(s: LawfulSuite, files: Files, synced: set<Path>, id: nat, path: Path, profile: PublicProfile)
    requires path in files
    ensures Run(s, SoloFilled(files, synced, id, path, profile, Write(Writing(240))),
                [Step(id, 0), Step(id, 0), Step(id, 0)])
         == SoloFilled(files, synced + {path}, id, path, profile, Done(Ok(profile)))
  {
    var s4 := SoloFilled(files, synced, id, path, profile, Write(Writing(240)));
    var s5 := SoloFilled(files, synced, id, path, profile, Write(Syncing));
    var s6 := SoloFilled(files, synced + {path}, id, path, profile, Write(Restricting));
    assert Apply(s, s4, Step(id, 0)) == s5;
    assert Apply(s, s5, Step(id, 0)) == s6;
    RunCons(s, s6, Step(id, 0), []);
    RunCons(s, s5, Step(id, 0), [Step(id, 0)]);
    RunCons(s, s4, Step(id, 0), [Step(id, 0), Step(id, 0)]);
  }

  /** Runs in which a pin succeeds exist: a `trust` that nobody disturbs creates the file and returns Ok, even
      when its existence test fails. */
  lemma SoloTrustSucceeds(s: LawfulSuite, initial: Files, id: nat, path: Path, profile: PublicProfile, probe: Event)
    returns (events: seq<Event>)
    requires path !in initial && WellFormed(s, profile) && (probe == Step(id, 0) || probe == Fail(id))
    ensures probe in events
    ensures var st := Run(s, Initial(initial), events);
            && id in st.calls && st.calls[id] == Call(path, Trust(profile), Done(Ok(profile)))
            && Wrote(st, id, path) && st.files == initial[path := Encode(profile)]
  {
    var begin := [Start(id, path, Trust(profile)), probe, Step(id, 0)];
    var close := [Step(id, 0), Step(id, 0), Step(id, 0)];
    events := begin + ([Step(id, 240)] + close);
    SoloBegin(s, initial, id, path, profile, probe);
    assert begin[1] in events;
    RunConcat(s, Initial(initial), begin, [Step(id, 240)] + close);
    RunCons(s, SoloCreated(initial, id, path, profile), Step(id, 240), close);
    SoloFill(s, initial, id, path, profile);
    SoloClose(s, initial[path := Encode(profile)], initial.Keys, id, path, profile);
  }

  lemma RunCons(s: LawfulSuite, st: State, event: Event, events: seq<Event>)
    ensures Run(s, st, [event] + events) == Run(s, Apply(s, st, event), events)
  {
    assert ([event] + events)[1..] == events;
  }

  // ---------------------------------------------------------------- reading is possible

  /** `st` with call `id` at `pc`, which may be new. */
  function With(st: State, id: nat, path: Path, task: Task, pc: Pc): State {
    st.(calls := st.calls[id := Call(path, task, pc)])
  }

  /** What an undisturbed read answers. */
  function ReadAnswer(s: LawfulSuite, files: Files, path: Path, task: Task): Result<PublicProfile> {
    if path !in files then Err(Io(Missing))
    else if |files[path]| > 512 then Invalid(FileTooLarge)
    else Conclude(s, task, files[path])
  }

  lemma SoloOpen(s: LawfulSuite, st: State, id: nat, path: Path, task: Task)
    ensures var refused := path !in st.files || |st.files[path]| > 512;
            Apply(s, With(st, id, path, task, Opening), Step(id, 0))
            == With(st, id, path, task, if refused then Done(ReadAnswer(s, st.files, path, task)) else Reading([]))
  {
    hide Conclude;
    assert forall a: Pc, b: Pc :: With(With(st, id, path, task, a), id, path, task, b) == With(st, id, path, task, b);
  }

  /** One read of the whole file, and one that finds its end. */
  lemma SoloRead(s: LawfulSuite, st: State, id: nat, path: Path, task: Task)
    requires path in st.files && |st.files[path]| <= 512
    ensures Run(s, With(st, id, path, task, Reading([])), [Step(id, 512), Step(id, 0)])
         == With(st, id, path, task, Done(ReadAnswer(s, st.files, path, task)))
  {
    hide Conclude;
    var file := st.files[path];
    var begun := With(st, id, path, task, Reading([]));
    var ended := With(st, id, path, task, Done(ReadAnswer(s, st.files, path, task)));
    RunCons(s, begun, Step(id, 512), [Step(id, 0)]);
    if file == [] {
      assert Apply(s, begun, Step(id, 512)) == ended;
      assert Apply(s, ended, Step(id, 0)) == ended;
      RunCons(s, ended, Step(id, 0), []);
    } else {
      var filled := With(st, id, path, task, Reading(file));
      assert [] + file[0..|file|] == file;
      assert Apply(s, begun, Step(id, 512)) == filled;
      assert Apply(s, filled, Step(id, 0)) == ended;
      RunCons(s, filled, Step(id, 0), []);
    }
  }

  lemma SoloReads(s: LawfulSuite, st: State, id: nat, path: Path, task: Task)
    ensures Run(s, With(st, id, path, task, Opening), [Step(id, 0)] + [Step(id, 512), Step(id, 0)])
         == With(st, id, path, task, Done(ReadAnswer(s, st.files, path, task)))
  {
    hide Conclude, ReadAnswer;
    var ended := With(st, id, path, task, Done(ReadAnswer(s, st.files, path, task)));
    SoloOpen(s, st, id, path, task);
    RunCons(s, With(st, id, path, task, Opening), Step(id, 0), [Step(id, 512), Step(id, 0)]);
    if path in st.files && |st.files[path]| <= 512 {
      SoloRead(s, st, id, path, task);
    } else {
      assert Apply(s, ended, Step(id, 512)) == ended && Apply(s, ended, Step(id, 0)) == ended;
      RunCons(s, ended, Step(id, 512), [Step(id, 0)]);
      RunCons(s, ended, Step(id, 0), []);
    }
  }

  /** From every state, a look-up that nobody disturbs changes no file and answers what the file parses to. */
  lemma SoloLookupExact(s: LawfulSuite, st: State, id: nat, path: Path) returns (events: seq<Event>)
    requires id !in st.calls
    ensures Run(s, st, events)
         == With(st, id, path, Lookup,
                 Done(if path !in st.files then Err(Io(Missing))
                      else if |st.files[path]| > 512 then Invalid(FileTooLarge)
                      else Parse(s, st.files[path])))
  {
    hide Parse;
    var tail := [Step(id, 0)] + [Step(id, 512), Step(id, 0)];
    events := [Start(id, path, Lookup)] + tail;
    RunCons(s, st, Start(id, path, Lookup), tail);
    SoloReads(s, st, id, path, Lookup);
  }

  /** From every state, a `trust` of a path that is taken, if nobody disturbs it, changes no file, confirms its own
      profile and refuses every other. */
  lemma SoloTrustAgainExact(s: LawfulSuite, st: State, id: nat, path: Path, profile: PublicProfile)
    returns (events: seq<Event>)
    requires id !in st.calls && WellFormed(s, profile) && path in st.files && |st.files[path]| <= 512
    ensures var pinned := Parse(s, st.files[path]);
            Run(s, st, events)
            == With(st, id, path, Trust(profile),
                    Done(if pinned.Err? then pinned
                         else if pinned.value == profile then Ok(profile) else Err(IdentityMismatch)))
  {
    hide Parse;
    var task := Trust(profile);
    var tail := [Step(id, 0)] + [Step(id, 512), Step(id, 0)];
    events := [Start(id, path, task)] + ([Step(id, 0)] + tail);
    RunCons(s, st, Start(id, path, task), [Step(id, 0)] + tail);
    RunCons(s, With(st, id, path, task, Probe), Step(id, 0), tail);
    assert Apply(s, With(st, id, path, task, Probe), Step(id, 0)) == With(st, id, path, task, Opening);
    SoloReads(s, st, id, path, task);
  }
}
