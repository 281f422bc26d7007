/** `write_new_private` one system call at a time, as interleaved processes execute it. */
module WriteSteps {
  import opened ByteStrings
  import opened Store

  /** The next system call: exclusive create, a write at offset `done` (or the end of `write_all`), sync,
      permission change. */
  datatype Phase = Creating | Writing(done: nat) | Syncing | Restricting | Complete

  type Files = map<Path, Bytes>

  datatype Stepped = Refused | Stepped(files: Files, phase: Phase)

  /** One successful system call; `size` bounds how much a write transfers. Creation is refused when the
      file exists. */
  function WriteStep(files: Files, path: Path, content: Bytes, phase: Phase, size: nat): Stepped {
    match phase
    case Creating =>
      if path in files then Refused else Stepped(files[path := []], Writing(0))
    case Writing(done) =>
      if done >= |content| then Stepped(files, Syncing)
      else
        var next := Min(done + Max(size, 1), |content|);
        Stepped(if path in files then files[path := files[path] + content[done..next]] else files, Writing(next))
    case Syncing => Stepped(files, Restricting)
    case Restricting => if path in files then Stepped(files, Complete) else Refused
    case Complete => Stepped(files, Complete)
  }

  /** What power loss leaves of the files: those that were not synced may lose a tail. */
  function AfterLoss(files: Files, synced: set<Path>, kept: map<Path, nat>): Files {
    map p | p in files :: if p in kept && p !in synced then files[p][..Min(kept[p], |files[p]|)] else files[p]
  }

  /** No file disappears or gains anything, and synced files keep all they have. */
  lemma LossKeepsPrefixes(files: Files, synced: set<Path>, kept: map<Path, nat>)
    ensures var after := AfterLoss(files, synced, kept);
            && after.Keys == files.Keys
            && forall p :: p in files ==> after[p] <= files[p] && (p in synced ==> after[p] == files[p])
  {
  }

  /** What the file holds when its creator has reached `phase`. */
  predicate HoldsUpTo(files: Files, path: Path, content: Bytes, phase: Phase) {
    match phase
    case Creating => true
    case Writing(done) => done <= |content| && path in files && files[path] == content[..done]
    case _ => path in files && files[path] == content
  }

  /** A step of the creator makes progress to the next phase, establishes what that phase promises, and touches no
      other file. */
  lemma WriteStepKeeps(files: Files, path: Path, content: Bytes, phase: Phase, size: nat)
    requires HoldsUpTo(files, path, content, phase)
    requires WriteStep(files, path, content, phase, size).Stepped?
    ensures var next := WriteStep(files, path, content, phase, size);
            && HoldsUpTo(next.files, path, content, next.phase) && !next.phase.Creating?
            && next.files.Keys == files.Keys + {path}
            && (forall q :: q in files && q != path ==> next.files[q] == files[q])
            && (path in files ==> files[path] <= next.files[path])
            && next.files[path] <= content
            && (phase.Writing? && phase.done < |content| ==>
                  && next.phase.Writing? && phase.done < next.phase.done <= phase.done + Max(size, 1))
            && (phase.Writing? && phase.done >= |content| ==> next.phase.Syncing?)
            && (phase.Syncing? ==> next.phase.Restricting?) && (phase.Restricting? ==> next.phase.Complete?)
  {
    if phase.Writing? && phase.done < |content| {
      var next := Min(phase.done + Max(size, 1), |content|);
      assert content[..phase.done] + content[phase.done..next] == content[..next];
    }
    assert phase.Writing? && phase.done >= |content| ==> content[..phase.done] == content;
  }
}
