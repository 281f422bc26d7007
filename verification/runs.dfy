/** Sequential runs of the program over one file system, and what they can never change. */
module Runs {
  import opened Results
  import opened ByteStrings
  import opened Primitives
  import opened Protocol
  import opened Identity
  import opened Contacts
  import opened Messages
  import opened Store

  /** One run of the program, with its random draws, its faults and the paths the user chose. */
  datatype Command =
    | Init(unlockPath: Path, draw: InitDraw, initFaults: InitFaults)
    | Trust(source: Path, alias: Bytes, dirFault: DirFault, writeFault: WriteFault)
    | SealLetter(recipient: Bytes, unlockPath: Path, body: Bytes, entropy: Entropy,
                 output: Option<Path>, writeFault: WriteFault)
    | OpenLetter(blobPath: Path, unlockPath: Path, listing: seq<Name>, keep: bool, printed: bool, removable: bool)
    | Export(destination: Option<Path>, writeFault: WriteFault)
    | Show
    | Receive(path: Path, bytes: Bytes)   // the user stores a file under an unused name
    | MakeDirectory(path: Path)           // the user, or the init wizard, makes a directory

  function SealCommand(s: LawfulSuite, fs: Fs, st: StatePaths, cmd: Command): Result<Bytes>
    requires cmd.SealLetter?
  {
    var contact :- ContactOf(s, fs, st, cmd.recipient);
    var identity :- LoadIdentityOf(s, fs, st, cmd.unlockPath);
    SealedBlob(s, identity.secrets, identity.profile, contact.profile, cmd.body, cmd.entropy)
  }

  function OpenCommand(s: LawfulSuite, fs: Fs, st: StatePaths, cmd: Command): Result<OpenedLetter>
    requires cmd.OpenLetter?
  {
    var identity :- LoadIdentityOf(s, fs, st, cmd.unlockPath);
    var contacts :- AllContactsOf(s, fs, st, cmd.listing);
    var blob := ReadRegularLimited(fs, cmd.blobPath, MAX_BLOB_LEN);
    if blob.Err? then Err(CannotOpen)
    else Open(s, identity.secrets, identity.profile, contacts, blob.value)
  }

  function Exec(s: LawfulSuite, fs: Fs, st: StatePaths, cmd: Command): Fs {
    match cmd
    case Init(unlockPath, draw, faults) => InitializeOf(s, fs, st, unlockPath, draw, faults).fs
    case Trust(source, alias, dirFault, writeFault) =>
      TrustProfileOf(s, fs, st, source, alias, dirFault, writeFault).fs
    case SealLetter(_, _, _, _, output, writeFault) =>
      var blob := SealCommand(s, fs, st, cmd);
      if blob.Ok? && output.Some? then WriteNewOf(fs, output.value, blob.value, writeFault).fs else fs
    case OpenLetter(blobPath, _, _, _, _, _) =>
      if OpenCommand(s, fs, st, cmd).Ok? && cmd.printed && !cmd.keep
      then ConsumeBlobOf(fs, blobPath, cmd.removable).fs else fs
    case Export(destination, writeFault) =>
      var profile := ExportProfileOf(s, fs, st);
      if profile.Ok? && destination.Some? then WriteNewOf(fs, destination.value, Encode(profile.value), writeFault).fs
      else fs
    case Show => fs
    case Receive(path, bytes) => WriteNewOf(fs, path, bytes, WriteWorks).fs
    case MakeDirectory(path) => CreatePrivateDirectoryOf(fs, path, DirWorks).fs
  }

  function Run(s: LawfulSuite, fs: Fs, st: StatePaths, cmds: seq<Command>): Fs
    decreases |cmds|
  {
    if cmds == [] then fs else Run(s, Exec(s, fs, st, cmds[0]), st, cmds[1..])
  }

  // ---------------------------------------------------------------- one command

  lemma TrustEffects(s: LawfulSuite, fs: Fs, st: StatePaths, source: Path, alias: Bytes,
                     dirFault: DirFault, writeFault: WriteFault)
    ensures var after := TrustProfileOf(s, fs, st, source, alias, dirFault, writeFault).fs;
            && (forall q :: q in fs.files ==> q in after.files && after.files[q] == fs.files[q])
            && fs.dirs <= after.dirs
            && after.files.Keys <= fs.files.Keys + {st.ContactPath(alias)}
  {
    hide Parse, Encode;
  }

  /** The files that a command may create. */
  function Targets(st: StatePaths, cmd: Command): set<Path> {
    match cmd
    case Init(unlockPath, _, _) => {unlockPath, st.IdentityPublic(), st.IdentityEncrypted()}
    case Trust(_, alias, _, _) => {st.ContactPath(alias)}
    case SealLetter(_, _, _, _, output, _) => if output.Some? then {output.value} else {}
    case OpenLetter(_, _, _, _, _, _) => {}
    case Export(destination, _) => if destination.Some? then {destination.value} else {}
    case Show => {}
    case Receive(path, _) => {path}
    case MakeDirectory(_) => {}
  }

  /** No command changes the content of an existing file. One disappears exactly when it is the letter of an
      `open` that succeeded, could print the body, was not told to keep the letter, and could remove it. New
      files appear only where the command was told to write. */
  lemma CommandEffects(s: LawfulSuite, fs: Fs, st: StatePaths, cmd: Command, q: Path)
    ensures var after := Exec(s, fs, st, cmd);
            && (q in fs.files ==>
                  && (q !in after.files <==>
                        && cmd.OpenLetter? && cmd.blobPath == q && OpenCommand(s, fs, st, cmd).Ok?
                        && cmd.printed && !cmd.keep && cmd.removable)
                  && (q in after.files ==> after.files[q] == fs.files[q]))
            && (q !in fs.files && q in after.files ==> q in Targets(st, cmd))
            && fs.dirs <= after.dirs
  {
    hide Open, SealedBlob, Parse, Encode, LoadIdentityOf, AllContactsOf, ContactOf, InitializeOf, TrustProfileOf;
    match cmd
    case Init(unlockPath, draw, faults) => InitializeEffects(s, fs, st, unlockPath, draw, faults);
    case Trust(source, alias, dirFault, writeFault) => TrustEffects(s, fs, st, source, alias, dirFault, writeFault);
    case _ =>
  }

  /** What `seal` writes: the sealed letter and nothing else, exactly when it seals and the output is free. */
  lemma SealWritesExactly(s: LawfulSuite, fs: Fs, st: StatePaths, cmd: Command, q: Path)
    requires cmd.SealLetter? && !fs.Exists(q)
    ensures var after := Exec(s, fs, st, cmd);
            && (q in after.files <==>
                  && cmd.output == Some(q) && SealCommand(s, fs, st, cmd).Ok?
                  && Parent(q) in fs.dirs && !cmd.writeFault.OpenFails?)
            && (q in after.files ==> after.files[q] <= SealCommand(s, fs, st, cmd).value)
            && (q in after.files && cmd.writeFault.WriteWorks? ==> Ok(after.files[q]) == SealCommand(s, fs, st, cmd))
  {
    hide SealCommand;
  }

  /** What `export` writes: the text of the own profile. */
  lemma ExportWritesExactly(s: LawfulSuite, fs: Fs, st: StatePaths, cmd: Command, q: Path)
    requires fs.Valid() && cmd.Export? && !fs.Exists(q)
    ensures var after := Exec(s, fs, st, cmd);
            && (q in after.files <==>
                  && cmd.destination == Some(q) && ExportProfileOf(s, fs, st).Ok?
                  && Parent(q) in fs.dirs && !cmd.writeFault.OpenFails?)
            && (q in after.files ==> after.files[q] <= fs.files[st.IdentityPublic()])
            && (q in after.files && cmd.writeFault.WriteWorks? ==> after.files[q] == fs.files[st.IdentityPublic()])
  {
    hide ExportProfileOf, Encode;
    if ExportProfileOf(s, fs, st).Ok? {
      ExportExact(s, fs, st, ExportProfileOf(s, fs, st).value);
    }
  }

  /** Only a file whose length is a valid letter length opens, and so can be consumed. */
  lemma ConsumedIsLetterSized(s: LawfulSuite, fs: Fs, st: StatePaths, cmd: Command)
    requires cmd.OpenLetter? && OpenCommand(s, fs, st, cmd).Ok?
    ensures cmd.blobPath in fs.files && ValidBlobLen(|fs.files[cmd.blobPath]|)
  {
    hide SealedBlob, Parse, LoadIdentityOf, AllContactsOf, ContactOf, ParseRecord, ProfileOf;
  }

  lemma WriteKeepsValid(fs: Fs, path: Path, bytes: Bytes, fault: WriteFault)
    requires fs.Valid()
    ensures WriteNewOf(fs, path, bytes, fault).fs.Valid()
  {
  }

  lemma DirectoryKeepsValid(fs: Fs, path: Path, fault: DirFault)
    requires fs.Valid()
    ensures CreatePrivateDirectoryOf(fs, path, fault).fs.Valid()
  {
  }

  lemma InitKeepsValid(s: LawfulSuite, fs: Fs, st: StatePaths, unlockPath: Path, draw: InitDraw, faults: InitFaults)
    requires fs.Valid()
    ensures InitializeOf(s, fs, st, unlockPath, draw, faults).fs.Valid()
  {
    hide Encode, EncryptedIdentity, EncodeUnlockKey, ProfileOf;
    var f1 := CreatePrivateDirectoryOf(fs, st.root, faults.root).fs;
    var f2 := CreatePrivateDirectoryOf(f1, st.IdentityDir(), faults.identity).fs;
    var f3 := CreatePrivateDirectoryOf(f2, st.ContactsDir(), faults.contacts).fs;
    DirectoryKeepsValid(fs, st.root, faults.root);
    DirectoryKeepsValid(f1, st.IdentityDir(), faults.identity);
    DirectoryKeepsValid(f2, st.ContactsDir(), faults.contacts);
    var profile := Encode(ProfileOf(s, draw.secrets));
    var f4 := WriteNewOf(f3, unlockPath, EncodeUnlockKey(draw.unlockKey), faults.unlock).fs;
    WriteKeepsValid(f3, unlockPath, EncodeUnlockKey(draw.unlockKey), faults.unlock);
    var f5 := WriteNewOf(f4, st.IdentityPublic(), profile, faults.public).fs;
    WriteKeepsValid(f4, st.IdentityPublic(), profile, faults.public);
    WriteKeepsValid(f5, st.IdentityEncrypted(),
                    EncryptedIdentity(s, draw.secrets, draw.unlockKey, draw.nonce), faults.encrypted);
  }

  lemma CommandKeepsValid(s: LawfulSuite, fs: Fs, st: StatePaths, cmd: Command)
    requires fs.Valid()
    ensures Exec(s, fs, st, cmd).Valid()
  {
    hide Open, SealedBlob, Parse, LoadIdentityOf, AllContactsOf, ContactOf, Encode;
    match cmd
    case Init(unlockPath, draw, faults) => InitKeepsValid(s, fs, st, unlockPath, draw, faults);
    case Trust(source, alias, dirFault, writeFault) =>
      DirectoryKeepsValid(fs, st.ContactsDir(), dirFault);
    case Export(destination, writeFault) =>
    case Receive(path, bytes) => WriteKeepsValid(fs, path, bytes, WriteWorks);
    case MakeDirectory(path) => DirectoryKeepsValid(fs, path, DirWorks);
    case _ =>
  }

  // ---------------------------------------------------------------- whole runs

  /** Every file that is not as long as a letter keeps its content through every run. */
  lemma {:induction false} RunKeepsFile(s: LawfulSuite, fs: Fs, st: StatePaths, cmds: seq<Command>, q: Path)
    requires fs.Valid() && q in fs.files && !ValidBlobLen(|fs.files[q]|)
    ensures var after := Run(s, fs, st, cmds);
            after.Valid() && q in after.files && after.files[q] == fs.files[q]
    decreases |cmds|
  {
    hide Exec;
    if cmds != [] {
      var next := Exec(s, fs, st, cmds[0]);
      CommandEffects(s, fs, st, cmds[0], q);
      CommandKeepsValid(s, fs, st, cmds[0]);
      if q !in next.files {
        ConsumedIsLetterSized(s, fs, st, cmds[0]);
      }
      RunKeepsFile(s, next, st, cmds[1..], q);
    }
  }

  /** A pinned alias keeps its profile through every run ... */
  lemma PinSurvivesRuns(s: LawfulSuite, fs: Fs, st: StatePaths, cmds: seq<Command>, alias: Bytes)
    requires fs.Valid() && ContactOf(s, fs, st, alias).Ok?
    ensures Run(s, fs, st, cmds).Valid()
    ensures ContactOf(s, Run(s, fs, st, cmds), st, alias) == ContactOf(s, fs, st, alias)
  {
    hide Run;
    var q := st.ContactPath(alias);
    ParseExact(s, fs.files[q], ContactOf(s, fs, st, alias).value.profile);
    assert |fs.files[q]| == 240;
    RunKeepsFile(s, fs, st, cmds, q);
  }

  /** ... so that after every run a further `trust` of that alias confirms the old profile and no other. */
  lemma RepinningNeverReplaces(s: LawfulSuite, fs: Fs, st: StatePaths, cmds: seq<Command>, alias: Bytes,
                               pinned: PublicProfile, source: Path, writeFault: WriteFault)
    requires fs.Valid() && ContactOf(s, fs, st, alias) == Ok(Contact(alias, pinned))
    ensures var later := Run(s, fs, st, cmds);
            source in later.files && Parse(s, later.files[source]).Ok? ==>
              TrustProfileOf(s, later, st, source, alias, DirWorks, writeFault)
              == Outcome(later, if Parse(s, later.files[source]).value == pinned
                                then Ok(pinned) else Err(IdentityMismatch))
  {
    PinSurvivesRuns(s, fs, st, cmds, alias);
    TrustAnswersForPin(s, Run(s, fs, st, cmds), st, source, alias, DirWorks, writeFault, pinned);
  }

  /** Through every run, the part of a profile that a broken write left stays, and does not look up. */
  lemma BrokenPinStays(s: LawfulSuite, fs: Fs, st: StatePaths, source: Path, alias: Bytes,
                       writeFault: WriteFault, cmds: seq<Command>)
    requires fs.Valid() && BreaksPin(writeFault) && !fs.Exists(st.ContactPath(alias))
    requires TrustProfileOf(s, fs, st, source, alias, DirWorks, WriteWorks).result.Ok?
    ensures var later := Run(s, TrustProfileOf(s, fs, st, source, alias, DirWorks, writeFault).fs, st, cmds);
            && later.Valid() && ValidateAlias(alias) && ContactOf(s, later, st, alias).Err?
            && st.ContactPath(alias) in later.files && Parse(s, later.files[st.ContactPath(alias)]).Err?
  {
    hide Run, Parse, Encode, TrustProfileOf;
    var profile := TrustProfileOf(s, fs, st, source, alias, DirWorks, WriteWorks).result.value;
    FailedTrustLeaves(s, fs, st, source, alias, writeFault);
    LeftPinParses(s, profile, writeFault.written);
    RunKeepsFile(s, TrustProfileOf(s, fs, st, source, alias, DirWorks, writeFault).fs, st, cmds, st.ContactPath(alias));
  }

  /** A `trust` whose write breaks off in the middle blocks more than its alias: after every run, no look-up
      and no `trust` of that alias succeeds, and no listing of the contacts does, so no letter opens. */
  lemma BrokenPinBlocksTheStore(s: LawfulSuite, fs: Fs, st: StatePaths, source: Path, alias: Bytes,
                                writeFault: WriteFault, cmds: seq<Command>,
                                laterSource: Path, laterFault: WriteFault, open: Command)
    requires fs.Valid() && BreaksPin(writeFault) && !fs.Exists(st.ContactPath(alias))
    requires TrustProfileOf(s, fs, st, source, alias, DirWorks, WriteWorks).result.Ok?
    requires var later := Run(s, TrustProfileOf(s, fs, st, source, alias, DirWorks, writeFault).fs, st, cmds);
             open.OpenLetter? && IsListing(later, st.ContactsDir(), open.listing)
    ensures var later := Run(s, TrustProfileOf(s, fs, st, source, alias, DirWorks, writeFault).fs, st, cmds);
            && ContactOf(s, later, st, alias).Err?
            && TrustProfileOf(s, later, st, laterSource, alias, DirWorks, laterFault).result.Err?
            && AllContactsOf(s, later, st, open.listing).Err?
            && OpenCommand(s, later, st, open).Err?
  {
    hide Run, Parse, TrustProfileOf, ContactOf;
    var later := Run(s, TrustProfileOf(s, fs, st, source, alias, DirWorks, writeFault).fs, st, cmds);
    BrokenPinStays(s, fs, st, source, alias, writeFault, cmds);
    UnparsedContactBlocks(s, later, st, alias, open.listing, laterSource, laterFault);
  }

  /** Exactly when a `trust` of a new alias that fails in its write costs that alias for good: no run makes it
      look up, or can be trusted, again if and only if the write broke off inside the file. */
  lemma AliasLostExactly(s: LawfulSuite, fs: Fs, st: StatePaths, source: Path, alias: Bytes,
                         writeFault: WriteFault)
    requires fs.Valid() && !fs.Exists(st.ContactPath(alias)) && !writeFault.WriteWorks?
    requires TrustProfileOf(s, fs, st, source, alias, DirWorks, WriteWorks).result.Ok?
    ensures var failed := TrustProfileOf(s, fs, st, source, alias, DirWorks, writeFault).fs;
            && ((forall cmds :: ContactOf(s, Run(s, failed, st, cmds), st, alias).Err?) <==> BreaksPin(writeFault))
            && ((forall cmds, from, fault ::
                   TrustProfileOf(s, Run(s, failed, st, cmds), st, from, alias, DirWorks, fault).result.Err?)
                <==> BreaksPin(writeFault))
  {
    hide Parse, TrustProfileOf, ContactOf;
    var failed := TrustProfileOf(s, fs, st, source, alias, DirWorks, writeFault).fs;
    FailedTrustExactly(s, fs, st, source, alias, writeFault);
    if BreaksPin(writeFault) {
      forall cmds
        ensures ContactOf(s, Run(s, failed, st, cmds), st, alias).Err?
      {
        BrokenPinStays(s, fs, st, source, alias, writeFault, cmds);
      }
      forall cmds, from, fault
        ensures TrustProfileOf(s, Run(s, failed, st, cmds), st, from, alias, DirWorks, fault).result.Err?
      {
        BrokenPinStays(s, fs, st, source, alias, writeFault, cmds);
        UnparsedContactRefused(s, Run(s, failed, st, cmds), st, alias, from, fault);
      }
    } else {
      TrustAgainPins(s, failed, st, source, alias);
      assert Run(s, failed, st, []) == failed;
      assert TrustProfileOf(s, Run(s, failed, st, []), st, source, alias, DirWorks, WriteWorks).result.Ok?;
    }
  }

  /** A `trust` that works is a run after which the alias looks up. */
  lemma TrustAgainPins(s: LawfulSuite, fs: Fs, st: StatePaths, source: Path, alias: Bytes)
    requires TrustProfileOf(s, fs, st, source, alias, DirWorks, WriteWorks).result.Ok?
    ensures exists cmds :: ContactOf(s, Run(s, fs, st, cmds), st, alias).Ok?
  {
    hide TrustProfileOf, ContactOf;
    var cmds := [Trust(source, alias, DirWorks, WriteWorks)];
    TrustPins(s, fs, st, source, alias, DirWorks, WriteWorks);
    assert Run(s, fs, st, cmds) == Exec(s, fs, st, cmds[0]);
    assert ContactOf(s, Run(s, fs, st, cmds), st, alias).Ok?;
  }

  /** Whether a letter opens does not depend on the contacts, only its verdict does. */
  lemma OpenIgnoresContacts(s: LawfulSuite, secrets: IdentitySecrets, profile: PublicProfile, blob: Bytes,
                            contacts: seq<Contact>, contacts': seq<Contact>)
    ensures Open(s, secrets, profile, contacts, blob).Ok? <==> Open(s, secrets, profile, contacts', blob).Ok?
  {
    hide ParseRecord, Classify;
  }

  lemma EncodingsDiffer(profile: PublicProfile, key: Bytes32, size: nat)
    requires size <= 240
    ensures Encode(profile)[..size] != EncodeUnlockKey(key)
  {
    assert Encode(profile)[7] == PROFILE_PREFIX[7] && EncodeUnlockKey(key)[7] == UNLOCK_PREFIX[7];
  }

  /** No part of a profile is an unlock key. */
  lemma PartIsNoUnlockKey(profile: PublicProfile, size: nat)
    requires size <= 240
    ensures ParseUnlockKeyOf(Encode(profile)[..size]).Err?
  {
    hide ParseUnlockKeyOf, Encode, EncodeUnlockKey;
    var part := Encode(profile)[..size];
    var parsed := ParseUnlockKeyOf(part);
    if parsed.Ok? {
      UnlockKeyExact(part, parsed.value);
      EncodingsDiffer(profile, parsed.value, size);
    }
  }

  /** A failed `trust` leaves the identity as loadable as it was. */
  lemma FailedTrustKeepsIdentity(s: LawfulSuite, fs: Fs, st: StatePaths, source: Path, alias: Bytes,
                                 writeFault: WriteFault, unlockPath: Path)
    requires fs.Valid() && !fs.Exists(st.ContactPath(alias)) && !writeFault.WriteWorks?
    requires TrustProfileOf(s, fs, st, source, alias, DirWorks, WriteWorks).result.Ok?
    ensures var before := LoadIdentityOf(s, fs, st, unlockPath);
            var failed := TrustProfileOf(s, fs, st, source, alias, DirWorks, writeFault).fs;
            var after := LoadIdentityOf(s, failed, st, unlockPath);
            (before.Ok? <==> after.Ok?) && (before.Ok? ==> before == after)
  {
    hide Parse, Encode, TrustProfileOf, ParseUnlockKeyOf, DecryptIdentity, ProfileOf, ValidateAlias;
    var profile := TrustProfileOf(s, fs, st, source, alias, DirWorks, WriteWorks).result.value;
    var path := st.ContactPath(alias);
    FailedTrustLeaves(s, fs, st, source, alias, writeFault);
    if writeFault.StopsAfter? {
      PartIsNoUnlockKey(profile, Min(writeFault.written, 240));
    }
    assert Ascii("identity")[0] != Ascii("contacts")[0];
    assert st.IdentityPublic()[|st.root|] != path[|st.root|] && st.IdentityEncrypted()[|st.root|] != path[|st.root|];
    assert |st.ContactsDir()| == |st.root| + 1 && |st.IdentityPublic()| == |st.IdentityEncrypted()| == |st.root| + 2;
    assert unlockPath == st.ContactsDir() ==> LoadIdentityOf(s, fs, st, unlockPath).Err?;
  }

  /** Exactly when letters still open after a `trust` of a new alias that fails in its write: those open that
      opened before, unless the write broke off inside the file; then none does. */
  lemma OpenAfterFailedTrust(s: LawfulSuite, fs: Fs, st: StatePaths, source: Path, alias: Bytes,
                             writeFault: WriteFault, open: Command, later: seq<Name>)
    requires fs.Valid() && !fs.Exists(st.ContactPath(alias)) && !writeFault.WriteWorks?
    requires TrustProfileOf(s, fs, st, source, alias, DirWorks, WriteWorks).result.Ok?
    requires open.OpenLetter? && IsListing(fs, st.ContactsDir(), open.listing)
    requires IsListing(TrustProfileOf(s, fs, st, source, alias, DirWorks, writeFault).fs, st.ContactsDir(), later)
    ensures var failed := TrustProfileOf(s, fs, st, source, alias, DirWorks, writeFault).fs;
            OpenCommand(s, failed, st, open.(listing := later)).Ok? <==>
            OpenCommand(s, fs, st, open).Ok? && !BreaksPin(writeFault)
  {
    hide Parse, Encode, TrustProfileOf, LoadIdentityOf, AllContactsOf, ValidateAlias;
    var failed := TrustProfileOf(s, fs, st, source, alias, DirWorks, writeFault).fs;
    FailedTrustLeaves(s, fs, st, source, alias, writeFault);
    FailedTrustKeepsIdentity(s, fs, st, source, alias, writeFault, open.unlockPath);
    ListingAfterFailedTrust(s, fs, st, source, alias, writeFault, open.listing, later);
    var identity := LoadIdentityOf(s, fs, st, open.unlockPath);
    var before, after := AllContactsOf(s, fs, st, open.listing), AllContactsOf(s, failed, st, later);
    if identity.Ok? && before.Ok? && after.Ok? && open.blobPath in failed.files {
      OpenIgnoresContacts(s, identity.value.secrets, identity.value.profile, failed.files[open.blobPath],
                          before.value, after.value);
      assert open.blobPath == st.ContactPath(alias) ==> |failed.files[open.blobPath]| <= 240;
      assert |failed.files[open.blobPath]| <= 240 ==>
               Open(s, identity.value.secrets, identity.value.profile, after.value, failed.files[open.blobPath]).Err?;
    }
  }

  lemma UnparsedContactRefused(s: LawfulSuite, fs: Fs, st: StatePaths, alias: Bytes, source: Path, fault: WriteFault)
    requires fs.Valid() && ValidateAlias(alias)
    requires st.ContactPath(alias) in fs.files && Parse(s, fs.files[st.ContactPath(alias)]).Err?
    ensures TrustProfileOf(s, fs, st, source, alias, DirWorks, fault).result.Err?
  {
    hide Parse, Encode, ValidateAlias;
  }

  /** One contact file that does not parse makes its alias and the whole listing unusable. */
  lemma UnparsedContactBlocks(s: LawfulSuite, fs: Fs, st: StatePaths, alias: Bytes, listing: seq<Name>,
                              source: Path, writeFault: WriteFault)
    requires fs.Valid() && ValidateAlias(alias) && IsListing(fs, st.ContactsDir(), listing)
    requires st.ContactPath(alias) in fs.files && Parse(s, fs.files[st.ContactPath(alias)]).Err?
    ensures ContactOf(s, fs, st, alias).Err? && AllContactsOf(s, fs, st, listing).Err?
    ensures TrustProfileOf(s, fs, st, source, alias, DirWorks, writeFault).result.Err?
  {
    hide Parse, AllContactsOf, ContactFileName, TrustProfileOf;
    UnparsedContactRefused(s, fs, st, alias, source, writeFault);
    if AllContactsOf(s, fs, st, listing).Ok? {
      ListingReadsEvery(s, fs, st, alias, listing);
    }
  }

  /** A successful listing has read the file of every valid alias that is there. */
  lemma ListingReadsEvery(s: LawfulSuite, fs: Fs, st: StatePaths, alias: Bytes, listing: seq<Name>)
    requires fs.Valid() && ValidateAlias(alias) && IsListing(fs, st.ContactsDir(), listing)
    requires st.ContactPath(alias) in fs.files && AllContactsOf(s, fs, st, listing).Ok?
    ensures ContactOf(s, fs, st, alias).Ok?
  {
    hide Parse, LexLeq, SortNames, ContactNames, ContactOf;
    var dir, name := st.ContactsDir(), ContactFileName(alias);
    assert st.ContactPath(alias) == dir + [name] && Parent(st.ContactPath(alias)) == dir;
    var names := SortNames(ContactNames(listing));
    NamesOfListing(fs, dir, listing);
    AliasNameBijection(alias, name);
    assert name in names;
    var i :| 0 <= i < |names| && names[i] == name;
    var contact := AllContactsOf(s, fs, st, listing).value[i];
    LoadContactIsContact(s, fs, st, name, contact);
    ContactFileNameInjective(alias, contact.alias);
  }

  /** An identity that loads with some unlock path keeps loading to the same secrets. */
  lemma IdentitySurvivesRuns(s: LawfulSuite, fs: Fs, st: StatePaths, cmds: seq<Command>, unlockPath: Path)
    requires fs.Valid() && LoadIdentityOf(s, fs, st, unlockPath).Ok?
    ensures LoadIdentityOf(s, Run(s, fs, st, cmds), st, unlockPath) == LoadIdentityOf(s, fs, st, unlockPath)
  {
    hide Run;
    var draw := LoadedIdentityIsHeld(s, fs, st, unlockPath);
    var after := Run(s, fs, st, cmds);
    IdentityAtRestRoundTrip(s, draw.secrets, draw.unlockKey, draw.nonce);
    RunKeepsFile(s, fs, st, cmds, unlockPath);
    RunKeepsFile(s, fs, st, cmds, st.IdentityPublic());
    RunKeepsFile(s, fs, st, cmds, st.IdentityEncrypted());
    HeldIdentityLoads(s, after, st, unlockPath, draw);
  }

  lemma SecondInitRefused(s: LawfulSuite, fs: Fs, st: StatePaths, unlockPath: Path, draw: InitDraw,
                          faults: InitFaults)
    requires st.IdentityPublic() in fs.files
    ensures InitializeOf(s, fs, st, unlockPath, draw, faults)
         == Outcome(fs, if st.root <= unlockPath then Invalid(UnlockInsideState) else Invalid(IdentityExists))
  {
  }

  /** Once the files of an identity are in place, every run leaves them loadable, and every later `init` is
      refused without effect. */
  lemma HeldIdentitySurvivesRuns(s: LawfulSuite, fs: Fs, st: StatePaths, unlockPath: Path, draw: InitDraw,
                                 cmds: seq<Command>, laterUnlock: Path, laterDraw: InitDraw, laterFaults: InitFaults)
    requires fs.Valid() && HoldsIdentity(s, fs, st, unlockPath, draw)
    ensures var later := Run(s, fs, st, cmds);
            && LoadIdentityOf(s, later, st, unlockPath)
               == Ok(LoadedIdentity(draw.secrets, ProfileOf(s, draw.secrets)))
            && InitializeOf(s, later, st, laterUnlock, laterDraw, laterFaults)
               == Outcome(later, if st.root <= laterUnlock then Invalid(UnlockInsideState) else Invalid(IdentityExists))
  {
    hide Run, InitializeOf;
    HeldIdentityLoads(s, fs, st, unlockPath, draw);
    IdentitySurvivesRuns(s, fs, st, cmds, unlockPath);
    RunKeepsFile(s, fs, st, cmds, st.IdentityPublic());
    SecondInitRefused(s, Run(s, fs, st, cmds), st, laterUnlock, laterDraw, laterFaults);
  }

  /** A run that begins with a successful `init` leaves its identity loadable with the path given to it. */
  lemma InitSurvivesRuns(s: LawfulSuite, fs: Fs, st: StatePaths, unlockPath: Path, draw: InitDraw,
                         faults: InitFaults, cmds: seq<Command>)
    requires fs.Valid() && InitializeOf(s, fs, st, unlockPath, draw, faults).result.Ok?
    ensures LoadIdentityOf(s, Run(s, fs, st, [Init(unlockPath, draw, faults)] + cmds), st, unlockPath)
         == Ok(LoadedIdentity(draw.secrets, ProfileOf(s, draw.secrets)))
  {
    hide InitializeOf, LoadIdentityOf;
    var init := Init(unlockPath, draw, faults);
    var after := Exec(s, fs, st, init);
    assert ([init] + cmds)[1..] == cmds;
    InitializeThenLoad(s, fs, st, unlockPath, draw, faults);
    InitializeAnswers(s, fs, st, unlockPath, draw, faults);
    InitKeepsValid(s, fs, st, unlockPath, draw, faults);
    IdentitySurvivesRuns(s, after, st, cmds, unlockPath);
  }

  lemma InitializeAnswers(s: LawfulSuite, fs: Fs, st: StatePaths, unlockPath: Path, draw: InitDraw, faults: InitFaults)
    requires InitializeOf(s, fs, st, unlockPath, draw, faults).result.Ok?
    ensures InitializeOf(s, fs, st, unlockPath, draw, faults).result.value == ProfileOf(s, draw.secrets)
  {
    hide Encode, EncryptedIdentity, EncodeUnlockKey, InitDirectories, ProfileOf, WriteNewOf;
  }

  /** A run that begins with a successful `trust` keeps the profile of its source pinned under its alias. */
  lemma TrustSurvivesRuns(s: LawfulSuite, fs: Fs, st: StatePaths, source: Path, alias: Bytes,
                          dirFault: DirFault, writeFault: WriteFault, cmds: seq<Command>)
    requires fs.Valid() && TrustProfileOf(s, fs, st, source, alias, dirFault, writeFault).result.Ok?
    ensures source in fs.files && Parse(s, fs.files[source]).Ok?
    ensures ContactOf(s, Run(s, fs, st, [Trust(source, alias, dirFault, writeFault)] + cmds), st, alias)
         == Ok(Contact(alias, Parse(s, fs.files[source]).value))
  {
    hide TrustProfileOf, Parse, ContactOf;
    var trust := Trust(source, alias, dirFault, writeFault);
    var answer := TrustProfileOf(s, fs, st, source, alias, dirFault, writeFault).result.value;
    assert ([trust] + cmds)[1..] == cmds;
    TrustPins(s, fs, st, source, alias, dirFault, writeFault);
    TrustWellFormed(s, fs, st, source, alias, dirFault, writeFault);
    ParseExact(s, fs.files[source], answer);
    CommandKeepsValid(s, fs, st, trust);
    PinSurvivesRuns(s, Exec(s, fs, st, trust), st, cmds, alias);
  }

  lemma TrustWellFormed(s: LawfulSuite, fs: Fs, st: StatePaths, source: Path, alias: Bytes,
                        dirFault: DirFault, writeFault: WriteFault)
    requires TrustProfileOf(s, fs, st, source, alias, dirFault, writeFault).result.Ok?
    ensures WellFormed(s, TrustProfileOf(s, fs, st, source, alias, dirFault, writeFault).result.value)
  {
    hide Parse, Encode, WellFormed;
    ParseExact(s, fs.files[source], Parse(s, fs.files[source]).value);
  }

  // ---------------------------------------------------------------- trust verdicts

  /** `c` is a contact of the store. */
  ghost predicate Stored(s: LawfulSuite, fs: Fs, st: StatePaths, c: Contact) {
    ContactOf(s, fs, st, c.alias) == Ok(c)
  }

  predicate SameKeys(c: Contact, sender: PublicProfile) {
    c.profile.identityPublic == sender.identityPublic && c.profile.agreementPublic == sender.agreementPublic
  }

  /** The contact has one of the two keys of the sender. */
  predicate OneKey(c: Contact, sender: PublicProfile) {
    (c.profile.identityPublic == sender.identityPublic) != (c.profile.agreementPublic == sender.agreementPublic)
  }

  /** `alias` names the first stored contact in file-name order that satisfies `p`. */
  ghost predicate FirstStored(s: LawfulSuite, fs: Fs, st: StatePaths, alias: Bytes, p: Contact -> bool) {
    && ContactOf(s, fs, st, alias).Ok? && p(ContactOf(s, fs, st, alias).value)
    && forall c :: Stored(s, fs, st, c) && p(c) ==> LexLeq(ContactFileName(alias), ContactFileName(c.alias))
  }

  lemma FirstFound(s: LawfulSuite, fs: Fs, st: StatePaths, contacts: seq<Contact>, p: Contact -> bool)
    requires forall c: Contact :: c in contacts <==> Stored(s, fs, st, c)
    requires forall i, j :: 0 <= i < j < |contacts| ==>
               LexLeq(ContactFileName(contacts[i].alias), ContactFileName(contacts[j].alias))
    requires Find(contacts, p).Some?
    ensures FirstStored(s, fs, st, Find(contacts, p).value.alias, p)
  {
    hide ContactOf, ContactFileName, LexLeq;
    var found := Find(contacts, p).value;
    assert Stored(s, fs, st, found);
    forall c | Stored(s, fs, st, c) && p(c)
      ensures LexLeq(ContactFileName(found.alias), ContactFileName(c.alias))
    {
      assert c in contacts;
      FindIsFirst(contacts, p, c);
    }
  }

  lemma {:induction false} FindIsFirst(contacts: seq<Contact>, p: Contact -> bool, c: Contact)
    requires forall i, j :: 0 <= i < j < |contacts| ==>
               LexLeq(ContactFileName(contacts[i].alias), ContactFileName(contacts[j].alias))
    requires c in contacts && p(c)
    ensures Find(contacts, p).Some?
    ensures LexLeq(ContactFileName(Find(contacts, p).value.alias), ContactFileName(c.alias))
  {
    hide ContactFileName;
    if p(contacts[0]) {
      var j :| 0 <= j < |contacts| && contacts[j] == c;
      if j == 0 {
        LexTotal(ContactFileName(c.alias), ContactFileName(c.alias));
      }
    } else {
      assert c in contacts[1..];
      FindIsFirst(contacts[1..], p, c);
    }
  }

  /** A stored contact with both keys of a well-formed sender is the sender. */
  lemma StoredSameKeys(s: LawfulSuite, fs: Fs, st: StatePaths, c: Contact, sender: PublicProfile)
    requires Stored(s, fs, st, c) && WellFormed(s, sender)
    ensures SameKeys(c, sender) <==> c.profile == sender
  {
    hide Parse, Encode;
    ParseExact(s, fs.files[st.ContactPath(c.alias)], c.profile);
  }

  /** The verdict on a sender, judged against the store: pinned exactly when some stored contact has both
      keys, mismatch exactly when none has but some shares one, unknown exactly when none shares any. The
      alias is the first match in file-name order, and looking it up justifies the verdict. */
  lemma VerdictExact(s: LawfulSuite, fs: Fs, st: StatePaths, listing: seq<Name>, sender: PublicProfile)
    requires fs.Valid() && IsListing(fs, st.ContactsDir(), listing) && WellFormed(s, sender)
    requires AllContactsOf(s, fs, st, listing).Ok?
    ensures var verdict := Classify(AllContactsOf(s, fs, st, listing).value, sender);
            && (verdict.Pinned? <==> exists c :: Stored(s, fs, st, c) && SameKeys(c, sender))
            && (verdict.Unknown? <==> forall c :: Stored(s, fs, st, c) ==> !SameKeys(c, sender) && !OneKey(c, sender))
            && (verdict.Pinned? ==>
                  && FirstStored(s, fs, st, verdict.alias, (c: Contact) => c.profile == sender)
                  && ContactOf(s, fs, st, verdict.alias) == Ok(Contact(verdict.alias, sender)))
            && (verdict.Mismatch? ==>
                  && FirstStored(s, fs, st, verdict.alias, (c: Contact) => OneKey(c, sender)))
  {
    hide Parse, Encode, LexLeq, ContactFileName, ContactOf, WellFormed;
    var contacts := AllContactsOf(s, fs, st, listing).value;
    AllContactsExact(s, fs, st, listing);
    hide AllContactsOf;
    var exact, partial := (c: Contact) => c.profile == sender, (c: Contact) => SharesKey(c, sender);
    forall c | Stored(s, fs, st, c)
      ensures SameKeys(c, sender) <==> c.profile == sender
      ensures c in contacts
    {
      StoredSameKeys(s, fs, st, c, sender);
    }
    assert forall c: Contact :: c in contacts <==> Stored(s, fs, st, c);
    if Find(contacts, exact).Some? {
      FirstFound(s, fs, st, contacts, exact);
      assert Stored(s, fs, st, Find(contacts, exact).value);
    } else if Find(contacts, partial).Some? {
      FirstFound(s, fs, st, contacts, partial);
      assert Stored(s, fs, st, Find(contacts, partial).value);
    }
  }

  // ---------------------------------------------------------------- two stores

  lemma LoadedProfile(s: LawfulSuite, fs: Fs, st: StatePaths, unlockPath: Path)
    requires LoadIdentityOf(s, fs, st, unlockPath).Ok?
    ensures var id := LoadIdentityOf(s, fs, st, unlockPath).value; id.profile == ProfileOf(s, id.secrets)
  {
    hide ReadRegularLimited, ExportProfileOf, ParseUnlockKeyOf, DecryptIdentity, ProfileOf;
  }

  /** Opening, inside a store, a letter that `mine` sealed for `theirs`. */
  lemma OpenInStore(s: LawfulSuite, fs: Fs, st: StatePaths, open: Command, mine: LoadedIdentity,
                    theirs: LoadedIdentity, body: Bytes, entropy: Entropy, pinnedAs: Bytes)
    requires open.OpenLetter? && Drawn(|body|, entropy) && theirs.profile == ProfileOf(s, theirs.secrets)
    requires fs.Valid() && LoadIdentityOf(s, fs, st, open.unlockPath) == Ok(theirs)
    requires Stored(s, fs, st, Contact(pinnedAs, mine.profile)) && WellFormed(s, mine.profile)
    requires IsListing(fs, st.ContactsDir(), open.listing) && AllContactsOf(s, fs, st, open.listing).Ok?
    requires SealedBlob(s, mine.secrets, mine.profile, theirs.profile, body, entropy).Ok?
    requires ReadRegularLimited(fs, open.blobPath, MAX_BLOB_LEN)
          == SealedBlob(s, mine.secrets, mine.profile, theirs.profile, body, entropy)
    ensures OpenedAsPinned(s, fs, st, OpenCommand(s, fs, st, open), body, entropy.messageId, mine.profile)
  {
    hide Open, SealedBlob, AllContactsOf, LoadIdentityOf, Classify;
    var contacts := AllContactsOf(s, fs, st, open.listing).value;
    SealOpenRoundTrip(s, mine.secrets, mine.profile, theirs.secrets, contacts, body, entropy);
    assert SameKeys(Contact(pinnedAs, mine.profile), mine.profile);
    VerdictExact(s, fs, st, open.listing, mine.profile);
  }

  /** The letter has this content, and its sender is pinned in the store under the reported alias. */
  ghost predicate OpenedAsPinned(s: LawfulSuite, fs: Fs, st: StatePaths, letter: Result<OpenedLetter>,
                                 body: Bytes, messageId: Bytes32, sender: PublicProfile) {
    && letter.Ok? && letter.value.body == body && letter.value.messageId == messageId
    && letter.value.sender == sender && letter.value.trust.Pinned?
    && ContactOf(s, fs, st, letter.value.trust.alias) == Ok(Contact(letter.value.trust.alias, sender))
  }

  /** A letter between two stores. The sender has the recipient pinned, the recipient has the sender pinned
      and both identities load. The file that a working `seal` writes, stored on the other side after any run
      there, opens to the same body, and the verdict names a contact pinned with the sender's keys. */
  lemma LetterBetweenStores(s: LawfulSuite, here: Fs, hereSt: StatePaths, seal: Command,
                            there: Fs, thereSt: StatePaths, cmds: seq<Command>, open: Command, pinnedAs: Bytes)
    requires seal.SealLetter? && seal.output.Some? && seal.writeFault.WriteWorks? && Drawn(|seal.body|, seal.entropy)
    requires !here.Exists(seal.output.value) && seal.output.value in Exec(s, here, hereSt, seal).files
    requires open.OpenLetter? && there.Valid()
    requires LoadIdentityOf(s, there, thereSt, open.unlockPath).Ok?
    requires ContactOf(s, here, hereSt, seal.recipient)
          == Ok(Contact(seal.recipient, LoadIdentityOf(s, there, thereSt, open.unlockPath).value.profile))
    requires LoadIdentityOf(s, here, hereSt, seal.unlockPath).Ok?
    requires ContactOf(s, there, thereSt, pinnedAs)
          == Ok(Contact(pinnedAs, LoadIdentityOf(s, here, hereSt, seal.unlockPath).value.profile))
    requires var later := Run(s, there, thereSt, cmds);
             !later.Exists(open.blobPath) && Parent(open.blobPath) in later.dirs
    requires var letter := Exec(s, here, hereSt, seal).files[seal.output.value];
             var arrived := Exec(s, Run(s, there, thereSt, cmds), thereSt, Receive(open.blobPath, letter));
             && IsListing(arrived, thereSt.ContactsDir(), open.listing)
             && AllContactsOf(s, arrived, thereSt, open.listing).Ok?
    ensures var letter := Exec(s, here, hereSt, seal).files[seal.output.value];
            var arrived := Exec(s, Run(s, there, thereSt, cmds), thereSt, Receive(open.blobPath, letter));
            OpenedAsPinned(s, arrived, thereSt, OpenCommand(s, arrived, thereSt, open), seal.body,
                           seal.entropy.messageId, LoadIdentityOf(s, here, hereSt, seal.unlockPath).value.profile)
  {
    hide OpenCommand, Parse, SealedBlob, Open, LoadIdentityOf, ContactOf, AllContactsOf;
    var mine := LoadIdentityOf(s, here, hereSt, seal.unlockPath).value;
    var theirs := LoadIdentityOf(s, there, thereSt, open.unlockPath).value;
    SealWritesExactly(s, here, hereSt, seal, seal.output.value);
    var letter := Exec(s, here, hereSt, seal).files[seal.output.value];
    var later := Run(s, there, thereSt, cmds);
    var receive := Receive(open.blobPath, letter);
    var arrived := Exec(s, later, thereSt, receive);
    assert arrived.files[open.blobPath] == letter && arrived.dirs == later.dirs;
    assert SealedBlob(s, mine.secrets, mine.profile, theirs.profile, seal.body, seal.entropy) == Ok(letter);
    LoadedProfile(s, here, hereSt, seal.unlockPath);
    LoadedProfile(s, there, thereSt, open.unlockPath);
    IdentitySurvivesRuns(s, there, thereSt, cmds, open.unlockPath);
    PinSurvivesRuns(s, there, thereSt, cmds, pinnedAs);
    assert Run(s, later, thereSt, [receive]) == arrived;
    IdentitySurvivesRuns(s, later, thereSt, [receive], open.unlockPath);
    PinSurvivesRuns(s, later, thereSt, [receive], pinnedAs);
    LetterFits(s, mine.secrets, mine.profile, theirs, seal.body, seal.entropy, letter);
    hide Run, Exec;
    OpenInStore(s, arrived, thereSt, open, mine, theirs, seal.body, seal.entropy, pinnedAs);
  }

  /** A letter is within the limit of what `open` reads. */
  lemma LetterFits(s: LawfulSuite, secrets: IdentitySecrets, sender: PublicProfile, recipient: LoadedIdentity,
                   body: Bytes, entropy: Entropy, letter: Bytes)
    requires recipient.profile == ProfileOf(s, recipient.secrets) && Drawn(|body|, entropy)
    requires SealedBlob(s, secrets, sender, recipient.profile, body, entropy) == Ok(letter)
    ensures |letter| <= MAX_BLOB_LEN
  {
    hide SealedBlob, Open, ProfileOf, Classify;
    SealOpenRoundTrip(s, secrets, sender, recipient.secrets, [], body, entropy);
    OpenedLength(s, recipient.secrets, recipient.profile, [], letter);
  }

  lemma OpenedLength(s: LawfulSuite, secrets: IdentitySecrets, profile: PublicProfile, contacts: seq<Contact>,
                     letter: Bytes)
    requires Open(s, secrets, profile, contacts, letter).Ok?
    ensures ValidBlobLen(|letter|)
  {
    hide ParseRecord, ProfileOf, Classify;
  }
}
