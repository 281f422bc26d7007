/** The file-backed state as a value, and every operation of the store as a function on it. */
module Store {
  import opened Results
  import opened ByteStrings
  import opened Primitives
  import opened Protocol
  import opened Identity
  import opened Contacts

  type Name = Bytes

  /** A path is the sequence of its components; the empty path is the working directory. */
  type Path = seq<Name>

  datatype Fs = Fs(files: map<Path, Bytes>, dirs: set<Path>) {
    predicate Exists(path: Path) {
      path in files || path in dirs
    }

    /** Files and directories are disjoint and sit in directories. */
    ghost predicate Valid() {
      && [] in dirs
      && (forall p :: p in files ==> p !in dirs && Parent(p) in dirs)
      && (forall p :: p in dirs ==> Parent(p) in dirs)
    }
  }

  /** The new file system of an operation together with its result. */
  datatype Outcome<+T> = Outcome(fs: Fs, result: Result<T>)

  function Parent(path: Path): Path {
    if path == [] then [] else path[..|path| - 1]
  }

  datatype StatePaths = StatePaths(root: Path) {
    function IdentityDir(): Path {
      root + [Ascii("identity")]
    }
    function IdentityPublic(): Path {
      IdentityDir() + [Ascii("identity.pub")]
    }
    function IdentityEncrypted(): Path {
      IdentityDir() + [Ascii("identity.key.enc")]
    }
    function ContactsDir(): Path {
      root + [Ascii("contacts")]
    }
    function ContactPath(alias: Bytes): Path {
      ContactsDir() + [ContactFileName(alias)]
    }
  }

  /** The two identity files differ, and lie below the root. */
  lemma IdentityPathsDistinct(st: StatePaths)
    ensures st.IdentityPublic() != st.IdentityEncrypted()
    ensures st.root <= st.IdentityPublic() && st.root <= st.IdentityEncrypted()
    ensures Parent(st.IdentityPublic()) == st.IdentityDir() == Parent(st.IdentityEncrypted())
    ensures Parent(st.IdentityDir()) == st.root == Parent(st.ContactsDir())
  {
    assert |Ascii("identity.pub")| != |Ascii("identity.key.enc")|;
    assert st.IdentityPublic()[|st.root| + 1] != st.IdentityEncrypted()[|st.root| + 1];
  }

  lemma ContactPathInjective(st: StatePaths, a: Bytes, b: Bytes)
    requires st.ContactPath(a) == st.ContactPath(b)
    ensures a == b
  {
    assert st.ContactPath(a)[|st.root| + 1] == st.ContactPath(b)[|st.root| + 1];
    ContactFileNameInjective(a, b);
  }

  // ---------------------------------------------------------------- single steps

  function EnsureRealDirectory(fs: Fs, path: Path): Result<()> {
    if path in fs.dirs then Ok(()) else if path in fs.files then Invalid(NotDirectory) else Err(Io(Missing))
  }

  function ReadRegularLimited(fs: Fs, path: Path, maximum: nat): Result<Bytes> {
    if path in fs.dirs then Invalid(NotRegularFile)
    else if path !in fs.files then Err(Io(Missing))
    else if |fs.files[path]| > maximum then Invalid(FileTooLarge)
    else Ok(fs.files[path])
  }

  /** How creating a directory goes: it works, nothing happens, or only its permissions stay wrong. */
  datatype DirFault = DirWorks | DirFails | DirUnrestricted

  function CreatePrivateDirectoryOf(fs: Fs, path: Path, fault: DirFault): Outcome<()> {
    if fs.Exists(path) then
      if path in fs.dirs && fault.DirWorks? then Outcome(fs, Ok(()))
      else Outcome(fs, if path in fs.dirs then Err(Io(Other)) else Invalid(NotDirectory))
    else if Parent(path) !in fs.dirs then Outcome(fs, Err(Io(Missing)))
    else if fault.DirFails? then Outcome(fs, Err(Io(Other)))
    else Outcome(fs.(dirs := fs.dirs + {path}), if fault.DirWorks? then Ok(()) else Err(Io(Other)))
  }

  /** How a write goes: it works, the file cannot be opened, or an error (or the end of the process) comes
      after `written` bytes; writing everything and then failing is a failing sync or permission change. */
  datatype WriteFault = WriteWorks | OpenFails | StopsAfter(written: nat)

  function Written(bytes: Bytes, fault: WriteFault): Bytes {
    if fault.StopsAfter? then bytes[..Min(fault.written, |bytes|)] else bytes
  }

  /** A read succeeds exactly on a regular file within the limit, and says why it does not. */
  lemma ReadExact(fs: Fs, path: Path, maximum: nat, bytes: Bytes)
    requires fs.Valid()
    ensures ReadRegularLimited(fs, path, maximum) == Ok(bytes) <==>
            path in fs.files && fs.files[path] == bytes && |bytes| <= maximum
    ensures ReadRegularLimited(fs, path, maximum) == Invalid(FileTooLarge) <==>
            path in fs.files && |fs.files[path]| > maximum
    ensures ReadRegularLimited(fs, path, maximum) == Err(Io(Missing)) <==> !fs.Exists(path)
  {
  }

  function WriteNewOf(fs: Fs, path: Path, bytes: Bytes, fault: WriteFault): Outcome<()> {
    var directory := EnsureRealDirectory(fs, Parent(path));
    if directory.Err? then Outcome(fs, directory)
    else if fs.Exists(path) then Outcome(fs, Err(Io(AlreadyExists)))
    else if fault.OpenFails? then Outcome(fs, Err(Io(Other)))
    else Outcome(fs.(files := fs.files[path := Written(bytes, fault)]),
                 if fault.WriteWorks? then Ok(()) else Err(Io(Other)))
  }

  /** `consume_blob`: the removal of a regular file can still fail. */
  function ConsumeBlobOf(fs: Fs, path: Path, removable: bool): Outcome<()> {
    if path in fs.dirs then Outcome(fs, Invalid(NotRegularFile))
    else if path !in fs.files then Outcome(fs, Err(Io(Missing)))
    else if !removable then Outcome(fs, Err(Io(Other)))
    else Outcome(fs.(files := fs.files - {path}), Ok(()))
  }

  /** A write changes no file that is there, and succeeds only where there was none. */
  lemma WriteEffects(fs: Fs, path: Path, bytes: Bytes, fault: WriteFault)
    ensures var after := WriteNewOf(fs, path, bytes, fault);
            && after.fs.dirs == fs.dirs && after.fs.files.Keys <= fs.files.Keys + {path}
            && (forall q :: q in fs.files ==> q in after.fs.files && after.fs.files[q] == fs.files[q])
            && (after.result.Ok? ==> path !in fs.files)
  {
  }

  // ---------------------------------------------------------------- identity

  /** What `initialize` draws from the operating system. */
  datatype InitDraw = InitDraw(unlockKey: Bytes32, secrets: IdentitySecrets, nonce: Bytes24)

  /** What goes wrong during `initialize`; a process that dies has no working rollback. */
  datatype InitFaults = InitFaults(
    root: DirFault, identity: DirFault, contacts: DirFault,
    unlock: WriteFault, public: WriteFault, encrypted: WriteFault, rollbackWorks: bool)

  function InitDirectories(fs: Fs, st: StatePaths, faults: InitFaults): Outcome<()> {
    var first := CreatePrivateDirectoryOf(fs, st.root, faults.root);
    if first.result.Err? then first
    else
      var second := CreatePrivateDirectoryOf(first.fs, st.IdentityDir(), faults.identity);
      if second.result.Err? then second
      else CreatePrivateDirectoryOf(second.fs, st.ContactsDir(), faults.contacts)
  }

  /** The checks in front of the first effect. */
  function InitChecks(fs: Fs, st: StatePaths, unlockPath: Path): Result<()> {
    if st.root <= unlockPath then Invalid(UnlockInsideState)
    else if fs.Exists(st.IdentityPublic()) then Invalid(IdentityExists)
    else if fs.Exists(st.IdentityEncrypted()) then Invalid(IdentityExists)
    else if fs.Exists(unlockPath) then Invalid(UnlockExists)
    else EnsureRealDirectory(fs, Parent(unlockPath))
  }

  function InitializeOf(s: LawfulSuite, fs: Fs, st: StatePaths, unlockPath: Path, draw: InitDraw,
                        faults: InitFaults): Outcome<PublicProfile> {
    var checks := InitChecks(fs, st, unlockPath);
    if checks.Err? then Outcome(fs, Err(checks.error))
    else
      var made := InitDirectories(fs, st, faults);
      if made.result.Err? then Outcome(made.fs, Err(made.result.error))
      else
        var profile := ProfileOf(s, draw.secrets);
        var unlock := WriteNewOf(made.fs, unlockPath, EncodeUnlockKey(draw.unlockKey), faults.unlock);
        if unlock.result.Err? then Outcome(unlock.fs, Err(unlock.result.error))
        else
          var public := WriteNewOf(unlock.fs, st.IdentityPublic(), Encode(profile), faults.public);
          if public.result.Err? then Outcome(public.fs, Err(public.result.error))
          else
            var encrypted := WriteNewOf(public.fs, st.IdentityEncrypted(),
                                        EncryptedIdentity(s, draw.secrets, draw.unlockKey, draw.nonce),
                                        faults.encrypted);
            if encrypted.result.Ok? then Outcome(encrypted.fs, Ok(profile))
            else if faults.rollbackWorks then
              Outcome(encrypted.fs.(files := encrypted.fs.files - {st.IdentityPublic()}),
                      Err(encrypted.result.error))
            else Outcome(encrypted.fs, Err(encrypted.result.error))
  }

  function ExportProfileOf(s: LawfulSuite, fs: Fs, st: StatePaths): Result<PublicProfile> {
    var bytes :- ReadRegularLimited(fs, st.IdentityPublic(), 512);
    Parse(s, bytes)
  }

  /** An export succeeds exactly when the profile is in place, with the text of a well-formed profile. */
  lemma ExportExact(s: LawfulSuite, fs: Fs, st: StatePaths, profile: PublicProfile)
    requires fs.Valid()
    ensures ExportProfileOf(s, fs, st) == Ok(profile) <==>
            && st.IdentityPublic() in fs.files && fs.files[st.IdentityPublic()] == Encode(profile)
            && WellFormed(s, profile)
  {
    hide Parse, Encode, WellFormed;
    if st.IdentityPublic() in fs.files {
      ParseExact(s, fs.files[st.IdentityPublic()], profile);
    }
  }

  datatype LoadedIdentity = LoadedIdentity(secrets: IdentitySecrets, profile: PublicProfile)

  function LoadIdentityOf(s: LawfulSuite, fs: Fs, st: StatePaths, unlockPath: Path): Result<LoadedIdentity> {
    var unlockBytes :- ReadRegularLimited(fs, unlockPath, 128);
    var unlockKey :- ParseUnlockKeyOf(unlockBytes);
    var encrypted :- ReadRegularLimited(fs, st.IdentityEncrypted(), 512);
    var profile :- ExportProfileOf(s, fs, st);
    var secrets := DecryptIdentity(s, encrypted, unlockKey);
    if secrets.Err? then Invalid(CannotUnlock)
    else if ProfileOf(s, secrets.value) != profile then Invalid(IdentityDiffers)
    else Ok(LoadedIdentity(secrets.value, profile))
  }

  /** The three files of an identity, as `initialize` writes them. */
  ghost predicate HoldsIdentity(s: LawfulSuite, fs: Fs, st: StatePaths, unlockPath: Path, draw: InitDraw) {
    && unlockPath in fs.files && fs.files[unlockPath] == EncodeUnlockKey(draw.unlockKey)
    && st.IdentityPublic() in fs.files && fs.files[st.IdentityPublic()] == Encode(ProfileOf(s, draw.secrets))
    && st.IdentityEncrypted() in fs.files
    && fs.files[st.IdentityEncrypted()] == EncryptedIdentity(s, draw.secrets, draw.unlockKey, draw.nonce)
    && unlockPath !in fs.dirs && st.IdentityPublic() !in fs.dirs && st.IdentityEncrypted() !in fs.dirs
  }

  /** The three codecs compose within their read limits: such files load to the secrets that were drawn. */
  lemma HeldIdentityLoads(s: LawfulSuite, fs: Fs, st: StatePaths, unlockPath: Path, draw: InitDraw)
    requires HoldsIdentity(s, fs, st, unlockPath, draw)
    ensures LoadIdentityOf(s, fs, st, unlockPath) == Ok(LoadedIdentity(draw.secrets, ProfileOf(s, draw.secrets)))
  {
    hide Parse, Encode, ParseUnlockKeyOf, DecryptIdentity, EncryptedIdentity, EncodeUnlockKey;
    var profile := ProfileOf(s, draw.secrets);
    UnlockKeyExact(EncodeUnlockKey(draw.unlockKey), draw.unlockKey);
    ParseExact(s, Encode(profile), profile);
    IdentityAtRestRoundTrip(s, draw.secrets, draw.unlockKey, draw.nonce);
  }

  /** With readable files and a well-formed unlock key, loading fails in two ways: the key does not decrypt, or the
      secrets are not those of the profile. */
  lemma LoadIdentityAnswers(s: LawfulSuite, fs: Fs, st: StatePaths, unlockPath: Path, key: Bytes32,
                            profile: PublicProfile)
    requires fs.Valid() && st.IdentityEncrypted() in fs.files && |fs.files[st.IdentityEncrypted()]| <= 512
    requires unlockPath in fs.files && fs.files[unlockPath] == EncodeUnlockKey(key)
    requires st.IdentityPublic() in fs.files && fs.files[st.IdentityPublic()] == Encode(profile)
    requires WellFormed(s, profile)
    ensures var secrets := DecryptIdentity(s, fs.files[st.IdentityEncrypted()], key);
            LoadIdentityOf(s, fs, st, unlockPath)
            == if secrets.Err? then Invalid(CannotUnlock)
               else if ProfileOf(s, secrets.value) != profile then Invalid(IdentityDiffers)
               else Ok(LoadedIdentity(secrets.value, profile))
  {
    hide Parse, Encode, ParseUnlockKeyOf, DecryptIdentity, EncodeUnlockKey, ProfileOf, WellFormed;
    UnlockKeyExact(fs.files[unlockPath], key);
    ParseExact(s, fs.files[st.IdentityPublic()], profile);
  }

  /** Loading is exact: it succeeds on nothing but the three encodings of one identity. */
  lemma LoadedIdentityIsHeld(s: LawfulSuite, fs: Fs, st: StatePaths, unlockPath: Path)
    returns (draw: InitDraw)
    requires LoadIdentityOf(s, fs, st, unlockPath).Ok?
    ensures HoldsIdentity(s, fs, st, unlockPath, draw)
    ensures LoadIdentityOf(s, fs, st, unlockPath) == Ok(LoadedIdentity(draw.secrets, ProfileOf(s, draw.secrets)))
  {
    hide Parse, Encode, ParseUnlockKeyOf, DecryptIdentity, EncryptedIdentity, EncodeUnlockKey;
    var loaded := LoadIdentityOf(s, fs, st, unlockPath).value;
    var key := ParseUnlockKeyOf(fs.files[unlockPath]).value;
    var encrypted := fs.files[st.IdentityEncrypted()];
    UnlockKeyExact(fs.files[unlockPath], key);
    ParseExact(s, fs.files[st.IdentityPublic()], loaded.profile);
    IdentityAtRestExact(s, encrypted, key, loaded.secrets);
    draw := InitDraw(key, loaded.secrets, encrypted[..NONCE_LEN]);
  }

  lemma DirectoryEffects(fs: Fs, path: Path, fault: DirFault)
    ensures var made := CreatePrivateDirectoryOf(fs, path, fault);
            && made.fs.files == fs.files && fs.dirs <= made.fs.dirs <= fs.dirs + {path}
            && (made.result.Ok? ==> path in made.fs.dirs)
  {
  }

  lemma InitDirectoriesKeepFiles(fs: Fs, st: StatePaths, faults: InitFaults)
    ensures var made := InitDirectories(fs, st, faults);
            made.fs.files == fs.files && fs.dirs <= made.fs.dirs
            && made.fs.dirs <= fs.dirs + {st.root, st.IdentityDir(), st.ContactsDir()}
            && (made.result.Ok? ==> {st.root, st.IdentityDir(), st.ContactsDir()} <= made.fs.dirs)
  {
    hide CreatePrivateDirectoryOf;
    var first := CreatePrivateDirectoryOf(fs, st.root, faults.root).fs;
    var second := CreatePrivateDirectoryOf(first, st.IdentityDir(), faults.identity).fs;
    DirectoryEffects(fs, st.root, faults.root);
    DirectoryEffects(first, st.IdentityDir(), faults.identity);
    DirectoryEffects(second, st.ContactsDir(), faults.contacts);
  }

  /** Whatever fails, `initialize` never touches a file that was there, and creates no file but its three. */
  lemma InitializeEffects(s: LawfulSuite, fs: Fs, st: StatePaths, unlockPath: Path, draw: InitDraw,
                          faults: InitFaults)
    ensures var after := InitializeOf(s, fs, st, unlockPath, draw, faults).fs;
            && (forall q :: q in fs.files ==> q in after.files && after.files[q] == fs.files[q])
            && fs.dirs <= after.dirs <= fs.dirs + {st.root, st.IdentityDir(), st.ContactsDir()}
            && after.files.Keys <= fs.files.Keys + {unlockPath, st.IdentityPublic(), st.IdentityEncrypted()}
  {
    hide Encode, EncryptedIdentity, EncodeUnlockKey, InitDirectories, InitChecks, ProfileOf, WriteNewOf;
    IdentityPathsDistinct(st);
    InitDirectoriesKeepFiles(fs, st, faults);
    var made := InitDirectories(fs, st, faults).fs;
    var key, profile := EncodeUnlockKey(draw.unlockKey), Encode(ProfileOf(s, draw.secrets));
    var unlocked := WriteNewOf(made, unlockPath, key, faults.unlock).fs;
    var published := WriteNewOf(unlocked, st.IdentityPublic(), profile, faults.public).fs;
    WriteEffects(made, unlockPath, key, faults.unlock);
    WriteEffects(unlocked, st.IdentityPublic(), profile, faults.public);
    WriteEffects(published, st.IdentityEncrypted(), EncryptedIdentity(s, draw.secrets, draw.unlockKey, draw.nonce),
                 faults.encrypted);
  }

  predicate CanBeDirectory(fs: Fs, path: Path) {
    path in fs.dirs || path !in fs.files
  }

  /** No file stands in the place of a directory, and the root is there or has a parent. */
  predicate DirectoriesPossible(fs: Fs, st: StatePaths) {
    && CanBeDirectory(fs, st.root) && CanBeDirectory(fs, st.IdentityDir()) && CanBeDirectory(fs, st.ContactsDir())
    && (st.root in fs.dirs || Parent(st.root) in fs.dirs)
  }

  lemma DirectoriesMadeExactly(fs: Fs, st: StatePaths, faults: InitFaults)
    ensures InitDirectories(fs, st, faults).result.Ok? <==>
            && DirectoriesPossible(fs, st)
            && faults.root.DirWorks? && faults.identity.DirWorks? && faults.contacts.DirWorks?
  {
    IdentityPathsDistinct(st);
    assert st.IdentityDir() != st.root && st.ContactsDir() != st.root;
  }

  /** The unlock key goes outside the state directory, none of the three files exists, and the directories are
      there or get made: `initialize` comes to its writes. */
  predicate ReachesWrites(fs: Fs, st: StatePaths, unlockPath: Path, faults: InitFaults) {
    && !(st.root <= unlockPath)
    && !fs.Exists(st.IdentityPublic()) && !fs.Exists(st.IdentityEncrypted()) && !fs.Exists(unlockPath)
    && Parent(unlockPath) in fs.dirs && DirectoriesPossible(fs, st)
    && faults.root.DirWorks? && faults.identity.DirWorks? && faults.contacts.DirWorks?
  }

  lemma ReachesWritesExactly(fs: Fs, st: StatePaths, unlockPath: Path, faults: InitFaults)
    ensures ReachesWrites(fs, st, unlockPath, faults) <==>
            InitChecks(fs, st, unlockPath).Ok? && InitDirectories(fs, st, faults).result.Ok?
  {
    hide InitDirectories, DirectoriesPossible;
    DirectoriesMadeExactly(fs, st, faults);
  }

  /** Past the checks, none of the three files is there and each of them has a directory to go to. */
  lemma WritesAreOpen(fs: Fs, st: StatePaths, unlockPath: Path, faults: InitFaults)
    requires ReachesWrites(fs, st, unlockPath, faults)
    ensures var made := InitDirectories(fs, st, faults).fs;
            && !(st.root <= unlockPath)
            && !made.Exists(unlockPath) && !made.Exists(st.IdentityPublic()) && !made.Exists(st.IdentityEncrypted())
            && Parent(unlockPath) in made.dirs && st.IdentityDir() in made.dirs
  {
    hide InitDirectories, DirectoriesPossible;
    ReachesWritesExactly(fs, st, unlockPath, faults);
    IdentityPathsDistinct(st);
    InitDirectoriesKeepFiles(fs, st, faults);
    assert |st.IdentityPublic()| == |st.IdentityEncrypted()| == |st.root| + 2;
    assert st.root <= st.IdentityDir() && st.root <= st.ContactsDir();
  }

  /** The refusals in front of the first effect: each with its own answer, and without any effect. */
  lemma InitializeRefused(s: LawfulSuite, fs: Fs, st: StatePaths, unlockPath: Path, draw: InitDraw,
                          faults: InitFaults)
    ensures var taken := fs.Exists(st.IdentityPublic()) || fs.Exists(st.IdentityEncrypted());
            st.root <= unlockPath || taken || fs.Exists(unlockPath) || Parent(unlockPath) !in fs.dirs ==>
              var after := InitializeOf(s, fs, st, unlockPath, draw, faults);
              && after.fs == fs && after.result.Err?
              && (st.root <= unlockPath ==> after.result == Invalid(UnlockInsideState))
              && (!(st.root <= unlockPath) && taken ==> after.result == Invalid(IdentityExists))
              && (!(st.root <= unlockPath) && !taken && fs.Exists(unlockPath) ==> after.result == Invalid(UnlockExists))
  {
    hide Encode, EncryptedIdentity, EncodeUnlockKey, InitDirectories, ProfileOf, WriteNewOf;
  }

  /** Exactly which of its three files an `initialize` leaves behind, and with what in them, whatever fails. Only
      a profile that was written in full is ever rolled back. */
  lemma InitializeLeftovers(s: LawfulSuite, fs: Fs, st: StatePaths, unlockPath: Path, draw: InitDraw,
                            faults: InitFaults)
    ensures var after := InitializeOf(s, fs, st, unlockPath, draw, faults).fs;
            var reached := ReachesWrites(fs, st, unlockPath, faults);
            var unlocked := reached && faults.unlock.WriteWorks?;
            && (after.files == fs.files <==> !reached || faults.unlock.OpenFails?)
            && (unlockPath in after.files && unlockPath !in fs.files <==> reached && !faults.unlock.OpenFails?)
            && (st.IdentityPublic() in after.files && st.IdentityPublic() !in fs.files <==>
                  unlocked && !faults.public.OpenFails?
                  && (faults.public.WriteWorks? && !faults.encrypted.WriteWorks? ==> !faults.rollbackWorks))
            && (st.IdentityEncrypted() in after.files && st.IdentityEncrypted() !in fs.files <==>
                  unlocked && faults.public.WriteWorks? && !faults.encrypted.OpenFails?)
            && (unlockPath in after.files && unlockPath !in fs.files ==>
                  after.files[unlockPath] == Written(EncodeUnlockKey(draw.unlockKey), faults.unlock))
            && (st.IdentityPublic() in after.files && st.IdentityPublic() !in fs.files ==>
                  after.files[st.IdentityPublic()] == Written(Encode(ProfileOf(s, draw.secrets)), faults.public))
            && (st.IdentityEncrypted() in after.files && st.IdentityEncrypted() !in fs.files ==>
                  after.files[st.IdentityEncrypted()]
                  == Written(EncryptedIdentity(s, draw.secrets, draw.unlockKey, draw.nonce), faults.encrypted))
  {
    hide Encode, EncryptedIdentity, EncodeUnlockKey, InitDirectories, InitChecks, ProfileOf, Written,
         DirectoriesPossible, ReachesWrites;
    ReachesWritesExactly(fs, st, unlockPath, faults);
    IdentityPathsDistinct(st);
    InitDirectoriesKeepFiles(fs, st, faults);
    if ReachesWrites(fs, st, unlockPath, faults) {
      WritesAreOpen(fs, st, unlockPath, faults);
    }
  }

  /** A successful `initialize` leaves an identity that loads with its unlock path. */
  lemma InitializeThenLoad(s: LawfulSuite, fs: Fs, st: StatePaths, unlockPath: Path, draw: InitDraw,
                           faults: InitFaults)
    requires InitializeOf(s, fs, st, unlockPath, draw, faults).result.Ok?
    ensures var after := InitializeOf(s, fs, st, unlockPath, draw, faults);
            && HoldsIdentity(s, after.fs, st, unlockPath, draw)
            && LoadIdentityOf(s, after.fs, st, unlockPath) == Ok(LoadedIdentity(draw.secrets, after.result.value))
  {
    hide Encode, EncryptedIdentity, EncodeUnlockKey, InitDirectories, ProfileOf, LoadIdentityOf;
    IdentityPathsDistinct(st);
    InitDirectoriesKeepFiles(fs, st, faults);
    HeldIdentityLoads(s, InitializeOf(s, fs, st, unlockPath, draw, faults).fs, st, unlockPath, draw);
  }

  /** `initialize` succeeds exactly when the unlock key goes outside the state directory, none of the three
      files exists, the directories are there or can be made, and no write fails. */
  lemma InitializeSucceedsExactly(s: LawfulSuite, fs: Fs, st: StatePaths, unlockPath: Path, draw: InitDraw,
                                  faults: InitFaults)
    ensures InitializeOf(s, fs, st, unlockPath, draw, faults).result.Ok? <==>
            && ReachesWrites(fs, st, unlockPath, faults)
            && faults.unlock.WriteWorks? && faults.public.WriteWorks? && faults.encrypted.WriteWorks?
  {
    hide Encode, EncryptedIdentity, EncodeUnlockKey, InitDirectories, InitChecks, ProfileOf, Written,
         DirectoriesPossible, ReachesWrites;
    ReachesWritesExactly(fs, st, unlockPath, faults);
    IdentityPathsDistinct(st);
    InitDirectoriesKeepFiles(fs, st, faults);
    if ReachesWrites(fs, st, unlockPath, faults) {
      WritesAreOpen(fs, st, unlockPath, faults);
    }
  }

  const NO_FAULTS: InitFaults :=
    InitFaults(DirWorks, DirWorks, DirWorks, WriteWorks, WriteWorks, WriteWorks, true)

  /** The faults after which an identity file stays that no `initialize` will accept: the write of the profile
      breaks off, or the last write fails and the rollback cannot undo all that was done. */
  predicate Strands(faults: InitFaults) {
    && faults.unlock.WriteWorks?
    && (|| faults.public.StopsAfter?
        || (faults.public.WriteWorks?
            && (faults.encrypted.StopsAfter? || (faults.encrypted.OpenFails? && !faults.rollbackWorks))))
  }

  /** What a failed `initialize` leaves does not keep a later one from making the directories. */
  lemma DirectoriesStillMade(s: LawfulSuite, fs: Fs, st: StatePaths, unlockPath: Path, draw: InitDraw,
                             faults: InitFaults)
    requires DirectoriesPossible(fs, st)
    ensures DirectoriesPossible(InitializeOf(s, fs, st, unlockPath, draw, faults).fs, st)
  {
    hide InitializeOf, ReachesWrites;
    var after := InitializeOf(s, fs, st, unlockPath, draw, faults).fs;
    InitializeEffects(s, fs, st, unlockPath, draw, faults);
    InitializeLeftovers(s, fs, st, unlockPath, draw, faults);
    if ReachesWrites(fs, st, unlockPath, faults) {
      WritesAreOpen(fs, st, unlockPath, faults);
    }
    IdentityPathsDistinct(st);
    assert |st.IdentityPublic()| == |st.IdentityEncrypted()| == |st.root| + 2;
    assert st.root <= st.IdentityDir() && st.root <= st.ContactsDir();
  }

  /** `initialize` is not atomic, and this is exactly when it matters. Take an `initialize` that fails, and a
      second one that would have succeeded in its place. After the first, the second succeeds unless the
      first came to its writes and stranded an identity file, or took the unlock path of the second. */
  lemma RetryAfterFailedInitialize(s: LawfulSuite, fs: Fs, st: StatePaths, unlockPath: Path, draw: InitDraw,
                                   faults: InitFaults, laterUnlock: Path, laterDraw: InitDraw)
    requires InitializeOf(s, fs, st, unlockPath, draw, faults).result.Err?
    requires InitializeOf(s, fs, st, laterUnlock, laterDraw, NO_FAULTS).result.Ok?
    ensures var after := InitializeOf(s, fs, st, unlockPath, draw, faults).fs;
            InitializeOf(s, after, st, laterUnlock, laterDraw, NO_FAULTS).result.Ok? <==>
            !(ReachesWrites(fs, st, unlockPath, faults)
              && (Strands(faults) || (laterUnlock == unlockPath && !faults.unlock.OpenFails?)))
  {
    hide InitializeOf, DirectoriesPossible;
    var after := InitializeOf(s, fs, st, unlockPath, draw, faults).fs;
    InitializeSucceedsExactly(s, fs, st, unlockPath, draw, faults);
    InitializeSucceedsExactly(s, fs, st, laterUnlock, laterDraw, NO_FAULTS);
    InitializeSucceedsExactly(s, after, st, laterUnlock, laterDraw, NO_FAULTS);
    InitializeLeftovers(s, fs, st, unlockPath, draw, faults);
    InitializeEffects(s, fs, st, unlockPath, draw, faults);
    DirectoriesStillMade(s, fs, st, unlockPath, draw, faults);
    IdentityPathsDistinct(st);
    assert |st.IdentityPublic()| == |st.IdentityEncrypted()| == |st.root| + 2;
    assert st.root <= st.IdentityDir() && st.root <= st.ContactsDir();
  }

  /** What exactly a broken last write leaves when the rollback works: the unlock key stays, part of the encrypted
      identity stays, the public profile is rolled back, and every later `initialize` is refused. */
  lemma InitializeIsNotAtomic(s: LawfulSuite, fs: Fs, st: StatePaths, unlockPath: Path, draw: InitDraw,
                              faults: InitFaults, laterUnlock: Path, laterDraw: InitDraw, laterFaults: InitFaults)
    requires faults.encrypted.StopsAfter? && faults.rollbackWorks
    requires InitializeOf(s, fs, st, unlockPath, draw, faults.(encrypted := WriteWorks)).result.Ok?
    ensures var after := InitializeOf(s, fs, st, unlockPath, draw, faults).fs;
            && unlockPath in after.files && after.files[unlockPath] == EncodeUnlockKey(draw.unlockKey)
            && st.IdentityEncrypted() in after.files
            && after.files[st.IdentityEncrypted()]
               == Written(EncryptedIdentity(s, draw.secrets, draw.unlockKey, draw.nonce), faults.encrypted)
            && st.IdentityPublic() !in after.files
            && LoadIdentityOf(s, after, st, unlockPath).Err?
            && InitializeOf(s, after, st, laterUnlock, laterDraw, laterFaults).result.Err?
  {
    hide Encode, EncryptedIdentity, EncodeUnlockKey, ProfileOf, ParseUnlockKeyOf, DecryptIdentity, Parse;
    IdentityPathsDistinct(st);
    InitDirectoriesKeepFiles(fs, st, faults);
    assert InitDirectories(fs, st, faults) == InitDirectories(fs, st, faults.(encrypted := WriteWorks));
    hide InitDirectories;
  }

  // ---------------------------------------------------------------- contacts

  function ContactOf(s: LawfulSuite, fs: Fs, st: StatePaths, alias: Bytes): Result<Contact> {
    if !ValidateAlias(alias) then Invalid(BadAlias)
    else
      var read := ReadRegularLimited(fs, st.ContactPath(alias), 512);
      if read == Err(Io(Missing)) then Err(NotPinned)
      else
        var bytes :- read;
        var profile :- Parse(s, bytes);
        Ok(Contact(alias, profile))
  }

  function TrustProfileOf(s: LawfulSuite, fs: Fs, st: StatePaths, source: Path, alias: Bytes,
                          dirFault: DirFault, writeFault: WriteFault): Outcome<PublicProfile> {
    if !ValidateAlias(alias) then Outcome(fs, Invalid(BadAlias))
    else
      var read := ReadRegularLimited(fs, source, 512);
      if read.Err? then Outcome(fs, Err(read.error))
      else
        var parsed := Parse(s, read.value);
        if parsed.Err? then Outcome(fs, Err(parsed.error))
        else
          var made := CreatePrivateDirectoryOf(fs, st.ContactsDir(), dirFault);
          if made.result.Err? then Outcome(made.fs, Err(made.result.error))
          else if made.fs.Exists(st.ContactPath(alias)) then
            Outcome(made.fs, PinAgrees(s, made.fs, st.ContactPath(alias), parsed.value))
          else
            var write := WriteNewOf(made.fs, st.ContactPath(alias), Encode(parsed.value), writeFault);
            Outcome(write.fs, if write.result.Ok? then Ok(parsed.value) else Err(write.result.error))
  }

  /** The comparison of a profile with the one pinned at `path`. */
  function PinAgrees(s: LawfulSuite, fs: Fs, path: Path, profile: PublicProfile): Result<PublicProfile> {
    var bytes :- ReadRegularLimited(fs, path, 512);
    var pinned :- Parse(s, bytes);
    if pinned == profile then Ok(profile) else Err(IdentityMismatch)
  }

  /** A successful `trust` pins: the contact then reads back as the profile of the source file. */
  lemma TrustPins(s: LawfulSuite, fs: Fs, st: StatePaths, source: Path, alias: Bytes,
                  dirFault: DirFault, writeFault: WriteFault)
    requires TrustProfileOf(s, fs, st, source, alias, dirFault, writeFault).result.Ok?
    ensures var after := TrustProfileOf(s, fs, st, source, alias, dirFault, writeFault);
            && ContactOf(s, after.fs, st, alias) == Ok(Contact(alias, after.result.value))
            && source in fs.files && fs.files[source] == Encode(after.result.value)
  {
    hide Parse, Encode;
    var after := TrustProfileOf(s, fs, st, source, alias, dirFault, writeFault);
    var profile := after.result.value;
    ParseExact(s, fs.files[source], profile);
    var made := CreatePrivateDirectoryOf(fs, st.ContactsDir(), dirFault);
    if !made.fs.Exists(st.ContactPath(alias)) {
      ParseExact(s, Encode(profile), profile);
    }
  }

  /** A new alias is pinned exactly when its name is valid, the source file is a profile, the contacts
      directory is there or can be made, and the write does not fail. */
  lemma TrustNewSucceedsExactly(s: LawfulSuite, fs: Fs, st: StatePaths, source: Path, alias: Bytes,
                                dirFault: DirFault, writeFault: WriteFault)
    requires !fs.Exists(st.ContactPath(alias))
    ensures TrustProfileOf(s, fs, st, source, alias, dirFault, writeFault).result.Ok? <==>
            && ValidateAlias(alias)
            && source !in fs.dirs && source in fs.files && Parse(s, fs.files[source]).Ok?
            && dirFault.DirWorks? && writeFault.WriteWorks?
            && (st.ContactsDir() in fs.dirs || (!fs.Exists(st.ContactsDir()) && st.root in fs.dirs))
    ensures !ValidateAlias(alias) || source !in fs.files || Parse(s, fs.files[source]).Err? ==>
              TrustProfileOf(s, fs, st, source, alias, dirFault, writeFault).fs == fs
  {
    hide Parse, Encode;
    assert Parent(st.ContactPath(alias)) == st.ContactsDir() && Parent(st.ContactsDir()) == st.root;
    assert st.ContactPath(alias) != st.ContactsDir();
    if source in fs.files && Parse(s, fs.files[source]).Ok? {
      ParseExact(s, fs.files[source], Parse(s, fs.files[source]).value);
    }
  }

  /** Once an alias is pinned, `trust` under that alias changes no file, confirms exactly the pinned profile
      and answers every other one with a mismatch. */
  lemma TrustAnswersForPin(s: LawfulSuite, fs: Fs, st: StatePaths, source: Path, alias: Bytes,
                           dirFault: DirFault, writeFault: WriteFault, pinned: PublicProfile)
    requires fs.Valid() && ContactOf(s, fs, st, alias) == Ok(Contact(alias, pinned))
    ensures var after := TrustProfileOf(s, fs, st, source, alias, dirFault, writeFault);
            && after.fs == fs
            && (after.result.Ok? ==> after.result.value == pinned)
            && (dirFault.DirWorks? && source in fs.files && Parse(s, fs.files[source]).Ok? ==>
                  after.result == if Parse(s, fs.files[source]).value == pinned
                                  then Ok(pinned) else Err(IdentityMismatch))
  {
    hide Parse, Encode;
    assert Parent(st.ContactPath(alias)) == st.ContactsDir();
    if source in fs.files && Parse(s, fs.files[source]).Ok? {
      ParseExact(s, fs.files[source], Parse(s, fs.files[source]).value);
    }
  }

  /** A `trust` of one alias, successful or not, leaves the look-up of every other alias as it was. */
  lemma TrustLeavesOthers(s: LawfulSuite, fs: Fs, st: StatePaths, source: Path, alias: Bytes,
                          dirFault: DirFault, writeFault: WriteFault, other: Bytes)
    requires other != alias
    ensures ContactOf(s, TrustProfileOf(s, fs, st, source, alias, dirFault, writeFault).fs, st, other)
         == ContactOf(s, fs, st, other)
  {
    hide Parse, Encode, ValidateAlias;
    if st.ContactPath(other) == st.ContactPath(alias) {
      ContactPathInjective(st, other, alias);
    }
    assert |st.ContactPath(other)| == |st.ContactsDir()| + 1;
  }

  // ---------------------------------------------------------------- all contacts

  ghost predicate Distinct(names: seq<Name>) {
    forall i, j :: 0 <= i < j < |names| ==> names[i] != names[j]
  }

  /** `listing` is what `read_dir` enumerates, in any order. */
  ghost predicate IsListing(fs: Fs, dir: Path, listing: seq<Name>) {
    && Distinct(listing)
    && (forall n: Name :: n in listing <==> fs.Exists(dir + [n]))
  }

  lemma {:induction false} Enumerate(names: set<Name>) returns (listing: seq<Name>)
    ensures Distinct(listing) && forall n :: n in listing <==> n in names
  {
    if names == {} {
      listing := [];
    } else {
      var first :| first in names;
      var rest := Enumerate(names - {first});
      listing := [first] + rest;
      forall i, j | 0 <= i < j < |listing|
        ensures listing[i] != listing[j]
      {
        assert rest[j - 1] in rest;
      }
    }
  }

  /** Every directory of every file system can be enumerated, so no statement about listings is empty. */
  lemma ListingExists(fs: Fs, dir: Path) returns (listing: seq<Name>)
    ensures IsListing(fs, dir, listing)
  {
    var paths := fs.files.Keys + fs.dirs;
    var names := set p | p in paths && |p| == |dir| + 1 && p[..|dir|] == dir :: p[|dir|];
    listing := Enumerate(names);
    forall n: Name
      ensures n in names <==> fs.Exists(dir + [n])
    {
      var p := dir + [n];
      assert |p| == |dir| + 1 && p[..|dir|] == dir && p[|dir|] == n;
      if n in names {
        var q :| q in paths && |q| == |dir| + 1 && q[..|dir|] == dir && q[|dir|] == n;
        assert q == p;
      }
    }
  }

  function ContactNames(listing: seq<Name>): (names: seq<Name>)
    ensures forall n :: n in names <==> n in listing && IsContactName(n)
  {
    if listing == [] then []
    else if IsContactName(listing[0]) then [listing[0]] + ContactNames(listing[1..])
    else ContactNames(listing[1..])
  }

  ghost predicate Ordered(names: seq<Name>) {
    forall i, j :: 0 <= i < j < |names| ==> LexLeq(names[i], names[j]) && names[i] != names[j]
  }

  function Insert(name: Name, names: seq<Name>): (r: seq<Name>)
    ensures forall n :: n in r <==> n == name || n in names
  {
    if names == [] || LexLeq(name, names[0]) then [name] + names
    else [names[0]] + Insert(name, names[1..])
  }

  /** `paths.sort()`, for paths in one directory. */
  function SortNames(names: seq<Name>): (r: seq<Name>)
    ensures forall n :: n in r <==> n in names
  {
    if names == [] then [] else Insert(names[0], SortNames(names[1..]))
  }

  function LoadContact(s: LawfulSuite, fs: Fs, dir: Path, name: Name): Result<Contact> {
    if !ValidateAlias(FileStem(name)) then Invalid(BadContactFile)
    else
      var bytes :- ReadRegularLimited(fs, dir + [name], 512);
      var profile :- Parse(s, bytes);
      Ok(Contact(FileStem(name), profile))
  }

  /** The entry at `i` is the first that does not load. */
  ghost predicate FirstBad(s: LawfulSuite, fs: Fs, dir: Path, names: seq<Name>, i: nat)
    requires i < |names|
  {
    LoadContact(s, fs, dir, names[i]).Err? && forall j :: 0 <= j < i ==> LoadContact(s, fs, dir, names[j]).Ok?
  }

  function LoadContacts(s: LawfulSuite, fs: Fs, dir: Path, names: seq<Name>): (r: Result<seq<Contact>>)
    ensures r.Ok? ==> |r.value| == |names|
    ensures r.Ok? ==> forall i :: 0 <= i < |names| ==> LoadContact(s, fs, dir, names[i]) == Ok(r.value[i])
    ensures r.Err? ==> exists i :: 0 <= i < |names| && FirstBad(s, fs, dir, names, i)
                                   && LoadContact(s, fs, dir, names[i]) == Err(r.error)
  {
    if names == [] then Ok([])
    else
      var first :- LoadContact(s, fs, dir, names[0]);
      var rest :- LoadContacts(s, fs, dir, names[1..]);
      Ok([first] + rest)
  }

  function AllContactsOf(s: LawfulSuite, fs: Fs, st: StatePaths, listing: seq<Name>): Result<seq<Contact>> {
    if !fs.Exists(st.ContactsDir()) then Ok([])
    else
      var _ :- EnsureRealDirectory(fs, st.ContactsDir());
      LoadContacts(s, fs, st.ContactsDir(), SortNames(ContactNames(listing)))
  }

  lemma {:induction false} InsertOrdered(name: Name, names: seq<Name>)
    requires Ordered(names) && name !in names
    ensures Ordered(Insert(name, names))
  {
    if names == [] {
    } else if LexLeq(name, names[0]) {
      forall j | 0 <= j < |names|
        ensures LexLeq(name, names[j])
      {
        if j > 0 {
          LexTransitive(name, names[0], names[j]);
        }
      }
    } else {
      LexTotal(name, names[0]);
      var rest := names[1..];
      assert Ordered(rest);
      InsertOrdered(name, rest);
      var r := Insert(name, rest);
      forall j | 0 <= j < |r|
        ensures LexLeq(names[0], r[j]) && names[0] != r[j]
      {
        assert r[j] in r;
        if r[j] != name {
          var k :| 0 <= k < |rest| && rest[k] == r[j];
          assert names[k + 1] == r[j];
        }
      }
    }
  }

  lemma {:induction false} SortOrdered(names: seq<Name>)
    requires Distinct(names)
    ensures Ordered(SortNames(names))
  {
    if names != [] {
      SortOrdered(names[1..]);
      assert names[0] !in names[1..];
      InsertOrdered(names[0], SortNames(names[1..]));
    }
  }

  lemma {:induction false} ContactNamesDistinct(listing: seq<Name>)
    requires Distinct(listing)
    ensures Distinct(ContactNames(listing))
  {
    if listing != [] {
      var rest := listing[1..];
      ContactNamesDistinct(rest);
      assert listing[0] !in rest;
      var tail := ContactNames(rest);
      assert listing[0] !in tail;
      var all: seq<Name> := [listing[0]] + tail;
      forall i: nat, j: nat | i < j < |all|
        ensures all[i] != all[j]
      {
        assert tail[j - 1] in tail;
      }
    }
  }

  /** An ordered sequence is determined by its members. */
  lemma {:induction false} OrderedUnique(a: seq<Name>, b: seq<Name>)
    requires Ordered(a) && Ordered(b)
    requires forall n :: n in a <==> n in b
    ensures a == b
  {
    assert b != [] ==> b[0] in b;
    if a != [] {
      assert a[0] in b && b != [] && b[0] in a;
      if a[0] != b[0] {
        var i :| 0 <= i < |b| && b[i] == a[0];
        var j :| 0 <= j < |a| && a[j] == b[0];
        LexAntisymmetric(a[0], b[0]);
      }
      forall n
        ensures n in a[1..] <==> n in b[1..]
      {
        assert n in a <==> n == a[0] || n in a[1..];
        assert n in b <==> n == b[0] || n in b[1..];
        assert a[0] !in a[1..] && b[0] !in b[1..];
      }
      OrderedUnique(a[1..], b[1..]);
      assert a == [a[0]] + a[1..] && b == [b[0]] + b[1..];
    }
  }

  lemma NamesOfListing(fs: Fs, dir: Path, listing: seq<Name>)
    requires IsListing(fs, dir, listing)
    ensures var names := SortNames(ContactNames(listing));
            && Ordered(names)
            && (forall n :: n in names <==> fs.Exists(dir + [n]) && IsContactName(n))
  {
    ContactNamesDistinct(listing);
    SortOrdered(ContactNames(listing));
  }

  /** The result does not depend on the order in which the directory is enumerated. */
  lemma AllContactsOrderFree(s: LawfulSuite, fs: Fs, st: StatePaths, listing: seq<Name>, listing': seq<Name>)
    requires IsListing(fs, st.ContactsDir(), listing) && IsListing(fs, st.ContactsDir(), listing')
    ensures AllContactsOf(s, fs, st, listing) == AllContactsOf(s, fs, st, listing')
  {
    NamesOfListing(fs, st.ContactsDir(), listing);
    NamesOfListing(fs, st.ContactsDir(), listing');
    OrderedUnique(SortNames(ContactNames(listing)), SortNames(ContactNames(listing')));
  }

  /** Reading a contact by alias and reading its directory entry are the same thing. */
  lemma LoadContactIsContact(s: LawfulSuite, fs: Fs, st: StatePaths, name: Name, contact: Contact)
    requires IsContactName(name) && fs.Exists(st.ContactsDir() + [name])
    ensures LoadContact(s, fs, st.ContactsDir(), name) == Ok(contact) <==>
            ContactOf(s, fs, st, contact.alias) == Ok(contact) && name == ContactFileName(contact.alias)
  {
    hide Parse;
    if ValidateAlias(contact.alias) {
      AliasNameBijection(contact.alias, name);
    }
    if ValidateAlias(FileStem(name)) {
      AliasNameBijection(FileStem(name), name);
    }
  }

  /** A successful listing has distinct aliases in file-name order and holds exactly the contacts that can
      be looked up one by one. */
  lemma AllContactsExact(s: LawfulSuite, fs: Fs, st: StatePaths, listing: seq<Name>)
    requires fs.Valid() && IsListing(fs, st.ContactsDir(), listing)
    requires AllContactsOf(s, fs, st, listing).Ok?
    ensures var contacts := AllContactsOf(s, fs, st, listing).value;
            && (forall i, j :: 0 <= i < j < |contacts| ==>
                  && LexLeq(ContactFileName(contacts[i].alias), ContactFileName(contacts[j].alias))
                  && contacts[i].alias != contacts[j].alias)
            && (forall c: Contact :: c in contacts <==> ContactOf(s, fs, st, c.alias) == Ok(c))
  {
    hide Parse, LexLeq, SortNames, ContactNames;
    var dir := st.ContactsDir();
    var contacts := AllContactsOf(s, fs, st, listing).value;
    if !fs.Exists(dir) {
      forall c: Contact
        ensures ContactOf(s, fs, st, c.alias) != Ok(c)
      {
        assert Parent(st.ContactPath(c.alias)) == dir;
      }
    } else {
      var names := SortNames(ContactNames(listing));
      NamesOfListing(fs, dir, listing);
      forall i | 0 <= i < |names|
        ensures ContactOf(s, fs, st, contacts[i].alias) == Ok(contacts[i])
        ensures names[i] == ContactFileName(contacts[i].alias)
      {
        assert names[i] in names;
        LoadContactIsContact(s, fs, st, names[i], contacts[i]);
      }
      forall c: Contact | ContactOf(s, fs, st, c.alias) == Ok(c)
        ensures c in contacts
      {
        var name := ContactFileName(c.alias);
        AliasNameBijection(c.alias, name);
        assert st.ContactPath(c.alias) == dir + [name];
        assert name in names;
        var i :| 0 <= i < |names| && names[i] == name;
        LoadContactIsContact(s, fs, st, name, c);
        assert contacts[i] == c;
      }
    }
  }

  lemma {:induction false} LoadContactsSucceeds(s: LawfulSuite, fs: Fs, dir: Path, names: seq<Name>)
    ensures LoadContacts(s, fs, dir, names).Ok? <==> forall n :: n in names ==> LoadContact(s, fs, dir, n).Ok?
  {
    hide LoadContact;
    if names != [] {
      LoadContactsSucceeds(s, fs, dir, names[1..]);
      assert names == [names[0]] + names[1..];
    }
  }

  /** The contacts can be listed exactly when every directory entry with the extension is a contact: one bad
      file spoils the whole listing, and nothing else does. */
  lemma AllContactsSucceedsExactly(s: LawfulSuite, fs: Fs, st: StatePaths, listing: seq<Name>)
    requires fs.Valid() && IsListing(fs, st.ContactsDir(), listing)
    ensures var dir := st.ContactsDir();
            AllContactsOf(s, fs, st, listing).Ok? <==>
            && dir !in fs.files
            && forall n :: fs.Exists(dir + [n]) && IsContactName(n) ==> LoadContact(s, fs, dir, n).Ok?
  {
    hide LoadContact, LoadContacts, SortNames, ContactNames;
    var dir := st.ContactsDir();
    forall n: Name
      ensures Parent(dir + [n]) == dir
    {
      assert (dir + [n])[..|dir|] == dir;
    }
    NamesOfListing(fs, dir, listing);
    LoadContactsSucceeds(s, fs, dir, SortNames(ContactNames(listing)));
  }

  // ---------------------------------------------------------------- a trust that fails in its write

  /** The write of a pin breaks off in front of its last byte. */
  predicate BreaksPin(fault: WriteFault) {
    fault.StopsAfter? && fault.written < 240
  }

  /** All that a `trust` does which comes to write a new pin and fails there. */
  lemma FailedTrustLeaves(s: LawfulSuite, fs: Fs, st: StatePaths, source: Path, alias: Bytes, writeFault: WriteFault)
    requires fs.Valid() && !fs.Exists(st.ContactPath(alias)) && !writeFault.WriteWorks?
    requires TrustProfileOf(s, fs, st, source, alias, DirWorks, WriteWorks).result.Ok?
    ensures var profile := TrustProfileOf(s, fs, st, source, alias, DirWorks, WriteWorks).result.value;
            var failed := TrustProfileOf(s, fs, st, source, alias, DirWorks, writeFault);
            var path := st.ContactPath(alias);
            && failed.result.Err? && failed.fs.Valid() && ValidateAlias(alias) && WellFormed(s, profile)
            && source !in fs.dirs && source in fs.files && fs.files[source] == Encode(profile)
            && failed.fs.dirs == fs.dirs + {st.ContactsDir()} && st.ContactsDir() !in fs.files
            && failed.fs.files == if writeFault.OpenFails? then fs.files
                                  else fs.files[path := Encode(profile)[..Min(writeFault.written, 240)]]
  {
    hide Parse, Encode;
    var profile := TrustProfileOf(s, fs, st, source, alias, DirWorks, WriteWorks).result.value;
    ParseExact(s, fs.files[source], profile);
    assert Parent(st.ContactPath(alias)) == st.ContactsDir() && Parent(st.ContactsDir()) == st.root;
    assert |st.ContactPath(alias)| == |st.ContactsDir()| + 1;
  }

  /** What is left of a broken pin never parses, and nothing else spoils one. */
  lemma LeftPinParses(s: LawfulSuite, profile: PublicProfile, written: nat)
    requires WellFormed(s, profile)
    ensures written < 240 ==> Parse(s, Encode(profile)[..Min(written, 240)]).Err?
    ensures written >= 240 ==> Parse(s, Encode(profile)[..Min(written, 240)]) == Ok(profile)
  {
    hide Parse, Encode;
    if written < 240 {
      ProperPrefixRejected(s, profile, written);
    } else {
      assert Encode(profile)[..240] == Encode(profile);
      ParseExact(s, Encode(profile), profile);
    }
  }

  /** Exactly what a `trust` of a new alias that fails in its write does to the alias. Trying again works
      unless the write broke off inside the file. The alias is pinned, although `trust` answered with an
      error, exactly when the failure came after the last byte. */
  lemma FailedTrustExactly(s: LawfulSuite, fs: Fs, st: StatePaths, source: Path, alias: Bytes,
                           writeFault: WriteFault)
    requires fs.Valid() && !fs.Exists(st.ContactPath(alias)) && !writeFault.WriteWorks?
    requires TrustProfileOf(s, fs, st, source, alias, DirWorks, WriteWorks).result.Ok?
    ensures var profile := TrustProfileOf(s, fs, st, source, alias, DirWorks, WriteWorks).result.value;
            var failed := TrustProfileOf(s, fs, st, source, alias, DirWorks, writeFault);
            && failed.result.Err?
            && (TrustProfileOf(s, failed.fs, st, source, alias, DirWorks, WriteWorks).result.Ok? <==>
                  !BreaksPin(writeFault))
            && (ContactOf(s, failed.fs, st, alias).Ok? <==> writeFault.StopsAfter? && !BreaksPin(writeFault))
            && (ContactOf(s, failed.fs, st, alias).Ok? ==>
                  ContactOf(s, failed.fs, st, alias) == Ok(Contact(alias, profile)))
  {
    hide Parse, Encode;
    var profile := TrustProfileOf(s, fs, st, source, alias, DirWorks, WriteWorks).result.value;
    FailedTrustLeaves(s, fs, st, source, alias, writeFault);
    ParseExact(s, Encode(profile), profile);
    if writeFault.StopsAfter? {
      LeftPinParses(s, profile, writeFault.written);
    }
    assert Parent(st.ContactPath(alias)) == st.ContactsDir() && Parent(st.ContactsDir()) == st.root;
    assert |st.ContactPath(alias)| == |st.ContactsDir()| + 1;
  }

  /** The listing survives such a `trust` exactly when it worked before and the write did not break off inside
      the file. */
  lemma ListingAfterFailedTrust(s: LawfulSuite, fs: Fs, st: StatePaths, source: Path, alias: Bytes,
                                writeFault: WriteFault, listing: seq<Name>, later: seq<Name>)
    requires fs.Valid() && !fs.Exists(st.ContactPath(alias)) && !writeFault.WriteWorks?
    requires TrustProfileOf(s, fs, st, source, alias, DirWorks, WriteWorks).result.Ok?
    requires IsListing(fs, st.ContactsDir(), listing)
    requires IsListing(TrustProfileOf(s, fs, st, source, alias, DirWorks, writeFault).fs, st.ContactsDir(), later)
    ensures AllContactsOf(s, TrustProfileOf(s, fs, st, source, alias, DirWorks, writeFault).fs, st, later).Ok? <==>
            AllContactsOf(s, fs, st, listing).Ok? && !BreaksPin(writeFault)
  {
    hide Parse, Encode, TrustProfileOf, AllContactsOf, IsContactName, ValidateAlias, FileStem, ContactFileName;
    var profile := TrustProfileOf(s, fs, st, source, alias, DirWorks, WriteWorks).result.value;
    var failed := TrustProfileOf(s, fs, st, source, alias, DirWorks, writeFault).fs;
    var dir, name := st.ContactsDir(), ContactFileName(alias);
    FailedTrustLeaves(s, fs, st, source, alias, writeFault);
    AliasNameBijection(alias, name);
    AllContactsSucceedsExactly(s, fs, st, listing);
    AllContactsSucceedsExactly(s, failed, st, later);
    assert st.ContactPath(alias) == dir + [name];
    forall n: Name
      ensures dir + [n] != dir && (dir + [n])[|dir|] == n
    {
    }
    if writeFault.StopsAfter? {
      LeftPinParses(s, profile, writeFault.written);
      assert LoadContact(s, failed, dir, name).Ok? <==> !BreaksPin(writeFault);
    }
    forall n | n != name || writeFault.OpenFails?
      ensures failed.Exists(dir + [n]) <==> fs.Exists(dir + [n])
      ensures LoadContact(s, failed, dir, n) == LoadContact(s, fs, dir, n)
    {
      assert dir + [n] == st.ContactPath(alias) ==> n == name;
    }
  }
}
