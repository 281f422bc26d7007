/** The store as the source runs it: a disk that is changed step by step. Every method is proved against
    the function of the same operation in module Store. */
module Disks {
  import opened Results
  import opened ByteStrings
  import opened Primitives
  import opened Identity
  import opened Contacts
  import opened Store

  class Disk {
    var files: map<Path, Bytes>
    var dirs: set<Path>

    function View(): Fs
      reads this
    {
      Fs(files, dirs)
    }

    constructor (fs: Fs)
      ensures View() == fs
    {
      files := fs.files;
      dirs := fs.dirs;
    }

    method CreatePrivateDirectory(path: Path, fault: DirFault) returns (r: Result<()>)
      modifies this
      ensures Outcome(View(), r) == CreatePrivateDirectoryOf(old(View()), path, fault)
    {
      if View().Exists(path) {
        var _ :- EnsureRealDirectory(View(), path);
        return if fault.DirWorks? then Ok(()) else Err(Io(Other));
      }
      if Parent(path) !in dirs {
        return Err(Io(IoKind.Missing));
      }
      if fault.DirFails? {
        return Err(Io(Other));
      }
      dirs := dirs + {path};
      r := if fault.DirWorks? then Ok(()) else Err(Io(Other));
    }

    /** Exclusive creation, then writes of any positive size until everything is written or the fault
        strikes. The sizes of the single writes do not show in the result. */
    method WriteNewPrivate(path: Path, bytes: Bytes, fault: WriteFault) returns (r: Result<()>)
      modifies this
      ensures Outcome(View(), r) == WriteNewOf(old(View()), path, bytes, fault)
    {
      var _ :- EnsureRealDirectory(View(), Parent(path));
      if View().Exists(path) {
        return Err(Io(AlreadyExists));
      }
      if fault.OpenFails? {
        return Err(Io(Other));
      }
      ghost var before := files;
      files := files[path := []];
      var goal := |Written(bytes, fault)|;
      var written := 0;
      while written < goal
        invariant written <= goal
        invariant files == before[path := bytes[..written]]
        invariant dirs == old(dirs)
      {
        var size: int :| 1 <= size <= goal - written;
        files := files[path := files[path] + bytes[written..written + size]];
        assert bytes[..written] + bytes[written..written + size] == bytes[..written + size];
        written := written + size;
      }
      assert bytes[..|bytes|] == bytes;
      r := if fault.WriteWorks? then Ok(()) else Err(Io(Other));
    }

    method RemoveFile(path: Path)
      modifies this
      ensures files == old(files) - {path} && dirs == old(dirs)
    {
      files := files - {path};
    }

    /** Only a regular file is removed, and nothing but that file. */
    method ConsumeBlob(path: Path, removable: bool) returns (r: Result<()>)
      modifies this
      ensures Outcome(View(), r) == ConsumeBlobOf(old(View()), path, removable)
    {
      if path in dirs {
        return Invalid(NotRegularFile);
      }
      if path !in files {
        return Err(Io(IoKind.Missing));
      }
      if !removable {
        return Err(Io(Other));
      }
      RemoveFile(path);
      r := Ok(());
    }

    method Initialize(s: LawfulSuite, st: StatePaths, unlockPath: Path, draw: InitDraw, faults: InitFaults)
      returns (r: Result<PublicProfile>)
      modifies this
      ensures Outcome(View(), r) == InitializeOf(s, old(View()), st, unlockPath, draw, faults)
      ensures r.Ok? ==> HoldsIdentity(s, View(), st, unlockPath, draw)
    {
      InitializeFacts(s, View(), st, unlockPath, draw, faults);
      if st.root <= unlockPath {
        return Invalid(UnlockInsideState);
      }
      if View().Exists(st.IdentityPublic()) {
        return Invalid(IdentityExists);
      }
      if View().Exists(st.IdentityEncrypted()) {
        return Invalid(IdentityExists);
      }
      if View().Exists(unlockPath) {
        return Invalid(UnlockExists);
      }
      var _ :- EnsureRealDirectory(View(), Parent(unlockPath));
      var _ :- CreatePrivateDirectory(st.root, faults.root);
      var _ :- CreatePrivateDirectory(st.IdentityDir(), faults.identity);
      var _ :- CreatePrivateDirectory(st.ContactsDir(), faults.contacts);
      var profile := ProfileOf(s, draw.secrets);
      var encrypted := EncryptPrivateIdentity(s, draw.secrets, draw.unlockKey, draw.nonce);
      var unlockText := PrintUnlockKey(draw.unlockKey);
      var _ :- WriteNewPrivate(unlockPath, unlockText, faults.unlock);
      var profileText := EncodeProfile(profile);
      var _ :- WriteNewPrivate(st.IdentityPublic(), profileText, faults.public);
      var last := WriteNewPrivate(st.IdentityEncrypted(), encrypted, faults.encrypted);
      if last.Err? {
        if faults.rollbackWorks {
          RemoveFile(st.IdentityPublic());
        }
        return Err(last.error);
      }
      r := Ok(profile);
    }

    method TrustProfile(s: LawfulSuite, st: StatePaths, source: Path, alias: Bytes,
                        dirFault: DirFault, writeFault: WriteFault) returns (r: Result<PublicProfile>)
      modifies this
      ensures Outcome(View(), r) == TrustProfileOf(s, old(View()), st, source, alias, dirFault, writeFault)
    {
      if !ValidateAlias(alias) {
        return Invalid(BadAlias);
      }
      var bytes :- ReadRegularLimited(View(), source, 512);
      var profile :- ParseProfile(s, bytes);
      var _ :- CreatePrivateDirectory(st.ContactsDir(), dirFault);
      var destination := st.ContactPath(alias);
      if View().Exists(destination) {
        var pinnedBytes :- ReadRegularLimited(View(), destination, 512);
        var pinned :- ParseProfile(s, pinnedBytes);
        return if pinned == profile then Ok(profile) else Err(IdentityMismatch);
      }
      var text := EncodeProfile(profile);
      var _ :- WriteNewPrivate(destination, text, writeFault);
      r := Ok(profile);
    }

    method LoadIdentity(s: LawfulSuite, st: StatePaths, unlockPath: Path) returns (r: Result<LoadedIdentity>)
      ensures r == LoadIdentityOf(s, View(), st, unlockPath)
    {
      var unlockBytes :- ReadRegularLimited(View(), unlockPath, 128);
      var unlockKey :- ParseUnlockKey(unlockBytes);
      var encrypted :- ReadRegularLimited(View(), st.IdentityEncrypted(), 512);
      var publicBytes :- ReadRegularLimited(View(), st.IdentityPublic(), 512);
      var profile :- ParseProfile(s, publicBytes);
      var secrets := DecryptIdentity(s, encrypted, unlockKey);
      if secrets.Err? {
        return Invalid(CannotUnlock);
      }
      if ProfileOf(s, secrets.value) != profile {
        return Invalid(IdentityDiffers);
      }
      r := Ok(LoadedIdentity(secrets.value, profile));
    }

    /** The first loop of `all_contacts`: the entries with the right extension. */
    method CollectNames(listing: seq<Name>) returns (names: seq<Name>)
      ensures names == ContactNames(listing)
    {
      names := [];
      for i := 0 to |listing|
        invariant names + ContactNames(listing[i..]) == ContactNames(listing)
      {
        assert listing[i..][1..] == listing[i + 1..];
        if IsContactName(listing[i]) {
          names := names + [listing[i]];
        }
      }
    }

    /** The second loop: the first entry that cannot be read, named or parsed decides the error. */
    method ReadContacts(s: LawfulSuite, dir: Path, names: seq<Name>) returns (r: Result<seq<Contact>>)
      ensures r == LoadContacts(s, View(), dir, names)
    {
      ghost var fs := View();
      var contacts: seq<Contact> := [];
      ghost var all := LoadContacts(s, fs, dir, names);
      assert names[0..] == names && (all.Ok? ==> contacts + all.value == all.value);
      for i := 0 to |names|
        invariant all == Prepend(contacts, LoadContacts(s, fs, dir, names[i..]))
      {
        assert names[i..][1..] == names[i + 1..];
        var name := names[i];
        var alias := FileStem(name);
        if !ValidateAlias(alias) {
          return Invalid(BadContactFile);
        }
        var bytes :- ReadRegularLimited(View(), dir + [name], 512);
        var profile :- ParseProfile(s, bytes);
        assert LoadContact(s, fs, dir, name) == Ok(Contact(alias, profile));
        PrependTwice(contacts, Contact(alias, profile), LoadContacts(s, fs, dir, names[i + 1..]));
        contacts := contacts + [Contact(alias, profile)];
      }
      r := Ok(contacts);
      assert contacts + [] == contacts;
    }

    /** `all_contacts`, over whatever order `read_dir` produced. */
    method AllContacts(s: LawfulSuite, st: StatePaths, listing: seq<Name>) returns (r: Result<seq<Contact>>)
      ensures r == AllContactsOf(s, View(), st, listing)
    {
      if !View().Exists(st.ContactsDir()) {
        return Ok([]);
      }
      var _ :- EnsureRealDirectory(View(), st.ContactsDir());
      var names := CollectNames(listing);
      names := SortNames(names);
      r := ReadContacts(s, st.ContactsDir(), names);
    }
  }

  /** What the method needs to know about its specification. */
  lemma InitializeFacts(s: LawfulSuite, fs: Fs, st: StatePaths, unlockPath: Path, draw: InitDraw,
                        faults: InitFaults)
    ensures var after := InitializeOf(s, fs, st, unlockPath, draw, faults);
            after.result.Ok? ==> HoldsIdentity(s, after.fs, st, unlockPath, draw)
  {
    if InitializeOf(s, fs, st, unlockPath, draw, faults).result.Ok? {
      InitializeThenLoad(s, fs, st, unlockPath, draw, faults);
    }
  }

  /** The contacts loaded so far in front of the remaining ones. */
  ghost function Prepend(contacts: seq<Contact>, rest: Result<seq<Contact>>): Result<seq<Contact>> {
    if rest.Err? then rest else Ok(contacts + rest.value)
  }

  lemma PrependTwice(contacts: seq<Contact>, next: Contact, rest: Result<seq<Contact>>)
    ensures Prepend(contacts + [next], rest)
         == Prepend(contacts, if rest.Err? then rest else Ok([next] + rest.value))
  {
    if rest.Ok? {
      assert contacts + [next] + rest.value == contacts + ([next] + rest.value);
    }
  }
}
