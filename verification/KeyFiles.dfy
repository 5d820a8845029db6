// Changing the passphrase of a private key file, and exporting a key pair,
// as transactions on a file system that may fail at any operation.
module KeyFiles {
  import opened Options
  import opened Decimals
  import opened FileSystem

  // The cryptography is a parameter. Encrypting draws a random number.
  datatype Crypto<!Key> = Crypto(
    parse: string -> Option<Key>,
    isEncrypted: Key -> bool,
    decrypt: (Key, string) -> Option<Key>,
    encrypt: (Key, string, nat) -> Option<Key>,
    encode: Key -> Option<string>,
    fingerprint: Key -> string,
    publicKey: Key -> string)

  // What is encoded is parsed, what is encrypted is decrypted, to the same key; and
  // it shows of a key whether it was encrypted.
  ghost predicate Lawful<Key(!new)>(c: Crypto<Key>) {
    && (forall k, s :: c.encode(k) == Some(s) ==> c.parse(s) == Some(k))
    && (forall k, p, n, e :: c.encrypt(k, p, n) == Some(e) ==> c.isEncrypted(e) && c.decrypt(e, p) == Some(k))
    && (forall e, p, k :: c.decrypt(e, p) == Some(k) ==> !c.isEncrypted(k))
  }

  datatype Failure =
    | ReadFailed
    | ParseFailed
    | WrongPassphrase
    | EncryptionFailed
    | EncodingFailed
    | NoTemporaryPath
    | CreateFailed
    | WriteFailed
    | FlushFailed
    | SyncFailed
    | VerifyReadFailed
    | VerifyParseFailed
    | VerifyDecryptFailed
    | IdentityChanged
    | ReplaceFailed

  datatype Result<T> = Ok(value: T) | Err(failure: Failure)

  // ----- what is to be written -----

  // The key in a file, given its passphrase. A key without one has the empty one.
  function Unlock<Key>(c: Crypto<Key>, content: string, passphrase: string): Result<Key> {
    match c.parse(content)
    case None => Err(ParseFailed)
    case Some(parsed) =>
      if c.isEncrypted(parsed) then
        match c.decrypt(parsed, passphrase)
        case None => Err(WrongPassphrase)
        case Some(key) => Ok(key)
      else if passphrase != "" then Err(WrongPassphrase)
      else Ok(parsed)
  }

  function Locked<Key>(c: Crypto<Key>, key: Key, passphrase: string, random: nat): Result<string> {
    var stored := if passphrase == "" then Some(key) else c.encrypt(key, passphrase, random);
    if stored.None? then Err(EncryptionFailed)
    else
      match c.encode(stored.value)
      case None => Err(EncodingFailed)
      case Some(content) => Ok(content)
  }

  // The same key under another passphrase.
  function Relocked<Key>(c: Crypto<Key>, content: string, oldPassphrase: string, newPassphrase: string, random: nat)
    : Result<string>
  {
    match Unlock(c, content, oldPassphrase)
    case Err(e) => Err(e)
    case Ok(key) => Locked(c, key, newPassphrase, random)
  }

  // The file's content under the new passphrase holds the same key, and is
  // encrypted exactly if that passphrase is not empty.
  lemma RelockedIsSameKey<Key(!new)>(c: Crypto<Key>, content: string, oldPassphrase: string, newPassphrase: string,
                                     random: nat)
    requires Lawful(c) && Relocked(c, content, oldPassphrase, newPassphrase, random).Ok?
    ensures var content' := Relocked(c, content, oldPassphrase, newPassphrase, random).value;
            && Unlock(c, content', newPassphrase) == Unlock(c, content, oldPassphrase)
            && c.parse(content').Some? && (c.isEncrypted(c.parse(content').value) <==> newPassphrase != "")
  {
    var key := Unlock(c, content, oldPassphrase).value;
    assert !c.isEncrypted(key);
  }

  // ----- checking what was written -----

  function Check<Key>(c: Crypto<Key>, written: string, newPassphrase: string, original: Key): Option<Failure> {
    match c.parse(written)
    case None => Some(VerifyParseFailed)
    case Some(key) =>
      var verified := if c.isEncrypted(key) then c.decrypt(key, newPassphrase) else Some(key);
      if verified.None? then Some(VerifyDecryptFailed)
      else if c.fingerprint(verified.value) != c.fingerprint(original)
           || c.publicKey(verified.value) != c.publicKey(original) then Some(IdentityChanged)
      else None
  }

  // The check never refuses what was written well.
  lemma RelockedPassesCheck<Key(!new)>(c: Crypto<Key>, content: string, oldPassphrase: string, newPassphrase: string,
                                       random: nat)
    requires Lawful(c) && Relocked(c, content, oldPassphrase, newPassphrase, random).Ok?
    ensures Check(c, Relocked(c, content, oldPassphrase, newPassphrase, random).value, newPassphrase,
                  Unlock(c, content, oldPassphrase).value) == None
  {
    RelockedIsSameKey(c, content, oldPassphrase, newPassphrase, random);
  }

  // ----- temporary files -----

  const ATTEMPTS: nat := 100

  function Temporary(target: Path, process: nat, attempt: nat): Path {
    Path(target.directory, "." + target.name + ".ltty-passphrase-" + Decimal(process) + "-" + Decimal(attempt) + ".tmp")
  }

  predicate IsTemporary(path: Path, target: Path, process: nat) {
    exists i: nat | i < ATTEMPTS :: path == Temporary(target, process, i)
  }

  lemma TemporaryIsAnother(path: Path, target: Path, process: nat)
    requires IsTemporary(path, target, process)
    ensures path != target
  {
    assert |path.name| > |target.name|;
  }

  function Candidates(target: Path, process: nat): nat -> Path {
    (attempt: nat) => Temporary(target, process, attempt)
  }

  // The first candidate from `attempt` on that is not found to exist, where the
  // first candidate of all is looked for in operation `first`.
  function Picked(faults: Faults, files: Files, names: nat -> Path, first: nat, attempt: nat): Option<Path>
    decreases ATTEMPTS - attempt
  {
    if attempt >= ATTEMPTS then None
    else if names(attempt) in files && !faults.unnoticed(first + attempt) then
      Picked(faults, files, names, first, attempt + 1)
    else Some(names(attempt))
  }

  // What is picked is a candidate, and a free one if all files are noticed; if
  // nothing is picked, every candidate exists.
  lemma {:induction false} PickedMeaning(faults: Faults, files: Files, names: nat -> Path, first: nat, attempt: nat)
    requires attempt <= ATTEMPTS
    ensures var picked := Picked(faults, files, names, first, attempt);
            && (picked.Some? ==> exists i: nat :: i < ATTEMPTS && picked.value == names(i))
            && (picked.Some? && faults.FilesAreNoticed() ==> picked.value !in files)
            && (picked.None? ==> forall i: nat :: attempt <= i < ATTEMPTS ==> names(i) in files)
    decreases ATTEMPTS - attempt
  {
    if attempt == ATTEMPTS {
    } else {
      PickedMeaning(faults, files, names, first, attempt + 1);
    }
  }

  // The candidate `i` exists but goes unnoticed, all those before it are noticed.
  ghost predicate GoesUnnoticed(faults: Faults, files: Files, names: nat -> Path, first: nat, i: nat) {
    && names(i) in files && faults.unnoticed(first + i)
    && forall j: nat :: j < i ==> names(j) in files && !faults.unnoticed(first + j)
  }

  // The candidate picked is a leftover that was there before.
  predicate LeftoverIsPicked(faults: Faults, files: Files, names: nat -> Path, first: nat) {
    var picked := Picked(faults, files, names, first, 0);
    picked.Some? && picked.value in files
  }

  lemma {:induction false} LeftoverFrom(faults: Faults, files: Files, names: nat -> Path, first: nat, attempt: nat)
    requires attempt <= ATTEMPTS
    requires forall j: nat :: j < attempt ==> names(j) in files && !faults.unnoticed(first + j)
    ensures var picked := Picked(faults, files, names, first, attempt);
            picked.Some? && picked.value in files <==>
            exists i: nat :: i < ATTEMPTS && GoesUnnoticed(faults, files, names, first, i)
    decreases ATTEMPTS - attempt
  {
    if attempt == ATTEMPTS {
    } else if names(attempt) in files && !faults.unnoticed(first + attempt) {
      LeftoverFrom(faults, files, names, first, attempt + 1);
    } else if names(attempt) in files {
      assert GoesUnnoticed(faults, files, names, first, attempt);
    } else {
      assert forall i: nat :: GoesUnnoticed(faults, files, names, first, i) ==> i < attempt;
    }
  }

  // A leftover is picked exactly if some candidate goes unnoticed while all those
  // before it are noticed; never if all files are noticed, and always if nothing
  // is noticed and the first candidate is there.
  lemma LeftoverMeaning(faults: Faults, files: Files, names: nat -> Path, first: nat)
    ensures LeftoverIsPicked(faults, files, names, first) <==>
            exists i: nat :: i < ATTEMPTS && GoesUnnoticed(faults, files, names, first, i)
    ensures faults.FilesAreNoticed() ==> !LeftoverIsPicked(faults, files, names, first)
    ensures faults.NothingIsNoticed() && names(0) in files ==> LeftoverIsPicked(faults, files, names, first)
  {
    LeftoverFrom(faults, files, names, first, 0);
  }

  // The loop over the candidates.
  method FirstNotFound(disk: Disk, names: nat -> Path) returns (r: Option<Path>)
    modifies disk`operations
    ensures r == Picked(disk.faults, disk.files, names, old(disk.operations), 0)
  {
    for attempt := 0 to ATTEMPTS
      invariant disk.operations == old(disk.operations) + attempt
      invariant Picked(disk.faults, disk.files, names, old(disk.operations), attempt) ==
                Picked(disk.faults, disk.files, names, old(disk.operations), 0)
    {
      var candidate := names(attempt);
      var found := disk.Exists(candidate);
      if !found {
        return Some(candidate);
      }
    }
    return None;
  }

  ghost predicate SomeTemporaryFree(files: Files, target: Path, process: nat) {
    exists i: nat :: i < ATTEMPTS && Temporary(target, process, i) !in files
  }

  method CreatePassphraseTemporaryPath(disk: Disk, target: Path, process: nat) returns (r: Option<Path>)
    modifies disk`operations
    ensures r.Some? ==> IsTemporary(r.value, target, process)
    ensures r.Some? && disk.faults.FilesAreNoticed() ==> r.value !in disk.files
    ensures r.None? ==> !SomeTemporaryFree(disk.files, target, process)
    ensures disk.faults.FilesAreNoticed() ==> (r.None? <==> !SomeTemporaryFree(disk.files, target, process))
    ensures r == Picked(disk.faults, disk.files, Candidates(target, process), old(disk.operations), 0)
  {
    var names := Candidates(target, process);
    PickedMeaning(disk.faults, disk.files, names, disk.operations, 0);
    r := FirstNotFound(disk, names);
    if r.None? {
      forall i: nat | i < ATTEMPTS ensures Temporary(target, process, i) in disk.files {
        assert names(i) == Temporary(target, process, i);
      }
    }
  }

  // ----- the transaction -----

  // Everything but one file is as it was.
  predicate SameButFor(path: Path, files: Files, before: Files) {
    files - {path} == before - {path}
  }

  // Write the new content to the temporary file, check it and put it in place.
  method WriteAndReplace<Key>(disk: Disk, c: Crypto<Key>, temporary: Path, target: Path, content: string,
                              newPassphrase: string, original: Key)
    returns (failure: Option<Failure>)
    requires temporary != target
    modifies disk
    ensures failure.None? ==>
              && temporary !in old(disk.files) && disk.files == old(disk.files)[target := content]
              && Check(c, content, newPassphrase, original) == None
    ensures failure.Some? ==> SameButFor(temporary, disk.files, old(disk.files))
    ensures failure.Some? ==> (disk.files == old(disk.files) <==> failure == Some(CreateFailed))
    ensures disk.faults.OperationsSucceed() && temporary !in old(disk.files) ==>
              failure == Check(c, content, newPassphrase, original)
    ensures temporary in old(disk.files) ==> failure == Some(CreateFailed) && disk.files == old(disk.files)
  {
    var ok := disk.CreateNew(temporary);
    if !ok {
      return Some(CreateFailed);
    }
    ok := disk.WriteAll(temporary, content);
    if !ok {
      return Some(WriteFailed);
    }
    assert "" + content == content;
    ok := disk.Sync();
    if !ok {
      return Some(FlushFailed);
    }
    ok := disk.Sync();
    if !ok {
      return Some(SyncFailed);
    }
    var written := disk.ReadToString(temporary);
    if written.None? {
      return Some(VerifyReadFailed);
    }
    failure := Check(c, written.value, newPassphrase, original);
    if failure.Some? {
      return;
    }
    ok := disk.Rename(temporary, target);
    if !ok {
      return Some(ReplaceFailed);
    }
    var _ := disk.Sync();
    return None;
  }

  // The same, and the temporary file is deleted if that fails. The deletion is the
  // last operation; it undoes what was written, or deletes what was there before.
  method ReplaceOrCleanUp<Key>(disk: Disk, c: Crypto<Key>, temporary: Path, target: Path, content: string,
                               newPassphrase: string, original: Key)
    returns (failure: Option<Failure>)
    requires temporary != target
    modifies disk
    ensures failure.None? ==>
              && temporary !in old(disk.files) && disk.files == old(disk.files)[target := content]
              && Check(c, content, newPassphrase, original) == None
    ensures failure.Some? ==> SameButFor(temporary, disk.files, old(disk.files)) && disk.operations > 0
    ensures failure.Some? && !disk.faults.stuck(disk.operations - 1) ==> disk.files == old(disk.files) - {temporary}
    ensures failure.Some? ==>
              (disk.files == old(disk.files) <==>
               if disk.faults.stuck(disk.operations - 1) then failure == Some(CreateFailed)
               else temporary !in old(disk.files))
    ensures disk.faults.OperationsSucceed() && temporary !in old(disk.files) ==>
              failure == Check(c, content, newPassphrase, original)
    ensures temporary in old(disk.files) ==> failure == Some(CreateFailed)
  {
    failure := WriteAndReplace(disk, c, temporary, target, content, newPassphrase, original);
    if failure.Some? {
      disk.RemoveFile(temporary);
    }
  }

  // How a change ends if nothing goes wrong in the file system.
  ghost function FaultlessResult<Key>(c: Crypto<Key>, files: Files, target: Path, oldPassphrase: string,
                                      newPassphrase: string, random: nat, process: nat): Option<Failure> {
    if target !in files then Some(ReadFailed)
    else
      var content := Relocked(c, files[target], oldPassphrase, newPassphrase, random);
      if content.Err? then Some(content.failure)
      else if !SomeTemporaryFree(files, target, process) then Some(NoTemporaryPath)
      else Check(c, content.value, newPassphrase, Unlock(c, files[target], oldPassphrase).value)
  }

  // With lawful cryptography it fails only for a missing or unusable key file, a
  // wrong passphrase, or want of a temporary name.
  lemma FaultlessSuccess<Key(!new)>(c: Crypto<Key>, files: Files, target: Path, oldPassphrase: string,
                                    newPassphrase: string, random: nat, process: nat)
    requires Lawful(c)
    ensures FaultlessResult(c, files, target, oldPassphrase, newPassphrase, random, process) == None <==>
            && target in files && SomeTemporaryFree(files, target, process)
            && Relocked(c, files[target], oldPassphrase, newPassphrase, random).Ok?
  {
    if target in files && Relocked(c, files[target], oldPassphrase, newPassphrase, random).Ok? {
      RelockedPassesCheck(c, files[target], oldPassphrase, newPassphrase, random);
    }
  }

  predicate IsPrepared<Key>(c: Crypto<Key>, faults: Faults, files: Files, first: nat, target: Path,
                            oldPassphrase: string, newPassphrase: string, random: nat)
  {
    && target in files && !faults.fails(first)
    && Relocked(c, files[target], oldPassphrase, newPassphrase, random).Ok?
  }

  // The key file is read, the new content prepared, and a leftover picked as the
  // temporary file, the change beginning with operation `first`.
  predicate LosesLeftover<Key>(c: Crypto<Key>, faults: Faults, files: Files, first: nat, target: Path,
                               oldPassphrase: string, newPassphrase: string, random: nat, process: nat)
  {
    && IsPrepared(c, faults, files, first, target, oldPassphrase, newPassphrase, random)
    && LeftoverIsPicked(faults, files, Candidates(target, process), first + 1)
  }

  // The key is read and unlocked, and the new content made.
  method Prepare<Key>(disk: Disk, c: Crypto<Key>, target: Path, oldPassphrase: string, newPassphrase: string,
                      random: nat)
    returns (r: Result<(string, Key)>)
    modifies disk`operations
    ensures disk.operations == old(disk.operations) + 1
    ensures r.Ok? <==>
            IsPrepared(c, disk.faults, disk.files, old(disk.operations), target, oldPassphrase, newPassphrase, random)
    ensures r.Ok? ==>
              && Relocked(c, disk.files[target], oldPassphrase, newPassphrase, random) == Ok(r.value.0)
              && Unlock(c, disk.files[target], oldPassphrase) == Ok(r.value.1)
    ensures r.Err? ==>
              if target !in disk.files || disk.faults.fails(old(disk.operations)) then r.failure == ReadFailed
              else Relocked(c, disk.files[target], oldPassphrase, newPassphrase, random) == Err(r.failure)
  {
    var original := disk.ReadToString(target);
    if original.None? {
      return Err(ReadFailed);
    }
    var key := Unlock(c, original.value, oldPassphrase);
    if key.Err? {
      return Err(key.failure);
    }
    var content := Locked(c, key.value, newPassphrase, random);
    if content.Err? {
      return Err(content.failure);
    }
    return Ok((content.value, key.value));
  }

  method ChangePrivateKeyPassphrase<Key>(disk: Disk, c: Crypto<Key>, target: Path, oldPassphrase: string,
                                         newPassphrase: string, random: nat, process: nat)
    returns (failure: Option<Failure>)
    modifies disk
    // Success: the target has the relocked content, and nothing else changed.
    ensures failure.None? ==>
              && target in old(disk.files)
              && var r := Relocked(c, old(disk.files)[target], oldPassphrase, newPassphrase, random);
              r.Ok? && disk.files == old(disk.files)[target := r.value]
    // Failure: nothing changed, or at most one temporary file. It can only be
    // one that was there before, and is deleted, if it went unnoticed.
    ensures failure.Some? ==>
              || disk.files == old(disk.files)
              || exists t ::
                   IsTemporary(t, target, process) && t != target && SameButFor(t, disk.files, old(disk.files))
    ensures failure.Some? && disk.faults.DeletionsSucceed() ==>
              || disk.files == old(disk.files)
              || exists t ::
                   IsTemporary(t, target, process) && t in old(disk.files) && disk.files == old(disk.files) - {t}
    ensures failure.Some? && disk.faults.DeletionsSucceed() && disk.faults.FilesAreNoticed() ==>
              disk.files == old(disk.files)
    // Exactly when a failure leaves everything as it was: no temporary file was
    // tried, or the last operation, its deletion, succeeded and it was no leftover,
    // or the deletion failed and none had been created.
    ensures failure.Some? ==>
              (disk.files == old(disk.files) <==>
               || !IsPrepared(c, disk.faults, old(disk.files), old(disk.operations), target, oldPassphrase,
                              newPassphrase, random)
               || (var picked := Picked(disk.faults, old(disk.files), Candidates(target, process),
                                        old(disk.operations) + 1, 0);
                   picked.None? ||
                   (disk.operations > 0 &&
                    if disk.faults.stuck(disk.operations - 1) then failure == Some(CreateFailed)
                    else picked.value !in old(disk.files))))
    // If deletions succeed, a failure leaves everything as it was exactly unless
    // the transaction gets as far as a temporary name and picks a leftover, which
    // it then deletes.
    ensures failure.Some? && disk.faults.DeletionsSucceed() ==>
              (disk.files == old(disk.files) <==>
               !LosesLeftover(c, disk.faults, old(disk.files), old(disk.operations), target, oldPassphrase,
                              newPassphrase, random, process))
    ensures LosesLeftover(c, disk.faults, old(disk.files), old(disk.operations), target, oldPassphrase, newPassphrase,
                          random, process) ==>
              failure == Some(CreateFailed)
    // A leftover of the first temporary name that goes unnoticed is deleted.
    ensures disk.faults.OperationsSucceed() && disk.faults.DeletionsSucceed() && disk.faults.NothingIsNoticed() &&
            target in old(disk.files) && Temporary(target, process, 0) in old(disk.files) &&
            Relocked(c, old(disk.files)[target], oldPassphrase, newPassphrase, random).Ok? ==>
              && failure == Some(CreateFailed)
              && disk.files == old(disk.files) - {Temporary(target, process, 0)}
    // A wrong passphrase or an unusable key touches nothing at all.
    ensures target in old(disk.files) &&
            Relocked(c, old(disk.files)[target], oldPassphrase, newPassphrase, random).Err? ==>
              failure.Some? && disk.files == old(disk.files)
    // Without faults the result is determined, and success is one of them.
    ensures disk.faults.Absent() ==>
              failure == FaultlessResult(c, old(disk.files), target, oldPassphrase, newPassphrase, random, process)
  {
    var prepared := Prepare(disk, c, target, oldPassphrase, newPassphrase, random);
    if prepared.Err? {
      return Some(prepared.failure);
    }
    var (content, key) := prepared.value;
    LeftoverMeaning(disk.faults, disk.files, Candidates(target, process), disk.operations);
    var temporary := CreatePassphraseTemporaryPath(disk, target, process);
    if temporary.None? {
      return Some(NoTemporaryPath);
    }
    TemporaryIsAnother(temporary.value, target, process);
    failure := ReplaceOrCleanUp(disk, c, temporary.value, target, content, newPassphrase, key);
  }

  // ----- export -----

  function AsciiLower(ch: char): char {
    if 'A' <= ch <= 'Z' then ch - 'A' + 'a' else ch
  }

  predicate IsExportCharacter(ch: char) {
    'a' <= ch <= 'z' || 'A' <= ch <= 'Z' || IsDigit(ch) || ch == '.' || ch == '_' || ch == '-'
  }

  predicate EndsInPub(name: string) {
    |name| >= 4 && name[|name| - 4] == '.' && AsciiLower(name[|name| - 3]) == 'p'
    && AsciiLower(name[|name| - 2]) == 'u' && AsciiLower(name[|name| - 1]) == 'b'
  }

  predicate ValidExportFileName(name: string) {
    && name != "" && name != "." && name != ".." && !EndsInPub(name)
    && forall i :: 0 <= i < |name| ==> IsExportCharacter(name[i])
  }

  datatype ExportFailure =
    | InvalidName
    | DirectoryUnavailable
    | DestinationExists
    | OpenPrivateFailed
    | OpenPublicFailed
    | CreatePrivateFailed
    | CreatePublicFailed
    | CopyFailed

  // The sources can be read, the destinations are free, and the name and the
  // directory are as they should be.
  predicate CanExport(files: Files, privatePath: Path, publicPath: Path, directory: string, isDirectory: bool,
                      name: string)
  {
    && ValidExportFileName(name) && isDirectory && privatePath in files && publicPath in files
    && Path(directory, name) !in files && Path(directory, name + ".pub") !in files
  }

  // Copy one open file into another, then flush and sync it.
  method CopyInto(disk: Disk, source: Path, destination: Path) returns (ok: bool)
    requires destination in disk.files && disk.files[destination] == "" && source != destination
    modifies disk
    ensures SameButFor(destination, disk.files, old(disk.files)) && destination in disk.files
    ensures ok ==> source in old(disk.files) && disk.files == old(disk.files)[destination := old(disk.files)[source]]
    ensures disk.faults.Absent() && source in old(disk.files) ==> ok
  {
    var content := disk.ReadToString(source);
    if content.None? {
      return false;
    }
    ok := disk.WriteAll(destination, content.value);
    if !ok {
      return;
    }
    assert "" + content.value == content.value;
    ok := disk.Sync();
    if !ok {
      return;
    }
    ok := disk.Sync();
  }

  // Nothing that was there before is touched by changes to two new files.
  lemma Intact(before: Files, files: Files, added: set<Path>)
    requires files - added == before
    ensures before.Keys <= files.Keys && forall p :: p in before ==> files[p] == before[p]
  {
    assert forall p :: p in before ==> p in files - added;
  }

  lemma MinusBoth(files: Files, a: Path, b: Path)
    ensures files - {a, b} == files - {a} - {b} == files - {b} - {a}
  {
  }

  // Fill the two new files, or remove both.
  method CopyBoth(disk: Disk, privatePath: Path, publicPath: Path, privateDestination: Path, publicDestination: Path,
                  ghost before: Files)
    returns (ok: bool)
    requires privatePath in before && publicPath in before && privateDestination != publicDestination
    requires privateDestination !in before && publicDestination !in before
    requires disk.files == before[privateDestination := ""][publicDestination := ""]
    modifies disk
    ensures disk.files - {privateDestination, publicDestination} == before
    ensures ok ==>
              disk.files == before[privateDestination := before[privatePath]][publicDestination := before[publicPath]]
    ensures !ok && disk.faults.DeletionsSucceed() ==> disk.files == before
    ensures disk.faults.Absent() ==> ok
  {
    ok := CopyInto(disk, privatePath, privateDestination);
    assert disk.files - {privateDestination} == before[publicDestination := ""];
    assert publicDestination in disk.files - {privateDestination};
    ghost var half := disk.files;
    if ok {
      ok := CopyInto(disk, publicPath, publicDestination);
    }
    MinusBoth(half, privateDestination, publicDestination);
    MinusBoth(disk.files, privateDestination, publicDestination);
    assert disk.files - {privateDestination, publicDestination} == before;
    if !ok {
      disk.RemoveFile(privateDestination);
      assert disk.files - {privateDestination, publicDestination} == before;
      disk.RemoveFile(publicDestination);
    }
  }

  method ExportKeyPair(disk: Disk, privatePath: Path, publicPath: Path, directory: string, isDirectory: bool,
                       name: string)
    returns (failure: Option<ExportFailure>)
    modifies disk
    // Whatever happens, no file that was there changes.
    ensures old(disk.files).Keys <= disk.files.Keys
    ensures forall p :: p in old(disk.files) ==> disk.files[p] == old(disk.files)[p]
    // The name and the directory are looked at first, then the destinations.
    ensures failure == Some(InvalidName) <==> !ValidExportFileName(name)
    ensures failure == Some(DirectoryUnavailable) <==> ValidExportFileName(name) && !isDirectory
    ensures ValidExportFileName(name) && isDirectory && disk.faults.FilesAreNoticed() ==>
              (failure == Some(DestinationExists) <==>
               Path(directory, name) in old(disk.files) || Path(directory, name + ".pub") in old(disk.files))
    // Success: exactly the two copies are new.
    ensures failure.None? ==>
              && CanExport(old(disk.files), privatePath, publicPath, directory, isDirectory, name)
              && disk.files == old(disk.files)[Path(directory, name) := old(disk.files)[privatePath]]
                                              [Path(directory, name + ".pub") := old(disk.files)[publicPath]]
    // Whatever happens, no other file is new.
    ensures disk.files - {Path(directory, name), Path(directory, name + ".pub")} ==
            old(disk.files) - {Path(directory, name), Path(directory, name + ".pub")}
    // Failure: nothing is left behind.
    ensures failure.Some? && disk.faults.DeletionsSucceed() ==> disk.files == old(disk.files)
    ensures disk.faults.Absent() ==>
              (failure.None? <==> CanExport(old(disk.files), privatePath, publicPath, directory, isDirectory, name))
  {
    if !ValidExportFileName(name) {
      return Some(InvalidName);
    }
    if !isDirectory {
      return Some(DirectoryUnavailable);
    }
    var privateDestination := Path(directory, name);
    var publicDestination := Path(directory, name + ".pub");
    assert |publicDestination.name| > |privateDestination.name|;
    var found := disk.Exists(privateDestination);
    if !found {
      found := disk.Exists(publicDestination);
    }
    if found {
      return Some(DestinationExists);
    }
    var source := disk.ReadToString(privatePath);
    if source.None? {
      return Some(OpenPrivateFailed);
    }
    source := disk.ReadToString(publicPath);
    if source.None? {
      return Some(OpenPublicFailed);
    }
    var ok := disk.CreateNew(privateDestination);
    if !ok {
      return Some(CreatePrivateFailed);
    }
    ok := disk.CreateNew(publicDestination);
    if !ok {
      disk.RemoveFile(privateDestination);
      return Some(CreatePublicFailed);
    }
    ok := CopyBoth(disk, privatePath, publicPath, privateDestination, publicDestination, old(disk.files));
    Intact(old(disk.files), disk.files, {privateDestination, publicDestination});
    return if ok then None else Some(CopyFailed);
  }
}
