// What a key file must hold for its passphrase to be changed, which name its
// temporary file gets, and which names can be exported to, written out.
module KeyFilesOperations {
  import opened Options
  import opened Sequences
  import opened Decimals
  import opened FileSystem
  import opened KeyFiles

  // ----- the passphrase -----

  // The key in the text opens to `key`: with the passphrase if it is encrypted, and
  // only without any if it is not.
  ghost predicate Opens<Key>(c: Crypto<Key>, text: string, passphrase: string, key: Key) {
    && c.parse(text).Some?
    && var parsed := c.parse(text).value;
    if c.isEncrypted(parsed) then c.decrypt(parsed, passphrase) == Some(key) else passphrase == "" && parsed == key
  }

  lemma UnlockExactly<Key>(c: Crypto<Key>, text: string, passphrase: string, key: Key)
    ensures Unlock(c, text, passphrase) == Ok(key) <==> Opens(c, text, passphrase, key)
    ensures Unlock(c, text, passphrase) == Err(ParseFailed) <==> c.parse(text) == None
    ensures Unlock(c, text, passphrase).Err? ==> Unlock(c, text, passphrase).failure in {ParseFailed, WrongPassphrase}
  {
  }

  // A key that is not encrypted opens with the empty passphrase and with no other.
  lemma PlainKeyTakesNoPassphrase<Key>(c: Crypto<Key>, text: string, passphrase: string, key: Key)
    requires c.parse(text) == Some(key) && !c.isEncrypted(key)
    ensures Unlock(c, text, passphrase) == if passphrase == "" then Ok(key) else Err(WrongPassphrase)
  {
  }

  // Without faults the change fails for the old passphrase exactly if the file
  // holds a key that does not open with it, and then for nothing else.
  lemma RefusedPassphrase<Key>(c: Crypto<Key>, files: Files, target: Path, oldPassphrase: string,
                               newPassphrase: string, random: nat, process: nat)
    ensures FaultlessResult(c, files, target, oldPassphrase, newPassphrase, random, process) == Some(WrongPassphrase)
            <==> && target in files && c.parse(files[target]).Some?
                 && forall key :: !Opens(c, files[target], oldPassphrase, key)
  {
    if target in files {
      OpensIfUnlocked(c, files[target], oldPassphrase);
      if Unlock(c, files[target], oldPassphrase).Ok? {
        OtherFailures(c, Unlock(c, files[target], oldPassphrase).value, newPassphrase, random);
      }
    }
  }

  // The other reasons that do not depend on the encryption: no such file, no key in
  // it, and a hundred temporary files in the way.
  lemma OtherReasons<Key>(c: Crypto<Key>, files: Files, target: Path, oldPassphrase: string, newPassphrase: string,
                          random: nat, process: nat)
    ensures var r := FaultlessResult(c, files, target, oldPassphrase, newPassphrase, random, process);
            && (r == Some(ReadFailed) <==> target !in files)
            && (r == Some(ParseFailed) <==> target in files && c.parse(files[target]) == None)
            && (r == Some(NoTemporaryPath) <==>
                  && target in files && Relocked(c, files[target], oldPassphrase, newPassphrase, random).Ok?
                  && forall i: nat :: i < 100 ==> Temporary(target, process, i) in files)
  {
    if target in files && Unlock(c, files[target], oldPassphrase).Ok? {
      OtherFailures(c, Unlock(c, files[target], oldPassphrase).value, newPassphrase, random);
    }
  }

  lemma OpensIfUnlocked<Key>(c: Crypto<Key>, text: string, passphrase: string)
    ensures (exists key :: Opens(c, text, passphrase, key)) <==> Unlock(c, text, passphrase).Ok?
  {
    if Unlock(c, text, passphrase).Ok? {
      UnlockExactly(c, text, passphrase, Unlock(c, text, passphrase).value);
    }
  }

  lemma OtherFailures<Key>(c: Crypto<Key>, key: Key, newPassphrase: string, random: nat)
    ensures var r := Locked(c, key, newPassphrase, random);
            r.Err? ==> r.failure in {EncryptionFailed, EncodingFailed}
  {
  }

  // What is written is the encoding of the key itself if the new passphrase is
  // empty, and otherwise of the key encrypted under it.
  lemma LockedExactly<Key>(c: Crypto<Key>, key: Key, newPassphrase: string, random: nat, text: string)
    ensures Locked(c, key, "", random) == Ok(text) <==> c.encode(key) == Some(text)
    ensures newPassphrase != "" ==>
              (Locked(c, key, newPassphrase, random) == Ok(text) <==>
               && c.encrypt(key, newPassphrase, random).Some?
               && c.encode(c.encrypt(key, newPassphrase, random).value) == Some(text))
  {
  }

  // The check passes exactly what holds, under the new passphrase if it is
  // encrypted, a key with the fingerprint and the public key of the original.
  lemma CheckedExactly<Key>(c: Crypto<Key>, written: string, newPassphrase: string, original: Key)
    ensures Check(c, written, newPassphrase, original) == None <==>
            && c.parse(written).Some?
            && var parsed := c.parse(written).value;
            var unlocked := if c.isEncrypted(parsed) then c.decrypt(parsed, newPassphrase) else Some(parsed);
            && unlocked.Some?
            && c.fingerprint(unlocked.value) == c.fingerprint(original)
            && c.publicKey(unlocked.value) == c.publicKey(original)
  {
  }

  // ----- the temporary file -----

  // Its name, with the numbers of the process and of the attempt.
  lemma TemporaryName(directory: string, name: string, process: string, attempt: string)
    requires Canonical(process) && Canonical(attempt)
    ensures Temporary(Path(directory, name), ValueOf(process), ValueOf(attempt)) ==
            Path(directory, "." + name + ".ltty-passphrase-" + process + "-" + attempt + ".tmp")
  {
    DecimalOfValue(process);
    DecimalOfValue(attempt);
  }

  lemma AroundCancels<T>(front: seq<T>, a: seq<T>, b: seq<T>, back: seq<T>)
    requires front + a + back == front + b + back
    ensures a == b
  {
    var n := |front|;
    assert (front + a + back)[n..|front + a + back| - |back|] == a;
    assert (front + b + back)[n..|front + b + back| - |back|] == b;
  }

  // Every attempt has a name of its own.
  lemma TemporariesDiffer(target: Path, process: nat, i: nat, j: nat)
    ensures Temporary(target, process, i) == Temporary(target, process, j) <==> i == j
  {
    if Temporary(target, process, i) == Temporary(target, process, j) {
      AroundCancels("." + target.name + ".ltty-passphrase-" + Decimal(process) + "-", Decimal(i), Decimal(j), ".tmp");
      DecimalValue(i);
      DecimalValue(j);
    }
  }

  ghost predicate IsFound(faults: Faults, files: Files, names: nat -> Path, first: nat, attempt: nat) {
    names(attempt) in files && !faults.unnoticed(first + attempt)
  }

  lemma {:induction false} PickedFrom(faults: Faults, files: Files, names: nat -> Path, first: nat, attempt: nat,
                                      i: nat)
    requires attempt <= i <= 100 && forall j: nat :: attempt <= j < i ==> IsFound(faults, files, names, first, j)
    requires i < 100 ==> !IsFound(faults, files, names, first, i)
    ensures Picked(faults, files, names, first, attempt) == if i == 100 then None else Some(names(i))
    decreases i - attempt
  {
    if attempt < i {
      assert IsFound(faults, files, names, first, attempt);
      PickedFrom(faults, files, names, first, attempt + 1, i);
    }
  }

  // The first of a hundred candidates that is not found is picked, and none if all
  // are found.
  lemma FirstIsPicked(faults: Faults, files: Files, names: nat -> Path, first: nat, i: nat)
    requires i <= 100 && forall j: nat :: j < i ==> IsFound(faults, files, names, first, j)
    requires i < 100 ==> !IsFound(faults, files, names, first, i)
    ensures Picked(faults, files, names, first, 0) == if i == 100 then None else Some(names(i))
  {
    PickedFrom(faults, files, names, first, 0, i);
  }

  // ----- names to export to -----

  const PUB: set<string> := {".pub", ".puB", ".pUb", ".pUB", ".Pub", ".PuB", ".PUb", ".PUB"}

  lemma PubEnding(name: string)
    requires |name| >= 4
    ensures EndsInPub(name) <==> name[|name| - 4..] in PUB
  {
    var n := |name|;
    var end := name[n - 4..];
    assert end == [name[n - 4], name[n - 3], name[n - 2], name[n - 1]];
  }

  // A name can be exported to if it is made of letters, digits, dots, underscores
  // and hyphens, is not a directory's own name, and does not end like a public key.
  lemma ExportNames(name: string)
    ensures ValidExportFileName(name) <==>
            && name !in {"", ".", ".."} && (|name| >= 4 ==> name[|name| - 4..] !in PUB)
            && forall i :: 0 <= i < |name| ==>
                 || 'a' <= name[i] <= 'z' || 'A' <= name[i] <= 'Z' || '0' <= name[i] <= '9'
                 || name[i] in {'.', '_', '-'}
  {
    if |name| >= 4 {
      PubEnding(name);
    }
  }
}
