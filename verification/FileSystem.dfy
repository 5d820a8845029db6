// Files by path, each operation of which may fail.
module FileSystem {
  import opened Options

  datatype Path = Path(directory: string, name: string)

  type Files = map<Path, string>

  // What goes wrong, by the number of the operation: an operation fails, a
  // deletion fails, an existing file goes unnoticed; and how much of a write
  // that fails still reaches the file.
  datatype Faults = Faults(fails: nat -> bool, stuck: nat -> bool, unnoticed: nat -> bool, written: nat -> nat)
  {
    ghost predicate DeletionsSucceed() { forall n :: !stuck(n) }
    ghost predicate FilesAreNoticed() { forall n :: !unnoticed(n) }
    ghost predicate NothingIsNoticed() { forall n :: unnoticed(n) }
    ghost predicate OperationsSucceed() { forall n :: !fails(n) }
    ghost predicate Absent() { DeletionsSucceed() && FilesAreNoticed() && OperationsSucceed() }
  }

  class Disk {
    var files: Files
    var operations: nat
    const faults: Faults

    constructor (files: Files, faults: Faults)
      ensures this.files == files && this.faults == faults
    {
      this.files, this.faults, operations := files, faults, 0;
    }

    method Next() returns (n: nat)
      modifies `operations
      ensures n == old(operations) && operations == n + 1
    {
      n := operations;
      operations := operations + 1;
    }

    method Exists(path: Path) returns (found: bool)
      modifies `operations
      ensures found <==> path in files && !faults.unnoticed(old(operations))
      ensures operations == old(operations) + 1
    {
      var n := Next();
      found := path in files && !faults.unnoticed(n);
    }

    method ReadToString(path: Path) returns (content: Option<string>)
      modifies `operations
      ensures content == if path in files && !faults.fails(old(operations)) then Some(files[path]) else None
      ensures operations == old(operations) + 1
    {
      var n := Next();
      content := if path in files && !faults.fails(n) then Some(files[path]) else None;
    }

    // A new, empty file, unless there is one of that name.
    method CreateNew(path: Path) returns (ok: bool)
      modifies this
      ensures ok ==> path !in old(files) && files == old(files)[path := ""]
      ensures !ok ==> files == old(files)
      ensures faults.OperationsSucceed() ==> (ok <==> path !in old(files))
    {
      var n := Next();
      ok := path !in files && !faults.fails(n);
      if ok {
        files := files[path := ""];
      }
    }

    // Append everything, or some part of it.
    method WriteAll(path: Path, data: string) returns (ok: bool)
      requires path in files
      modifies this
      ensures exists k :: 0 <= k <= |data| && files == old(files)[path := old(files)[path] + data[..k]]
      ensures ok ==> files == old(files)[path := old(files)[path] + data]
      ensures faults.OperationsSucceed() ==> ok
    {
      var n := Next();
      ok := !faults.fails(n);
      var written := if ok || |data| < faults.written(n) then |data| else faults.written(n);
      assert data[..|data|] == data;
      files := files[path := files[path] + data[..written]];
    }

    // Flushing and syncing change nothing that a reader could see.
    method Sync() returns (ok: bool)
      modifies `operations
      ensures faults.OperationsSucceed() ==> ok
    {
      var n := Next();
      ok := !faults.fails(n);
    }

    // The file takes the place of the other in one step, or nothing happens.
    method Rename(from: Path, to: Path) returns (ok: bool)
      requires from != to
      modifies this
      ensures ok ==> from in old(files) && files == (old(files) - {from})[to := old(files)[from]]
      ensures !ok ==> files == old(files)
      ensures faults.OperationsSucceed() && from in old(files) ==> ok
    {
      var n := Next();
      ok := from in files && !faults.fails(n);
      if ok {
        files := (files - {from})[to := files[from]];
      }
    }

    method RemoveFile(path: Path)
      modifies this
      ensures files == if faults.stuck(old(operations)) then old(files) else old(files) - {path}
      ensures operations == old(operations) + 1
    {
      var n := Next();
      if !faults.stuck(n) {
        files := files - {path};
      }
    }
  }
}
