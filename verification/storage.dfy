/**
 * The generated-PDF storage directory, standing in for the operating system's
 * file calls (`os.listdir`, `os.stat`, `open(..., 'wb')`, `os.remove`).
 * The directory holds regular files only, in a listing order fixed by this
 * model (`os.listdir` itself promises none): `Written` lists a file under a
 * new name last and leaves an overwritten one in its place.
 */
module Storage {
  import opened Wrappers
  import opened PyStr

  newtype byte = x: int | 0 <= x < 256

  type Bytes = seq<byte>

  /** A regular file: its name inside the directory, its contents and its
      modification time. */
  datatype File = File(name: string, data: Bytes, mtime: int)

  predicate DistinctNames(files: seq<File>) {
    forall i, j | 0 <= i < j < |files| :: files[i].name != files[j].name
  }

  /** A name that denotes a file directly inside the directory: no path
      separator and no NUL character (either makes `open` fail here). */
  predicate IsPlainName(name: string) {
    name != [] && '/' !in name && '\0' !in name
  }

  /** `os.path.join(dir, name)` on POSIX. */
  function JoinPath(dir: string, name: string): (p: string)
    ensures EndsWith(p, name)
    ensures !StartsWith(name, "/") && dir != [] && !EndsWith(dir, "/") ==> p == dir + "/" + name
  {
    if StartsWith(name, "/") then name
    else if dir == [] || EndsWith(dir, "/") then dir + name
    else dir + "/" + name
  }

  /** The file listed under `name`, if any. */
  function Lookup(files: seq<File>, name: string): (r: Option<File>)
    ensures r.Some? <==> exists i | 0 <= i < |files| :: files[i].name == name
    ensures r.Some? ==> r.value in files && r.value.name == name
  {
    if files == [] then None
    else if files[0].name == name then Some(files[0])
    else
      var r := Lookup(files[1..], name);
      assert forall i | 1 <= i < |files| :: files[i] == files[1..][i - 1];
      r
  }

  /** The position of the file listed under `name`, if any. */
  function PositionOf(files: seq<File>, name: string): (r: Option<nat>)
    ensures r.Some? ==> r.value < |files| && files[r.value].name == name
    ensures r.None? ==> forall i | 0 <= i < |files| :: files[i].name != name
  {
    if files == [] then None
    else if files[|files| - 1].name == name then Some(|files| - 1)
    else PositionOf(files[..|files| - 1], name)
  }

  /** The listing after `open(name, 'wb').write(data)` at time `now`: an
      existing file keeps its place and gets the new contents, a new one is
      listed last. */
  function Written(files: seq<File>, name: string, data: Bytes, now: int): (r: seq<File>)
    requires DistinctNames(files)
    ensures DistinctNames(r)
    ensures Lookup(r, name) == Some(File(name, data, now))
    ensures forall n | n != name :: Lookup(r, n) == Lookup(files, n)
  {
    match PositionOf(files, name)
    case Some(i) =>
      var r := files[i := File(name, data, now)];
      LookupUpdate(files, i, File(name, data, now));
      r
    case None =>
      var r := files + [File(name, data, now)];
      LookupAppend(files, File(name, data, now));
      r
  }

  lemma {:induction false} LookupUpdate(files: seq<File>, i: nat, f: File)
    requires DistinctNames(files) && i < |files| && files[i].name == f.name
    ensures DistinctNames(files[i := f])
    ensures Lookup(files[i := f], f.name) == Some(f)
    ensures forall n | n != f.name :: Lookup(files[i := f], n) == Lookup(files, n)
  {
    if i > 0 {
      LookupUpdate(files[1..], i - 1, f);
      assert files[i := f][1..] == files[1..][i - 1 := f];
    }
  }

  lemma {:induction false} LookupAppend(files: seq<File>, f: File)
    requires DistinctNames(files)
    requires forall i | 0 <= i < |files| :: files[i].name != f.name
    ensures DistinctNames(files + [f])
    ensures Lookup(files + [f], f.name) == Some(f)
    ensures forall n | n != f.name :: Lookup(files + [f], n) == Lookup(files, n)
  {
    if files != [] {
      LookupAppend(files[1..], f);
      assert (files + [f])[1..] == files[1..] + [f];
    }
  }

  /** The directory `PDF_STORAGE_DIR` and the files in it. */
  class Directory {
    const path: string
    var files: seq<File>

    ghost predicate Valid()
      reads this
    {
      DistinctNames(files)
    }

    constructor (path: string, files: seq<File>)
      requires DistinctNames(files)
      ensures Valid() && this.path == path && this.files == files
    {
      this.path := path;
      this.files := files;
    }

    /** `open(join(path, name), 'wb').write(data)` at time `now`. */
    method Write(name: string, data: Bytes, now: int)
      requires Valid()
      modifies this
      ensures Valid()
      ensures files == Written(old(files), name, data, now)
    {
      files := Written(files, name, data, now);
    }

    /** `os.remove` of the file listed at position `i`; every other file keeps
        its contents and its relative order. */
    method Remove(i: nat)
      requires Valid() && i < |files|
      modifies this
      ensures Valid()
      ensures files == old(files[..i] + files[i + 1..])
    {
      files := files[..i] + files[i + 1..];
    }
  }
}
