/** The file system the file engines work on: a map from path to content,
    updated in place, and the two steps both engines share, `unlink` and the
    publish-by-rename sequence of `Set`. Each I/O call that can fail takes
    its failure as an input. */
module FileSystem {
  import opened Common

  type Path = string

  /** The files on disk; a path absent from `files` does not exist. */
  class Disk {
    var files: map<Path, Bytes>

    constructor(files: map<Path, Bytes>)
      ensures this.files == files
    {
      this.files := files;
    }
  }

  /** The failures the I/O calls of one engine operation raise: per path for
      reading and removing, once for the steps of writing a record. */
  datatype Faults = Faults(
    read: Path -> Option<Error>,
    remove: Path -> Option<Error>,
    create: Option<Error>,
    flush: Option<Error>,
    close: Option<Error>,
    rename: Option<Error>)

  /** The content at `p`, if the file exists. */
  function Lookup(files: map<Path, Bytes>, p: Path): (c: Option<Bytes>)
    ensures c.Some? <==> p in files
    ensures c.Some? ==> c.value == files[p]
  {
    if p in files then Some(files[p]) else None
  }

  /** The error `os.Remove` reports for a path that does not exist. */
  function NoSuchFile(name: Path): (e: Error)
    ensures e != NotExists
  {
    Message("remove " + name + ": no such file or directory")
  }

  /** `os.Remove(name)`, failing with `fault` when the file exists. */
  method Remove(disk: Disk, name: Path, fault: Option<Error>) returns (err: Option<Error>)
    modifies disk
    ensures name !in old(disk.files) ==> err == Some(NoSuchFile(name)) && disk.files == old(disk.files)
    ensures name in old(disk.files) && fault.None? ==> err.None? && disk.files == old(disk.files) - {name}
    ensures name in old(disk.files) && fault.Some? ==> err == fault && disk.files == old(disk.files)
  {
    if name !in disk.files {
      return Some(NoSuchFile(name));
    }
    if fault.None? {
      disk.files := disk.files - {name};
    }
    return fault;
  }

  /** `unlink(name)`: remove the file if it exists; 1 when it was removed. */
  method Unlink(disk: Disk, name: Path, fault: Option<Error>) returns (num: int, err: Option<Error>)
    modifies disk
    ensures name !in old(disk.files) ==> num == 0 && err.None? && disk.files == old(disk.files)
    ensures name in old(disk.files) && fault.None? ==> num == 1 && err.None? && disk.files == old(disk.files) - {name}
    ensures name in old(disk.files) && fault.Some? ==> num == 0 && err == fault && disk.files == old(disk.files)
  {
    if name in disk.files {
      err := Remove(disk, name, fault);
      if err.None? {
        return 1, None;
      }
      return 0, err;
    }
    return 0, None;
  }

  /** The first failure among the steps of writing a record. */
  function PublishError(f: Faults): (e: Option<Error>)
    ensures e.None? <==> f.create.None? && f.flush.None? && f.close.None? && f.rename.None?
  {
    if f.create.Some? then f.create
    else if f.flush.Some? then f.flush
    else if f.close.Some? then f.close
    else f.rename
  }

  /** The tail of `Set` in both engines: create a temp file `tmp` next to
      `fp`, write `record` through a buffer, flush, close, rename it onto `fp`,
      and in every case unlink `tmp` on the way out. Only the rename puts
      anything at `fp`. */
  method Publish(disk: Disk, fp: Path, tmp: Path, record: Bytes, f: Faults) returns (err: Option<Error>)
    requires tmp != fp && tmp !in disk.files
    modifies disk
    ensures err == PublishError(f)
    ensures err.None? ==> disk.files == old(disk.files)[fp := record]
    ensures err.Some? ==> disk.files - {tmp} == old(disk.files)
    ensures err.Some? && (f.create.Some? || f.remove(tmp).None?) ==> disk.files == old(disk.files)
  {
    if f.create.Some? {
      return f.create;
    }
    disk.files := disk.files[tmp := []];
    if f.flush.Some? {
      err := f.flush;
    } else {
      disk.files := disk.files[tmp := record];
      if f.close.Some? {
        err := f.close;
      } else if f.rename.Some? {
        err := f.rename;
      } else {
        disk.files := (disk.files - {tmp})[fp := record];
        err := None;
      }
    }
    var _, _ := Unlink(disk, tmp, f.remove(tmp));
  }
}
