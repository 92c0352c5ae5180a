/*
  The scratch directory `Redispot::WorkingDirectory` creates and owns, and
  its finalizer `Remover`.

  The filesystem is the set of paths that exist. `Dir.mktmpdir` picks a
  fresh name: the constructor receives that name, already expanded. The
  finalizer registration of `ObjectSpace` is the field `finalizer` of the
  object it is registered for (null when none is). The process id is a
  parameter of every call that reads it.
*/
module WorkingDir {

  /** The set of paths that exist. */
  class FileSystem {
    var paths: set<string>

    constructor(paths: set<string>)
      ensures this.paths == paths
    {
      this.paths := paths;
    }

    /** `FileUtils.remove_entry_secure`: removes `path` with everything
        beneath it, or raises ENOENT (reported as `enoent`) when `path`
        does not exist, removing nothing. */
    method RemoveEntrySecure(path: string) returns (enoent: bool)
      modifies this
      ensures enoent <==> path !in old(paths)
      ensures paths == if enoent then old(paths) else Without(old(paths), path)
    {
      enoent := path !in paths;
      if !enoent {
        paths := Without(paths, path);
      }
    }
  }

  /** `p` is `dir` itself or lies somewhere beneath it. */
  predicate Beneath(p: string, dir: string)
  {
    p == dir || (|dir| < |p| && p[..|dir|] == dir && p[|dir|] == '/')
  }

  /** What is left of `paths` once `dir` and its subtree are gone. */
  function Without(paths: set<string>, dir: string): set<string>
  {
    set p | p in paths && !Beneath(p, dir)
  }

  /** Removal with ENOENT rescued: what `delete` and `Remover#call` leave. */
  function Removed(paths: set<string>, dir: string): set<string>
  {
    if dir in paths then Without(paths, dir) else paths
  }

  /** After a rescued removal the directory and everything beneath it are
      gone, and every other path is exactly as it was. */
  lemma RemovedSpec(paths: set<string>, dir: string, p: string)
    ensures dir !in Removed(paths, dir)
    ensures Beneath(p, dir) && dir in paths ==> p !in Removed(paths, dir)
    ensures !Beneath(p, dir) ==> (p in Removed(paths, dir) <==> p in paths)
  {
  }

  /** Removing twice is removing once: the second attempt meets ENOENT. */
  lemma RemovedIdempotent(paths: set<string>, dir: string)
    ensures Removed(Removed(paths, dir), dir) == Removed(paths, dir)
  {
  }

  /** `Redispot::WorkingDirectory::Remover`, the finalizer: remembers the
      creating process and the directory. */
  class Remover {
    const pid: int
    const directory: string

    constructor(directory: string, currentPid: int)
      ensures this.directory == directory && pid == currentPid
    {
      this.directory := directory;
      pid := currentPid;
    }

    /** Outside the creating process nothing happens; inside it the
        directory is removed, and a missing directory is not an error. */
    method Call(fs: FileSystem, currentPid: int)
      modifies fs
      ensures pid != currentPid ==> fs.paths == old(fs.paths)
      ensures pid == currentPid ==> fs.paths == Removed(old(fs.paths), directory)
    {
      if pid != currentPid {
        return;
      }
      var enoent := fs.RemoveEntrySecure(directory);
    }
  }

  /** `Redispot::WorkingDirectory`. */
  class WorkingDirectory {
    const directory: string
    var finalizer: Remover?

    /** `Dir.mktmpdir` creates `created`, which did not exist, and a
        `Remover` for it, recording the current process, is registered. */
    constructor(fs: FileSystem, created: string, currentPid: int)
      requires created !in fs.paths
      modifies fs
      ensures directory == created
      ensures fs.paths == old(fs.paths) + {created}
      ensures finalizer != null && fresh(finalizer)
      ensures finalizer.directory == created && finalizer.pid == currentPid
    {
      fs.paths := fs.paths + {created};
      directory := created;
      finalizer := new Remover(created, currentPid);
    }

    /** `delete`: removes the directory and unregisters the finalizer; when
        the directory is already gone, ENOENT is rescued before the
        finalizer is unregistered, so it stays. */
    method Delete(fs: FileSystem)
      modifies fs, this
      ensures fs.paths == Removed(old(fs.paths), directory)
      ensures directory in old(fs.paths) ==> finalizer == null
      ensures directory !in old(fs.paths) ==> finalizer == old(finalizer)
    {
      var enoent := fs.RemoveEntrySecure(directory);
      if enoent {
        return;
      }
      finalizer := null;
    }

    /** `to_s`: the directory fixed at construction. */
    function ToS(): string
    {
      directory
    }
  }

  // ---------------------------------------------------------------------------
  // Scenarios: what a caller can conclude from the contracts above alone

  /** Create, check, delete, check: the directory exists in between and is
      gone afterwards under the same name; deleting again changes nothing. */
  method Lifecycle(existing: set<string>, created: string, me: int)
    returns (name: string, existedAfterNew: bool, existsAfterDelete: bool,
             nameAfterDelete: string, unchangedBySecondDelete: bool, finalizerCleared: bool)
    requires created !in existing
    ensures name == created && nameAfterDelete == name
    ensures existedAfterNew && !existsAfterDelete
    ensures unchangedBySecondDelete && finalizerCleared
  {
    var fs := new FileSystem(existing);
    var dir := new WorkingDirectory(fs, created, me);
    name := dir.ToS();
    existedAfterNew := name in fs.paths;
    dir.Delete(fs);
    nameAfterDelete := dir.ToS();
    existsAfterDelete := nameAfterDelete in fs.paths;
    var before := fs.paths;
    dir.Delete(fs);
    unchangedBySecondDelete := fs.paths == before;
    finalizerCleared := dir.finalizer == null;
    RemovedSpec(existing + {created}, created, created);
  }

  /** When the directory vanished behind the object's back, `delete` keeps the
      finalizer, whose later run in the creating process is harmless; a run
      in another process never touches the filesystem. */
  method VanishedDirectory(existing: set<string>, created: string, me: int, other: int)
    returns (finalizerKept: bool, unchangedElsewhere: bool, unchangedAtHome: bool)
    requires created !in existing && other != me
    ensures finalizerKept && unchangedElsewhere && unchangedAtHome
  {
    var fs := new FileSystem(existing);
    var dir := new WorkingDirectory(fs, created, me);
    var remover := dir.finalizer;
    var enoent := fs.RemoveEntrySecure(created);
    dir.Delete(fs);
    finalizerKept := dir.finalizer == remover && remover != null;
    var before := fs.paths;
    remover.Call(fs, other);
    unchangedElsewhere := fs.paths == before;
    remover.Call(fs, me);
    unchangedAtHome := fs.paths == before;
  }

  /** A forked child that runs the finalizer leaves the directory alone; the
      creating process's run removes it. */
  method ForkedFinalizer(existing: set<string>, created: string, me: int, child: int)
    returns (survivesChild: bool, survivesOwner: bool)
    requires created !in existing && child != me
    ensures survivesChild && !survivesOwner
  {
    var fs := new FileSystem(existing);
    var dir := new WorkingDirectory(fs, created, me);
    var remover := dir.finalizer;
    remover.Call(fs, child);
    survivesChild := created in fs.paths;
    remover.Call(fs, me);
    survivesOwner := created in fs.paths;
    RemovedSpec(existing + {created}, created, created);
  }
}
