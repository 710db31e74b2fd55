/**
 * The part of the file system the launcher sees: a table from path to mode.
 * `existsSync`, `statSync` and `chmodSync` are methods on it.
 */
module Files {
  import opened Wrappers
  import opened Modes

  /** Why a file-system call threw. */
  datatype FsError = NotFound(path: Path) | Denied(path: Path)

  class FileSystem {
    var modes: map<Path, Mode>

    constructor (initial: map<Path, Mode>)
      ensures modes == initial
    {
      modes := initial;
    }

    /** `existsSync`: never throws. */
    predicate Exists(path: Path)
      reads this
    {
      path in modes
    }

    /** `statSync(path).mode`, or the error it throws. */
    method Stat(path: Path, fails: bool) returns (r: Result<Mode, FsError>)
      ensures r.Success? <==> path in modes && !fails
      ensures r.Success? ==> r.value == modes[path]
      ensures path !in modes ==> r == Failure(NotFound(path))
    {
      if path !in modes {
        r := Failure(NotFound(path));
      } else if fails {
        r := Failure(Denied(path));
      } else {
        r := Success(modes[path]);
      }
    }

    /** `chmodSync(path, mode)`; on failure (a thrown error) nothing changes. */
    method Chmod(path: Path, mode: Mode, fails: bool) returns (r: Result<(), FsError>)
      modifies this
      ensures r.Success? <==> path in old(modes) && !fails
      ensures modes == if r.Success? then old(modes)[path := mode] else old(modes)
    {
      if path !in modes {
        r := Failure(NotFound(path));
      } else if fails {
        r := Failure(Denied(path));
      } else {
        modes := modes[path := mode];
        r := Success(());
      }
    }
  }
}
