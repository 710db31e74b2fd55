/**
 * The executable-bit rule shared by the launcher's `ensureExecutable` and the
 * install-time script: a file mode with no execute bit gets all three execute
 * bits (owner, group, other) added; any other mode is left alone.
 */
module Modes {

  /** A POSIX file mode as reported by `stat` (`st.mode`). */
  type Mode = bv32

  /** File-system paths are plain strings. */
  type Path = string

  /** The owner, group and other execute bits, 0o111 in octal. */
  const ExecMask: Mode := 0x49

  predicate HasExecBit(mode: Mode) {
    mode & ExecMask != 0
  }

  /** The new mode written by the rule: `mode | 0o111` when no execute bit is set. */
  function WithExecBits(mode: Mode): (r: Mode)
    // every bit outside the execute bits is preserved
    ensures r & !ExecMask == mode & !ExecMask
    // afterwards the file is executable
    ensures HasExecBit(r)
    // a mode with no execute bit gets all three of them
    ensures !HasExecBit(mode) ==> r & ExecMask == ExecMask
    // a mode with some execute bit is not widened
    ensures HasExecBit(mode) ==> r == mode
  {
    if mode & ExecMask == 0 then mode | ExecMask else mode
  }

  lemma WithExecBitsIdempotent(mode: Mode)
    ensures WithExecBits(WithExecBits(mode)) == WithExecBits(mode)
  {
  }

  /**
   * The failures that `statSync` and `chmodSync` may raise besides the file
   * being absent (permission denied, I/O error).  Both are swallowed.
   */
  datatype Faults = Faults(statFails: bool, chmodFails: bool)

  const NoFaults := Faults(false, false)

  /**
   * The effect on the mode table of one best-effort application of the rule
   * to `path`: stat (fails if the path is absent or on a stat fault), then,
   * only when no execute bit is set, chmod (which may fail).  A failure
   * leaves the table as it was.
   */
  function FixMode(modes: map<Path, Mode>, path: Path, faults: Faults): (r: map<Path, Mode>)
    ensures r.Keys == modes.Keys
    // only the target entry can ever change
    ensures forall q :: q in modes && q != path ==> r[q] == modes[q]
    // and it either stays or becomes the rule's new mode
    ensures path in modes ==> r[path] == modes[path] || r[path] == WithExecBits(modes[path])
    // an absent path changes nothing
    ensures path !in modes ==> r == modes
    // a stat or chmod failure changes nothing
    ensures faults != NoFaults ==> r == modes
    // an executable file is never touched, whatever fails
    ensures path in modes && HasExecBit(modes[path]) ==> r == modes
    // without faults the rule is applied
    ensures path in modes && !faults.statFails && !faults.chmodFails ==> r[path] == WithExecBits(modes[path])
  {
    if path !in modes || faults.statFails then modes
    else if modes[path] & ExecMask == 0 then
      (if faults.chmodFails then modes else modes[path := modes[path] | ExecMask])
    else modes
  }

  /** One fault-free application of the rule. */
  function FixOnce(modes: map<Path, Mode>, path: Path): map<Path, Mode> {
    FixMode(modes, path, NoFaults)
  }

  lemma FixOnceIdempotent(modes: map<Path, Mode>, path: Path, faults: Faults)
    ensures FixMode(FixOnce(modes, path), path, faults) == FixOnce(modes, path)
  {
  }

  /** The table after one application of the rule per attempt, in order. */
  function FixAll(modes: map<Path, Mode>, path: Path, attempts: seq<Faults>): map<Path, Mode>
    decreases |attempts|
  {
    if attempts == [] then modes
    else FixAll(FixMode(modes, path, attempts[0]), path, attempts[1..])
  }

  /**
   * Repeated launches and installs, each failing or not, end in either the
   * original table or the table after one fault-free application: running
   * the rule twice or more is the same as running it once.
   */
  lemma {:induction false} FixAllIsAtMostOnce(modes: map<Path, Mode>, path: Path, attempts: seq<Faults>)
    ensures FixAll(modes, path, attempts) == modes || FixAll(modes, path, attempts) == FixOnce(modes, path)
    ensures NoFaults in attempts ==> FixAll(modes, path, attempts) == FixOnce(modes, path)
    decreases |attempts|
  {
    if attempts != [] {
      var next := FixMode(modes, path, attempts[0]);
      if next == modes {
        FixAllIsAtMostOnce(modes, path, attempts[1..]);
        if NoFaults in attempts && attempts[0] != NoFaults {
          assert NoFaults in attempts[1..];
        }
      } else {
        assert next == FixOnce(modes, path);
        FixAllFromFixed(modes, path, attempts[1..]);
      }
    }
  }

  /** Once the rule has been applied, further attempts change nothing. */
  lemma {:induction false} FixAllFromFixed(modes: map<Path, Mode>, path: Path, attempts: seq<Faults>)
    ensures FixAll(FixOnce(modes, path), path, attempts) == FixOnce(modes, path)
    decreases |attempts|
  {
    if attempts != [] {
      FixOnceIdempotent(modes, path, attempts[0]);
      FixAllFromFixed(modes, path, attempts[1..]);
    }
  }
}
