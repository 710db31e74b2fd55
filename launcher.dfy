/**
 * The launcher `acp-extension-codex`: resolve the platform package, locate
 * its binary, make it executable, spawn it with the forwarded arguments and
 * exit with its status.  `process.exit` is modelled as returning an
 * `Outcome`; module resolution and process spawning are function parameters.
 */
module Launcher {
  import opened Wrappers
  import opened Modes
  import opened Files
  import opened Platform

  /** What `fileURLToPath(import.meta.resolve(specifier))` produced, or the text of the error it threw. */
  datatype Resolve = Resolved(path: Path) | Threw(error: string)

  /** What `spawnSync` reported: an error (`result.error`), or an exit status that may be `null`. */
  datatype SpawnResult = SpawnError(error: string) | Exited(status: Option<int>)

  /** The command line the child process is started with. */
  datatype Invocation = Invocation(command: Path, args: seq<string>)

  /**
   * The launcher's fatal failures, with the values their diagnostics name;
   * each one exits with status 1.  `resolveError` is the error a throwing
   * resolution reported, and `None` when the resolved file does not exist.
   */
  datatype LaunchError =
    | PlatformNotSupported(platform: string)
    | ArchNotSupported(arch: string, platform: string)
    | BinaryMissing(packageName: string, platform: string, arch: string, resolveError: Option<string>)
    | SpawnFailed(path: Path, error: string)

  /** How the process ends: its exit status, the child it spawned, the failure it reported. */
  datatype Outcome = Outcome(exitCode: int, spawned: Option<Invocation>, failure: Option<LaunchError>)

  /** The specifier handed to `import.meta.resolve`. */
  function BinarySpecifier(packageName: string, platform: string): string {
    packageName + "/bin/" + BinaryName(platform)
  }

  /**
   * `getBinaryPath`: a path is returned only when the platform is supported,
   * resolution of the package's binary did not throw, and the resolved file
   * exists; otherwise the failure names the package, platform and arch.
   * `existing` is the set of paths for which `existsSync` holds (the keys of
   * the mode table, in `Run`).
   */
  function GetBinaryPath(platform: string, arch: string, resolve: string -> Resolve, existing: set<Path>)
    : (r: Result<Path, LaunchError>)
    ensures r.Success? <==>
              && PlatformPackage(platform, arch).Package?
              && resolve(BinarySpecifier(PlatformPackage(platform, arch).name, platform)).Resolved?
              && resolve(BinarySpecifier(PlatformPackage(platform, arch).name, platform)).path in existing
    ensures r.Success? ==> r.value in existing
    ensures r.Success? ==>
              resolve(BaseName + "-" + platform + "-" + arch + "/bin/" + BinaryName(platform)) == Resolved(r.value)
    ensures platform !in SupportedPlatforms ==> r == Failure(PlatformNotSupported(platform))
    ensures platform in SupportedPlatforms && arch !in SupportedArchs ==> r == Failure(ArchNotSupported(arch, platform))
    ensures platform in SupportedPlatforms && arch in SupportedArchs && r.Failure? ==>
              r.error.BinaryMissing? && r.error.packageName == BaseName + "-" + platform + "-" + arch
              && r.error.platform == platform && r.error.arch == arch
    ensures r.Failure? && r.error.BinaryMissing? ==>
              var specifier := BinarySpecifier(r.error.packageName, platform);
              match r.error.resolveError
              case Some(e) => resolve(specifier) == Threw(e)
              case None => resolve(specifier).Resolved? && resolve(specifier).path !in existing
  {
    match PlatformPackage(platform, arch)
    case UnsupportedPlatform(p) => Failure(PlatformNotSupported(p))
    case UnsupportedArch(a, p) => Failure(ArchNotSupported(a, p))
    case Package(name) =>
      match resolve(BinarySpecifier(name, platform))
      case Threw(e) => Failure(BinaryMissing(name, platform, arch, Some(e)))
      case Resolved(path) =>
        if path in existing then Success(path) else Failure(BinaryMissing(name, platform, arch, None))
  }

  /** `process.argv.slice(2)`: everything after `node` and the script path, verbatim and in order. */
  function ForwardedArgs(argv: seq<string>): (r: seq<string>)
    ensures |r| == if |argv| < 2 then 0 else |argv| - 2
    ensures forall i :: 0 <= i < |r| ==> r[i] == argv[i + 2]
  {
    if |argv| < 2 then [] else argv[2..]
  }

  /** `result.status || 0`: a `null` or zero status exits with 0, any other status is passed on. */
  function ExitStatus(status: Option<int>): (r: int)
    ensures r == 0 <==> status == None || status == Some(0)
    ensures r != 0 ==> status == Some(r)
  {
    match status
    case None => 0
    case Some(s) => if s == 0 then 0 else s
  }

  /** The mode table after `ensureExecutable(binaryPath)`. */
  function EnsureExecutableEffect(modes: map<Path, Mode>, platform: string, path: Path, faults: Faults)
    : (r: map<Path, Mode>)
    ensures platform == Win32 ==> r == modes
    ensures faults != NoFaults ==> r == modes
    ensures r.Keys == modes.Keys
    ensures forall q :: q in modes && q != path ==> r[q] == modes[q]
    ensures path in modes ==> r[path] == modes[path] || r[path] == WithExecBits(modes[path])
    ensures path in modes && HasExecBit(modes[path]) ==> r == modes
    ensures platform != Win32 && path in modes && !faults.statFails && !faults.chmodFails ==>
              r[path] == WithExecBits(modes[path])
  {
    if platform == Win32 then modes else FixMode(modes, path, faults)
  }

  /** `ensureExecutable`: best effort, never fails; stat and chmod errors are swallowed. */
  method EnsureExecutable(fs: FileSystem, platform: string, binaryPath: Path, faults: Faults)
    modifies fs
    ensures fs.modes == EnsureExecutableEffect(old(fs.modes), platform, binaryPath, faults)
  {
    if platform == Win32 {
      return;
    }
    var st := fs.Stat(binaryPath, faults.statFails);
    if st.Success? && st.value & ExecMask == 0 {
      var _ := fs.Chmod(binaryPath, st.value | ExecMask, faults.chmodFails);
    }
  }

  lemma EnsureExecutableIdempotent(modes: map<Path, Mode>, platform: string, path: Path, faults: Faults)
    ensures EnsureExecutableEffect(EnsureExecutableEffect(modes, platform, path, NoFaults), platform, path, faults)
         == EnsureExecutableEffect(modes, platform, path, NoFaults)
  {
    if platform != Win32 {
      FixOnceIdempotent(modes, path, faults);
    }
  }

  /** The mode table after `run`: only the located binary's entry can change. */
  function RunEffect(modes: map<Path, Mode>, platform: string, arch: string,
                     resolve: string -> Resolve, faults: Faults): (r: map<Path, Mode>)
    ensures r.Keys == modes.Keys
    ensures GetBinaryPath(platform, arch, resolve, modes.Keys).Failure? ==> r == modes
    // on win32, or when stat or chmod fails, no mode changes
    ensures platform == Win32 || faults != NoFaults ==> r == modes
    ensures forall q :: q in modes && GetBinaryPath(platform, arch, resolve, modes.Keys) != Success(q) ==>
              r[q] == modes[q]
    // the located binary keeps its mode or gets the rule's mode, and gets it when nothing fails
    ensures GetBinaryPath(platform, arch, resolve, modes.Keys).Success? ==>
              var p := GetBinaryPath(platform, arch, resolve, modes.Keys).value;
              && p in modes
              && (r[p] == modes[p] || r[p] == WithExecBits(modes[p]))
              && (platform != Win32 && faults == NoFaults ==> r[p] == WithExecBits(modes[p]) && HasExecBit(r[p]))
  {
    match GetBinaryPath(platform, arch, resolve, modes.Keys)
    case Failure(_) => modes
    case Success(path) => EnsureExecutableEffect(modes, platform, path, faults)
  }

  /**
   * The outcome of `run`.  Every internal failure exits with 1 and spawns
   * nothing before it is reached; a spawned child gets the located binary
   * and `argv[2..]`, and sees the file already made executable; when it runs,
   * its status (or 0) becomes the exit status.
   */
  function RunOutcome(modes: map<Path, Mode>, platform: string, arch: string, argv: seq<string>,
                      resolve: string -> Resolve, faults: Faults,
                      spawn: (Invocation, map<Path, Mode>) -> SpawnResult): (r: Outcome)
    ensures r.failure.Some? ==> r.exitCode == 1
    ensures r.spawned.None? <==> GetBinaryPath(platform, arch, resolve, modes.Keys).Failure?
    ensures r.spawned.None? ==> r.failure == Some(GetBinaryPath(platform, arch, resolve, modes.Keys).error)
    ensures r.spawned.Some? ==>
              && GetBinaryPath(platform, arch, resolve, modes.Keys) == Success(r.spawned.value.command)
              && r.spawned.value.command in modes
              && r.spawned.value.args == ForwardedArgs(argv)
    ensures r.spawned.Some? ==>
              var result := spawn(r.spawned.value, RunEffect(modes, platform, arch, resolve, faults));
              if result.SpawnError? then r.failure == Some(SpawnFailed(r.spawned.value.command, result.error))
              else r.failure == None && r.exitCode == ExitStatus(result.status)
    ensures platform !in SupportedPlatforms ==> r == Outcome(1, None, Some(PlatformNotSupported(platform)))
    ensures platform in SupportedPlatforms && arch !in SupportedArchs ==>
              r == Outcome(1, None, Some(ArchNotSupported(arch, platform)))
  {
    match GetBinaryPath(platform, arch, resolve, modes.Keys)
    case Failure(e) => Outcome(1, None, Some(e))
    case Success(path) =>
      var call := Invocation(path, ForwardedArgs(argv));
      match spawn(call, EnsureExecutableEffect(modes, platform, path, faults))
      case SpawnError(e) => Outcome(1, Some(call), Some(SpawnFailed(path, e)))
      case Exited(status) => Outcome(ExitStatus(status), Some(call), None)
  }

  /** `run`: locate, make executable, spawn, and exit with the child's status. */
  method Run(fs: FileSystem, platform: string, arch: string, argv: seq<string>,
             resolve: string -> Resolve, faults: Faults,
             spawn: (Invocation, map<Path, Mode>) -> SpawnResult) returns (out: Outcome)
    modifies fs
    ensures out == RunOutcome(old(fs.modes), platform, arch, argv, resolve, faults, spawn)
    ensures fs.modes == RunEffect(old(fs.modes), platform, arch, resolve, faults)
  {
    var located := GetBinaryPath(platform, arch, resolve, fs.modes.Keys);
    if located.Failure? {
      return Outcome(1, None, Some(located.error));
    }
    var binaryPath := located.value;
    EnsureExecutable(fs, platform, binaryPath, faults);
    var call := Invocation(binaryPath, ForwardedArgs(argv));
    var result := spawn(call, fs.modes);
    if result.SpawnError? {
      return Outcome(1, Some(call), Some(SpawnFailed(binaryPath, result.error)));
    }
    out := Outcome(ExitStatus(result.status), Some(call), None);
  }

  /** `--version` on a supported host with the binary present is forwarded alone, and the child's status is the exit status. */
  lemma ForwardsVersionFlag(modes: map<Path, Mode>, platform: string, arch: string, node: string, script: string,
                            resolve: string -> Resolve, faults: Faults,
                            spawn: (Invocation, map<Path, Mode>) -> SpawnResult, path: Path, status: int)
    requires platform in SupportedPlatforms && arch in SupportedArchs
    requires resolve(BinarySpecifier(BaseName + "-" + platform + "-" + arch, platform)) == Resolved(path)
    requires path in modes
    requires spawn(Invocation(path, ["--version"]), EnsureExecutableEffect(modes, platform, path, faults))
          == Exited(Some(status))
    ensures RunOutcome(modes, platform, arch, [node, script, "--version"], resolve, faults, spawn)
         == Outcome(status, Some(Invocation(path, ["--version"])), None)
  {
    assert ForwardedArgs([node, script, "--version"]) == ["--version"];
  }

  /** The darwin/arm64 package name, and the specifier the launcher resolves for it. */
  lemma DarwinArm64Names()
    ensures PlatformPackage("darwin", "arm64") == Package("acp-extension-codex-darwin-arm64")
    ensures BinarySpecifier("acp-extension-codex-darwin-arm64", "darwin")
         == "acp-extension-codex-darwin-arm64/bin/acp-extension-codex"
  {
  }

  /** On darwin/arm64, a resolution that throws is reported as the missing `acp-extension-codex-darwin-arm64` package. */
  lemma DarwinPackageNotInstalled(existing: set<Path>, resolve: string -> Resolve)
    requires resolve("acp-extension-codex-darwin-arm64/bin/acp-extension-codex").Threw?
    ensures GetBinaryPath("darwin", "arm64", resolve, existing)
         == Failure(BinaryMissing("acp-extension-codex-darwin-arm64", "darwin", "arm64",
                                  Some(resolve("acp-extension-codex-darwin-arm64/bin/acp-extension-codex").error)))
  {
    DarwinArm64Names();
  }

  /** ... and the launcher then exits with 1, spawning nothing and changing no mode. */
  lemma MissingDarwinPackage(modes: map<Path, Mode>, argv: seq<string>, resolve: string -> Resolve, faults: Faults,
                             spawn: (Invocation, map<Path, Mode>) -> SpawnResult)
    requires resolve("acp-extension-codex-darwin-arm64/bin/acp-extension-codex").Threw?
    ensures RunOutcome(modes, "darwin", "arm64", argv, resolve, faults, spawn)
         == Outcome(1, None, Some(BinaryMissing("acp-extension-codex-darwin-arm64", "darwin", "arm64",
                                             Some(resolve("acp-extension-codex-darwin-arm64/bin/acp-extension-codex").error))))
    ensures RunEffect(modes, "darwin", "arm64", resolve, faults) == modes
  {
    DarwinPackageNotInstalled(modes.Keys, resolve);
  }

  /** On linux/ia32 the launcher exits with 1 naming both the architecture and the platform. */
  lemma UnsupportedLinuxArch(modes: map<Path, Mode>, argv: seq<string>, resolve: string -> Resolve, faults: Faults,
                             spawn: (Invocation, map<Path, Mode>) -> SpawnResult)
    ensures RunOutcome(modes, "linux", "ia32", argv, resolve, faults, spawn)
         == Outcome(1, None, Some(ArchNotSupported("ia32", "linux")))
  {
  }
}
