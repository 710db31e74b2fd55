# acp-extension-codex launcher — verified model

`acp-extension-codex` is a Node launcher for a native binary. At start-up it
reads the host's platform and CPU architecture. It picks the matching
platform package (`acp-extension-codex-<platform>-<arch>`) and locates that
package's `bin/acp-extension-codex[.exe]`. Outside Windows it adds the execute
bits if the file has none. It then spawns the binary with the launcher's own
arguments and exits with the child's status. A separate install-time script
restores the execute bits of the package's binary once, after installation.

This project models that decision logic in Dafny:

- `Platform` (`platform.dfy`): the package table, its two failure outcomes,
  and the binary-name choice.
- `Modes` (`modes.dfy`): the executable-bit rule on a 32-bit mode. It also
  holds the best-effort application of that rule to a path-to-mode table,
  where stat and chmod may fail, and the proof that repeated applications
  amount to at most one.
- `Files` (`files.dfy`): the file system as a class holding a path-to-mode
  map, with `existsSync`, `statSync` and `chmodSync` as its members.
- `Launcher` (`launcher.dfy`): `getBinaryPath`, `ensureExecutable` and `run`.
  `process.exit` becomes an `Outcome` value carrying the exit status, the
  spawned invocation and the reported failure. Module resolution is a
  parameter `string -> Resolve`. Spawning is a parameter that sees the
  invocation and the mode table after the permission fix.
- `Installer` (`installer.dfy`): the `ensure-executable.mjs` script as a
  method on the file system. It comes with the proof that it applies the
  same rule as the launcher.
- `Wrappers` (`wrappers.dfy`): `Option` and `Result`.

The mode `0o111` is written `0x49`, because Dafny has no octal literals.

## Model

| member | source | states |
|---|---|---|
| Platform.PlatformPackage | npm/bin/acp-extension-codex.js:8-41 | a package name is returned exactly for the six pairs {darwin, linux, win32} × {arm64, x64}, and it is `acp-extension-codex-<platform>-<arch>`; an unknown platform is rejected first, whatever the arch; an unknown arch on a known platform is reported with both the arch and the platform |
| Platform.BinaryName | npm/bin/acp-extension-codex.js:46-49 | the name is `acp-extension-codex.exe` exactly when the platform is win32, and `acp-extension-codex` otherwise |
| Launcher.GetBinaryPath | npm/bin/acp-extension-codex.js:44-70 | a path is returned only if the platform package resolved, the resolver did not throw for `<package>/bin/<binary name>`, and the resolved file exists; the path is then the resolver's answer; a throwing resolver or a missing file gives the binary-missing failure, which names the package, platform and arch and carries the resolver's error exactly when it threw; unsupported platform and arch failures pass through unchanged |
| Modes.WithExecBits | npm/bin/acp-extension-codex.js:77-80 | the new mode keeps every bit outside 0o111 and is executable; a mode with no execute bit gets all three; a mode with any execute bit is returned unchanged, so it is not widened |
| Modes.WithExecBitsIdempotent | npm/bin/acp-extension-codex.js:78-80 | applying the mode rule twice equals applying it once |
| Modes.FixMode | npm/bin/acp-extension-codex.js:75-83 | best-effort stat-then-chmod on a mode table: no entry is added or removed, and only the target path's entry can change; that entry either stays or becomes the rule's mode; an absent path or an already executable file changes nothing; a stat or chmod failure changes nothing; with no stat or chmod failure the rule is applied |
| Modes.FixOnceIdempotent | npm/bin/acp-extension-codex.js:78-80 | after one successful application, a further application changes nothing, whatever fails in it |
| Modes.FixAllIsAtMostOnce | npm/template/ensure-executable.mjs:9-17 | any sequence of applications, each of which may fail, leaves either the original table or the table after one successful application; if any attempt is fault-free, the result is that table |
| Modes.FixAllFromFixed | npm/template/ensure-executable.mjs:12-13 | once the rule has been applied successfully, any number of further attempts leaves the table as it is |
| Files.FileSystem.Stat | npm/bin/acp-extension-codex.js:76 | stat succeeds exactly when the path exists and no fault occurs, and then returns that path's mode; an absent path gives a not-found error |
| Files.FileSystem.Chmod | npm/bin/acp-extension-codex.js:79 | chmod succeeds exactly when the path exists and no fault occurs; on success only that path's mode is replaced, and on failure the table is unchanged |
| Launcher.EnsureExecutableEffect | npm/bin/acp-extension-codex.js:72-84 | on win32 the mode table is unchanged; a stat or chmod failure changes nothing; no entry is added or removed, and only the target's entry can change; the target either keeps its mode or gets the rule's mode, whatever fails; an executable target is left alone; with no failures a non-executable target gets `mode OR 0o111`; no outcome is an error |
| Launcher.EnsureExecutable | npm/bin/acp-extension-codex.js:72-84 | the method returns on win32, otherwise it runs stat and, only when no execute bit is set, chmod; stat and chmod errors are swallowed; the resulting table is the one `EnsureExecutableEffect` describes |
| Launcher.EnsureExecutableIdempotent | npm/bin/acp-extension-codex.js:75-83 | `ensureExecutable` after a successful `ensureExecutable` on the same path changes nothing |
| Launcher.ForwardedArgs | npm/bin/acp-extension-codex.js:90 | the child's arguments are `argv[2..]`, verbatim and in order, with length `|argv| - 2` (empty when argv is shorter) |
| Launcher.ExitStatus | npm/bin/acp-extension-codex.js:100 | the exit status is 0 exactly when the child's status is null or 0; any other status is passed on unchanged |
| Launcher.RunEffect | npm/bin/acp-extension-codex.js:87-89 | a run that fails to locate the binary changes no mode; on win32, or when stat or chmod fails, no mode changes; otherwise only the located binary's entry can change, and it either keeps its mode or gets the rule's mode; outside win32 with no stat or chmod failure it gets the rule's mode and is executable; no entry is added or removed |
| Launcher.RunOutcome | npm/bin/acp-extension-codex.js:87-101 | every reported failure exits with 1; nothing is spawned exactly when locating the binary failed, and then that failure is reported; a spawned child gets the located, existing path and `argv[2..]`, and sees the permission fix already applied; a spawn error is reported as a spawn failure naming the path and the spawn error, and otherwise the exit status is the status, or 0 when it is null or zero; an unsupported platform or arch exits with 1 before anything else happens |
| Launcher.Run | npm/bin/acp-extension-codex.js:87-101 | the method locates the binary, runs `ensureExecutable` on it, then spawns it; its outcome and the resulting mode table are `RunOutcome` and `RunEffect` |
| Launcher.ForwardsVersionFlag | npm/bin/acp-extension-codex.js:90-100 | with a supported host and the binary present, `[node, script, "--version"]` spawns the binary with exactly `["--version"]`, and the child's non-null status becomes the exit status |
| Launcher.DarwinArm64Names | npm/bin/acp-extension-codex.js:14-15 | darwin/arm64 maps to `acp-extension-codex-darwin-arm64`, and the launcher resolves `acp-extension-codex-darwin-arm64/bin/acp-extension-codex` |
| Launcher.DarwinPackageNotInstalled | npm/bin/acp-extension-codex.js:51-69 | on darwin/arm64, a throwing resolution is reported as the missing package `acp-extension-codex-darwin-arm64`, carrying the resolver's error |
| Launcher.MissingDarwinPackage | npm/bin/acp-extension-codex.js:65-69 | in that case the launcher exits with 1, spawns nothing and changes no mode |
| Launcher.UnsupportedLinuxArch | npm/bin/acp-extension-codex.js:34-38 | linux/ia32 exits with 1, and the failure names both `ia32` and `linux` |
| Installer.InstallBinaryPath | npm/template/ensure-executable.mjs:6-7 | the target is `packageDir` followed by `/bin/acp-extension-codex`, with no `.exe` suffix and no platform table |
| Installer.InstallEffect | npm/template/ensure-executable.mjs:5-19 | on win32, or when the target is absent, nothing changes; a stat or chmod failure changes nothing; no entry is added or removed, and only the target's entry can change; the target either keeps its mode or gets the rule's mode, whatever fails; an executable target is left alone; with no failures a non-executable target gets `mode OR 0o111` |
| Installer.InstallFix | npm/template/ensure-executable.mjs:5-19 | outside win32 the script checks that the target exists, then runs stat, then chmod only when no execute bit is set; errors are swallowed; the resulting table is `InstallEffect` |
| Installer.InstallAgreesWithLauncher | npm/template/ensure-executable.mjs:9-17 | the script has the same effect as the launcher's `ensureExecutable` on the script's target path; its existence check is redundant with stat failing on an absent file |
| Installer.InstallTargetsLauncherBinary | npm/template/ensure-executable.mjs:7 | outside win32, the script's target is the `bin/` file name that the launcher looks for |
| Installer.InstallIdempotent | npm/template/ensure-executable.mjs:12 | running the script again after a successful run changes nothing |

## Left out

- Process spawning (`spawnSync`), stdio inheritance and `windowsHide` are left out. They are OS process plumbing. The model keeps only the spawn result: an error, or an exit status that may be null.
- `import.meta.resolve` and `fileURLToPath` are left out. They are the host's module resolution. They become a resolver function from specifier to "resolved path" or "threw".
- The real `existsSync`, `statSync` and `chmodSync` are replaced by a path-to-mode map. Two failure flags (`Faults`) stand for permission and I/O errors. A missing path makes stat fail in the model too.
- `path.dirname`, `path.join` and URL-to-path conversion are left out. The install script's target is `packageDir + "/bin/acp-extension-codex"`, with no path normalisation.
- The wording of the `console.error` diagnostics is left out. The model records the values each failure names: the package, platform, arch and path. Thrown resolution errors and spawn errors are kept as their text, not as error objects.
- `process.exit` does not terminate anything in the model. It becomes an `Outcome` value returned to the caller.
- Platform.PlatformPackage: a key inherited from `Object.prototype` (such as `"constructor"`) is not modelled. In JavaScript such a key makes the table lookup truthy. The model covers only the six table keys.
- Launcher.ExitStatus: the child's status is an unbounded integer. The range of real exit codes and the masking of a signal termination as 0 are not modelled beyond `status || 0`.
