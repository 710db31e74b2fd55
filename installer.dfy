/**
 * The install-time script `ensure-executable.mjs`: outside Windows, restore
 * the execute bits of `<packageDir>/bin/acp-extension-codex` if that file
 * exists.  It takes no arguments, returns nothing and never fails.
 */
module Installer {
  import opened Modes
  import opened Files
  import opened Platform
  import Launcher

  /** The binary the script targets: a fixed path, no `.exe`, no platform table. */
  function InstallBinaryPath(packageDir: Path): (r: Path)
    ensures |r| == |packageDir| + |"/bin/" + BaseName|
    ensures r[..|packageDir|] == packageDir
    ensures r[|packageDir|..] == "/bin/acp-extension-codex"
  {
    packageDir + "/bin/" + BaseName
  }

  /** The mode table after the script has run. */
  function InstallEffect(modes: map<Path, Mode>, platform: string, packageDir: Path, faults: Faults)
    : (r: map<Path, Mode>)
    ensures platform == Win32 ==> r == modes
    ensures InstallBinaryPath(packageDir) !in modes ==> r == modes
    ensures faults != NoFaults ==> r == modes
    ensures r.Keys == modes.Keys
    ensures forall q :: q in modes && q != InstallBinaryPath(packageDir) ==> r[q] == modes[q]
    ensures InstallBinaryPath(packageDir) in modes ==>
              r[InstallBinaryPath(packageDir)] == modes[InstallBinaryPath(packageDir)]
              || r[InstallBinaryPath(packageDir)] == WithExecBits(modes[InstallBinaryPath(packageDir)])
    ensures InstallBinaryPath(packageDir) in modes && HasExecBit(modes[InstallBinaryPath(packageDir)]) ==> r == modes
    ensures platform != Win32 && InstallBinaryPath(packageDir) in modes && !faults.statFails && !faults.chmodFails ==>
              r[InstallBinaryPath(packageDir)] == WithExecBits(modes[InstallBinaryPath(packageDir)])
  {
    var binaryPath := InstallBinaryPath(packageDir);
    if platform == Win32 || binaryPath !in modes then modes else FixMode(modes, binaryPath, faults)
  }

  /** The script body; the existence check guards the stat, and stat or chmod errors are swallowed. */
  method InstallFix(fs: FileSystem, platform: string, packageDir: Path, faults: Faults)
    modifies fs
    ensures fs.modes == InstallEffect(old(fs.modes), platform, packageDir, faults)
  {
    if platform != Win32 {
      var binaryPath := InstallBinaryPath(packageDir);
      if fs.Exists(binaryPath) {
        var st := fs.Stat(binaryPath, faults.statFails);
        if st.Success? && st.value & ExecMask == 0 {
          var _ := fs.Chmod(binaryPath, st.value | ExecMask, faults.chmodFails);
        }
      }
    }
  }

  /**
   * The script and the launcher's `ensureExecutable` apply the same rule: on
   * the target path they have the same effect, the existence check being
   * redundant with stat failing on an absent file.
   */
  lemma InstallAgreesWithLauncher(modes: map<Path, Mode>, platform: string, packageDir: Path, faults: Faults)
    ensures InstallEffect(modes, platform, packageDir, faults)
         == Launcher.EnsureExecutableEffect(modes, platform, InstallBinaryPath(packageDir), faults)
  {
  }

  /** Outside Windows the script targets the file name the launcher looks for in the package's `bin/`. */
  lemma InstallTargetsLauncherBinary(packageDir: Path, platform: string)
    requires platform != Win32
    ensures InstallBinaryPath(packageDir) == packageDir + "/bin/" + BinaryName(platform)
  {
  }

  /** Running the script again after a fault-free run changes nothing. */
  lemma InstallIdempotent(modes: map<Path, Mode>, platform: string, packageDir: Path, faults: Faults)
    ensures InstallEffect(InstallEffect(modes, platform, packageDir, NoFaults), platform, packageDir, faults)
         == InstallEffect(modes, platform, packageDir, NoFaults)
  {
    if platform != Win32 && InstallBinaryPath(packageDir) in modes {
      FixOnceIdempotent(modes, InstallBinaryPath(packageDir), faults);
    }
  }
}
