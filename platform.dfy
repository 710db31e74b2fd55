/**
 * `getPlatformPackage` and the binary-name choice: the (platform, arch) pair
 * reported by Node is looked up in a fixed two-level table of package names.
 */
module Platform {

  const BaseName := "acp-extension-codex"
  const Win32 := "win32"

  /** The platforms and architectures the table covers. */
  const SupportedPlatforms: set<string> := {"darwin", "linux", Win32}
  const SupportedArchs: set<string> := {"arm64", "x64"}

  /** The package table, platform first, then architecture. */
  const PlatformMap: map<string, map<string, string>> := map[
    "darwin" := map["arm64" := BaseName + "-darwin-arm64", "x64" := BaseName + "-darwin-x64"],
    "linux" := map["arm64" := BaseName + "-linux-arm64", "x64" := BaseName + "-linux-x64"],
    Win32 := map["arm64" := BaseName + "-win32-arm64", "x64" := BaseName + "-win32-x64"]
  ]

  /** The outcome of the lookup; both failures exit the process with status 1. */
  datatype Resolution =
    | Package(name: string)
    | UnsupportedPlatform(platform: string)
    | UnsupportedArch(arch: string, platform: string)

  /**
   * The platform is checked first: an unknown platform is reported whatever
   * the architecture; an unknown architecture is reported together with the
   * (known) platform.
   */
  function PlatformPackage(platform: string, arch: string): (r: Resolution)
    ensures r.Package? <==> platform in SupportedPlatforms && arch in SupportedArchs
    ensures r.Package? ==> r.name == BaseName + "-" + platform + "-" + arch
    ensures platform !in SupportedPlatforms ==> r == UnsupportedPlatform(platform)
    ensures platform in SupportedPlatforms && arch !in SupportedArchs ==> r == UnsupportedArch(arch, platform)
  {
    if platform !in PlatformMap then UnsupportedPlatform(platform)
    else if arch !in PlatformMap[platform] then UnsupportedArch(arch, platform)
    else Package(PlatformMap[platform][arch])
  }

  /** The file name of the binary inside the platform package. */
  function BinaryName(platform: string): (r: string)
    ensures r == BaseName + ".exe" <==> platform == Win32
    ensures platform != Win32 ==> r == BaseName
  {
    if platform == Win32 then BaseName + ".exe" else BaseName
  }
}
