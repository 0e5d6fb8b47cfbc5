/** The recipe's settings logic: the package version with the CI build
    number (conanfile.py:19-21) and the checks `configure` makes on the
    settings and options before anything is built (conanfile.py:81-98). */
module Recipe {
  import opened Wrappers
  import opened PyStrings

  /** `get_version(version)` with the value of `BUILD_NUMBER`, `None` when
      the variable is unset: an empty or unset build number leaves the
      version alone, any other is appended. */
  function GetVersion(version: string, buildNumber: Option<string>): (v: string)
    ensures StartsWith(v, version)
  {
    StartsWithAppend(version, buildNumber.GetOr(""));
    if buildNumber.Some? && buildNumber.value != "" then version + buildNumber.value else version
  }

  /** What follows the base version: the build number, or nothing. */
  function BuildSuffix(version: string, full: string): string
    requires StartsWith(full, version)
  {
    full[|version|..]
  }

  /** The build number is recovered from the version string, and only an
      unset variable and an empty one give the same version. */
  lemma GetVersionSuffix(version: string, buildNumber: Option<string>)
    ensures BuildSuffix(version, GetVersion(version, buildNumber)) == buildNumber.GetOr("")
    ensures GetVersion(version, buildNumber) == version <==> buildNumber.GetOr("") == ""
  {
    if buildNumber.Some? && buildNumber.value != "" {
      assert (version + buildNumber.value)[|version|..] == buildNumber.value;
    }
  }

  /** `c.lower()` on ASCII letters; every other character is kept. */
  function LowerChar(c: char): (l: char)
    ensures 'A' <= c <= 'Z' ==> 'a' <= l <= 'z'
    ensures !('A' <= c <= 'Z') ==> l == c
  {
    if 'A' <= c <= 'Z' then (c as int - 'A' as int + 'a' as int) as char else c
  }

  /** `s.lower()` */
  function Lower(s: string): (l: string)
    ensures |l| == |s|
    ensures forall i :: 0 <= i < |s| ==> l[i] == LowerChar(s[i])
    decreases |s|
  {
    if |s| == 0 then "" else [LowerChar(s[0])] + Lower(s[1..])
  }

  /** Two characters that agree up to ASCII case. */
  predicate SameLetterIgnoringCase(a: char, b: char) {
    a == b
    || ('A' <= a <= 'Z' && b as int == a as int + 32)
    || ('A' <= b <= 'Z' && a as int == b as int + 32)
  }

  /** A build type is a release build whatever its ASCII case: exactly the
      seven-letter spellings of "release" in any mix of cases. */
  lemma ReleaseIgnoringCase(buildType: string)
    ensures Lower(buildType) == "release"
            <==> |buildType| == 7
                 && forall i :: 0 <= i < 7 ==> SameLetterIgnoringCase(buildType[i], "release"[i])
  {
    if Lower(buildType) == "release" {
      forall i | 0 <= i < 7 ensures SameLetterIgnoringCase(buildType[i], "release"[i]) {
        assert LowerChar(buildType[i]) == "release"[i];
      }
    }
    if |buildType| == 7 && forall i :: 0 <= i < 7 ==> SameLetterIgnoringCase(buildType[i], "release"[i]) {
      forall i | 0 <= i < 7 ensures Lower(buildType)[i] == "release"[i] {
        assert SameLetterIgnoringCase(buildType[i], "release"[i]);
      }
    }
  }

  /** The settings and options `configure` reads. */
  datatype Settings = Settings(
    buildType: string,
    llvmTools: bool,
    compileWithLlvmTools: bool,
    ubsan: bool,
    asan: bool,
    msan: bool,
    tsan: bool)

  /** The two `ConanInvalidConfiguration` errors. */
  datatype ConfigError = LlvmToolsRequired | SanitizersRequireLlvmTools

  /** The warnings printed and the error raised, if any. */
  datatype Configured = Configured(warnings: seq<string>, error: Option<ConfigError>)

  const DebugWarning: string := "enable llvm_tools for Debug builds"

  predicate AnySanitizer(s: Settings) {
    s.ubsan || s.asan || s.msan || s.tsan
  }

  /** `configure()` without the C++ standard check. It accepts exactly the
      settings whose options needing the LLVM tools have them enabled; it
      warns once, exactly for a non-release build without them; and a build
      asking to be compiled with the LLVM tools is refused for that reason
      before any sanitizer is looked at. */
  function Configure(s: Settings): (c: Configured)
    ensures c.error.None? <==> (NeedsLlvmTools(s) ==> s.llvmTools)
    ensures c.error == Some(LlvmToolsRequired) <==> s.compileWithLlvmTools && !s.llvmTools
    ensures c.warnings != [] <==> Lower(s.buildType) != "release" && !s.llvmTools
    ensures c.warnings == [] || c.warnings == [DebugWarning]
  {
    var warnings := if Lower(s.buildType) != "release" && !s.llvmTools then [DebugWarning] else [];
    var error :=
      if s.compileWithLlvmTools && !s.llvmTools then Some(LlvmToolsRequired)
      else if AnySanitizer(s) && !s.llvmTools then Some(SanitizersRequireLlvmTools)
      else None;
    Configured(warnings, error)
  }

  /** The options that need the LLVM tools. */
  predicate NeedsLlvmTools(s: Settings) {
    s.compileWithLlvmTools || AnySanitizer(s)
  }
}
