# Abseil Conan recipe: components from the CMake targets file

This project models the part of the Abseil Conan recipe (`conanfile.py`) that
turns the CMake targets file generated by Abseil's build into Conan
components:

- `_create_components_file_from_cmake_target_file` finds every
  `add_library(...)` and `set_target_properties(...)` statement in the text.
  It names a component `absl_<target>` after each statement's subject. A
  static or shared library sets the component's `libs`. The
  `INTERFACE_LINK_LIBRARIES` and `INTERFACE_COMPILE_DEFINITIONS` properties
  fill `requires`, `system_libs`, `frameworks` and `defines`. The link table
  depends on the operating system.
- `_register_components` / `_register_component` declare each component to
  Conan in file order, with the generator names and the five lists.
- `get_version` appends the CI build number.
- `configure` warns about non-release builds without the LLVM tools and
  refuses options that need them.

The model is concrete. The three regular expressions are written out as
scanners with Python `re` semantics:

- the statement pattern, including the bracket class `[\n|\s]`, which also
  matches a literal `|`;
- `re.split(..., maxsplit=2)`;
- the property pattern, including the backtracking of `[\n|\s]+` before
  `(.+)`.

Python's `str.replace`, `split`, `in` and `startswith` are defined on
`seq<char>`. The dictionary is an association list, because insertion order
is observable both in the written file and in the registration order.

The files:

- `py_strings.dfy` holds the string operations.
- `cmake_scan.dfy` holds the scanners.
- `components.dfy` holds the dictionary and `setdefault`.
- `folds.dfy` holds the loop whose body may raise.
- `extractor.dfy` holds the extractor as written.
- `effects.dfy` holds a declarative reading of what each property contributes,
  with the per-OS link table as data.
- `extraction.dfy` holds the whole-run theorems.
- `registration.dfy` holds the registration.
- `package.dfy` takes the package from text to registered components.
- `recipe.dfy` holds the version and `configure`.

Where the code does something other than a reader might expect, the model
follows the code:

- A component is created only for a statement's subject. A requirement that
  never appears as a subject gets no placeholder entry
  (`Extraction.ExtractAllNames`).
- A statement with too few arguments raises `IndexError`, which ends the
  whole extraction. It is not skipped (`Extraction.ExtractAllFirstError`).
- `replace("absl::", ...)` rewrites every occurrence, not just a leading
  namespace. The same target `absl::u`, used as a statement's subject and
  as a requirement, names one component exactly when `u` holds no second
  `absl::` (`Extractor.RequireNameIsKey`, `Extractor.SameNameIff`).

## Model

| member | source | states |
|---|---|---|
| PyStrings.ContainsIffOccurs | conanfile.py:203 | `sub in s` holds exactly when some window of `s` equals `sub` |
| PyStrings.ReplaceIsJoinOfSplit | conanfile.py:181 | `s.replace(p, r)` equals `r.join(s.split(p))` for a non-empty pattern: every non-overlapping occurrence, from the left, is replaced |
| PyStrings.Replace | conanfile.py:181 | `str.replace` on text without the pattern returns the text; which occurrences it replaces is stated by `PyStrings.ReplaceIsJoinOfSplit` together with the `Split` lemmas below, for any non-empty pattern such as `absl::` |
| PyStrings.ReplaceGrows | conanfile.py:198 | replacing a pattern by a text rather than by nothing lengthens the result, by at least that text wherever the pattern occurs |
| PyStrings.Split | conanfile.py:195 | `str.split` yields at least one piece; its contents are stated by `PyStrings.SplitFirstPiece`, `PyStrings.SplitPiecesAvoidSep` and `PyStrings.JoinSplit` for any separator, and by `PyStrings.SplitJoin` and `PyStrings.SplitPiecesAvoid` for the one-character `;` |
| PyStrings.SplitFirstPiece | conanfile.py:181-198 | for any non-empty separator, the first piece is the text up to the leftmost occurrence, or the whole text when there is none, and the other pieces are the split of what follows that occurrence |
| PyStrings.SplitPiecesAvoidSep | conanfile.py:181-198 | for any non-empty separator, no piece contains it |
| PyStrings.RemoveCharContents | conanfile.py:195 | `v.replace('"', "")` drops every quote and keeps every other character with its multiplicity |
| PyStrings.JoinSplit | conanfile.py:195 | `";".join(v.split(";")) == v`: splitting loses nothing |
| PyStrings.SplitJoin | conanfile.py:214 | pieces free of the separator, joined and split again, come back unchanged |
| PyStrings.SplitPiecesAvoid | conanfile.py:195 | no piece of a split holds the separator, nor any character the whole text lacks |
| CMakeScan.SplitArgsFirstPiece | conanfile.py:178 | `re.split` cuts exactly when cuts are allowed and a separator is present; the first piece is then the leading word and holds no separator |
| CMakeScan.SplitArgs | conanfile.py:178 | `re.split(r"[\s\|\n]+", args, maxsplit=2)` yields between one and three pieces; what they are is stated by the `SplitArgs…` lemmas |
| CMakeScan.SplitArgsOfTwoWords | conanfile.py:178-187 | two words separated by any run of blanks, newlines or `\|`, as in `add_library(NAME TYPE)`, split into the name and the type |
| CMakeScan.SplitArgsOfThreeParts | conanfile.py:178-191 | two words and a rest, each after a separator run of any shape, split into the two words and the whole rest, separators and newlines inside it included: `add_library(NAME TYPE IMPORTED)` gives `IMPORTED` as the third piece, and `set_target_properties(NAME PROPERTIES` followed by a newline and the indented properties gives the property block |
| CMakeScan.ScanStatements | conanfile.py:176 | every captured argument text lacks `)` and does not start with a separator |
| CMakeScan.ScanRendered | conanfile.py:176 | `findall` over a text of statements written one after another returns those statements, in order |
| CMakeScan.ValueStart | conanfile.py:191 | the backtracking of `[\n\|\s]+` gives back separators until `.` can match: the value starts inside the run, after at least one separator, on a non-newline |
| CMakeScan.FindProperties | conanfile.py:191 | every captured property value is non-empty and lies within one line |
| CMakeScan.FindRenderedProperties | conanfile.py:191 | `findall` over indented property lines returns those properties, in order |
| Components.AppendOneExtend | conanfile.py:196-198 | `setdefault(field, []).append(x)` after appending the list `xs` is appending `xs + [x]`: one append per token builds the list of all tokens, in order |
| Components.ExtendExtend | conanfile.py:216 | appending two lists in turn is appending their concatenation |
| Components.Get | conanfile.py:189 | a lookup finds the record stored under the key, and finds nothing only when no entry has that key |
| Components.GetIffNames | conanfile.py:184 | a key has a record exactly when it is among the keys |
| Components.SetDefault | conanfile.py:184 | `setdefault` keeps an existing record and its position; a new key gets `rec` at the end |
| Components.SetDefaultOther | conanfile.py:184 | `setdefault` leaves every other key's record alone |
| Components.Put | conanfile.py:189 | `components[key][field] = value` writes a record; stated by `Components.PutNames`, `Components.PutOther`, `Components.PutSame` and `Components.PutUnique` |
| Components.PutNames | conanfile.py:189 | assignment keeps every key in place and appends only a new one |
| Components.PutOther | conanfile.py:189 | assignment leaves every other key's record alone |
| Components.PutSame | conanfile.py:189 | assigning a key its own record changes nothing |
| Components.SetDefaultUnique | conanfile.py:184 | `setdefault` keeps the keys distinct |
| Components.PutUnique | conanfile.py:189 | assignment keeps the keys distinct |
| Folds.FoldSucceeds | conanfile.py:177 | a loop whose body raises on exactly the elements `ok` rejects completes exactly when `ok` accepts them all |
| Folds.FoldFirstFailure | conanfile.py:177 | such a loop ends with the error of its first rejected element |
| Extractor.TargetOf | conanfile.py:181 | the subject with every `absl::` removed; stated by `Extractor.RequireNameIsKey` and `Extraction.TargetOfKeyOf` |
| Extractor.KeyOf | conanfile.py:182 | `absl_` followed by the target; stated by `Extraction.TargetOfKeyOf` and `Extractor.SameNameIff` |
| Extractor.RequireName | conanfile.py:198 | every `absl::` renamed `absl_`; stated by `Extractor.RequireNamePrefixed`, `Extractor.RequireNameIsKey` and `Extractor.SameNameIff` |
| Extractor.ValueTokens | conanfile.py:195 | a value read as tokens yields at least one token; what they are is stated by `Extractor.ValueTokensContents` and `Extractor.ValueTokensOfJoin` |
| Extractor.AppendFound | conanfile.py:205-212 | the loop over candidate names; stated by `Effects.AppendFoundEffect` |
| Extractor.ApplyDependencies | conanfile.py:196-212 | the loop over a link value's tokens; stated by `Effects.ApplyDependenciesEffect` and `Effects.DependenciesRequirements` |
| Extractor.ApplyDefinitions | conanfile.py:213-216 | the loop over definition tokens; stated by `Effects.ApplyDefinitionsEffect` |
| Extractor.ApplyProperty | conanfile.py:193-216 | one property; stated by `Effects.ApplyPropertyEffect` |
| Extractor.ApplyProperties | conanfile.py:192-216 | the loop over a statement's properties; stated by `Effects.ApplyPropertiesEffect` |
| Extractor.UpdateRecord | conanfile.py:186-216 | what one statement does to its component's record; stated by `Extraction.UpdateRecordEffect` |
| Extractor.Pieces | conanfile.py:178 | `re.split(..., maxsplit=2)` yields one to three pieces |
| Extractor.ValueTokensContents | conanfile.py:195 | the tokens of a value, joined with `;`, are the unquoted value; no token holds `;` or a quote |
| Extractor.ValueTokensOfJoin | conanfile.py:214 | tokens free of `;` and quotes, joined with `;`, are read back as themselves |
| Extractor.RequireNameIsKey | conanfile.py:198 | for `absl::u` with no further `absl::` in `u`, the requirement name equals the component name `absl_u`, and the CMake target is `u` |
| Extractor.RequireNamePrefixed | conanfile.py:198 | every requirement name begins with `absl_` |
| Extractor.SameNameIff | conanfile.py:181-198 | for a subject `absl::u`, the same text as a requirement names the subject's component exactly when `u` holds no second `absl::` |
| Extractor.ApplyDependency | conanfile.py:196-212 | one link token; what it changes is stated by `Effects.ApplyDependencyEffect`, `Effects.LinuxDependency`, `Effects.WindowsDependency` and `Effects.MacosDependency` |
| Extractor.Step | conanfile.py:177-216 | one iteration of the loop over statements; stated by `Extraction.StepNames`, `Extraction.StepOther`, `Extraction.NewComponentRecord` and `Extraction.UpdateRecordEffect` |
| Extractor.ExtractAll | conanfile.py:177-216 | the loop over statements; stated by `Extraction.ExtractAllSucceeds`, `Extraction.ExtractAllFirstError`, `Extraction.ExtractAllNames` and `Extraction.ExtractAllComponents` |
| Extractor.Extract | conanfile.py:176-216 | the extractor on the targets file's text; stated by `Extraction.ExtractRendered` |
| Effects.ApplyEffectPlus | conanfile.py:198 | applying two contributions in turn is applying their sum |
| Effects.RulesEffectNone | conanfile.py:200-212 | a link table adds nothing exactly when none of its rules recognises the token |
| Effects.ThreadsIsNotRt | conanfile.py:201-204 | `Threads::Threads` does not contain `-lrt`, so on Linux the `elif` never hides a second match |
| Effects.LinuxDependency | conanfile.py:200-204 | the Linux `if`/`elif` on an external token adds what the Linux table adds: `pthread` for exactly `Threads::Threads`, `rt` for any token containing `-lrt` |
| Effects.AppendFoundEffect | conanfile.py:206-208 | the loop over candidates appends, in order, every candidate the token contains |
| Effects.WindowsDependency | conanfile.py:205-208 | the Windows loop adds what the Windows table adds: each of `bcrypt`, `advapi32`, `dbghelp` the token contains, in that order |
| Effects.MacosDependency | conanfile.py:209-212 | the macOS loop adds the framework `CoreFoundation` exactly when the token contains it |
| Effects.ApplyDependencyEffect | conanfile.py:196-212 | one link token changes a record exactly by its declared contribution: a requirement for `absl::` tokens, else the OS table |
| Effects.ApplyDependenciesEffect | conanfile.py:196 | the loop over a link value's tokens changes a record by their summed contribution |
| Effects.ApplyDefinitionsEffect | conanfile.py:215-216 | the loop over definition tokens extends `defines` by all of them, in order, and nothing else |
| Effects.ApplyPropertyEffect | conanfile.py:193-216 | one property changes a record by its contribution; include directories contribute nothing |
| Effects.ApplyPropertiesEffect | conanfile.py:192 | the loop over a statement's properties changes a record by their summed contribution |
| Effects.UnknownDependencyUnchanged | conanfile.py:199-212 | an external token no rule of the OS recognises leaves the record exactly as it was |
| Effects.DependenciesRequirements | conanfile.py:197-198 | the requirements a link value adds are its `absl::` tokens renamed, in order, whatever the operating system |
| Effects.InternalRequiresPrefixed | conanfile.py:198 | every such requirement names an `absl_` component |
| Effects.DependenciesAddNoDefines | conanfile.py:194-212 | a link value never adds definitions |
| Effects.PropertiesRequireInternal | conanfile.py:192-198 | every requirement a statement's properties add names an `absl_` component |
| Extraction.DedupContents | conanfile.py:184 | first-occurrence order keeps each element exactly once and adds none |
| Extraction.ExtractAllSucceeds | conanfile.py:177-191 | the extraction completes exactly when every statement has the pieces its command reads |
| Extraction.ExtractAllFirstError | conanfile.py:187 | otherwise it fails with the `IndexError` of the first statement missing a piece: index 1 for `add_library`, 2 for `set_target_properties` |
| Extraction.StepNames | conanfile.py:184 | one statement appends its component if it is new, and otherwise keeps the names |
| Extraction.StepOther | conanfile.py:184-216 | one statement leaves every other component's record alone |
| Extraction.ExtractAllNames | conanfile.py:184 | a run over well-formed statements completes, and its components are the statements' subjects, each once, in order of first appearance; nothing else gets an entry |
| Extraction.ExtractAllUnique | conanfile.py:184 | such a run writes no component twice |
| Extraction.UpdateRecordEffect | conanfile.py:186-216 | what a statement does to its component's record: its properties' contribution, and `libs` set to the component itself for a static or shared library |
| Extraction.TargetOfKeyOf | conanfile.py:181-184 | reading the CMake target back from a subject's component name gives the subject's target with every `absl::` removed |
| Extraction.NewComponentRecord | conanfile.py:181-184 | the first statement about a component creates the record its name stands for, with `cmake_target` the name without `absl_` |
| Extraction.ExtractAllComponents | conanfile.py:177-216 | after a run over well-formed statements each component's record is determined by its own statements alone, in order: target from its name, `libs` iff some statement declares a static or shared library, lists by their summed contributions |
| Extraction.ExtractRendered | conanfile.py:176-177 | the extractor on rendered statements is the loop over those statements |
| Registration.RegisterComponent | conanfile.py:237-245 | declaring one component; stated by `Registration.UnregisterRegister` and `Registration.RegisterUnregister` |
| Registration.RegisterComponents | conanfile.py:234-235 | components are registered in the dictionary's order, each from its own record |
| Registration.UnregisterRegister | conanfile.py:237-245 | for a record whose present lists are non-empty, the registered component gives the record back whole: an absent field read as `[]` loses nothing |
| Registration.RegisterUnregister | conanfile.py:238-240 | both generator names are the CMake target, and re-registering a recovered record tells Conan the same |
| Registration.LookupRegistered | conanfile.py:231-235 | with distinct names, `cpp_info.components[name]` holds exactly the registration of that name's record, and no other name is registered |
| Package.PackageComponents | conanfile.py:176-235 | the extractor followed by the registration; stated by `Package.RegisteredFromStatements` and `Package.PackageOfRendered` |
| Package.KeyRequiresInternal | conanfile.py:198 | every requirement a component collects names an `absl_` component |
| Package.ComponentOfShape | conanfile.py:184-216 | a component's lists are present only when non-empty, its `libs` is the component itself, and its requirements name `absl_` components |
| Package.RegisteredFromStatements | conanfile.py:177-245 | when every statement is well formed, the extraction completes and Conan receives the subjects in order of first appearance, each with the record its own statements determine, recoverable whole |
| Package.PackageOfRendered | conanfile.py:176-235 | a targets file written from well-formed statements registers exactly what the run over those statements builds |
| Recipe.GetVersion | conanfile.py:19-21 | the version string always begins with the base version |
| Recipe.GetVersionSuffix | conanfile.py:19-21 | what follows the base version is the build number, or nothing when `BUILD_NUMBER` is unset or empty; only those two cases leave the version unchanged |
| Recipe.Lower | conanfile.py:85 | lower-casing keeps the length and lower-cases each ASCII letter |
| Recipe.ReleaseIgnoringCase | conanfile.py:85-87 | a build type counts as release exactly when it is a seven-letter spelling of `release` in any mix of ASCII cases |
| Recipe.Configure | conanfile.py:81-98 | accepted exactly when every option that needs the LLVM tools has them; `llvm_tools must be enabled` is raised first and exactly for compiling with the tools without them; the single warning appears exactly for a non-release build without them |

## Left out

- Reading the targets file, writing `components.json`, and reading it back.
  The text is a parameter. The JSON round trip of a dictionary of strings
  and string lists, keys in order, is taken as the identity.
- The C++ standard check in `configure` (conanfile.py:82-83). It calls
  Conan's `check_min_cppstd`, which is not part of this model.
- Conan's objects are not modelled. The settings and options come in as
  values, and warnings are returned instead of printed.
- `_is_llvm_tools_enabled` and `_is_compile_with_llvm_tools_enabled` are
  defined outside the modelled lines. They are inputs.
- `package_info`'s package-level generator names (conanfile.py:227-228).
  They are the constant `absl` and do not depend on the components.
- The source, build and packaging steps of the recipe (conanfile.py:100-167).
  These are file-system and process work.
- Recipe.Lower: lower-cases ASCII letters only. Python's `str.lower` also
  maps letters of other scripts, which cannot spell `release`.
- Operating systems other than Linux, Windows and Macos are one value,
  `OtherOs`. The recipe treats them all alike: external link tokens add
  nothing.
- Extractor.Pieces: states only the number of pieces. What the pieces are is
  stated by `CMakeScan.SplitArgsFirstPiece` in general, and by
  `CMakeScan.SplitArgsOfTwoWords` and `CMakeScan.SplitArgsOfThreeParts` for
  words separated by any separator runs, the third piece being all the rest.
- The order of keys inside each component's dictionary in
  `components.json` (for instance `requires` written before `libs` when a
  component's properties come before its `add_library`). A record has one
  field per key, so that order is not modelled; the registration reads the
  keys by name and does not depend on it.
- CMakeScan.ScanRendered: the round trip covers statements written with no
  space before the parenthesis. CMakeScan.FindRenderedProperties covers
  property lines indented by two spaces with one space after the keyword.
  The scanners accept every layout the regular expressions accept; only the
  round-trip lemmas fix one layout.
