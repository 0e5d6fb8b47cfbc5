/** The CMake-targets-to-components extractor,
    `_create_components_file_from_cmake_target_file` (conanfile.py:169-216),
    as it is written: the statements found in the targets file are visited
    in order, each one's subject gets a component by `setdefault`, and the
    statement's arguments update that component's record. Reading the file
    and writing the JSON are left to the caller. */
module Extractor {
  import opened Wrappers
  import opened PyStrings
  import opened CMakeScan
  import opened Components
  import opened Folds

  /** The values of `settings.os` the link table tells apart; every other
      operating system is `OtherOs`. */
  datatype Os = Linux | Windows | Macos | OtherOs

  /** `subject.replace("absl::", "")`: the CMake target without its
      namespace (conanfile.py:181). */
  function TargetOf(subject: string): string {
    Replace(subject, "absl::", "")
  }

  /** The component name of a statement's subject (conanfile.py:182). */
  function KeyOf(subject: string): string {
    "absl_" + TargetOf(subject)
  }

  /** `dependency.replace("absl::", "absl_")`: the component name an
      internal requirement refers to (conanfile.py:198). */
  function RequireName(dep: string): string {
    Replace(dep, "absl::", "absl_")
  }

  /** `value.replace('"', "").split(";")` (conanfile.py:195 and 214). */
  function ValueTokens(value: string): (tokens: seq<string>)
    ensures |tokens| >= 1
  {
    Split(Replace(value, "\"", ""), ";")
  }

  /** Dropping the quotes and splitting on `;` loses nothing but the
      quotes: the tokens joined back are the unquoted value, and no token
      holds a `;` or a quote. */
  lemma ValueTokensContents(value: string)
    ensures Join(ValueTokens(value), ";") == Replace(value, "\"", "")
    ensures forall k :: 0 <= k < |ValueTokens(value)| ==> ';' !in ValueTokens(value)[k] && '"' !in ValueTokens(value)[k]
  {
    var u := Replace(value, "\"", "");
    JoinSplit(u, ";");
    RemoveCharContents(value, '"');
    SplitPiecesAvoid(u, ';', ';');
    SplitPiecesAvoid(u, ';', '"');
  }

  /** Tokens free of `;` and quotes, joined with `;`, are read back as
      themselves. */
  lemma ValueTokensOfJoin(tokens: seq<string>)
    requires |tokens| >= 1
    requires forall k :: 0 <= k < |tokens| ==> ';' !in tokens[k] && '"' !in tokens[k]
    ensures ValueTokens(Join(tokens, ";")) == tokens
  {
    var v := Join(tokens, ";");
    JoinAvoids(tokens, ";", '"');
    NotContainsWithoutFirst(v, "\"");
    SplitJoin(tokens, ';');
  }

  /** A namespaced target whose remainder holds no further `absl::` names
      the same component whether it is a statement's subject or a
      requirement, and its CMake target is the remainder
      (conanfile.py:181-182 and 198). */
  lemma RequireNameIsKey(u: string)
    requires !Contains(u, "absl::")
    ensures TargetOf("absl::" + u) == u
    ensures RequireName("absl::" + u) == KeyOf("absl::" + u) == "absl_" + u
  {
    ReplaceAtMatch("absl::", u, "");
    ReplaceAtMatch("absl::", u, "absl_");
  }

  /** The converse: for a subject `absl::u`, the same text used as a
      requirement names the subject's own component exactly when `u` holds
      no second `absl::`. Otherwise the requirement's extra `absl_` makes it
      longer than the component name. */
  lemma SameNameIff(u: string)
    ensures KeyOf("absl::" + u) == RequireName("absl::" + u) <==> !Contains(u, "absl::")
  {
    var dropped := Replace(u, "absl::", "");
    var renamed := Replace(u, "absl::", "absl_");
    assert KeyOf("absl::" + u) == "absl_" + dropped by { ReplaceAtMatch("absl::", u, ""); }
    assert RequireName("absl::" + u) == "absl_" + renamed by { ReplaceAtMatch("absl::", u, "absl_"); }
    if Contains(u, "absl::") {
      ReplaceGrows(u, "absl::", "absl_");
      assert |renamed| > |dropped|;
    } else {
      RequireNameIsKey(u);
    }
  }

  /** Every requirement name begins with `absl_`. */
  lemma RequireNamePrefixed(dep: string)
    requires StartsWith(dep, "absl::")
    ensures StartsWith(RequireName(dep), "absl_")
  {
    var u := dep[6..];
    assert dep == "absl::" + u;
    ReplaceAtMatch("absl::", u, "absl_");
    StartsWithAppend("absl_", Replace(u, "absl::", "absl_"));
  }

  /** Every component name begins with `absl_`, followed by the target. */
  lemma KeyOfPrefixed(subject: string)
    ensures StartsWith(KeyOf(subject), "absl_")
    ensures KeyOf(subject)[5..] == TargetOf(subject)
  {
    StartsWithAppend("absl_", TargetOf(subject));
  }

  /** The candidates looked for in an external dependency on Windows
      (conanfile.py:206) and on macOS (conanfile.py:210). */
  const WindowsSystemLibs: seq<string> := ["bcrypt", "advapi32", "dbghelp"]
  const MacosFrameworks: seq<string> := ["CoreFoundation"]

  /** `for c in candidates: if c in dep: field.append(c)` */
  function AppendFound(field: Option<seq<string>>, candidates: seq<string>, dep: string): Option<seq<string>>
    decreases |candidates|
  {
    if |candidates| == 0 then field
    else
      var next := if Contains(dep, candidates[0]) then AppendOne(field, candidates[0]) else field;
      AppendFound(next, candidates[1..], dep)
  }

  /** One token of an `INTERFACE_LINK_LIBRARIES` value (conanfile.py:196-212):
      an `absl::` target becomes a requirement; anything else goes through
      the operating system's table, and a token the table does not know is
      dropped. */
  function ApplyDependency(rec: Record, dep: string, os: Os): Record {
    if StartsWith(dep, "absl::") then
      rec.(requirements := AppendOne(rec.requirements, RequireName(dep)))
    else
      match os
      case Linux =>
        if dep == "Threads::Threads" then rec.(systemLibs := AppendOne(rec.systemLibs, "pthread"))
        else if Contains(dep, "-lrt") then rec.(systemLibs := AppendOne(rec.systemLibs, "rt"))
        else rec
      case Windows => rec.(systemLibs := AppendFound(rec.systemLibs, WindowsSystemLibs, dep))
      case Macos => rec.(frameworks := AppendFound(rec.frameworks, MacosFrameworks, dep))
      case OtherOs => rec
  }

  /** The tokens of one value, in order. */
  function ApplyDependencies(rec: Record, deps: seq<string>, os: Os): Record
    decreases |deps|
  {
    if |deps| == 0 then rec else ApplyDependencies(ApplyDependency(rec, deps[0], os), deps[1..], os)
  }

  /** The tokens of an `INTERFACE_COMPILE_DEFINITIONS` value, each appended
      to `defines` (conanfile.py:213-216). */
  function ApplyDefinitions(rec: Record, defs: seq<string>): Record
    decreases |defs|
  {
    if |defs| == 0 then rec
    else ApplyDefinitions(rec.(defines := AppendOne(rec.defines, defs[0])), defs[1..])
  }

  /** One property found in the arguments of `set_target_properties`
      (conanfile.py:192-216); include directories are not used. */
  function ApplyProperty(rec: Record, p: Property, os: Os): Record {
    match p.name
    case LinkLibraries => ApplyDependencies(rec, ValueTokens(p.value), os)
    case CompileDefinitions => ApplyDefinitions(rec, ValueTokens(p.value))
    case IncludeDirectories => rec
  }

  /** The properties of one statement, in order. */
  function ApplyProperties(rec: Record, props: seq<Property>, os: Os): Record
    decreases |props|
  {
    if |props| == 0 then rec else ApplyProperties(ApplyProperty(rec, props[0], os), props[1..], os)
  }

  /** The `IndexError` that ends the extraction when a statement has fewer
      argument pieces than its command reads: `index` is the piece read. */
  datatype ExtractError = MissingArgument(statement: Statement, index: nat)

  /** `re.split(r"[\s|\n]+", args, maxsplit=2)` (conanfile.py:178). */
  function Pieces(st: Statement): (pieces: seq<string>)
    ensures 1 <= |pieces| <= 3
  {
    SplitArgs(st.args, 2)
  }

  /** How many pieces a command reads: `add_library` reads the type
      (conanfile.py:187), `set_target_properties` the property list
      (conanfile.py:191). */
  function PiecesRead(f: CMakeFunction): nat {
    match f
    case AddLibrary => 2
    case SetTargetProperties => 3
  }

  /** The statement has every piece its command reads. */
  predicate WellFormedStatement(st: Statement) {
    |Pieces(st)| >= PiecesRead(st.func)
  }

  /** The target a statement is about: its first piece. */
  function Subject(st: Statement): string {
    Pieces(st)[0]
  }

  /** The component a statement is about. */
  function StatementKey(st: Statement): string {
    KeyOf(Subject(st))
  }

  /** What a well-formed statement does to its component's record:
      `add_library` of a `STATIC` or `SHARED` library sets `libs` to the
      component itself (conanfile.py:186-189); `set_target_properties`
      applies the properties found in its third piece (conanfile.py:190-216). */
  function UpdateRecord(rec: Record, key: string, st: Statement, os: Os): Record
    requires WellFormedStatement(st)
  {
    var pieces := Pieces(st);
    match st.func
    case AddLibrary =>
      if pieces[1] == "STATIC" || pieces[1] == "SHARED" then rec.(libs := Some([key])) else rec
    case SetTargetProperties => ApplyProperties(rec, FindProperties(pieces[2]), os)
  }

  /** One iteration of the loop over statements (conanfile.py:177-216). */
  function Step(d: Dict, st: Statement, os: Os): Result<Dict, ExtractError> {
    if !WellFormedStatement(st) then Failure(MissingArgument(st, PiecesRead(st.func) - 1))
    else
      var key := StatementKey(st);
      var d1 := SetDefault(d, key, NewRecord(TargetOf(Subject(st))));
      Success(Put(d1, key, UpdateRecord(Get(d1, key).value, key, st, os)))
  }

  /** The loop over statements from an empty dictionary; the first
      malformed statement ends it. */
  function ExtractAll(sts: seq<Statement>, os: Os): Result<Dict, ExtractError> {
    FoldSteps((d: Dict, st: Statement) => Step(d, st, os), [], sts)
  }

  /** The extractor on the text of the targets file. */
  function Extract(text: string, os: Os): Result<Dict, ExtractError> {
    ExtractAll(ScanStatements(text), os)
  }
}
