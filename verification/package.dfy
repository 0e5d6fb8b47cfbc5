/** The package's components from the text of the CMake targets file to
    what `package_info` declares to Conan (conanfile.py:169-245), with the
    JSON file between the two steps read back as it was written. */
module Package {
  import opened Wrappers
  import opened PyStrings
  import opened CMakeScan
  import opened Components
  import opened Extractor
  import opened Effects
  import opened Extraction
  import opened Registration

  /** The components registered for a targets file, or the error that
      stopped the extraction. */
  function PackageComponents(text: string, os: Os): Result<seq<Registered>, ExtractError> {
    match Extract(text, os)
    case Failure(e) => Failure(e)
    case Success(d) => Success(RegisterComponents(d))
  }

  /** What the statements about `k` add to its requirements names `absl_`
      components only. */
  lemma {:induction false} KeyRequiresInternal(sts: seq<Statement>, k: string, os: Os)
    ensures AllInternal(KeyEffect(sts, k, os).requirements)
    decreases |sts|
  {
    if |sts| > 0 {
      var st := sts[|sts| - 1];
      KeyRequiresInternal(sts[..|sts| - 1], k, os);
      if StatementKey(st) == k && st.func == SetTargetProperties && |Pieces(st)| >= 3 {
        PropertiesRequireInternal(FindProperties(Pieces(st)[2]), os);
      }
      var last := if StatementKey(st) == k then StatementEffect(st, os) else NoEffect;
      AllInternalConcat(KeyEffect(sts[..|sts| - 1], k, os).requirements, last.requirements);
    }
  }

  /** A component's record has only non-empty lists, its `libs` is the
      component itself when present, and its requirements name `absl_`
      components. */
  lemma ComponentOfShape(sts: seq<Statement>, k: string, os: Os)
    ensures ListedFields(ComponentOf(sts, k, os))
    ensures ComponentOf(sts, k, os).libs.Some? ==> ComponentOf(sts, k, os).libs.value == [k]
    ensures AllInternal(ComponentOf(sts, k, os).requirements.GetOr([]))
  {
    var libs := if LibraryDeclared(sts, k) then Some([k]) else None;
    ApplyToAbsentFields(NewRecord(TargetOfKey(k)).(libs := libs), KeyEffect(sts, k, os));
    KeyRequiresInternal(sts, k, os);
  }

  /** When every statement is well formed, the run completes and the
      components are registered in order of first appearance, each with the
      record its own statements determine, and that record is recovered
      whole from what Conan was told. */
  lemma RegisteredFromStatements(sts: seq<Statement>, os: Os, k: string)
    requires AllWellFormed(sts)
    ensures ExtractAll(sts, os).Success?
    ensures RegisteredNames(RegisterComponents(ExtractAll(sts, os).value)) == Dedup(Keys(sts))
    ensures Lookup(RegisterComponents(ExtractAll(sts, os).value), k)
            == if k in Keys(sts) then Some(RegisterComponent(ComponentOf(sts, k, os))) else None
    ensures k in Keys(sts) ==> Unregister(RegisterComponent(ComponentOf(sts, k, os))) == ComponentOf(sts, k, os)
  {
    ExtractAllNames(sts, os);
    var d := ExtractAll(sts, os).value;
    RegisterComponentsNames(d);
    ExtractAllUnique(sts, os);
    ExtractAllComponents(sts, os, k);
    LookupRegistered(d, k);
    if k in Keys(sts) {
      ComponentOfShape(sts, k, os);
      UnregisterRegister(ComponentOf(sts, k, os));
    }
  }

  /** A targets file written from well-formed statements registers what
      the run over those statements builds. */
  lemma PackageOfRendered(sts: seq<Statement>, os: Os)
    requires forall i :: 0 <= i < |sts| ==> Delimited(sts[i].args)
    requires AllWellFormed(sts)
    ensures ExtractAll(sts, os).Success?
    ensures PackageComponents(RenderStatements(sts), os) == Success(RegisterComponents(ExtractAll(sts, os).value))
  {
    ExtractRendered(sts, os);
    ExtractAllSucceeds(sts, os);
  }
}
