/** What the extractor's loop over statements computes, stated without the
    loop (conanfile.py:169-216): the run succeeds exactly when every
    statement has the pieces its command reads; the components are the
    statements' subjects in order of first appearance; and each component's
    record is determined by its own statements alone. */
module Extraction {
  import opened Wrappers
  import opened PyStrings
  import opened CMakeScan
  import opened Components
  import opened Extractor
  import opened Effects
  import opened Folds

  /** Every statement has the pieces its command reads. */
  predicate AllWellFormed(sts: seq<Statement>) {
    forall i :: 0 <= i < |sts| ==> WellFormedStatement(sts[i])
  }

  /** The component name of each statement, in order. */
  function Keys(sts: seq<Statement>): (keys: seq<string>)
    ensures |keys| == |sts|
    ensures forall i :: 0 <= i < |sts| ==> keys[i] == StatementKey(sts[i])
    decreases |sts|
  {
    if |sts| == 0 then [] else Keys(sts[..|sts| - 1]) + [StatementKey(sts[|sts| - 1])]
  }

  /** The distinct elements, in order of first occurrence. */
  function Dedup(xs: seq<string>): seq<string>
    decreases |xs|
  {
    if |xs| == 0 then []
    else
      var d := Dedup(xs[..|xs| - 1]);
      if xs[|xs| - 1] in d then d else d + [xs[|xs| - 1]]
  }

  /** `Dedup` keeps every element once and adds none. */
  lemma {:induction false} DedupContents(xs: seq<string>)
    ensures forall x :: x in Dedup(xs) <==> x in xs
    ensures forall i, j :: 0 <= i < j < |Dedup(xs)| ==> Dedup(xs)[i] != Dedup(xs)[j]
    decreases |xs|
  {
    if |xs| > 0 {
      var init := xs[..|xs| - 1];
      DedupContents(init);
      assert xs == init + [xs[|xs| - 1]];
    }
  }

  // ---------------------------------------------------------------------
  // Success and failure

  /** A step raises exactly on a malformed statement, and then with that
      statement's error, whatever the dictionary so far. */
  lemma StepFails(os: Os)
    ensures forall d, st :: Step(d, st, os).Success? <==> WellFormedStatement(st)
    ensures forall d, st :: !WellFormedStatement(st) ==> Step(d, st, os) == Failure(MissingArgument(st, PiecesRead(st.func) - 1))
  {
  }

  /** Every statement before the last is well formed too. */
  lemma AllWellFormedInit(sts: seq<Statement>)
    requires |sts| > 0 && AllWellFormed(sts)
    ensures AllWellFormed(sts[..|sts| - 1]) && WellFormedStatement(sts[|sts| - 1])
  {
    var init := sts[..|sts| - 1];
    forall i | 0 <= i < |init| ensures WellFormedStatement(init[i]) {
      assert init[i] == sts[i];
    }
  }

  /** The run succeeds exactly when every statement is well formed. */
  lemma ExtractAllSucceeds(sts: seq<Statement>, os: Os)
    ensures ExtractAll(sts, os).Success? <==> AllWellFormed(sts)
  {
    StepFails(os);
    FoldSucceeds((d: Dict, st: Statement) => Step(d, st, os), [], sts, WellFormedStatement);
  }

  /** A run fails with the `IndexError` of its first malformed statement. */
  lemma ExtractAllFirstError(sts: seq<Statement>, os: Os, i: nat)
    requires i < |sts| && !WellFormedStatement(sts[i]) && forall j :: 0 <= j < i ==> WellFormedStatement(sts[j])
    ensures ExtractAll(sts, os) == Failure(MissingArgument(sts[i], PiecesRead(sts[i].func) - 1))
  {
    StepFails(os);
    FoldFirstFailure((d: Dict, st: Statement) => Step(d, st, os), [], sts, WellFormedStatement,
                     (st: Statement) => MissingArgument(st, PiecesRead(st.func) - 1), i);
  }

  /** A successful run went through every prefix, one step at a time. */
  lemma ExtractAllSnoc(sts: seq<Statement>, os: Os)
    requires |sts| > 0 && ExtractAll(sts, os).Success?
    ensures ExtractAll(sts[..|sts| - 1], os).Success?
    ensures ExtractAll(sts, os) == Step(ExtractAll(sts[..|sts| - 1], os).value, sts[|sts| - 1], os)
  {
    FoldSnoc((d: Dict, st: Statement) => Step(d, st, os), [], sts);
  }

  // ---------------------------------------------------------------------
  // The components and their order

  /** One step adds the statement's component at the end if it is new and
      otherwise keeps the names as they are. */
  lemma StepNames(d: Dict, st: Statement, os: Os)
    requires WellFormedStatement(st)
    ensures Step(d, st, os).Success?
    ensures Names(Step(d, st, os).value)
            == if Get(d, StatementKey(st)).Some? then Names(d) else Names(d) + [StatementKey(st)]
  {
    var key := StatementKey(st);
    var d1 := SetDefault(d, key, NewRecord(TargetOf(Subject(st))));
    PutNames(d1, key, UpdateRecord(Get(d1, key).value, key, st, os));
  }

  /** One step leaves every other component's record alone. */
  lemma StepOther(d: Dict, st: Statement, os: Os, other: string)
    requires WellFormedStatement(st) && other != StatementKey(st)
    ensures Step(d, st, os).Success? && Get(Step(d, st, os).value, other) == Get(d, other)
  {
    var key := StatementKey(st);
    var d1 := SetDefault(d, key, NewRecord(TargetOf(Subject(st))));
    SetDefaultOther(d, key, NewRecord(TargetOf(Subject(st))), other);
    PutOther(d1, key, UpdateRecord(Get(d1, key).value, key, st, os), other);
  }

  /** A run over well-formed statements completes, and its components are
      the statements' subjects, each once, in order of first appearance: no
      entry is made for anything else, such as a required component that
      never appears as a subject. */
  lemma {:induction false} ExtractAllNames(sts: seq<Statement>, os: Os)
    requires AllWellFormed(sts)
    ensures ExtractAll(sts, os).Success?
    ensures Names(ExtractAll(sts, os).value) == Dedup(Keys(sts))
    decreases |sts|
  {
    ExtractAllSucceeds(sts, os);
    if |sts| > 0 {
      var init := sts[..|sts| - 1];
      var st := sts[|sts| - 1];
      AllWellFormedInit(sts);
      ExtractAllSnoc(sts, os);
      ExtractAllNames(init, os);
      StepNames(ExtractAll(init, os).value, st, os);
      assert Keys(sts)[..|sts| - 1] == Keys(init);
    }
  }

  /** No component is written twice. */
  lemma ExtractAllUnique(sts: seq<Statement>, os: Os)
    requires AllWellFormed(sts)
    ensures ExtractAll(sts, os).Success?
    ensures UniqueNames(ExtractAll(sts, os).value)
  {
    ExtractAllNames(sts, os);
    var d := ExtractAll(sts, os).value;
    DedupContents(Keys(sts));
    forall i, j | 0 <= i < j < |d| ensures d[i].name != d[j].name {
      assert Names(d)[i] == d[i].name && Names(d)[j] == d[j].name;
    }
  }

  // ---------------------------------------------------------------------
  // Each component's record

  /** `add_library` of a static or shared library (conanfile.py:186-189). */
  predicate DeclaresLibrary(st: Statement) {
    st.func == AddLibrary && |Pieces(st)| >= 2 && (Pieces(st)[1] == "STATIC" || Pieces(st)[1] == "SHARED")
  }

  /** Some statement about `k` declares its library. */
  predicate LibraryDeclared(sts: seq<Statement>, k: string)
    decreases |sts|
  {
    |sts| > 0
    && (LibraryDeclared(sts[..|sts| - 1], k)
        || (StatementKey(sts[|sts| - 1]) == k && DeclaresLibrary(sts[|sts| - 1])))
  }

  /** What one statement adds to the lists of its own component. */
  function StatementEffect(st: Statement, os: Os): Effect {
    if st.func == SetTargetProperties && |Pieces(st)| >= 3 then PropertiesEffect(FindProperties(Pieces(st)[2]), os)
    else NoEffect
  }

  /** What the statements about `k` add to its lists, in order. */
  function KeyEffect(sts: seq<Statement>, k: string, os: Os): Effect
    decreases |sts|
  {
    if |sts| == 0 then NoEffect
    else
      var st := sts[|sts| - 1];
      Plus(KeyEffect(sts[..|sts| - 1], k, os), if StatementKey(st) == k then StatementEffect(st, os) else NoEffect)
  }

  /** The CMake target a component name stands for. */
  function TargetOfKey(k: string): string {
    if StartsWith(k, "absl_") then k[5..] else k
  }

  /** The component name and the target it stands for are inverse: reading
      the target back from a subject's component name gives the subject's
      CMake target. */
  lemma TargetOfKeyOf(subject: string)
    ensures TargetOfKey(KeyOf(subject)) == TargetOf(subject)
  {
    KeyOfPrefixed(subject);
  }

  /** The record of component `k` after the statements `sts`, from `k`'s
      own statements alone. */
  function ComponentOf(sts: seq<Statement>, k: string, os: Os): Record {
    var libs := if LibraryDeclared(sts, k) then Some([k]) else None;
    ApplyEffect(NewRecord(TargetOfKey(k)).(libs := libs), KeyEffect(sts, k, os))
  }

  /** Statements about other components add nothing to `k`. */
  lemma {:induction false} KeyEffectAbsent(sts: seq<Statement>, k: string, os: Os)
    requires k !in Keys(sts)
    ensures KeyEffect(sts, k, os) == NoEffect
    decreases |sts|
  {
    if |sts| > 0 {
      var init := sts[..|sts| - 1];
      assert Keys(init) == Keys(sts)[..|sts| - 1];
      KeyEffectAbsent(init, k, os);
      assert Keys(sts)[|sts| - 1] == StatementKey(sts[|sts| - 1]);
      PlusNoEffect(NoEffect);
    }
  }

  /** Only a statement about `k` declares `k`'s library. */
  lemma {:induction false} LibraryNotDeclared(sts: seq<Statement>, k: string)
    requires k !in Keys(sts)
    ensures !LibraryDeclared(sts, k)
    decreases |sts|
  {
    if |sts| > 0 {
      var init := sts[..|sts| - 1];
      assert Keys(init) == Keys(sts)[..|sts| - 1];
      LibraryNotDeclared(init, k);
      assert Keys(sts)[|sts| - 1] == StatementKey(sts[|sts| - 1]);
    }
  }

  /** What a well-formed statement does to its component's record, in terms
      of its contribution. */
  lemma UpdateRecordEffect(rec: Record, k: string, st: Statement, os: Os)
    requires WellFormedStatement(st)
    ensures UpdateRecord(rec, k, st, os)
            == ApplyEffect(rec, StatementEffect(st, os)).(libs := if DeclaresLibrary(st) then Some([k]) else rec.libs)
  {
    match st.func
    case AddLibrary => ApplyNoEffect(rec);
    case SetTargetProperties => ApplyPropertiesEffect(rec, FindProperties(Pieces(st)[2]), os);
  }

  /** The first statement about a component creates exactly the record its
      name stands for. */
  lemma NewComponentRecord(sts: seq<Statement>, st: Statement, os: Os)
    requires StatementKey(st) !in Keys(sts)
    ensures NewRecord(TargetOf(Subject(st))) == ComponentOf(sts, StatementKey(st), os)
  {
    var k := StatementKey(st);
    KeyEffectAbsent(sts, k, os);
    LibraryNotDeclared(sts, k);
    KeyOfPrefixed(Subject(st));
    ApplyNoEffect(NewRecord(TargetOfKey(k)));
  }

  /** One step of the loop moves every component from its record after the
      earlier statements to its record after this one too. */
  lemma StepComponent(sts: seq<Statement>, d: Dict, os: Os, k: string)
    requires |sts| > 0 && WellFormedStatement(sts[|sts| - 1])
    requires Get(d, k) == if k in Keys(sts[..|sts| - 1]) then Some(ComponentOf(sts[..|sts| - 1], k, os)) else None
    ensures Step(d, sts[|sts| - 1], os).Success?
    ensures Get(Step(d, sts[|sts| - 1], os).value, k) == if k in Keys(sts) then Some(ComponentOf(sts, k, os)) else None
  {
    var init := sts[..|sts| - 1];
    var st := sts[|sts| - 1];
    var key := StatementKey(st);
    assert Keys(sts) == Keys(init) + [key];
    if key != k {
      StepOther(d, st, os, k);
      PlusNoEffect(KeyEffect(init, k, os));
    } else {
      var created := NewRecord(TargetOf(Subject(st)));
      var d1 := SetDefault(d, key, created);
      var before := Get(d1, key).value;
      if k !in Keys(init) {
        NewComponentRecord(init, st, os);
      }
      assert before == ComponentOf(init, k, os);
      UpdateRecordEffect(before, k, st, os);
      var libs0 := if LibraryDeclared(init, k) then Some([k]) else None;
      var libs1 := if LibraryDeclared(sts, k) then Some([k]) else None;
      var base := NewRecord(TargetOfKey(k));
      ApplyEffectPlus(base.(libs := libs1), KeyEffect(init, k, os), StatementEffect(st, os));
      ApplyEffectLibs(base, KeyEffect(init, k, os), libs0);
      ApplyEffectLibs(base, KeyEffect(init, k, os), libs1);
      ApplyEffectLibs(ApplyEffect(base, KeyEffect(init, k, os)), StatementEffect(st, os), libs1);
      ApplyEffectLibs(ApplyEffect(base, KeyEffect(init, k, os)).(libs := libs0), StatementEffect(st, os), libs1);
    }
  }

  /** After a run over well-formed statements, each component's record is
      the one its own statements determine, and only subjects have records. */
  lemma {:induction false} ExtractAllComponents(sts: seq<Statement>, os: Os, k: string)
    requires AllWellFormed(sts)
    ensures ExtractAll(sts, os).Success?
    ensures Get(ExtractAll(sts, os).value, k) == if k in Keys(sts) then Some(ComponentOf(sts, k, os)) else None
    decreases |sts|
  {
    ExtractAllSucceeds(sts, os);
    if |sts| > 0 {
      var init := sts[..|sts| - 1];
      AllWellFormedInit(sts);
      ExtractAllSnoc(sts, os);
      ExtractAllComponents(init, os, k);
      StepComponent(sts, ExtractAll(init, os).value, os, k);
    }
  }

  /** The extractor on the rendered text of some statements is the run over
      those statements. */
  lemma ExtractRendered(sts: seq<Statement>, os: Os)
    requires forall i :: 0 <= i < |sts| ==> Delimited(sts[i].args)
    ensures Extract(RenderStatements(sts), os) == ExtractAll(sts, os)
  {
    ScanRendered(sts);
  }
}
