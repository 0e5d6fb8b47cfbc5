/** A declarative reading of what a `set_target_properties` statement adds
    to a component record (conanfile.py:192-216): each property contributes
    four lists, one per optional field, and the record's fields are extended
    by them. The external link tokens are read through an explicit table of
    rules per operating system. The lemmas here show that the extractor's
    loops, with their `if`/`elif` chains and `for` loops over candidates,
    compute exactly these contributions. */
module Effects {
  import opened Wrappers
  import opened PyStrings
  import opened CMakeScan
  import opened Components
  import opened Extractor

  /** What is appended to `requires`, `system_libs`, `frameworks` and
      `defines`, in order. */
  datatype Effect = Effect(
    requirements: seq<string>,
    systemLibs: seq<string>,
    frameworks: seq<string>,
    defines: seq<string>)

  const NoEffect: Effect := Effect([], [], [], [])

  /** One contribution followed by another. */
  function Plus(a: Effect, b: Effect): Effect {
    Effect(a.requirements + b.requirements, a.systemLibs + b.systemLibs,
           a.frameworks + b.frameworks, a.defines + b.defines)
  }

  /** The record with every field extended by its part of `e`; a field
      with nothing to add stays as it was, present or absent. */
  function ApplyEffect(rec: Record, e: Effect): (r: Record)
    ensures r.cmakeTarget == rec.cmakeTarget && r.libs == rec.libs
  {
    rec.(requirements := Extend(rec.requirements, e.requirements),
         systemLibs := Extend(rec.systemLibs, e.systemLibs),
         frameworks := Extend(rec.frameworks, e.frameworks),
         defines := Extend(rec.defines, e.defines))
  }

  /** Applying two contributions in turn is applying their sum. */
  lemma ApplyEffectPlus(rec: Record, a: Effect, b: Effect)
    ensures ApplyEffect(ApplyEffect(rec, a), b) == ApplyEffect(rec, Plus(a, b))
  {
    ExtendExtend(rec.requirements, a.requirements, b.requirements);
    ExtendExtend(rec.systemLibs, a.systemLibs, b.systemLibs);
    ExtendExtend(rec.frameworks, a.frameworks, b.frameworks);
    ExtendExtend(rec.defines, a.defines, b.defines);
  }

  lemma PlusNoEffect(e: Effect)
    ensures Plus(NoEffect, e) == e && Plus(e, NoEffect) == e
  {
    assert e.requirements + [] == e.requirements && e.systemLibs + [] == e.systemLibs;
    assert e.frameworks + [] == e.frameworks && e.defines + [] == e.defines;
  }

  // ---------------------------------------------------------------------
  // The link table

  /** How a rule recognises a token: by equality or as a substring. */
  datatype Pattern = Exact(text: string) | Substring(text: string)

  predicate Matches(p: Pattern, dep: string) {
    match p
    case Exact(t) => dep == t
    case Substring(t) => Contains(dep, t)
  }

  /** What a rule adds: a system library or a framework. */
  datatype Output = SystemLib(lib: string) | Framework(framework: string)

  datatype LinkRule = LinkRule(pattern: Pattern, output: Output)

  /** The rules for external link tokens, per operating system
      (conanfile.py:200-212). */
  function LinkRules(os: Os): seq<LinkRule> {
    match os
    case Linux => [LinkRule(Exact("Threads::Threads"), SystemLib("pthread")),
                   LinkRule(Substring("-lrt"), SystemLib("rt"))]
    case Windows => [LinkRule(Substring("bcrypt"), SystemLib("bcrypt")),
                     LinkRule(Substring("advapi32"), SystemLib("advapi32")),
                     LinkRule(Substring("dbghelp"), SystemLib("dbghelp"))]
    case Macos => [LinkRule(Substring("CoreFoundation"), Framework("CoreFoundation"))]
    case OtherOs => []
  }

  function OutputEffect(o: Output): Effect {
    match o
    case SystemLib(lib) => Effect([], [lib], [], [])
    case Framework(fw) => Effect([], [], [fw], [])
  }

  /** The outputs of every rule that matches `dep`, in table order. */
  function RulesEffect(rules: seq<LinkRule>, dep: string): Effect
    decreases |rules|
  {
    if |rules| == 0 then NoEffect
    else
      var first := if Matches(rules[0].pattern, dep) then OutputEffect(rules[0].output) else NoEffect;
      Plus(first, RulesEffect(rules[1..], dep))
  }

  /** What one link token adds: an `absl::` token is a requirement, any
      other token whatever the table's matching rules add. */
  function DependencyEffect(dep: string, os: Os): Effect {
    if StartsWith(dep, "absl::") then Effect([RequireName(dep)], [], [], [])
    else RulesEffect(LinkRules(os), dep)
  }

  function DependenciesEffect(deps: seq<string>, os: Os): Effect
    decreases |deps|
  {
    if |deps| == 0 then NoEffect else Plus(DependencyEffect(deps[0], os), DependenciesEffect(deps[1..], os))
  }

  /** What one property adds. */
  function PropertyEffect(p: Property, os: Os): Effect {
    match p.name
    case LinkLibraries => DependenciesEffect(ValueTokens(p.value), os)
    case CompileDefinitions => Effect([], [], [], ValueTokens(p.value))
    case IncludeDirectories => NoEffect
  }

  function PropertiesEffect(props: seq<Property>, os: Os): Effect
    decreases |props|
  {
    if |props| == 0 then NoEffect else Plus(PropertyEffect(props[0], os), PropertiesEffect(props[1..], os))
  }

  // ---------------------------------------------------------------------
  // The extractor's loops compute these contributions

  /** No rule of the table matches: the token adds nothing. */
  lemma {:induction false} RulesEffectNone(rules: seq<LinkRule>, dep: string)
    ensures RulesEffect(rules, dep) == NoEffect
            <==> forall i :: 0 <= i < |rules| ==> !Matches(rules[i].pattern, dep)
    decreases |rules|
  {
    if |rules| > 0 {
      RulesEffectNone(rules[1..], dep);
      var rest := RulesEffect(rules[1..], dep);
      if Matches(rules[0].pattern, dep) {
        var o := OutputEffect(rules[0].output);
        assert |Plus(o, rest).systemLibs| + |Plus(o, rest).frameworks| > 0;
      } else {
        PlusNoEffect(rest);
        assert forall i :: 1 <= i < |rules| ==> rules[i] == rules[1..][i - 1];
      }
    }
  }

  /** `"Threads::Threads"` does not contain `"-lrt"`, so the `elif` on
      Linux never hides a second match. */
  lemma ThreadsIsNotRt()
    ensures !Contains("Threads::Threads", "-lrt")
  {
    NotContainsWithoutFirst("Threads::Threads", "-lrt");
  }

  /** The table's first rule decides its own part; the rest follow. */
  lemma RulesEffectCons(r: LinkRule, rules: seq<LinkRule>, dep: string)
    ensures RulesEffect([r] + rules, dep)
            == Plus(if Matches(r.pattern, dep) then OutputEffect(r.output) else NoEffect, RulesEffect(rules, dep))
  {
    assert ([r] + rules)[1..] == rules;
  }

  /** Adding a single system library is appending it. */
  lemma ApplyOneLib(rec: Record, lib: string)
    ensures ApplyEffect(rec, Effect([], [lib], [], [])) == rec.(systemLibs := AppendOne(rec.systemLibs, lib))
  {
  }

  /** The Linux branch of the loop is the Linux table. */
  lemma LinuxDependency(rec: Record, dep: string)
    requires !StartsWith(dep, "absl::")
    ensures ApplyDependency(rec, dep, Linux) == ApplyEffect(rec, RulesEffect(LinkRules(Linux), dep))
  {
    var r0 := LinkRule(Exact("Threads::Threads"), SystemLib("pthread"));
    var r1 := LinkRule(Substring("-lrt"), SystemLib("rt"));
    assert LinkRules(Linux) == [r0] + ([r1] + []);
    RulesEffectCons(r1, [], dep);
    RulesEffectCons(r0, [r1], dep);
    var e := RulesEffect(LinkRules(Linux), dep);
    if dep == "Threads::Threads" {
      ThreadsIsNotRt();
      assert e == Effect([], ["pthread"], [], []);
      ApplyOneLib(rec, "pthread");
    } else if Contains(dep, "-lrt") {
      assert e == Effect([], ["rt"], [], []);
      ApplyOneLib(rec, "rt");
    } else {
      assert e == NoEffect;
    }
  }

  /** The loop over candidate names appends the ones found, in order. */
  lemma {:induction false} AppendFoundEffect(field: Option<seq<string>>, candidates: seq<string>, dep: string, found: seq<string>)
    ensures AppendFound(Extend(field, found), candidates, dep)
            == Extend(field, found + RulesEffect(SubstringLibs(candidates), dep).systemLibs)
    decreases |candidates|
  {
    var rules := SubstringLibs(candidates);
    if |candidates| == 0 {
      assert found + [] == found;
    } else {
      var c := candidates[0];
      assert rules[0] == LinkRule(Substring(c), SystemLib(c));
      assert rules[1..] == SubstringLibs(candidates[1..]);
      var more := if Contains(dep, c) then [c] else [];
      var next := Extend(field, found + more);
      assert AppendFound(Extend(field, found), candidates, dep)
          == AppendFound(next, candidates[1..], dep) by {
        if Contains(dep, c) {
          AppendOneExtend(field, found, c);
        } else {
          assert found + more == found;
        }
      }
      AppendFoundEffect(field, candidates[1..], dep, found + more);
      assert RulesEffect(rules, dep).systemLibs == more + RulesEffect(rules[1..], dep).systemLibs;
      assert found + more + RulesEffect(rules[1..], dep).systemLibs
          == found + (more + RulesEffect(rules[1..], dep).systemLibs);
    }
  }

  /** One substring rule per candidate, each adding the candidate itself as
      a system library. */
  function SubstringLibs(candidates: seq<string>): (rules: seq<LinkRule>)
    ensures |rules| == |candidates|
    decreases |candidates|
  {
    if |candidates| == 0 then []
    else [LinkRule(Substring(candidates[0]), SystemLib(candidates[0]))] + SubstringLibs(candidates[1..])
  }

  /** Substring rules add system libraries only. */
  lemma {:induction false} SubstringLibsOnlyLibs(candidates: seq<string>, dep: string)
    ensures RulesEffect(SubstringLibs(candidates), dep).requirements == []
    ensures RulesEffect(SubstringLibs(candidates), dep).frameworks == []
    ensures RulesEffect(SubstringLibs(candidates), dep).defines == []
    decreases |candidates|
  {
    if |candidates| > 0 {
      SubstringLibsOnlyLibs(candidates[1..], dep);
      assert SubstringLibs(candidates)[1..] == SubstringLibs(candidates[1..]);
    }
  }

  /** The Windows branch of the loop is the Windows table. */
  lemma WindowsDependency(rec: Record, dep: string)
    requires !StartsWith(dep, "absl::")
    ensures ApplyDependency(rec, dep, Windows) == ApplyEffect(rec, RulesEffect(LinkRules(Windows), dep))
  {
    assert SubstringLibs(WindowsSystemLibs[2..]) == [LinkRule(Substring("dbghelp"), SystemLib("dbghelp"))];
    assert SubstringLibs(WindowsSystemLibs[1..]) == [LinkRule(Substring("advapi32"), SystemLib("advapi32"))] + SubstringLibs(WindowsSystemLibs[2..]);
    assert LinkRules(Windows) == SubstringLibs(WindowsSystemLibs);
    var e := RulesEffect(LinkRules(Windows), dep);
    AppendFoundEffect(rec.systemLibs, WindowsSystemLibs, dep, []);
    assert Extend(rec.systemLibs, []) == rec.systemLibs;
    assert [] + e.systemLibs == e.systemLibs;
    SubstringLibsOnlyLibs(WindowsSystemLibs, dep);
  }

  /** The macOS branch of the loop is the macOS table. */
  lemma MacosDependency(rec: Record, dep: string)
    requires !StartsWith(dep, "absl::")
    ensures ApplyDependency(rec, dep, Macos) == ApplyEffect(rec, RulesEffect(LinkRules(Macos), dep))
  {
    var r0 := LinkRule(Substring("CoreFoundation"), Framework("CoreFoundation"));
    assert LinkRules(Macos) == [r0] + [];
    RulesEffectCons(r0, [], dep);
    assert MacosFrameworks[1..] == [];
    var e := RulesEffect(LinkRules(Macos), dep);
    if Contains(dep, "CoreFoundation") {
      assert e == Effect([], [], ["CoreFoundation"], []);
    } else {
      assert e == NoEffect;
    }
  }

  /** One link token, as the loop body handles it, is its contribution. */
  lemma ApplyDependencyEffect(rec: Record, dep: string, os: Os)
    ensures ApplyDependency(rec, dep, os) == ApplyEffect(rec, DependencyEffect(dep, os))
  {
    if !StartsWith(dep, "absl::") {
      match os
      case Linux => LinuxDependency(rec, dep);
      case Windows => WindowsDependency(rec, dep);
      case Macos => MacosDependency(rec, dep);
      case OtherOs =>
    }
  }

  /** The loop over the tokens of a link value is their summed contribution. */
  lemma {:induction false} ApplyDependenciesEffect(rec: Record, deps: seq<string>, os: Os)
    ensures ApplyDependencies(rec, deps, os) == ApplyEffect(rec, DependenciesEffect(deps, os))
    decreases |deps|
  {
    if |deps| > 0 {
      ApplyDependencyEffect(rec, deps[0], os);
      var r1 := ApplyDependency(rec, deps[0], os);
      ApplyDependenciesEffect(r1, deps[1..], os);
      ApplyEffectPlus(rec, DependencyEffect(deps[0], os), DependenciesEffect(deps[1..], os));
    }
  }

  /** The loop over definition tokens extends `defines` by all of them. */
  lemma {:induction false} ApplyDefinitionsEffect(rec: Record, defs: seq<string>)
    ensures ApplyDefinitions(rec, defs) == ApplyEffect(rec, Effect([], [], [], defs))
    decreases |defs|
  {
    if |defs| > 0 {
      var r1 := rec.(defines := AppendOne(rec.defines, defs[0]));
      assert r1 == ApplyEffect(rec, Effect([], [], [], [defs[0]]));
      ApplyDefinitionsEffect(r1, defs[1..]);
      ApplyEffectPlus(rec, Effect([], [], [], [defs[0]]), Effect([], [], [], defs[1..]));
      assert [defs[0]] + defs[1..] == defs;
    }
  }

  lemma ApplyPropertyEffect(rec: Record, p: Property, os: Os)
    ensures ApplyProperty(rec, p, os) == ApplyEffect(rec, PropertyEffect(p, os))
  {
    match p.name
    case LinkLibraries => ApplyDependenciesEffect(rec, ValueTokens(p.value), os);
    case CompileDefinitions => ApplyDefinitionsEffect(rec, ValueTokens(p.value));
    case IncludeDirectories =>
  }

  /** The properties of a statement, applied in turn, are their summed
      contribution. */
  lemma {:induction false} ApplyPropertiesEffect(rec: Record, props: seq<Property>, os: Os)
    ensures ApplyProperties(rec, props, os) == ApplyEffect(rec, PropertiesEffect(props, os))
    decreases |props|
  {
    if |props| > 0 {
      ApplyPropertyEffect(rec, props[0], os);
      ApplyPropertiesEffect(ApplyProperty(rec, props[0], os), props[1..], os);
      ApplyEffectPlus(rec, PropertyEffect(props[0], os), PropertiesEffect(props[1..], os));
    }
  }

  // ---------------------------------------------------------------------
  // What the contributions are made of

  /** Nothing happens to a record for a contribution of nothing. */
  lemma ApplyNoEffect(rec: Record)
    ensures ApplyEffect(rec, NoEffect) == rec
  {
  }

  /** An external token that no rule of the table recognises leaves the
      record exactly as it was (conanfile.py:200-212 has no `else`). */
  lemma UnknownDependencyUnchanged(rec: Record, dep: string, os: Os)
    requires !StartsWith(dep, "absl::")
    requires forall i :: 0 <= i < |LinkRules(os)| ==> !Matches(LinkRules(os)[i].pattern, dep)
    ensures ApplyDependency(rec, dep, os) == rec
  {
    RulesEffectNone(LinkRules(os), dep);
    ApplyDependencyEffect(rec, dep, os);
  }

  /** The link table never adds requirements. */
  lemma {:induction false} RulesAddNoRequirements(rules: seq<LinkRule>, dep: string)
    ensures RulesEffect(rules, dep).requirements == []
    decreases |rules|
  {
    if |rules| > 0 {
      RulesAddNoRequirements(rules[1..], dep);
    }
  }

  /** The requirement names of the `absl::` tokens, in order. */
  function InternalRequires(deps: seq<string>): (names: seq<string>)
    decreases |deps|
  {
    if |deps| == 0 then []
    else if StartsWith(deps[0], "absl::") then [RequireName(deps[0])] + InternalRequires(deps[1..])
    else InternalRequires(deps[1..])
  }

  /** The requirements a link value adds are its `absl::` tokens, renamed,
      in order, whatever the operating system. */
  lemma {:induction false} DependenciesRequirements(deps: seq<string>, os: Os)
    ensures DependenciesEffect(deps, os).requirements == InternalRequires(deps)
    decreases |deps|
  {
    if |deps| > 0 {
      DependenciesRequirements(deps[1..], os);
      if !StartsWith(deps[0], "absl::") {
        RulesAddNoRequirements(LinkRules(os), deps[0]);
      }
    }
  }

  /** Every requirement names an `absl_` component. */
  lemma {:induction false} InternalRequiresPrefixed(deps: seq<string>)
    ensures forall k :: 0 <= k < |InternalRequires(deps)| ==> StartsWith(InternalRequires(deps)[k], "absl_")
    decreases |deps|
  {
    if |deps| > 0 {
      InternalRequiresPrefixed(deps[1..]);
      if StartsWith(deps[0], "absl::") {
        RequireNamePrefixed(deps[0]);
      }
    }
  }

  /** A link value adds no definitions, and a definitions value adds only
      definitions. */
  lemma {:induction false} DependenciesAddNoDefines(deps: seq<string>, os: Os)
    ensures DependenciesEffect(deps, os).defines == []
    decreases |deps|
  {
    if |deps| > 0 {
      DependenciesAddNoDefines(deps[1..], os);
      if !StartsWith(deps[0], "absl::") {
        RulesAddNoDefines(LinkRules(os), deps[0]);
      }
    }
  }

  lemma {:induction false} RulesAddNoDefines(rules: seq<LinkRule>, dep: string)
    ensures RulesEffect(rules, dep).defines == []
    decreases |rules|
  {
    if |rules| > 0 {
      RulesAddNoDefines(rules[1..], dep);
    }
  }

  /** The contributions never touch `libs`, so setting it before or after
      is the same. */
  lemma ApplyEffectLibs(rec: Record, e: Effect, libs: Option<seq<string>>)
    ensures ApplyEffect(rec.(libs := libs), e) == ApplyEffect(rec, e).(libs := libs)
  {
  }

  /** A field absent from the start is present after a contribution only
      if something was added to it. */
  lemma ApplyToAbsentFields(rec: Record, e: Effect)
    requires rec.requirements.None? && rec.systemLibs.None? && rec.frameworks.None? && rec.defines.None?
    ensures ApplyEffect(rec, e).requirements == if e.requirements == [] then None else Some(e.requirements)
    ensures ApplyEffect(rec, e).systemLibs == if e.systemLibs == [] then None else Some(e.systemLibs)
    ensures ApplyEffect(rec, e).frameworks == if e.frameworks == [] then None else Some(e.frameworks)
    ensures ApplyEffect(rec, e).defines == if e.defines == [] then None else Some(e.defines)
  {
    assert [] + e.requirements == e.requirements && [] + e.systemLibs == e.systemLibs;
    assert [] + e.frameworks == e.frameworks && [] + e.defines == e.defines;
  }

  /** Every name in the list names an `absl_` component. */
  predicate AllInternal(names: seq<string>) {
    forall k :: 0 <= k < |names| ==> StartsWith(names[k], "absl_")
  }

  lemma AllInternalConcat(a: seq<string>, b: seq<string>)
    requires AllInternal(a) && AllInternal(b)
    ensures AllInternal(a + b)
  {
    assert forall k :: |a| <= k < |a + b| ==> (a + b)[k] == b[k - |a|];
  }

  /** Every requirement the properties add names an `absl_` component. */
  lemma {:induction false} PropertiesRequireInternal(props: seq<Property>, os: Os)
    ensures AllInternal(PropertiesEffect(props, os).requirements)
    decreases |props|
  {
    if |props| > 0 {
      PropertiesRequireInternal(props[1..], os);
      var p := props[0];
      if p.name == LinkLibraries {
        DependenciesRequirements(ValueTokens(p.value), os);
        InternalRequiresPrefixed(ValueTokens(p.value));
      }
      AllInternalConcat(PropertyEffect(p, os).requirements, PropertiesEffect(props[1..], os).requirements);
    }
  }
}
