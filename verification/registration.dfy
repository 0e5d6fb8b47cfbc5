/** `_register_components` and `_register_component`
    (conanfile.py:231-245): every component of the loaded file is declared
    to Conan in file order, under its CMake target name for both CMake
    generators, with each absent list field read as empty. Writing the file
    with `json.dump` and reading it back with `json.load` keeps a dictionary
    of strings and lists of strings, keys in order, so the registration
    reads the extractor's dictionary directly. */
module Registration {
  import opened Wrappers
  import opened Components

  /** What `_register_component` sets on one `cpp_info.components` entry:
      the two generator names and the five lists. */
  datatype ComponentInfo = ComponentInfo(
    findPackageName: string,
    findPackageMultiName: string,
    libs: seq<string>,
    defines: seq<string>,
    systemLibs: seq<string>,
    frameworks: seq<string>,
    requirements: seq<string>)

  /** `_register_component(conan_name, values)` (conanfile.py:237-245). */
  function RegisterComponent(rec: Record): ComponentInfo {
    ComponentInfo(rec.cmakeTarget, rec.cmakeTarget,
                  rec.libs.GetOr([]), rec.defines.GetOr([]), rec.systemLibs.GetOr([]),
                  rec.frameworks.GetOr([]), rec.requirements.GetOr([]))
  }

  /** A list field that is present only when it has something in it, as
      every field the extractor builds by appending. */
  predicate Listed(field: Option<seq<string>>) {
    field.Some? ==> |field.value| > 0
  }

  predicate ListedFields(rec: Record) {
    Listed(rec.libs) && Listed(rec.defines) && Listed(rec.systemLibs)
    && Listed(rec.frameworks) && Listed(rec.requirements)
  }

  /** The list read back as a field: absent when empty. */
  function AsField(xs: seq<string>): (field: Option<seq<string>>)
    ensures Listed(field) && field.GetOr([]) == xs
  {
    if xs == [] then None else Some(xs)
  }

  /** The record a registered entry came from. */
  function Unregister(info: ComponentInfo): Record {
    Record(info.findPackageName, AsField(info.libs), AsField(info.requirements),
           AsField(info.systemLibs), AsField(info.frameworks), AsField(info.defines))
  }

  /** Registration loses nothing of a record whose present fields are
      non-empty: the record is recovered from what Conan was told. */
  lemma UnregisterRegister(rec: Record)
    requires ListedFields(rec)
    ensures Unregister(RegisterComponent(rec)) == rec
  {
  }

  /** Conan is told the same name for both generators, and registering a
      recovered record tells it the same again. */
  lemma RegisterUnregister(info: ComponentInfo)
    requires info.findPackageName == info.findPackageMultiName
    ensures RegisterComponent(Unregister(info)) == info
    ensures ListedFields(Unregister(info))
  {
  }

  /** One registered component. */
  datatype Registered = Registered(name: string, info: ComponentInfo)

  /** `for conan_name, values in abseil_components.items()`
      (conanfile.py:231-235). */
  function RegisterComponents(d: Dict): (reg: seq<Registered>)
    ensures |reg| == |d|
    ensures forall i :: 0 <= i < |d| ==> reg[i] == Registered(d[i].name, RegisterComponent(d[i].rec))
    decreases |d|
  {
    if |d| == 0 then [] else [Registered(d[0].name, RegisterComponent(d[0].rec))] + RegisterComponents(d[1..])
  }

  /** The registered names, in registration order. */
  function RegisteredNames(reg: seq<Registered>): (names: seq<string>)
    ensures |names| == |reg|
    ensures forall i :: 0 <= i < |reg| ==> names[i] == reg[i].name
    decreases |reg|
  {
    if |reg| == 0 then [] else [reg[0].name] + RegisteredNames(reg[1..])
  }

  /** Components are registered in the dictionary's order. */
  lemma RegisterComponentsNames(d: Dict)
    ensures RegisteredNames(RegisterComponents(d)) == Names(d)
  {
  }

  /** `cpp_info.components[name]` after the registration: the last entry
      set under that name. */
  function Lookup(reg: seq<Registered>, name: string): (r: Option<ComponentInfo>)
    ensures r.Some? ==> exists i :: 0 <= i < |reg| && reg[i] == Registered(name, r.value)
    decreases |reg|
  {
    if |reg| == 0 then None
    else if reg[|reg| - 1].name == name then Some(reg[|reg| - 1].info)
    else Lookup(reg[..|reg| - 1], name)
  }

  /** Registering one more entry appends its registration. */
  lemma RegisterComponentsSnoc(d: Dict, e: Entry)
    ensures RegisterComponents(d + [e]) == RegisterComponents(d) + [Registered(e.name, RegisterComponent(e.rec))]
  {
    var full := d + [e];
    var a := RegisterComponents(full);
    var b := RegisterComponents(d) + [Registered(e.name, RegisterComponent(e.rec))];
    forall i | 0 <= i < |a| ensures a[i] == b[i] {
      assert full[i] == if i < |d| then d[i] else e;
    }
  }

  /** The entry set last under a name is the one found. */
  lemma LookupSnoc(reg: seq<Registered>, r: Registered, name: string)
    ensures Lookup(reg + [r], name) == if r.name == name then Some(r.info) else Lookup(reg, name)
  {
    assert (reg + [r])[..|reg|] == reg;
  }

  /** Without repeated names, the last entry's name is not among the
      earlier ones. */
  lemma UniqueNamesSnoc(d: Dict, e: Entry)
    requires UniqueNames(d + [e])
    ensures UniqueNames(d) && Get(d, e.name).None?
  {
    var full := d + [e];
    forall i, j | 0 <= i < j < |d| ensures d[i].name != d[j].name {
      assert full[i] == d[i] && full[j] == d[j];
    }
    forall j | 0 <= j < |d| ensures Names(d)[j] != e.name {
      assert full[j] == d[j] && full[|d|] == e;
    }
    GetIffNames(d, e.name);
  }

  /** Each component of a dictionary without repeated names ends up
      registered with exactly its own record, and nothing else is. */
  lemma {:induction false} LookupRegistered(d: Dict, name: string)
    requires UniqueNames(d)
    ensures Lookup(RegisterComponents(d), name)
            == if Get(d, name).Some? then Some(RegisterComponent(Get(d, name).value)) else None
    decreases |d|
  {
    if |d| > 0 {
      var init := d[..|d| - 1];
      var last := d[|d| - 1];
      assert init + [last] == d;
      UniqueNamesSnoc(init, last);
      LookupRegistered(init, name);
      GetAppended(init, last, name);
      RegisterComponentsSnoc(init, last);
      LookupSnoc(RegisterComponents(init), Registered(last.name, RegisterComponent(last.rec)), name);
    }
  }
}
