/** The insertion-ordered dictionary the extractor builds and the
    registration reads back (conanfile.py:170, 184 and 235): component name
    to record, kept as an association list because the order of first
    insertion is observable in the written file and in the registration
    order. */
module Components {
  import opened Wrappers

  /** One component record: the mandatory `cmake_target` and the optional
      list fields, each absent until something is assigned or appended. */
  datatype Record = Record(
    cmakeTarget: string,
    libs: Option<seq<string>>,
    requirements: Option<seq<string>>,
    systemLibs: Option<seq<string>>,
    frameworks: Option<seq<string>>,
    defines: Option<seq<string>>)

  /** The record `setdefault` inserts for a new component. */
  function NewRecord(target: string): Record {
    Record(target, None, None, None, None, None)
  }

  /** `record.setdefault(field, []).append(x)` on one optional field. */
  function AppendOne(field: Option<seq<string>>, x: string): (r: Option<seq<string>>)
    ensures r.Some? && r.value == field.GetOr([]) + [x]
  {
    Some(field.GetOr([]) + [x])
  }

  /** The field after appending every element of `xs` in turn: unchanged
      when there is nothing to append, otherwise present and extended. */
  function Extend(field: Option<seq<string>>, xs: seq<string>): Option<seq<string>> {
    if xs == [] then field else Some(field.GetOr([]) + xs)
  }

  /** Appending one element at a time is extending by them all. */
  lemma AppendOneExtend(field: Option<seq<string>>, xs: seq<string>, x: string)
    ensures AppendOne(Extend(field, xs), x) == Extend(field, xs + [x])
  {
    if xs == [] {
      assert xs + [x] == [x];
    } else {
      assert field.GetOr([]) + xs + [x] == field.GetOr([]) + (xs + [x]);
    }
  }

  /** Extending twice is extending by the concatenation. */
  lemma ExtendExtend(field: Option<seq<string>>, xs: seq<string>, ys: seq<string>)
    ensures Extend(Extend(field, xs), ys) == Extend(field, xs + ys)
  {
    if xs == [] {
      assert xs + ys == ys;
    } else if ys == [] {
      assert xs + ys == xs;
    } else {
      assert field.GetOr([]) + xs + ys == field.GetOr([]) + (xs + ys);
    }
  }

  /** A dictionary entry. */
  datatype Entry = Entry(name: string, rec: Record)

  /** The dictionary, in insertion order. */
  type Dict = seq<Entry>

  /** The keys, in insertion order. */
  function Names(d: Dict): (names: seq<string>)
    ensures |names| == |d|
    ensures forall i :: 0 <= i < |d| ==> names[i] == d[i].name
    decreases |d|
  {
    if |d| == 0 then [] else [d[0].name] + Names(d[1..])
  }

  /** No key occurs twice. */
  predicate UniqueNames(d: Dict) {
    forall i, j :: 0 <= i < j < |d| ==> d[i].name != d[j].name
  }

  /** `d.get(name)` */
  function Get(d: Dict, name: string): (r: Option<Record>)
    ensures r.Some? ==> Entry(name, r.value) in d
    ensures r.None? ==> forall i :: 0 <= i < |d| ==> d[i].name != name
    decreases |d|
  {
    if |d| == 0 then None
    else if d[0].name == name then Some(d[0].rec)
    else Get(d[1..], name)
  }

  /** A key has a record exactly when it is among the keys. */
  lemma GetIffNames(d: Dict, name: string)
    ensures Get(d, name).Some? <==> name in Names(d)
  {
    if Get(d, name).Some? {
      var i :| 0 <= i < |d| && d[i] == Entry(name, Get(d, name).value);
      assert Names(d)[i] == name;
    }
  }

  /** `d.setdefault(name, rec)`: a new key goes to the end; an existing
      entry is left alone. */
  function SetDefault(d: Dict, name: string, rec: Record): (r: Dict)
    ensures Get(r, name) == Some(Get(d, name).GetOr(rec))
    ensures Names(r) == if Get(d, name).Some? then Names(d) else Names(d) + [name]
  {
    if Get(d, name).Some? then d
    else
      GetAppended(d, Entry(name, rec), name);
      d + [Entry(name, rec)]
  }

  /** `d[name] = rec`: an existing entry is replaced where it stands, a new
      key goes to the end. */
  function Put(d: Dict, name: string, rec: Record): (r: Dict)
    ensures Get(r, name) == Some(rec)
    decreases |d|
  {
    if |d| == 0 then [Entry(name, rec)]
    else if d[0].name == name then [Entry(name, rec)] + d[1..]
    else [d[0]] + Put(d[1..], name, rec)
  }

  /** Assignment keeps the keys in place and appends a new one. */
  lemma {:induction false} PutNames(d: Dict, name: string, rec: Record)
    ensures Names(Put(d, name, rec))
            == if Get(d, name).Some? then Names(d) else Names(d) + [name]
    decreases |d|
  {
    if |d| > 0 && d[0].name != name {
      PutNames(d[1..], name, rec);
      var tail := Names(d[1..]);
      assert [d[0].name] + (tail + [name]) == [d[0].name] + tail + [name];
    }
  }

  /** Looking a key up behind an appended entry. */
  lemma {:induction false} GetAppended(d: Dict, e: Entry, name: string)
    ensures Get(d + [e], name)
            == if Get(d, name).Some? then Get(d, name)
               else if e.name == name then Some(e.rec) else None
    decreases |d|
  {
    if |d| > 0 {
      assert (d + [e])[1..] == d[1..] + [e];
      GetAppended(d[1..], e, name);
    } else {
      assert (d + [e])[0] == e;
    }
  }

  /** `setdefault` leaves every other key's record alone. */
  lemma SetDefaultOther(d: Dict, name: string, rec: Record, other: string)
    requires other != name
    ensures Get(SetDefault(d, name, rec), other) == Get(d, other)
  {
    if Get(d, name).None? {
      GetAppended(d, Entry(name, rec), other);
    }
  }

  /** Assignment leaves every other key's record alone. */
  lemma {:induction false} PutOther(d: Dict, name: string, rec: Record, other: string)
    requires other != name
    ensures Get(Put(d, name, rec), other) == Get(d, other)
    decreases |d|
  {
    if |d| > 0 && d[0].name != name {
      PutOther(d[1..], name, rec, other);
    }
  }

  /** Assigning a key its own record changes nothing. */
  lemma {:induction false} PutSame(d: Dict, name: string)
    requires UniqueNames(d) && Get(d, name).Some?
    ensures Put(d, name, Get(d, name).value) == d
    decreases |d|
  {
    if d[0].name != name {
      PutSame(d[1..], name);
    } else {
      assert [d[0]] + d[1..] == d;
    }
  }

  /** Both insertions keep the keys unique. */
  lemma SetDefaultUnique(d: Dict, name: string, rec: Record)
    requires UniqueNames(d)
    ensures UniqueNames(SetDefault(d, name, rec))
  {
    var r := SetDefault(d, name, rec);
    if name !in Names(d) {
      forall i, j | 0 <= i < j < |r| ensures r[i].name != r[j].name {
        if j == |d| {
          assert Names(d)[i] == r[i].name;
        }
      }
    }
  }

  lemma PutUnique(d: Dict, name: string, rec: Record)
    requires UniqueNames(d)
    ensures UniqueNames(Put(d, name, rec))
  {
    var r := Put(d, name, rec);
    PutNames(d, name, rec);
    forall i, j | 0 <= i < j < |r| ensures r[i].name != r[j].name {
      assert Names(r)[i] == r[i].name && Names(r)[j] == r[j].name;
      if name in Names(d) {
        assert Names(d)[i] == d[i].name && Names(d)[j] == d[j].name;
      } else if j < |d| {
        assert Names(d)[i] == d[i].name && Names(d)[j] == d[j].name;
      } else {
        assert Names(d)[i] == d[i].name;
      }
    }
  }
}
