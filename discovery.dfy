/**
 * Test discovery: walk the entries of the test directory and register a
 * case for every selected name whose entry is a directory holding a `cmd`
 * script.
 */
module Discovery {
  import opened Wrappers
  import opened Filter

  /** One entry of the test directory, with the two file-system facts the
      loop asks about it. */
  datatype Entry = Entry(name: string, isDir: bool, hasCmd: bool)

  /** What the registered runner captures: the case's name and directory. */
  datatype Task = Task(caseName: string, caseDir: string)

  /** The directory of case `name` under `root`. */
  function PathJoin(root: string, name: string): string
  {
    root + "/" + name
  }

  /** Different case names under one root get different directories, so
      each case's script runs in a directory of its own. */
  lemma DistinctCaseDirs(root: string, a: string, b: string)
    requires a != b
    ensures PathJoin(root, a) != PathJoin(root, b)
  {
    assert PathJoin(root, a)[|root| + 1..] == a;
    assert PathJoin(root, b)[|root| + 1..] == b;
  }

  /** Directory listings never repeat a name. */
  ghost predicate UniqueNames(entries: seq<Entry>)
  {
    forall i, j :: 0 <= i < j < |entries| ==> entries[i].name != entries[j].name
  }

  /** The entry passes the filter, is a directory, and holds `cmd`. */
  function Qualifies(spec: FilterSpec, e: Entry): (b: bool)
    ensures b <==> (spec.only == [] || e.name in spec.only) && e.name !in spec.excludes
                   && e.isDir && e.hasCmd
  {
    Selected(spec, e.name) && e.isDir && e.hasCmd
  }

  /** The names that get a case. */
  ghost function CaseNames(spec: FilterSpec, entries: seq<Entry>): set<string>
  {
    set e | e in entries && Qualifies(spec, e) :: e.name
  }

  /** The names in the listing. */
  ghost function Names(entries: seq<Entry>): set<string>
  {
    set e | e in entries :: e.name
  }

  /** The discovery loop: `data[name]` is set for each qualifying entry. */
  method Discover(root: string, entries: seq<Entry>, spec: FilterSpec)
    returns (data: map<string, Task>)
    ensures data.Keys == CaseNames(spec, entries)
    ensures forall n :: n in data ==> data[n] == Task(n, PathJoin(root, n))
  {
    data := map[];
    var i := 0;
    while i < |entries|
      invariant 0 <= i <= |entries|
      invariant data.Keys == CaseNames(spec, entries[..i])
      invariant forall n :: n in data ==> data[n] == Task(n, PathJoin(root, n))
    {
      var e := entries[i];
      CaseNamesStep(spec, entries[..i], e);
      assert entries[..i + 1] == entries[..i] + [e];
      if Selected(spec, e.name) && e.isDir && e.hasCmd {
        data := data[e.name := Task(e.name, PathJoin(root, e.name))];
      }
      i := i + 1;
    }
    assert entries[..i] == entries;
  }

  /** Parse `TEST_ONLY`, then discover: the whole of what the harness
      registers. */
  method BuildSuite(env: Option<string>, root: string, entries: seq<Entry>)
    returns (data: map<string, Task>)
    ensures data.Keys == CaseNames(SpecOf(env), entries)
    ensures data.Keys <= Names(entries)
    ensures forall n :: n in data ==> data[n] == Task(n, PathJoin(root, n))
  {
    var spec := ParseTestOnly(env);
    data := Discover(root, entries, spec);
    CaseNamesListed(spec, entries);
  }

  lemma CaseNamesStep(spec: FilterSpec, entries: seq<Entry>, e: Entry)
    ensures CaseNames(spec, entries + [e])
         == CaseNames(spec, entries) + if Qualifies(spec, e) then {e.name} else {}
  {
    var s := entries + [e];
    assert forall x :: x in s <==> x in entries || x == e;
  }

  /** Only listed names become cases. */
  lemma CaseNamesListed(spec: FilterSpec, entries: seq<Entry>)
    ensures CaseNames(spec, entries) <= Names(entries)
  {
  }

  /** With names unique, a listed entry gives a case exactly when it passes
      the filter, is a directory and holds `cmd`; so an entry without `cmd`,
      one that is not a directory, and an excluded name never give one. */
  lemma CaseIffQualifies(spec: FilterSpec, entries: seq<Entry>, k: nat)
    requires UniqueNames(entries)
    requires k < |entries|
    ensures entries[k].name in CaseNames(spec, entries) <==> Qualifies(spec, entries[k])
  {
    if entries[k].name in CaseNames(spec, entries) {
      var e :| e in entries && Qualifies(spec, e) && e.name == entries[k].name;
      var j :| 0 <= j < |entries| && entries[j] == e;
    }
  }

  /** With `TEST_ONLY` unset or empty, every directory holding `cmd` is a case. */
  lemma UnsetFindsAllRunnable(env: Option<string>, entries: seq<Entry>)
    requires env.None? || env == Some("")
    ensures CaseNames(SpecOf(env), entries)
         == set e | e in entries && e.isDir && e.hasCmd :: e.name
  {
    var spec := SpecOf(env);
    forall e | e in entries
      ensures Qualifies(spec, e) <==> e.isDir && e.hasCmd
    {
      UnsetSelectsEverything(env, e.name);
    }
  }
}
