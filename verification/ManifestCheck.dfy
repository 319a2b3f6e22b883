/** The three-way check: may a forward-merge keep the target's manifest? */
module ManifestCheck {
  import opened Basics
  import opened TextOrder
  import opened TomlTree
  import opened ManifestVersion
  import opened ManifestTables
  import opened ManifestFlatten
  import opened ManifestRest

  datatype Problem =
    | RemovedBySource(table: string, dep: string)
    | AddedBySource(table: string, dep: string)
    | MissingOnTarget(table: string, dep: string)
    | OtherFieldsDiffer(table: string, dep: string)
    | VersionOnOneSide(table: string, dep: string)
    | CannotCompare(table: string, dep: string)
    | OperatorDiffers(table: string, dep: string)
    | SourceIsNewer(table: string, dep: string)
    | ChangedOutside(key: string)

  // ---- What a clean answer means ----

  /** The target's entry keeps what the source's entry asks for: the same fields, and the same
      version or a same-operator version at least as new. */
  predicate StandsIn(source: Fields, target: Fields) {
    && SameFields(source - {"version"}, target - {"version"})
    && VersionStandsIn(Get(source, "version"), Get(target, "version"))
  }

  predicate VersionStandsIn(source: Option<Toml>, target: Option<Toml>) {
    || SameAt(source, target)
    || (source.Some? && target.Some? && source.value.Str? && target.value.Str? &&
        VersionCovers(source.value.s, target.value.s))
  }

  /** The source neither adds nor removes a dependency, and each one it changed stands on the
      target. */
  predicate TableCovered(base: Fields, source: Fields, target: Fields)
    requires Specs(base) && Specs(source) && Specs(target)
  {
    && base.Keys == source.Keys
    && forall dep | dep in source && dep in base ::
         || SameFields(NormalizeDep(source[dep]), NormalizeDep(base[dep]))
         || (dep in target && StandsIn(NormalizeDep(source[dep]), NormalizeDep(target[dep])))
  }

  /** The expanded table of a manifest, empty when there is none. */
  ghost function ExpandedTable(doc: Fields, ref: TableRef): (table: Fields)
    requires WellTyped(doc) && ref.Valid()
    ensures Specs(table)
  {
    ExpandedWellTyped(doc);
    if TableOf(Expanded(doc), ref).Some? then
      DepSpecs(Expanded(doc), ref);
      TableOf(Expanded(doc), ref).value
    else map[]
  }

  ghost predicate DepsCovered(base: Fields, source: Fields, target: Fields)
    requires WellTyped(base) && WellTyped(source) && WellTyped(target)
  {
    forall ref: TableRef | ref.Valid() :: RefCovered(base, source, target, ref)
  }

  // ---- The comparison of one dependency ----

  function VersionProblem(table: string, dep: string, source: string, target: string): (r: Option<Problem>)
    ensures r.None? <==> VersionCovers(source, target)
  {
    var src, tgt := ParseVersion(source), ParseVersion(target);
    if src.None? || tgt.None? then Some(CannotCompare(table, dep))
    else if src.value.op != tgt.value.op then Some(OperatorDiffers(table, dep))
    else if Older(tgt.value, src.value) then Some(SourceIsNewer(table, dep))
    else None
  }

  function DepProblem(table: string, dep: string, source: Fields, target: Option<Fields>): (r: Option<Problem>)
    ensures r.None? <==> target.Some? && StandsIn(source, target.value)
  {
    if target.None? then Some(MissingOnTarget(table, dep))
    else if !SameFields(source - {"version"}, target.value - {"version"}) then Some(OtherFieldsDiffer(table, dep))
    else
      var src, tgt := Get(source, "version"), Get(target.value, "version");
      if SameAt(src, tgt) then None
      else if src.None? || !src.value.Str? || tgt.None? || !tgt.value.Str? then Some(VersionOnOneSide(table, dep))
      else VersionProblem(table, dep, src.value.s, tgt.value.s)
  }

  function Verdict(table: string, dep: string, base: Fields, source: Fields, target: Fields): Option<Problem>
    requires Specs(base) && Specs(source) && Specs(target)
  {
    if dep !in source then Some(RemovedBySource(table, dep))
    else if dep !in base then Some(AddedBySource(table, dep))
    else
      var src, before := NormalizeDep(source[dep]), NormalizeDep(base[dep]);
      if SameFields(src, before) then None
      else DepProblem(table, dep, src, if dep in target then Some(NormalizeDep(target[dep])) else None)
  }

  /** The problems in a list of verdicts. */
  function Somes<T>(verdicts: seq<Option<T>>): seq<T> {
    if verdicts == [] then []
    else
      var init, last := Somes(verdicts[..|verdicts| - 1]), verdicts[|verdicts| - 1];
      if last.Some? then init + [last.value] else init
  }

  lemma {:induction false} NoneLeft<T>(verdicts: seq<Option<T>>)
    ensures Somes(verdicts) == [] <==> forall i | 0 <= i < |verdicts| :: verdicts[i].None?
  {
    if verdicts != [] {
      NoneLeft(verdicts[..|verdicts| - 1]);
    }
  }

  ghost function Verdicts(table: string, deps: seq<string>, base: Fields, source: Fields,
                          target: Fields): seq<Option<Problem>>
    requires Specs(base) && Specs(source) && Specs(target)
  {
    seq(|deps|, i requires 0 <= i < |deps| => Verdict(table, deps[i], base, source, target))
  }

  method CollectVerdicts(table: string, deps: seq<string>, base: Fields, source: Fields, target: Fields)
    returns (problems: seq<Problem>)
    requires Specs(base) && Specs(source) && Specs(target)
    ensures problems == Somes(Verdicts(table, deps, base, source, target))
  {
    problems := [];
    ghost var verdicts := Verdicts(table, deps, base, source, target);
    for i := 0 to |deps|
      invariant problems == Somes(verdicts[..i])
    {
      var verdict := Verdict(table, deps[i], base, source, target);
      assert verdicts[..i + 1][..i] == verdicts[..i] && verdicts[i] == verdict;
      if verdict.Some? {
        problems := problems + [verdict.value];
      }
    }
    assert verdicts[..|deps|] == verdicts;
  }

  /** The blocking differences of one table, in the order of the dependency names. There are none
      exactly when the table is covered. */
  method TableProblems(table: string, base: Fields, source: Fields, target: Fields) returns (problems: seq<Problem>)
    requires Specs(base) && Specs(source) && Specs(target)
    ensures problems == Somes(Verdicts(table, SortedSet(base.Keys + source.Keys), base, source, target))
    ensures problems == [] <==> TableCovered(base, source, target)
  {
    var deps := SortStrings(base.Keys + source.Keys);
    problems := CollectVerdicts(table, deps, base, source, target);
    VerdictsDecide(table, deps, base, source, target);
  }

  lemma VerdictsDecide(table: string, deps: seq<string>, base: Fields, source: Fields, target: Fields)
    requires Specs(base) && Specs(source) && Specs(target)
    requires forall dep :: dep in deps <==> dep in base.Keys + source.Keys
    ensures Somes(Verdicts(table, deps, base, source, target)) == [] <==> TableCovered(base, source, target)
  {
    var verdicts := Verdicts(table, deps, base, source, target);
    NoneLeft(verdicts);
    CoveredByVerdicts(table, base, source, target);
    assert forall i | 0 <= i < |deps| :: deps[i] in deps;
    if Somes(verdicts) == [] {
      forall dep | dep in base.Keys + source.Keys ensures Verdict(table, dep, base, source, target).None? {
        var i :| 0 <= i < |deps| && deps[i] == dep;
        assert verdicts[i].None?;
      }
    }
  }

  lemma CoveredByVerdicts(table: string, base: Fields, source: Fields, target: Fields)
    requires Specs(base) && Specs(source) && Specs(target)
    ensures TableCovered(base, source, target) <==>
            forall dep | dep in base.Keys + source.Keys :: Verdict(table, dep, base, source, target).None?
  {
    if forall dep | dep in base.Keys + source.Keys :: Verdict(table, dep, base, source, target).None? {
      forall dep | dep in base.Keys + source.Keys ensures dep in source && dep in base {
        assert Verdict(table, dep, base, source, target).None?;
      }
      assert base.Keys == source.Keys;
      forall dep | dep in source && dep in base
        ensures SameFields(NormalizeDep(source[dep]), NormalizeDep(base[dep])) ||
                (dep in target && StandsIn(NormalizeDep(source[dep]), NormalizeDep(target[dep])))
      {
        assert dep in base.Keys + source.Keys;
        assert Verdict(table, dep, base, source, target).None?;
      }
    }
  }

  // ---- The rest of the manifest ----

  function KindSet(): set<string> {
    set k | k in DEP_KINDS
  }

  /** The manifest without its dependency tables and without the package versions. */
  function Stripped(doc: Fields): Fields {
    var rest := (doc - KindSet())["package" := Table(Sub(doc, "package") - {"version"})];
    var workspace := StrippedWorkspace(Sub(doc, "workspace"));
    var rest1 := if workspace == map[] then rest - {"workspace"} else rest["workspace" := Table(workspace)];
    if "target" in rest1 then rest1["target" := Table(StrippedTargets(Sub(doc, "target")))] else rest1
  }

  function StrippedWorkspace(workspace: Fields): Fields {
    var bare := workspace - {"dependencies"};
    var package := Sub(bare, "package") - {"version"};
    if package == map[] then bare - {"package"} else bare["package" := Table(package)]
  }

  function StrippedTargets(targets: Fields): Fields {
    map cfg | cfg in targets :: Table(Sub(targets, cfg) - KindSet())
  }

  lemma SubLeaf(fields: Fields, path: Path)
    requires path != []
    ensures LeafAt(Table(fields), path) == if path[0] in fields then LeafAt(fields[path[0]], path[1..]) else None
  {
  }

  /** The stripped manifest shows exactly the values outside the ignored paths. */
  lemma StrippedLeaves(doc: Fields, path: Path)
    requires WellTyped(doc)
    ensures LeafAt(Table(Stripped(doc)), path) == if Ignored(path) then None else LeafAt(Table(doc), path)
  {
    forall k | k in DEP_KINDS ensures k != "package" && k != "workspace" && k != "target" { KindsHaveNoDot(k); }
    if path != [] {
      var head, rest := path[0], path[1..];
      SubLeaf(doc, path);
      SubLeaf(Stripped(doc), path);
      if head in DEP_KINDS {
      } else if head == "package" {
        PackageLeaf(doc, path);
      } else if head == "workspace" {
        WorkspaceLeaf(doc, path);
      } else if head == "target" {
        TargetLeaf(doc, path);
      } else {
        PlainHead(path);
        OtherHeadStays(doc, head);
      }
    }
  }

  lemma OtherHeadStays(doc: Fields, head: string)
    requires head !in DEP_KINDS && head !in {"package", "workspace", "target"}
    ensures head in Stripped(doc) <==> head in doc
    ensures head in doc ==> Stripped(doc)[head] == doc[head]
  {
  }

  lemma PlainHead(path: Path)
    requires path != [] && path[0] !in DEP_KINDS && path[0] !in {"package", "workspace", "target"}
    ensures !Ignored(path)
  {
    assert forall n | 1 <= n <= |path| :: path[..n][0] == path[0];
  }

  lemma PackageLeaf(doc: Fields, path: Path)
    requires WellTyped(doc) && path != [] && path[0] == "package"
    ensures LeafAt(Table(Stripped(doc)), path) == if Ignored(path) then None else LeafAt(Table(doc), path)
  {
    forall k | k in DEP_KINDS ensures k != "package" { KindsHaveNoDot(k); }
    var rest := path[1..];
    assert Stripped(doc)["package"] == Table(Sub(doc, "package") - {"version"});
    if rest != [] {
      assert rest[0] == path[1];
      assert path[..2] == [path[0], path[1]];
      assert |path| >= 3 ==> path[..3][0] == path[0];
    } else {
      assert path[..1] == path == ["package"];
    }
  }

  lemma WorkspaceRest(workspace: Fields, rest: Path)
    requires "package" in workspace ==> workspace["package"].Table?
    requires rest != []
    ensures LeafAt(Table(StrippedWorkspace(workspace)), rest) ==
            if rest[0] == "dependencies" || (rest[0] == "package" && |rest| >= 2 && rest[1] == "version") then None
            else LeafAt(Table(workspace), rest)
  {
    var stripped := StrippedWorkspace(workspace);
    SubLeaf(workspace, rest);
    SubLeaf(stripped, rest);
    if rest[0] == "package" && "package" in workspace && rest[1..] != [] {
      var package := workspace["package"].fields - {"version"};
      SubLeaf(workspace["package"].fields, rest[1..]);
      SubLeaf(package, rest[1..]);
      assert rest[1..][0] == rest[1];
    }
  }

  lemma WorkspaceLeaf(doc: Fields, path: Path)
    requires WellTyped(doc) && path != [] && path[0] == "workspace"
    ensures LeafAt(Table(Stripped(doc)), path) == if Ignored(path) then None else LeafAt(Table(doc), path)
  {
    KindsAreOther();
    var rest, workspace := path[1..], Sub(doc, "workspace");
    SubLeaf(doc, path);
    SubLeaf(Stripped(doc), path);
    if rest == [] {
      assert path == ["workspace"];
      assert path[..1] == path;
    } else {
      WorkspaceRest(workspace, rest);
      assert rest[0] == path[1];
      assert path[..2] == [path[0], path[1]];
      if |path| == 2 {
        assert path[..2] == path;
      } else {
        assert path[..3] == [path[0], path[1], path[2]];
        assert rest[1] == path[2];
      }
      assert LeafAt(Table(map[]), rest).None?;
      assert "workspace" in Stripped(doc) ==> Stripped(doc)["workspace"] == Table(StrippedWorkspace(workspace));
      assert "workspace" !in Stripped(doc) ==> StrippedWorkspace(workspace) == map[];
    }
  }

  lemma TargetLeaf(doc: Fields, path: Path)
    requires WellTyped(doc) && path != [] && path[0] == "target"
    ensures LeafAt(Table(Stripped(doc)), path) == if Ignored(path) then None else LeafAt(Table(doc), path)
  {
    KindsAreOther();
    assert forall n | 1 <= n <= |path| :: path[..n][0] == path[0];
    var rest, targets := path[1..], Sub(doc, "target");
    assert "target" in Stripped(doc) <==> "target" in doc;
    SubLeaf(doc, path);
    SubLeaf(Stripped(doc), path);
    if "target" in doc && rest != [] {
      var stripped := StrippedTargets(targets);
      assert Stripped(doc)["target"] == Table(stripped);
      SubLeaf(targets, rest);
      SubLeaf(stripped, rest);
      if rest[0] in targets && rest[1..] != [] {
        SubLeaf(targets[rest[0]].fields, rest[1..]);
        SubLeaf(stripped[rest[0]].fields, rest[1..]);
        assert rest[1..][0] == path[2];
      }
    }
  }

  lemma KindsAreOther()
    ensures "target" !in KindSet() && "workspace" !in KindSet() && "package" !in KindSet()
  {
    forall k | k in DEP_KINDS ensures k != "package" && k != "workspace" && k != "target" { KindsHaveNoDot(k); }
  }

  // ---- The whole check ----

  /** One reported difference for each key whose flat values differ. */
  method RestProblems(before: Fields, after: Fields) returns (problems: seq<Problem>)
    ensures problems == [] <==> SameFields(before, after)
    ensures forall p | p in problems :: p.ChangedOutside? && !SameAt(Get(before, p.key), Get(after, p.key))
  {
    var keys := SortStrings(before.Keys + after.Keys);
    problems := KeyedProblems(before, after, keys);
    KeysDecide(before, after, keys);
  }

  method KeyedProblems(before: Fields, after: Fields, keys: seq<string>) returns (problems: seq<Problem>)
    ensures problems == [] <==> AgreeOn(before, after, keys)
    ensures forall p | p in problems :: p.ChangedOutside? && !SameAt(Get(before, p.key), Get(after, p.key))
  {
    problems := [];
    for i := 0 to |keys|
      invariant problems == [] <==> AgreeOn(before, after, keys[..i])
      invariant forall p | p in problems :: p.ChangedOutside? && !SameAt(Get(before, p.key), Get(after, p.key))
    {
      OneMoreAgrees(before, after, keys, i);
      if !SameAt(Get(before, keys[i]), Get(after, keys[i])) {
        problems := problems + [ChangedOutside(keys[i])];
      }
    }
    assert keys[..|keys|] == keys;
  }

  lemma OneMoreAgrees(before: Fields, after: Fields, keys: seq<string>, i: nat)
    requires i < |keys|
    ensures AgreeOn(before, after, keys[..i + 1]) <==>
            AgreeOn(before, after, keys[..i]) && SameAt(Get(before, keys[i]), Get(after, keys[i]))
  {
    assert keys[..i + 1] == keys[..i] + [keys[i]];
  }

  predicate AgreeOn(before: Fields, after: Fields, keys: seq<string>) {
    forall key | key in keys :: SameAt(Get(before, key), Get(after, key))
  }

  lemma KeysDecide(before: Fields, after: Fields, keys: seq<string>)
    requires forall key :: key in keys <==> key in before || key in after
    ensures SameFields(before, after) <==> AgreeOn(before, after, keys)
  {
    SameFieldsAt(before, after);
    if AgreeOn(before, after, keys) {
      forall key ensures SameAt(Get(before, key), Get(after, key)) {
        assert key !in keys ==> Get(before, key).None? && Get(after, key).None?;
      }
    }
  }

  function OrEmpty(tables: map<string, Fields>, name: string): Fields {
    if name in tables then tables[name] else map[]
  }

  ghost predicate TablesFor(tables: map<string, Fields>, doc: Fields)
    requires WellTyped(doc)
  {
    && AreTablesOf(tables, Expanded(doc))
    && forall ref: TableRef | ref.Valid() :: OrEmpty(tables, NameOf(ref)) == ExpandedTable(doc, ref)
  }

  method ExpandedDepTables(doc: Fields) returns (tables: map<string, Fields>)
    requires WellTyped(doc)
    ensures TablesFor(tables, doc)
    ensures AllSpecs(tables)
  {
    var expanded := ExpandInherited(doc);
    ExpandedWellTyped(doc);
    tables := DepTables(expanded);
    forall ref: TableRef | ref.Valid() ensures OrEmpty(tables, NameOf(ref)) == ExpandedTable(doc, ref) {
      assert Lookup(tables, NameOf(ref)) == TableOf(expanded, ref);
    }
    forall name | name in tables ensures Specs(tables[name]) {
      var ref: TableRef :| ref.Valid() && NameOf(ref) == name;
      assert OrEmpty(tables, NameOf(ref)) == ExpandedTable(doc, ref);
    }
  }

  method DepsProblems(base: Fields, source: Fields, target: Fields) returns (problems: seq<Problem>)
    requires WellTyped(base) && WellTyped(source) && WellTyped(target)
    ensures problems == [] <==> DepsCovered(base, source, target)
  {
    var baseTables := ExpandedDepTables(base);
    var sourceTables := ExpandedDepTables(source);
    var targetTables := ExpandedDepTables(target);
    var names := SortStrings(baseTables.Keys + sourceTables.Keys);
    problems := NamedProblems(baseTables, sourceTables, targetTables, names);
    CoveredByName(base, source, target, baseTables, sourceTables, targetTables, names);
  }

  method NameProblems(baseTables: map<string, Fields>, sourceTables: map<string, Fields>,
                      targetTables: map<string, Fields>, name: string)
    returns (problems: seq<Problem>)
    requires Specs(OrEmpty(baseTables, name)) && Specs(OrEmpty(sourceTables, name)) &&
             Specs(OrEmpty(targetTables, name))
    ensures problems == [] <==> NameCovered(baseTables, sourceTables, targetTables, name)
  {
    problems :=
      TableProblems(name, OrEmpty(baseTables, name), OrEmpty(sourceTables, name), OrEmpty(targetTables, name));
  }

  method NamedProblems(baseTables: map<string, Fields>, sourceTables: map<string, Fields>,
                       targetTables: map<string, Fields>, names: seq<string>)
    returns (problems: seq<Problem>)
    requires AllSpecs(baseTables) && AllSpecs(sourceTables) && AllSpecs(targetTables)
    ensures problems == [] <==> AllCovered(baseTables, sourceTables, targetTables, names)
  {
    problems := [];
    for i := 0 to |names|
      invariant problems == [] <==> AllCovered(baseTables, sourceTables, targetTables, names[..i])
    {
      var more := NameProblems(baseTables, sourceTables, targetTables, names[i]);
      OneMoreCovered(baseTables, sourceTables, targetTables, names, i);
      problems := problems + more;
    }
    assert names[..|names|] == names;
  }

  predicate AllSpecs(tables: map<string, Fields>) {
    forall name | name in tables :: Specs(tables[name])
  }

  predicate AllCovered(base: map<string, Fields>, source: map<string, Fields>, target: map<string, Fields>,
                       names: seq<string>) {
    forall name | name in names :: NameCovered(base, source, target, name)
  }

  lemma OneMoreCovered(base: map<string, Fields>, source: map<string, Fields>, target: map<string, Fields>,
                       names: seq<string>, i: nat)
    requires i < |names|
    ensures AllCovered(base, source, target, names[..i + 1]) <==>
            AllCovered(base, source, target, names[..i]) && NameCovered(base, source, target, names[i])
  {
    assert names[..i + 1] == names[..i] + [names[i]];
  }

  predicate NameCovered(base: map<string, Fields>, source: map<string, Fields>, target: map<string, Fields>,
                        name: string) {
    && Specs(OrEmpty(base, name)) && Specs(OrEmpty(source, name)) && Specs(OrEmpty(target, name))
    && TableCovered(OrEmpty(base, name), OrEmpty(source, name), OrEmpty(target, name))
  }

  ghost predicate RefCovered(base: Fields, source: Fields, target: Fields, ref: TableRef)
    requires WellTyped(base) && WellTyped(source) && WellTyped(target) && ref.Valid()
  {
    TableCovered(ExpandedTable(base, ref), ExpandedTable(source, ref), ExpandedTable(target, ref))
  }

  /** The three sets of tables belong to the three manifests. */
  ghost predicate AreTheirTables(base: Fields, source: Fields, target: Fields,
                                 baseTables: map<string, Fields>, sourceTables: map<string, Fields>,
                                 targetTables: map<string, Fields>)
    requires WellTyped(base) && WellTyped(source) && WellTyped(target)
  {
    TablesFor(baseTables, base) && TablesFor(sourceTables, source) && TablesFor(targetTables, target)
  }

  lemma NameIsRef(base: Fields, source: Fields, target: Fields,
                  baseTables: map<string, Fields>, sourceTables: map<string, Fields>, targetTables: map<string, Fields>,
                  ref: TableRef)
    requires WellTyped(base) && WellTyped(source) && WellTyped(target) && ref.Valid()
    requires AreTheirTables(base, source, target, baseTables, sourceTables, targetTables)
    ensures NameCovered(baseTables, sourceTables, targetTables, NameOf(ref)) <==> RefCovered(base, source, target, ref)
    ensures NameOf(ref) !in baseTables && NameOf(ref) !in sourceTables ==> RefCovered(base, source, target, ref)
  {
    assert OrEmpty(baseTables, NameOf(ref)) == ExpandedTable(base, ref);
    assert OrEmpty(sourceTables, NameOf(ref)) == ExpandedTable(source, ref);
    assert OrEmpty(targetTables, NameOf(ref)) == ExpandedTable(target, ref);
  }

  lemma NameHasRef(tables: map<string, Fields>, doc: Fields, name: string) returns (ref: TableRef)
    requires WellTyped(doc) && TablesFor(tables, doc) && name in tables
    ensures ref.Valid() && NameOf(ref) == name
  {
    ref :| ref.Valid() && NameOf(ref) == name;
  }

  lemma CoveredByName(base: Fields, source: Fields, target: Fields,
                      baseTables: map<string, Fields>, sourceTables: map<string, Fields>,
                      targetTables: map<string, Fields>,
                      names: seq<string>)
    requires WellTyped(base) && WellTyped(source) && WellTyped(target)
    requires AreTheirTables(base, source, target, baseTables, sourceTables, targetTables)
    requires forall name :: name in names <==> name in baseTables.Keys + sourceTables.Keys
    ensures AllCovered(baseTables, sourceTables, targetTables, names) <==> DepsCovered(base, source, target)
  {
    if AllCovered(baseTables, sourceTables, targetTables, names) {
      forall ref: TableRef | ref.Valid() ensures RefCovered(base, source, target, ref) {
        NameIsRef(base, source, target, baseTables, sourceTables, targetTables, ref);
        assert NameOf(ref) in names || (NameOf(ref) !in baseTables && NameOf(ref) !in sourceTables);
      }
    }
    if DepsCovered(base, source, target) {
      forall name | name in names ensures NameCovered(baseTables, sourceTables, targetTables, name) {
        var ref;
        if name in baseTables {
          ref := NameHasRef(baseTables, base, name);
        } else {
          ref := NameHasRef(sourceTables, source, name);
        }
        NameIsRef(base, source, target, baseTables, sourceTables, targetTables, ref);
      }
    }
  }

  /** Whether the flat images of what is left of the two manifests agree. Keys with dots can give a
      manifest several flat images, by the order of its keys. */
  ghost predicate SomeFlatImagesAgree(base: Fields, source: Fields)
    requires WellTyped(base) && WellTyped(source)
  {
    exists before, after ::
      && IsFlat(Table(Stripped(base)), "", before)
      && IsFlat(Table(Stripped(source)), "", after)
      && SameFields(before, after)
  }

  ghost predicate AllFlatImagesAgree(base: Fields, source: Fields)
    requires WellTyped(base) && WellTyped(source)
  {
    forall before, after | IsFlat(Table(Stripped(base)), "", before) && IsFlat(Table(Stripped(source)), "", after) ::
      SameFields(before, after)
  }

  /** The check reports nothing exactly when every dependency change of the source stands on the target
      and the source changed no other value. The second half needs that no two values share a dotted key.
      Without that it is only the flat images that agree. The rest is the same tree when the tables
      without a value agree too, which the check does not look at. */
  method Check(base: Fields, source: Fields, target: Fields) returns (problems: seq<Problem>)
    requires WellTyped(base) && WellTyped(source) && WellTyped(target)
    ensures problems == [] ==> DepsCovered(base, source, target) && SomeFlatImagesAgree(base, source)
    ensures DepsCovered(base, source, target) && AllFlatImagesAgree(base, source) ==> problems == []
    ensures NoCollision(Stripped(base), Stripped(source)) ==>
              && (problems == [] <==> DepsCovered(base, source, target) && RestUnchanged(base, source))
              && (problems == [] && BareTablesAgree(base, source) <==>
                  DepsCovered(base, source, target) && Same(Outside(base), Outside(source)))
  {
    problems := DepsProblems(base, source, target);
    var before := Flatten(Table(Stripped(base)), "");
    var after := Flatten(Table(Stripped(source)), "");
    var more := RestProblems(before, after);
    problems := problems + more;
    if NoCollision(Stripped(base), Stripped(source)) {
      FlatImagesAgreeExactly(Stripped(base), Stripped(source), before, after);
      RestIsStripped(base, source);
      RestTreeExactly(base, source);
    }
  }

  lemma RestIsStripped(base: Fields, source: Fields)
    requires WellTyped(base) && WellTyped(source)
    ensures SameLeaves(Stripped(base), Stripped(source)) <==> RestUnchanged(base, source)
  {
    forall path
      ensures SameAt(LeafAt(Table(Stripped(base)), path), LeafAt(Table(Stripped(source)), path)) <==>
              (!Ignored(path) ==> SameAt(LeafAt(Table(base), path), LeafAt(Table(source), path)))
    {
      StrippedLeaves(base, path);
      StrippedLeaves(source, path);
    }
  }

  datatype Exit = KeepTarget | RealChange | CouldNotCheck

  /** The exit status for three parsed manifests: 0, 1 or 2. Well-typed manifests can always be checked. */
  method ExitStatus(base: Fields, source: Fields, target: Fields) returns (exit: Exit)
    ensures WellTyped(base) && WellTyped(source) && WellTyped(target) ==>
              && !exit.CouldNotCheck?
              && (exit.KeepTarget? ==> DepsCovered(base, source, target) && SomeFlatImagesAgree(base, source))
              && (DepsCovered(base, source, target) && AllFlatImagesAgree(base, source) ==> exit.KeepTarget?)
              && (NoCollision(Stripped(base), Stripped(source)) ==>
                    && (exit.KeepTarget? <==> DepsCovered(base, source, target) && RestUnchanged(base, source))
                    && (exit.KeepTarget? && BareTablesAgree(base, source) <==>
                        DepsCovered(base, source, target) && Same(Outside(base), Outside(source))))
  {
    if !(WellTyped(base) && WellTyped(source) && WellTyped(target)) {
      return CouldNotCheck;
    }
    var problems := Check(base, source, target);
    exit := if problems == [] then KeepTarget else RealChange;
  }

  // ---- Laws ----

  /** Standing in carries along a chain of branches. */
  lemma StandsInTransitive(s: Fields, t: Fields, u: Fields)
    requires StandsIn(s, t) && StandsIn(t, u)
    ensures StandsIn(s, u)
  {
    VersionStandsInTransitive(Get(s, "version"), Get(t, "version"), Get(u, "version"));
  }

  lemma VersionStandsInTransitive(s: Option<Toml>, t: Option<Toml>, u: Option<Toml>)
    requires VersionStandsIn(s, t) && VersionStandsIn(t, u)
    ensures VersionStandsIn(s, u)
  {
    SameText(s, t);
    SameText(t, u);
    if !SameAt(s, t) && !SameAt(t, u) {
      VersionCoversIsOrder(s.value.s, t.value.s, u.value.s);
    }
  }

  lemma SameText(a: Option<Toml>, b: Option<Toml>)
    ensures SameAt(a, b) && ((a.Some? && a.value.Str?) || (b.Some? && b.value.Str?)) ==> a == b
  {
  }

  /** A source that equals the base can always be replaced by any target. */
  lemma UnchangedSourceIsClean(base: Fields, target: Fields)
    requires WellTyped(base) && WellTyped(target)
    ensures DepsCovered(base, base, target) && RestUnchanged(base, base)
  {
  }

  /** A target that equals the source keeps every change of the source, as long as the source adds
      and removes no dependency. */
  lemma SameTargetIsCovered(base: Fields, source: Fields)
    requires WellTyped(base) && WellTyped(source)
    ensures DepsCovered(base, source, source) <==>
            forall ref: TableRef | ref.Valid() :: ExpandedTable(base, ref).Keys == ExpandedTable(source, ref).Keys
  {
    if forall ref: TableRef | ref.Valid() :: ExpandedTable(base, ref).Keys == ExpandedTable(source, ref).Keys {
      forall ref: TableRef | ref.Valid()
        ensures RefCovered(base, source, source, ref)
      {
      }
    }
    if DepsCovered(base, source, source) {
      forall ref: TableRef | ref.Valid() ensures ExpandedTable(base, ref).Keys == ExpandedTable(source, ref).Keys {
        assert RefCovered(base, source, source, ref);
      }
    }
  }
}
