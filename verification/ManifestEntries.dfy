/** What the three-way check decides about one dependency entry, in the manifest's own words. */
module ManifestEntries {
  import opened Basics
  import opened TextOrder
  import opened TomlTree
  import opened ManifestVersion
  import opened ManifestTables
  import opened ManifestFlatten
  import opened ManifestRest
  import opened ManifestCheck

  // ---- Inherited entries ----

  /** What the workspace entry says for a field. */
  function SharedField(shared: Toml, key: string): Option<Toml> {
    if shared.Str? then (if key == "version" then Some(shared) else None)
    else if !shared.Table? || (key == "version" && "path" in shared.fields) then None
    else Get(shared.fields, key)
  }

  predicate HasFeature(entry: Fields, name: string) {
    "features" in entry && entry["features"].Arr? && Str(name) in entry["features"].items
  }

  /** An entry with `workspace = true` takes each field from itself if it has it, else from the workspace's
      entry. */
  lemma InheritedField(shared: Fields, dep: string, spec: Fields, key: string)
    requires dep in shared && IsSpec(shared[dep]) && "workspace" in spec && spec["workspace"] == Bool(true)
    requires key != "workspace" && key != "features"
    ensures ExpandSpec(shared, dep, Table(spec)).Table?
    ensures Get(ExpandSpec(shared, dep, Table(spec)).fields, key) ==
            if key in spec then Some(spec[key]) else SharedField(shared[dep], key)
  {
  }

  lemma FeatureSetIs(entry: Fields, name: string)
    requires "features" in entry ==> IsFeatureList(entry["features"])
    ensures name in FeatureSet(entry) <==> HasFeature(entry, name)
  {
    if HasFeature(entry, name) {
      var items := entry["features"].items;
      var i :| 0 <= i < |items| && items[i] == Str(name);
    }
  }

  lemma FeatureListHas(names: seq<string>, name: string)
    ensures name in names <==> Str(name) in FeatureList(names).items
  {
    if name in names {
      var i :| 0 <= i < |names| && names[i] == name;
      assert FeatureList(names).items[i] == Str(name);
    }
  }

  /** It has the features of both. */
  lemma InheritedFeatures(shared: Fields, dep: string, spec: Fields, name: string)
    requires dep in shared && IsSpec(shared[dep]) && ListsFeatures(shared[dep]) && ListsFeatures(Table(spec))
    requires "workspace" in spec && spec["workspace"] == Bool(true)
    ensures ExpandSpec(shared, dep, Table(spec)).Table?
    ensures HasFeature(ExpandSpec(shared, dep, Table(spec)).fields, name) <==>
            HasFeature(spec, name) || (shared[dep].Table? && HasFeature(shared[dep].fields, name))
  {
    var merged := NormalizeDep(shared[dep]);
    var features := FeatureSet(merged) + FeatureSet(spec);
    FeatureSetIs(merged, name);
    FeatureSetIs(spec, name);
    FeatureListHas(SortedSet(features), name);
    assert name in features <==> name in SortedSet(features);
  }

  /** An entry without `workspace = true`, or without an entry in the workspace, stays. */
  lemma OthersStay(shared: Fields, dep: string, spec: Toml)
    requires !spec.Table? || Get(spec.fields, "workspace") != Some(Bool(true)) || dep !in shared
    ensures ExpandSpec(shared, dep, spec) == spec
  {
  }

  // ---- Which paths hold dependencies ----

  ghost predicate IsKind(kind: string) {
    kind == "dependencies" || kind == "dev-dependencies" || kind == "build-dependencies"
  }

  /** The path of a dependency table. */
  ghost predicate IsHome(path: Path) {
    || (|path| == 1 && IsKind(path[0]))
    || path == ["workspace", "dependencies"]
    || (|path| == 3 && path[0] == "target" && IsKind(path[2]))
  }

  /** The comparison of values leaves out the dependency tables and the manifest's own versions, and nothing
      else. */
  lemma IgnoredExactly(path: Path)
    ensures Ignored(path) <==>
            || (exists home :: IsHome(home) && home <= path)
            || ["package", "version"] <= path || ["workspace", "package", "version"] <= path
  {
    assert forall kind :: kind in DEP_KINDS <==> IsKind(kind);
    if Ignored(path) {
      if path[0] in DEP_KINDS {
        assert IsHome([path[0]]) && [path[0]] <= path;
      } else if |path| >= 3 && path[0] == "target" && path[2] in DEP_KINDS {
        assert IsHome(path[..3]) && path[..3] <= path;
      } else if |path| >= 2 && path[..2] == ["workspace", "dependencies"] {
        assert IsHome(path[..2]) && path[..2] <= path;
      }
    }
    if home :| IsHome(home) && home <= path {
      assert path[..|home|] == home;
      assert home[0] == path[0] && (|home| == 3 ==> home[2] == path[2]);
    }
    if ["package", "version"] <= path {
      assert path[..2] == ["package", "version"];
    }
    if ["workspace", "package", "version"] <= path {
      assert path[..3] == ["workspace", "package", "version"];
    }
  }

  function RefAt(home: Path): TableRef
    requires IsHome(home)
  {
    if |home| == 1 then Top(home[0]) else if |home| == 2 then Workspace else Target(home[1], home[2])
  }

  /** The entry of a dependency. */
  function EntryAt(doc: Fields, home: Path, dep: string): Option<Toml> {
    match TableUnder(Table(doc), home)
    case None => None
    case Some(table) => Get(table, dep)
  }

  lemma TableUnderStep(t: Toml, key: string, rest: Path)
    ensures TableUnder(t, [key] + rest) ==
            if t.Table? && key in t.fields then TableUnder(t.fields[key], rest) else None
  {
    assert ([key] + rest)[1..] == rest;
  }

  lemma HomeIsRef(doc: Fields, home: Path)
    requires WellTyped(doc) && IsHome(home)
    ensures RefAt(home).Valid() && TableUnder(Table(doc), home) == TableOf(doc, RefAt(home))
  {
    if |home| == 1 {
      assert home == [home[0]] + [];
      TableUnderStep(Table(doc), home[0], []);
    } else if |home| == 2 {
      assert home == ["workspace"] + ["dependencies"] && ["dependencies"] == ["dependencies"] + [];
      TableUnderStep(Table(doc), "workspace", ["dependencies"]);
      TableUnderStep(Table(Sub(doc, "workspace")), "dependencies", []);
    } else {
      var tail := [home[1], home[2]];
      assert home == ["target"] + tail && tail == [home[1]] + [home[2]] && [home[2]] == [home[2]] + [];
      TableUnderStep(Table(doc), "target", tail);
      TableUnderStep(Table(Sub(doc, "target")), home[1], [home[2]]);
      TableUnderStep(Table(Sub(Sub(doc, "target"), home[1])), home[2], []);
    }
  }

  /** Behind a clean check, every dependency of the source was in the base and the other way round, in every
      dependency table. */
  lemma CleanCheckKeepsKeys(base: Fields, source: Fields, target: Fields, home: Path, dep: string)
    requires WellTyped(base) && WellTyped(source) && WellTyped(target) && IsHome(home)
    requires DepsCovered(base, source, target)
    ensures EntryAt(base, home, dep).Some? <==> EntryAt(source, home, dep).Some?
  {
    var ref := RefAt(home);
    HomeIsRef(base, home);
    HomeIsRef(source, home);
    assert RefCovered(base, source, target, ref);
    ExpandedTables(base, ref);
    ExpandedTables(source, ref);
    assert dep in ExpandedTable(base, ref) <==> dep in ExpandedTable(source, ref);
  }

  /** Which of the three complaints a version pair draws. */
  lemma VersionComplaint(table: string, dep: string, op: string, a: string, b: string, c: string,
                         op': string, x: string, y: string, z: string)
    requires op in {"", "=", "^", "~", ">="} && op' in {"", "=", "^", "~", ">="}
    requires IsNumber(a) && IsNumber(b) && IsNumber(c) && IsNumber(x) && IsNumber(y) && IsNumber(z)
    ensures VersionProblem(table, dep, VersionText(op, a, b, c), VersionText(op', x, y, z)) ==
            if op != op' then Some(OperatorDiffers(table, dep))
            else if Rank(x, y, z) < Rank(a, b, c) then Some(SourceIsNewer(table, dep))
            else None
  {
    var source, target := VersionText(op, a, b, c), VersionText(op', x, y, z);
    VersionCoversExactly(op, a, b, c, op', x, y, z);
    TextHasShape(op, a, b, c);
    TextHasShape(op', x, y, z);
    ParseOfShape(source, op, a, b, c);
    ParseOfShape(target, op', x, y, z);
    assert ParseVersion(source).value.op == op && ParseVersion(target).value.op == op';
  }

  // ---- One entry of a table changed ----

  lemma PlainEntry(doc: Fields, home: Path, dep: string, v: string)
    requires WellTyped(doc) && IsHome(home) && EntryAt(doc, home, dep) == Some(Str(v))
    ensures var table := ExpandedTable(doc, RefAt(home));
            dep in table && NormalizeDep(table[dep]) == map["version" := Str(v)]
  {
    HomeIsRef(doc, home);
    ExpandedTables(doc, RefAt(home));
  }

  lemma VersionsOnly(v: string, w: string)
    ensures SameFields(map["version" := Str(v)], map["version" := Str(w)]) <==> v == w
    ensures StandsIn(map["version" := Str(v)], map["version" := Str(w)]) <==> v == w || VersionCovers(v, w)
  {
    var a: Fields, b: Fields := map["version" := Str(v)], map["version" := Str(w)];
    SameFieldsAt(a, b);
    assert Get(a, "version") == Some(Str(v)) && Get(b, "version") == Some(Str(w));
    if v != w {
      assert !SameAt(Get(a, "version"), Get(b, "version"));
    }
    assert a - {"version"} == map[] && b - {"version"} == map[];
  }

  /** A version that the source changed is on the target behind a clean check, or the target has a
      same-operator version whose numbers are at least as high. */
  lemma BumpIsNotLost(base: Fields, source: Fields, target: Fields, home: Path, dep: string,
                      before: string, after: string, there: string)
    requires WellTyped(base) && WellTyped(source) && WellTyped(target) && IsHome(home)
    requires EntryAt(base, home, dep) == Some(Str(before)) && EntryAt(source, home, dep) == Some(Str(after))
    requires EntryAt(target, home, dep) == Some(Str(there))
    requires DepsCovered(base, source, target)
    ensures before == after || after == there || VersionCovers(after, there)
  {
    HomeIsRef(base, home);
    assert RefCovered(base, source, target, RefAt(home));
    PlainEntry(base, home, dep, before);
    PlainEntry(source, home, dep, after);
    PlainEntry(target, home, dep, there);
    VersionsOnly(after, before);
    VersionsOnly(after, there);
  }

  /** The manifest with the entry of one dependency put in. */
  function With(doc: Fields, kind: string, dep: string, entry: Toml): Fields {
    doc[kind := Table(Sub(doc, kind)[dep := entry])]
  }

  predicate IsOwn(entry: Toml) {
    entry.Str? || (entry.Table? && "workspace" !in entry.fields)
  }

  lemma WithIsWellTyped(doc: Fields, kind: string, dep: string, entry: Toml)
    requires WellTyped(doc) && IsKind(kind) && IsOwn(entry)
    ensures WellTyped(With(doc, kind, dep, entry))
    ensures SharedDeps(With(doc, kind, dep, entry)) == SharedDeps(doc)
  {
    var after := With(doc, kind, dep, entry);
    assert after - {kind} == doc - {kind};
    assert IsDepTable(SharedDeps(doc), after[kind]);
    assert forall k | k != kind :: (k in doc <==> k in after) && (k in doc ==> after[k] == doc[k]);
  }

  lemma WithTableOf(doc: Fields, kind: string, dep: string, entry: Toml, ref: TableRef)
    requires IsKind(kind)
    ensures TableOf(With(doc, kind, dep, entry), ref) ==
            if ref == Top(kind) then Some(Sub(doc, kind)[dep := entry]) else TableOf(doc, ref)
  {
  }

  lemma ExpandWith(shared: Fields, table: Fields, dep: string, entry: Toml)
    requires IsOwn(entry)
    ensures ExpandTable(shared, table[dep := entry]) == ExpandTable(shared, table)[dep := entry]
  {
  }

  lemma ExpandedTableIs(doc: Fields, ref: TableRef, table: Fields)
    requires WellTyped(doc) && ref.Valid() && TableOf(doc, ref) == Some(table)
    ensures ExpandedTable(doc, ref) == if ref.Workspace? then table else ExpandTable(SharedDeps(doc), table)
  {
    ExpandedTables(doc, ref);
  }

  lemma NoExpandedTable(doc: Fields, ref: TableRef)
    requires WellTyped(doc) && ref.Valid() && TableOf(doc, ref).None?
    ensures ExpandedTable(doc, ref) == map[]
  {
    ExpandedTables(doc, ref);
  }

  lemma WithTables(doc: Fields, kind: string, dep: string, entry: Toml, ref: TableRef)
    requires WellTyped(doc) && IsKind(kind) && IsOwn(entry) && ref.Valid()
    requires WellTyped(With(doc, kind, dep, entry))
    requires SharedDeps(With(doc, kind, dep, entry)) == SharedDeps(doc)
    ensures ExpandedTable(With(doc, kind, dep, entry), ref) ==
            if ref == Top(kind) then ExpandedTable(doc, ref)[dep := entry] else ExpandedTable(doc, ref)
  {
    var after := With(doc, kind, dep, entry);
    WithTableOf(doc, kind, dep, entry, ref);
    if TableOf(after, ref).Some? {
      ExpandedTableIs(after, ref, TableOf(after, ref).value);
    } else {
      NoExpandedTable(after, ref);
    }
    if TableOf(doc, ref).Some? {
      ExpandedTableIs(doc, ref, TableOf(doc, ref).value);
    } else {
      NoExpandedTable(doc, ref);
    }
    if ref == Top(kind) {
      ExpandWith(SharedDeps(doc), Sub(doc, kind), dep, entry);
    }
  }

  /** Three manifests that differ in one entry only: the check is about that entry, whatever else they hold. */
  lemma OneEntryDecides(doc: Fields, kind: string, dep: string, before: Toml, after: Toml, there: Toml)
    requires WellTyped(doc) && IsKind(kind) && IsOwn(before) && IsOwn(after) && IsOwn(there)
    ensures WellTyped(With(doc, kind, dep, before)) && WellTyped(With(doc, kind, dep, after)) &&
            WellTyped(With(doc, kind, dep, there))
    ensures DepsCovered(With(doc, kind, dep, before), With(doc, kind, dep, after), With(doc, kind, dep, there)) <==>
            || SameFields(NormalizeDep(after), NormalizeDep(before))
            || StandsIn(NormalizeDep(after), NormalizeDep(there))
  {
    var base, source, target := With(doc, kind, dep, before), With(doc, kind, dep, after), With(doc, kind, dep, there);
    var ok := || SameFields(NormalizeDep(after), NormalizeDep(before))
              || StandsIn(NormalizeDep(after), NormalizeDep(there));
    WithIsWellTyped(doc, kind, dep, before);
    WithIsWellTyped(doc, kind, dep, after);
    WithIsWellTyped(doc, kind, dep, there);
    forall ref: TableRef | ref.Valid()
      ensures RefCovered(base, source, target, ref) <==> (ref == Top(kind) ==> ok)
    {
      WithTables(doc, kind, dep, before, ref);
      WithTables(doc, kind, dep, after, ref);
      WithTables(doc, kind, dep, there, ref);
      if ref == Top(kind) {
        OneEntryOfTable(ExpandedTable(doc, ref), dep, before, after, there);
      }
    }
    if DepsCovered(base, source, target) {
      assert RefCovered(base, source, target, Top(kind));
    }
  }

  lemma OneEntryOfTable(table: Fields, dep: string, before: Toml, after: Toml, there: Toml)
    requires Specs(table) && IsSpec(before) && IsSpec(after) && IsSpec(there)
    ensures TableCovered(table[dep := before], table[dep := after], table[dep := there]) <==>
            || SameFields(NormalizeDep(after), NormalizeDep(before))
            || StandsIn(NormalizeDep(after), NormalizeDep(there))
  {
    var base, source, target := table[dep := before], table[dep := after], table[dep := there];
    assert base.Keys == source.Keys == target.Keys;
    assert base[dep] == before && source[dep] == after && target[dep] == there;
    forall other | other in source && other != dep
      ensures SameFields(NormalizeDep(source[other]), NormalizeDep(base[other]))
    {
      assert source[other] == table[other] == base[other];
    }
  }

  /** A version bump of the source is accepted exactly when the target has that version or covers it. */
  lemma BumpDecides(doc: Fields, kind: string, dep: string, before: string, after: string, there: string)
    requires WellTyped(doc) && IsKind(kind) && before != after
    ensures var base, source, target :=
              With(doc, kind, dep, Str(before)), With(doc, kind, dep, Str(after)), With(doc, kind, dep, Str(there));
            WellTyped(base) && WellTyped(source) && WellTyped(target) &&
            (DepsCovered(base, source, target) <==> after == there || VersionCovers(after, there))
  {
    OneEntryDecides(doc, kind, dep, Str(before), Str(after), Str(there));
    VersionsOnly(after, before);
    VersionsOnly(after, there);
  }

  function PathEntry(path: string, version: string): Toml {
    Table(map["path" := Str(path), "version" := Str(version)])
  }

  /** The version of a path dependency does not matter: a change of it passes for every target entry. */
  lemma PathVersionIsIgnored(doc: Fields, kind: string, dep: string, path: string, before: string, after: string,
                             there: Toml)
    requires WellTyped(doc) && IsKind(kind) && IsOwn(there)
    ensures var base, source, target :=
              With(doc, kind, dep, PathEntry(path, before)), With(doc, kind, dep, PathEntry(path, after)),
              With(doc, kind, dep, there);
            WellTyped(base) && WellTyped(source) && WellTyped(target) && DepsCovered(base, source, target)
  {
    assert PathEntry(path, before).fields - {"version"} == PathEntry(path, after).fields - {"version"};
    OneEntryDecides(doc, kind, dep, PathEntry(path, before), PathEntry(path, after), there);
  }

  /** A bare version and a table that holds only the version are one entry. */
  lemma SpellingDoesNotMatter(doc: Fields, kind: string, dep: string, v: string, there: Toml)
    requires WellTyped(doc) && IsKind(kind) && IsOwn(there)
    ensures var base, source, target :=
              With(doc, kind, dep, Str(v)), With(doc, kind, dep, Table(map["version" := Str(v)])),
              With(doc, kind, dep, there);
            WellTyped(base) && WellTyped(source) && WellTyped(target) && DepsCovered(base, source, target)
  {
    OneEntryDecides(doc, kind, dep, Str(v), Table(map["version" := Str(v)]), there);
  }

  // ---- The names of the tables ----

  lemma JoinedStep(prefix: string, key: string, rest: Path)
    ensures Joined(prefix, [key] + rest) == Joined(Extend(prefix, key), rest)
  {
    assert ([key] + rest)[1..] == rest;
  }

  lemma TargetName(cfg: string, kind: string)
    ensures Joined("", ["target"] + ([cfg] + ([kind] + []))) == NameOf(Target(cfg, kind))
  {
    JoinedStep("", "target", [cfg] + ([kind] + []));
    JoinedStep("target", cfg, [kind] + []);
    JoinedStep(Extend("target", cfg), kind, []);
    assert "target" + "." + cfg + "." + kind == "target." + (cfg + "." + kind);
  }

  /** A dependency table is reported under its dotted path. */
  lemma TableNames(home: Path)
    requires IsHome(home)
    ensures NameOf(RefAt(home)) == Joined("", home)
  {
    if |home| == 1 {
      assert home == [home[0]] + [];
      JoinedStep("", home[0], []);
    } else if |home| == 2 {
      assert home == ["workspace"] + (["dependencies"] + []);
      JoinedStep("", "workspace", ["dependencies"] + []);
      JoinedStep("workspace", "dependencies", []);
    } else {
      assert home == ["target"] + ([home[1]] + ([home[2]] + []));
      TargetName(home[1], home[2]);
    }
  }
}
