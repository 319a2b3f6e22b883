/** The dependency tables of a Cargo manifest: their dotted names, and the expansion of
    `workspace = true` entries. */
module ManifestTables {
  import opened Basics
  import opened TextOrder
  import opened TomlTree

  const DEP_KINDS: seq<string> := ["dependencies", "dev-dependencies", "build-dependencies"]
  const WORKSPACE_TABLE: string := "workspace.dependencies"
  const TARGET_PREFIX: string := "target."

  /** Which dependency table: a top-level one, the workspace's, or one of a target. */
  datatype TableRef = Top(kind: string) | Workspace | Target(cfg: string, kind: string) {
    predicate Valid() {
      Workspace? || kind in DEP_KINDS
    }
  }

  function Qualified(cfg: string, kind: string): string {
    cfg + "." + kind
  }

  function NameOf(ref: TableRef): string {
    match ref
    case Top(kind) => kind
    case Workspace => WORKSPACE_TABLE
    case Target(cfg, kind) => TARGET_PREFIX + Qualified(cfg, kind)
  }

  /** `doc.get(key, {})` */
  function Sub(doc: Fields, key: string): Fields {
    if key in doc && doc[key].Table? then doc[key].fields else map[]
  }

  function TableAt(home: Fields, key: string): Option<Fields> {
    if key in home && home[key].Table? then Some(home[key].fields) else None
  }

  function TableOf(doc: Fields, ref: TableRef): Option<Fields> {
    match ref
    case Top(kind) => TableAt(doc, kind)
    case Workspace => TableAt(Sub(doc, "workspace"), "dependencies")
    case Target(cfg, kind) => TableAt(Sub(Sub(doc, "target"), cfg), kind)
  }

  // ---- Manifests whose sections have the types that Cargo gives them ----

  predicate IsFeatureList(t: Toml) {
    t.Arr? && forall i | 0 <= i < |t.items| :: t.items[i].Str?
  }

  predicate IsSpec(t: Toml) {
    t.Str? || t.Table?
  }

  predicate ListsFeatures(t: Toml) {
    t.Table? && "features" in t.fields ==> IsFeatureList(t.fields["features"])
  }

  /** An entry that inherits has an entry to inherit, and both list their features. Other entries may
      hold anything under `features`. */
  predicate CanInherit(shared: Fields, dep: string, spec: Toml) {
    Inherits(shared, dep, spec) ==> IsSpec(shared[dep]) && ListsFeatures(shared[dep]) && ListsFeatures(spec)
  }

  predicate IsDepTable(shared: Fields, t: Toml) {
    t.Table? && forall dep | dep in t.fields :: IsSpec(t.fields[dep]) && CanInherit(shared, dep, t.fields[dep])
  }

  predicate HasDepTables(shared: Fields, home: Fields) {
    forall kind | kind in DEP_KINDS && kind in home :: IsDepTable(shared, home[kind])
  }

  predicate Specs(table: Fields) {
    forall dep | dep in table :: IsSpec(table[dep])
  }

  predicate WellTyped(doc: Fields) {
    && HasDepTables(SharedDeps(doc), doc)
    && ("package" in doc ==> doc["package"].Table?)
    && ("workspace" in doc ==>
          && doc["workspace"].Table?
          && ("dependencies" in doc["workspace"].fields ==>
                doc["workspace"].fields["dependencies"].Table? && Specs(doc["workspace"].fields["dependencies"].fields))
          && ("package" in doc["workspace"].fields ==> doc["workspace"].fields["package"].Table?))
    && ("target" in doc ==>
          && doc["target"].Table?
          && forall cfg | cfg in doc["target"].fields ::
               doc["target"].fields[cfg].Table? && HasDepTables(SharedDeps(doc), doc["target"].fields[cfg].fields))
  }

  // ---- Table names ----

  /** Split at the last dot, as `rsplit(".", 1)` does. */
  function LastDot(s: string): (i: nat)
    requires '.' in s
    ensures i < |s| && s[i] == '.'
    ensures forall k | i < k < |s| :: s[k] != '.'
  {
    if s[|s| - 1] == '.' then |s| - 1 else LastDot(s[..|s| - 1])
  }

  lemma LastDotOf(cfg: string, kind: string)
    requires '.' !in kind
    ensures '.' in Qualified(cfg, kind)
    ensures var s := Qualified(cfg, kind);
            LastDot(s) == |cfg| && s[..|cfg|] == cfg && s[|cfg| + 1..] == kind
  {
    var s := Qualified(cfg, kind);
    assert s[|cfg|] == '.';
    assert s[..|cfg|] == cfg && s[|cfg| + 1..] == kind;
    assert forall i | |cfg| < i < |s| :: s[i] == kind[i - |cfg| - 1];
  }

  lemma KindsHaveNoDot(kind: string)
    requires kind in DEP_KINDS
    ensures '.' !in kind
    ensures !(TARGET_PREFIX <= kind)
    ensures kind != WORKSPACE_TABLE && kind != "target" && kind != "workspace" && kind != "package"
  {
    assert WORKSPACE_TABLE[9] == '.';
    assert TARGET_PREFIX[0] == 't' && kind[0] != 't';
  }

  /** Dropping the prefix and splitting at the last dot gives the `cfg` and the kind back. */
  lemma TargetNameShape(cfg: string, kind: string)
    requires kind in DEP_KINDS
    ensures var name := NameOf(Target(cfg, kind));
            TARGET_PREFIX <= name && name[0] == 't' && name[|TARGET_PREFIX|..] == Qualified(cfg, kind)
    ensures '.' in Qualified(cfg, kind)
    ensures var s := Qualified(cfg, kind);
            LastDot(s) == |cfg| && s[..|cfg|] == cfg && s[|cfg| + 1..] == kind
  {
    KindsHaveNoDot(kind);
    LastDotOf(cfg, kind);
    var name := NameOf(Target(cfg, kind));
    assert name[|TARGET_PREFIX|..] == Qualified(cfg, kind);
  }

  /** The naming is one to one, also for a target `cfg` that holds dots. */
  lemma NamesAreDistinct(a: TableRef, b: TableRef)
    requires a.Valid() && b.Valid() && NameOf(a) == NameOf(b)
    ensures a == b
  {
    if a.Target? { TargetNameShape(a.cfg, a.kind); } else if a.Top? { KindsHaveNoDot(a.kind); }
    if b.Target? { TargetNameShape(b.cfg, b.kind); } else if b.Top? { KindsHaveNoDot(b.kind); }
    assert WORKSPACE_TABLE[0] == 'w';
  }

  function Lookup(tables: map<string, Fields>, name: string): Option<Fields> {
    if name in tables then Some(tables[name]) else None
  }

  /** `tables` holds every dependency table of `doc` under its name, and nothing else. */
  ghost predicate AreTablesOf(tables: map<string, Fields>, doc: Fields) {
    && (forall ref: TableRef | ref.Valid() :: Lookup(tables, NameOf(ref)) == TableOf(doc, ref))
    && (forall name | name in tables :: exists ref: TableRef :: ref.Valid() && NameOf(ref) == name)
  }

  ghost predicate HoldsExactly(tables: map<string, Fields>, doc: Fields, done: iset<TableRef>) {
    && (forall ref: TableRef | ref.Valid() ::
          Lookup(tables, NameOf(ref)) == if ref in done then TableOf(doc, ref) else None)
    && (forall name | name in tables :: exists ref: TableRef :: ref.Valid() && NameOf(ref) == name)
  }

  lemma AddTable(tables: map<string, Fields>, doc: Fields, done: iset<TableRef>, ref: TableRef)
    requires HoldsExactly(tables, doc, done)
    requires ref.Valid()
    ensures TableOf(doc, ref).Some? ==>
              HoldsExactly(tables[NameOf(ref) := TableOf(doc, ref).value], doc, done + iset{ref})
    ensures TableOf(doc, ref).None? ==> HoldsExactly(tables, doc, done + iset{ref})
  {
    if TableOf(doc, ref).Some? {
      var next := tables[NameOf(ref) := TableOf(doc, ref).value];
      forall other: TableRef | other.Valid()
        ensures Lookup(next, NameOf(other)) == if other in done + iset{ref} then TableOf(doc, other) else None
      {
        if NameOf(other) == NameOf(ref) {
          NamesAreDistinct(other, ref);
        }
      }
    }
  }

  /** The tables of one target. */
  method AddTargetTables(tables: map<string, Fields>, doc: Fields, cfg: string, ghost done: iset<TableRef>)
    returns (longer: map<string, Fields>)
    requires WellTyped(doc) && cfg in Sub(doc, "target") && HoldsExactly(tables, doc, done)
    ensures HoldsExactly(longer, doc, done + RefsOf(cfg))
  {
    longer := tables;
    ghost var more := done;
    var body := Sub(doc, "target")[cfg].fields;
    for i := 0 to |DEP_KINDS|
      invariant HoldsExactly(longer, doc, more)
      invariant more == done + iset k | 0 <= k < i :: Target(cfg, DEP_KINDS[k])
    {
      AddTable(longer, doc, more, Target(cfg, DEP_KINDS[i]));
      if DEP_KINDS[i] in body {
        longer := longer[TARGET_PREFIX + Qualified(cfg, DEP_KINDS[i]) := body[DEP_KINDS[i]].fields];
      }
      more := more + iset{Target(cfg, DEP_KINDS[i])};
    }
    assert more == done + RefsOf(cfg);
  }

  ghost function RefsOf(cfg: string): iset<TableRef> {
    iset k | 0 <= k < |DEP_KINDS| :: Target(cfg, DEP_KINDS[k])
  }

  method AddTopTables(doc: Fields) returns (tables: map<string, Fields>)
    requires WellTyped(doc)
    ensures HoldsExactly(tables, doc, iset ref: TableRef | ref.Valid() && !ref.Target?)
  {
    tables := map[];
    ghost var done: iset<TableRef> := iset{};
    for i := 0 to |DEP_KINDS|
      invariant HoldsExactly(tables, doc, done)
      invariant done == iset k | 0 <= k < i :: Top(DEP_KINDS[k])
    {
      AddTable(tables, doc, done, Top(DEP_KINDS[i]));
      if DEP_KINDS[i] in doc {
        tables := tables[DEP_KINDS[i] := doc[DEP_KINDS[i]].fields];
      }
      done := done + iset{Top(DEP_KINDS[i])};
    }
    AddTable(tables, doc, done, Workspace);
    if "dependencies" in Sub(doc, "workspace") {
      tables := tables[WORKSPACE_TABLE := Sub(doc, "workspace")["dependencies"].fields];
    }
    done := done + iset{Workspace};
    assert done == iset ref: TableRef | ref.Valid() && !ref.Target?;
  }

  lemma AllTablesHeld(tables: map<string, Fields>, doc: Fields, done: iset<TableRef>)
    requires WellTyped(doc) && HoldsExactly(tables, doc, done)
    requires forall ref: TableRef | ref.Valid() && !ref.Target? :: ref in done
    requires forall cfg, ref | cfg in Sub(doc, "target") && ref in RefsOf(cfg) :: ref in done
    ensures AreTablesOf(tables, doc)
  {
    forall ref: TableRef | ref.Valid() ensures Lookup(tables, NameOf(ref)) == TableOf(doc, ref) {
      assert Lookup(tables, NameOf(ref)) == if ref in done then TableOf(doc, ref) else None;
      if ref.Target? && ref.cfg in Sub(doc, "target") {
        assert ref in RefsOf(ref.cfg);
      }
    }
  }

  /** Every dependency table of a manifest, keyed by its dotted name. */
  method DepTables(doc: Fields) returns (tables: map<string, Fields>)
    requires WellTyped(doc)
    ensures AreTablesOf(tables, doc)
  {
    tables := AddTopTables(doc);
    ghost var done := iset ref: TableRef | ref.Valid() && !ref.Target?;
    var targets := Sub(doc, "target");
    var todo := targets.Keys;
    while todo != {}
      invariant todo <= targets.Keys
      invariant HoldsExactly(tables, doc, done)
      invariant forall ref: TableRef | ref.Valid() && !ref.Target? :: ref in done
      invariant forall cfg, ref | cfg in targets.Keys - todo && ref in RefsOf(cfg) :: ref in done
    {
      var cfg :| cfg in todo;
      tables := AddTargetTables(tables, doc, cfg, done);
      done := done + RefsOf(cfg);
      todo := todo - {cfg};
    }
    AllTablesHeld(tables, doc, done);
  }

  // ---- Inherited dependencies ----

  /** A dependency as a table. A path dependency loses its `version`. */
  function NormalizeDep(spec: Toml): Fields
    requires IsSpec(spec)
  {
    var dep := if spec.Str? then map["version" := spec] else spec.fields;
    if "path" in dep then dep - {"version"} else dep
  }

  ghost function FeatureSet(fields: Fields): set<string> {
    if "features" in fields && IsFeatureList(fields["features"])
    then set i | 0 <= i < |fields["features"].items| :: fields["features"].items[i].s
    else {}
  }

  function FeatureList(names: seq<string>): Toml {
    Arr(seq(|names|, i requires 0 <= i < |names| => Str(names[i])))
  }

  predicate Inherits(shared: Fields, dep: string, spec: Toml) {
    spec.Table? && "workspace" in spec.fields && spec.fields["workspace"] == Bool(true) && dep in shared
  }

  /** The entry that `spec` stands for: the workspace entry, the local fields over it, and the
      features of both. */
  ghost function Inherited(sharedSpec: Toml, spec: Fields): Fields
    requires IsSpec(sharedSpec)
  {
    var merged := NormalizeDep(sharedSpec);
    var features := SortedSet(FeatureSet(merged) + FeatureSet(spec));
    var updated := merged + (spec - {"workspace", "features"});
    if features == [] then updated else updated["features" := FeatureList(features)]
  }

  ghost function ExpandSpec(shared: Fields, dep: string, spec: Toml): Toml {
    if Inherits(shared, dep, spec) && IsSpec(shared[dep]) then Table(Inherited(shared[dep], spec.fields)) else spec
  }

  ghost function ExpandTable(shared: Fields, table: Fields): Fields {
    map dep | dep in table :: ExpandSpec(shared, dep, table[dep])
  }

  function SharedDeps(doc: Fields): Fields {
    Sub(Sub(doc, "workspace"), "dependencies")
  }

  /** The table `kind` of the manifest itself, or of the target `cfg`. */
  function RefIn(cfg: Option<string>, kind: string): TableRef {
    if cfg.Some? then Target(cfg.value, kind) else Top(kind)
  }

  /** The tables of `home` expanded, except those whose name is still pending. */
  ghost function ExpandHome(shared: Fields, home: Fields, cfg: Option<string>, pending: set<string>): Fields {
    map k | k in home ::
      if k in DEP_KINDS && NameOf(RefIn(cfg, k)) !in pending && home[k].Table?
      then Table(ExpandTable(shared, home[k].fields))
      else home[k]
  }

  ghost function ExpandTargets(shared: Fields, targets: Fields, pending: set<string>): Fields {
    map cfg | cfg in targets ::
      if targets[cfg].Table? then Table(ExpandHome(shared, targets[cfg].fields, Some(cfg), pending))
      else targets[cfg]
  }

  ghost function ExpandExcept(doc: Fields, pending: set<string>): Fields {
    var top := ExpandHome(SharedDeps(doc), doc, None, pending);
    if "target" in doc && doc["target"].Table?
    then top["target" := Table(ExpandTargets(SharedDeps(doc), doc["target"].fields, pending))]
    else top
  }

  /** The manifest with every inherited dependency replaced. */
  ghost function Expanded(doc: Fields): Fields {
    ExpandExcept(doc, {})
  }

  /** Write a table back under its dotted name. */
  function SetTable(doc: Fields, name: string, table: Fields): Fields
    requires TARGET_PREFIX <= name ==> '.' in name[|TARGET_PREFIX|..]
  {
    if TARGET_PREFIX <= name then
      var rest := name[|TARGET_PREFIX|..];
      var cfg, kind := rest[..LastDot(rest)], rest[LastDot(rest) + 1..];
      var targets := Sub(doc, "target");
      doc["target" := Table(targets[cfg := Table(Sub(targets, cfg)[kind := Table(table)])])]
    else doc[name := Table(table)]
  }

  /** The same, addressed by reference instead of by name. */
  ghost function PutTable(doc: Fields, ref: TableRef, table: Fields): Fields
    requires !ref.Workspace?
  {
    if ref.Top? then doc[ref.kind := Table(table)]
    else
      var targets := Sub(doc, "target");
      doc["target" := Table(targets[ref.cfg := Table(Sub(targets, ref.cfg)[ref.kind := Table(table)])])]
  }

  /** `SetTable` undoes the naming: it writes the table that the name came from. */
  lemma SetTableInverts(doc: Fields, ref: TableRef, table: Fields)
    requires ref.Valid() && !ref.Workspace?
    ensures TARGET_PREFIX <= NameOf(ref) ==> '.' in NameOf(ref)[|TARGET_PREFIX|..]
    ensures SetTable(doc, NameOf(ref), table) == PutTable(doc, ref, table)
  {
    if ref.Target? {
      SetTargetInverts(doc, ref.cfg, ref.kind, table, NameOf(ref));
    } else {
      KindsHaveNoDot(ref.kind);
    }
  }

  lemma SetTargetInverts(doc: Fields, cfg: string, kind: string, table: Fields, name: string)
    requires kind in DEP_KINDS && name == NameOf(Target(cfg, kind))
    ensures TARGET_PREFIX <= name && '.' in name[|TARGET_PREFIX|..]
    ensures SetTable(doc, name, table) == PutTable(doc, Target(cfg, kind), table)
  {
    TargetNameShape(cfg, kind);
    var rest := name[|TARGET_PREFIX|..];
    assert rest == Qualified(cfg, kind);
    assert rest[..LastDot(rest)] == cfg && rest[LastDot(rest) + 1..] == kind;
  }

  /** Writing one table changes that table and no other. */
  lemma PutTableAt(doc: Fields, ref: TableRef, table: Fields, other: TableRef)
    requires ref.Valid() && other.Valid() && !ref.Workspace?
    ensures TableOf(PutTable(doc, ref, table), other) == if other == ref then Some(table) else TableOf(doc, other)
  {
    KindsHaveNoDot(ref.kind);
    if other.Top? { KindsHaveNoDot(other.kind); }
  }

  method InheritEntry(sharedSpec: Toml, spec: Fields) returns (entry: Fields)
    requires IsSpec(sharedSpec) && ListsFeatures(sharedSpec) && ListsFeatures(Table(spec))
    ensures entry == Inherited(sharedSpec, spec)
  {
    entry := NormalizeDep(sharedSpec);
    var names := FeatureNames(entry);
    var local := FeatureNames(spec);
    var features := SortStrings(names + local);
    entry := entry + (spec - {"workspace", "features"});
    if features != [] {
      entry := entry["features" := FeatureList(features)];
    }
  }

  method FeatureNames(fields: Fields) returns (names: set<string>)
    requires "features" in fields ==> IsFeatureList(fields["features"])
    ensures names == FeatureSet(fields)
  {
    names := {};
    if "features" in fields {
      var items := fields["features"].items;
      for i := 0 to |items|
        invariant names == set k | 0 <= k < i :: items[k].s
      {
        names := names + {items[i].s};
      }
    }
  }

  method ExpandEntries(shared: Fields, table: Fields) returns (expanded: Fields)
    requires Specs(shared) && IsDepTable(shared, Table(table))
    ensures expanded == ExpandTable(shared, table)
  {
    expanded := map[];
    var todo := table.Keys;
    while todo != {}
      invariant todo <= table.Keys
      invariant expanded == map dep | dep in table.Keys - todo :: ExpandSpec(shared, dep, table[dep])
    {
      var dep :| dep in todo;
      var spec := table[dep];
      if Inherits(shared, dep, spec) {
        var entry := InheritEntry(shared[dep], spec.fields);
        spec := Table(entry);
      }
      expanded := expanded[dep := spec];
      todo := todo - {dep};
    }
  }

  // ---- The expansion of a whole manifest ----

  method ExpandInherited(doc: Fields) returns (expanded: Fields)
    requires WellTyped(doc)
    ensures expanded == Expanded(doc)
  {
    var shared := SharedDeps(doc);
    var tables := DepTables(doc);
    expanded := doc;
    var todo := tables.Keys;
    NothingExpanded(doc, tables);
    while todo != {}
      invariant todo <= tables.Keys
      invariant expanded == ExpandExcept(doc, todo)
    {
      var name :| name in todo;
      ghost var ref: TableRef :| ref.Valid() && NameOf(ref) == name;
      assert Lookup(tables, NameOf(ref)) == TableOf(doc, ref);
      if name == WORKSPACE_TABLE {
        NamesAreDistinct(ref, Workspace);
        SkipWorkspace(doc, todo);
      } else {
        DepSpecs(doc, ref);
        var table := ExpandEntries(shared, tables[name]);
        ExpandStep(doc, todo, ref);
        SetTableInverts(expanded, ref, table);
        expanded := SetTable(expanded, name, table);
      }
      todo := todo - {name};
    }
  }

  lemma DepSpecs(doc: Fields, ref: TableRef)
    requires WellTyped(doc) && ref.Valid() && TableOf(doc, ref).Some?
    ensures Specs(TableOf(doc, ref).value) && Specs(SharedDeps(doc))
    ensures !ref.Workspace? ==> IsDepTable(SharedDeps(doc), Table(TableOf(doc, ref).value))
  {
  }

  lemma NothingExpanded(doc: Fields, tables: map<string, Fields>)
    requires WellTyped(doc) && AreTablesOf(tables, doc)
    ensures ExpandExcept(doc, tables.Keys) == doc
  {
    forall ref: TableRef | ref.Valid() && TableOf(doc, ref).Some? ensures NameOf(ref) in tables {
      assert Lookup(tables, NameOf(ref)) == TableOf(doc, ref);
    }
    forall k | k in DEP_KINDS && k in doc ensures NameOf(RefIn(None, k)) in tables {
      assert TableOf(doc, Top(k)).Some?;
    }
    assert ExpandHome(SharedDeps(doc), doc, None, tables.Keys) == doc;
    if "target" in doc {
      var targets := doc["target"].fields;
      forall cfg | cfg in targets
        ensures ExpandHome(SharedDeps(doc), targets[cfg].fields, Some(cfg), tables.Keys) == targets[cfg].fields
      {
        forall k | k in DEP_KINDS && k in targets[cfg].fields ensures NameOf(RefIn(Some(cfg), k)) in tables {
          assert TableOf(doc, Target(cfg, k)).Some?;
        }
      }
      assert ExpandTargets(SharedDeps(doc), targets, tables.Keys) == targets;
    }
  }

  ghost predicate IsTableIn(cfg: Option<string>, home: Fields, ref: TableRef) {
    !ref.Workspace? && RefIn(cfg, ref.kind) == ref && ref.kind in home && home[ref.kind].Table?
  }

  /** Taking one name off the pending ones expands its table in its home, and changes no other. */
  lemma ExpandHomeStep(shared: Fields, home: Fields, cfg: Option<string>, pending: set<string>, ref: TableRef)
    requires ref.Valid() && NameOf(ref) in pending
    ensures ExpandHome(shared, home, cfg, pending - {NameOf(ref)}) ==
            if IsTableIn(cfg, home, ref)
            then ExpandHome(shared, home, cfg, pending)[ref.kind := Table(ExpandTable(shared, home[ref.kind].fields))]
            else ExpandHome(shared, home, cfg, pending)
  {
    forall k | k in DEP_KINDS && NameOf(RefIn(cfg, k)) == NameOf(ref) ensures RefIn(cfg, k) == ref {
      NamesAreDistinct(RefIn(cfg, k), ref);
    }
  }

  lemma ExpandTargetsStep(shared: Fields, targets: Fields, pending: set<string>, ref: TableRef)
    requires ref.Valid() && NameOf(ref) in pending
    ensures !ref.Target? ==>
              ExpandTargets(shared, targets, pending - {NameOf(ref)}) == ExpandTargets(shared, targets, pending)
    ensures ref.Target? && ref.cfg in targets && targets[ref.cfg].Table? &&
            IsTableIn(Some(ref.cfg), targets[ref.cfg].fields, ref) ==>
              var body := targets[ref.cfg].fields;
              ExpandTargets(shared, targets, pending - {NameOf(ref)}) ==
              ExpandTargets(shared, targets, pending)[ref.cfg :=
                Table(ExpandHome(shared, body, Some(ref.cfg), pending)
                        [ref.kind := Table(ExpandTable(shared, body[ref.kind].fields))])]
  {
    forall cfg | cfg in targets && targets[cfg].Table?
      ensures ExpandHome(shared, targets[cfg].fields, Some(cfg), pending - {NameOf(ref)}) ==
              if IsTableIn(Some(cfg), targets[cfg].fields, ref)
              then ExpandHome(shared, targets[cfg].fields, Some(cfg), pending)
                     [ref.kind := Table(ExpandTable(shared, targets[cfg].fields[ref.kind].fields))]
              else ExpandHome(shared, targets[cfg].fields, Some(cfg), pending)
    {
      ExpandHomeStep(shared, targets[cfg].fields, Some(cfg), pending, ref);
    }
  }

  lemma SkipWorkspace(doc: Fields, pending: set<string>)
    requires WORKSPACE_TABLE in pending
    ensures ExpandExcept(doc, pending - {WORKSPACE_TABLE}) == ExpandExcept(doc, pending)
  {
    ExpandHomeStep(SharedDeps(doc), doc, None, pending, Workspace);
    if "target" in doc && doc["target"].Table? {
      ExpandTargetsStep(SharedDeps(doc), doc["target"].fields, pending, Workspace);
    }
  }

  /** Writing one expanded table takes its name off the pending ones. */
  lemma ExpandStep(doc: Fields, pending: set<string>, ref: TableRef)
    requires WellTyped(doc) && ref.Valid() && !ref.Workspace? && TableOf(doc, ref).Some? && NameOf(ref) in pending
    ensures PutTable(ExpandExcept(doc, pending), ref, ExpandTable(SharedDeps(doc), TableOf(doc, ref).value)) ==
            ExpandExcept(doc, pending - {NameOf(ref)})
  {
    KindsHaveNoDot(ref.kind);
    ExpandHomeStep(SharedDeps(doc), doc, None, pending, ref);
    if ref.Target? {
      ExpandTargetStep(doc, pending, ref);
    } else if "target" in doc {
      ExpandTargetsStep(SharedDeps(doc), doc["target"].fields, pending, ref);
    }
  }

  lemma PutTarget(top: Fields, targets: Fields, ref: TableRef, table: Fields)
    requires ref.Target?
    ensures PutTable(top["target" := Table(targets)], ref, table) ==
            top["target" := Table(targets[ref.cfg := Table(Sub(targets, ref.cfg)[ref.kind := Table(table)])])]
  {
  }

  lemma ExpandTargetStep(doc: Fields, pending: set<string>, ref: TableRef)
    requires WellTyped(doc) && ref.Valid() && ref.Target? && TableOf(doc, ref).Some? && NameOf(ref) in pending
    requires ExpandHome(SharedDeps(doc), doc, None, pending - {NameOf(ref)}) ==
             ExpandHome(SharedDeps(doc), doc, None, pending)
    ensures PutTable(ExpandExcept(doc, pending), ref, ExpandTable(SharedDeps(doc), TableOf(doc, ref).value)) ==
            ExpandExcept(doc, pending - {NameOf(ref)})
  {
    var shared, targets := SharedDeps(doc), doc["target"].fields;
    ExpandTargetsStep(shared, targets, pending, ref);
    PutTarget(ExpandHome(shared, doc, None, pending), ExpandTargets(shared, targets, pending), ref,
              ExpandTable(shared, TableOf(doc, ref).value));
  }

  // ---- What the expansion keeps and changes ----

  lemma ExpandedSections(doc: Fields)
    ensures Sub(Expanded(doc), "workspace") == Sub(doc, "workspace")
    ensures Sub(Expanded(doc), "target") == ExpandTargets(SharedDeps(doc), Sub(doc, "target"), {})
    ensures forall kind | kind in DEP_KINDS ::
              TableAt(Expanded(doc), kind) == TableAt(ExpandHome(SharedDeps(doc), doc, None, {}), kind)
  {
    forall k | k in DEP_KINDS ensures k != "workspace" && k != "target" {
      KindsHaveNoDot(k);
    }
  }

  lemma ExpandedHomeTables(shared: Fields, home: Fields, cfg: Option<string>, kind: string)
    requires kind in DEP_KINDS
    ensures TableAt(ExpandHome(shared, home, cfg, {}), kind) ==
            match TableAt(home, kind) case Some(table) => Some(ExpandTable(shared, table)) case None => None
  {
  }

  /** The tables keep their names, the workspace table stays as it is, and each other table keeps
      its dependency keys, with inherited entries replaced. */
  lemma ExpandedTables(doc: Fields, ref: TableRef)
    requires WellTyped(doc) && ref.Valid()
    ensures TableOf(doc, ref).None? ==> TableOf(Expanded(doc), ref).None?
    ensures TableOf(doc, ref).Some? ==>
              TableOf(Expanded(doc), ref) ==
              Some(if ref.Workspace? then TableOf(doc, ref).value
                   else ExpandTable(SharedDeps(doc), TableOf(doc, ref).value))
    ensures SharedDeps(Expanded(doc)) == SharedDeps(doc)
  {
    ExpandedSections(doc);
    match ref
    case Workspace =>
    case Top(kind) => ExpandedHomeTables(SharedDeps(doc), doc, None, kind);
    case Target(cfg, kind) => ExpandedHomeTables(SharedDeps(doc), Sub(Sub(doc, "target"), cfg), Some(cfg), kind);
  }

  lemma ExpandedWellTyped(doc: Fields)
    requires WellTyped(doc)
    ensures WellTyped(Expanded(doc))
  {
    var shared := SharedDeps(doc);
    ExpandedSections(doc);
    forall k | k in DEP_KINDS ensures k != "workspace" && k != "target" && k != "package" {
      KindsHaveNoDot(k);
    }
    forall home: Fields, cfg: Option<string> | HasDepTables(shared, home)
      ensures HasDepTables(shared, ExpandHome(shared, home, cfg, {}))
    {
      ExpandedHomeTyped(shared, home, cfg);
    }
  }

  lemma ExpandedHomeTyped(shared: Fields, home: Fields, cfg: Option<string>)
    requires HasDepTables(shared, home)
    ensures HasDepTables(shared, ExpandHome(shared, home, cfg, {}))
  {
    var after := ExpandHome(shared, home, cfg, {});
    forall kind | kind in DEP_KINDS && kind in after ensures IsDepTable(shared, after[kind]) {
      var table := home[kind].fields;
      assert after[kind] == Table(ExpandTable(shared, table));
      forall dep | dep in table
        ensures IsSpec(ExpandSpec(shared, dep, table[dep])) &&
                CanInherit(shared, dep, ExpandSpec(shared, dep, table[dep]))
      {
        ExpandedSpecTyped(shared, dep, table[dep]);
      }
    }
  }

  lemma ExpandedSpecTyped(shared: Fields, dep: string, spec: Toml)
    requires IsSpec(spec) && CanInherit(shared, dep, spec)
    ensures IsSpec(ExpandSpec(shared, dep, spec)) && CanInherit(shared, dep, ExpandSpec(shared, dep, spec))
  {
    if Inherits(shared, dep, spec) {
      var merged := NormalizeDep(shared[dep]);
      var once := Inherited(shared[dep], spec.fields);
      var features := SortedSet(FeatureSet(merged) + FeatureSet(spec.fields));
      assert features == [] ==> Get(once, "features") == Get(merged, "features");
      assert ListsFeatures(Table(once));
    }
  }

  /** Inheriting twice is inheriting once, also when the workspace entry itself asks to inherit. */
  lemma ExpandSpecTwice(shared: Fields, dep: string, spec: Toml)
    requires IsSpec(spec)
    ensures ExpandSpec(shared, dep, ExpandSpec(shared, dep, spec)) == ExpandSpec(shared, dep, spec)
  {
    if Inherits(shared, dep, spec) && IsSpec(shared[dep]) {
      var once := Inherited(shared[dep], spec.fields);
      if Inherits(shared, dep, Table(once)) {
        InheritedTwice(shared[dep], spec.fields);
      }
    }
  }

  lemma InheritedTwice(sharedSpec: Toml, spec: Fields)
    requires IsSpec(sharedSpec)
    ensures Inherited(sharedSpec, Inherited(sharedSpec, spec)) == Inherited(sharedSpec, spec)
  {
    var merged := NormalizeDep(sharedSpec);
    var local := spec - {"workspace", "features"};
    var all := FeatureSet(merged) + FeatureSet(spec);
    var once := Inherited(sharedSpec, spec);
    OverlaidAgain(merged, local);
    if all == {} {
      assert once == merged + local;
      assert Get(once, "features") == Get(merged, "features");
      assert FeatureSet(merged) + FeatureSet(once) == {};
    } else {
      assert once == (merged + local)["features" := FeatureList(SortedSet(all))];
      FeaturesOfList(once, SortedSet(all));
      assert FeatureSet(merged) + FeatureSet(once) == all;
      ListedAgain(merged, local, FeatureList(SortedSet(all)));
    }
  }

  /** Laying an overlaid entry over the same entry again gives nothing new. */
  lemma OverlaidAgain(merged: Fields, local: Fields)
    requires "workspace" !in local && "features" !in local
    ensures merged + ((merged + local) - {"workspace", "features"}) == merged + local
  {
  }

  lemma ListedAgain(merged: Fields, local: Fields, list: Toml)
    requires "workspace" !in local && "features" !in local
    ensures var once := (merged + local)["features" := list];
            (merged + (once - {"workspace", "features"}))["features" := list] == once
  {
    var once := (merged + local)["features" := list];
    assert once - {"workspace", "features"} == (merged + local) - {"workspace", "features"};
    OverlaidAgain(merged, local);
  }

  lemma FeaturesOfList(fields: Fields, names: seq<string>)
    requires "features" in fields && fields["features"] == FeatureList(names)
    ensures FeatureSet(fields) == set i | 0 <= i < |names| :: names[i]
  {
    var items := fields["features"].items;
    assert forall i | 0 <= i < |items| :: items[i] == Str(names[i]);
  }

  /** Expanding an expanded manifest changes nothing. */
  lemma ExpandIdempotent(doc: Fields)
    requires WellTyped(doc)
    ensures Expanded(Expanded(doc)) == Expanded(doc)
  {
    ExpandedTables(doc, Workspace);
    var shared, once := SharedDeps(doc), Expanded(doc);
    forall k | k in DEP_KINDS ensures k != "target" { KindsHaveNoDot(k); }
    ExpandHomeTwice(shared, doc, None);
    assert ExpandHome(shared, once, None, {}) == once;
    if "target" in doc {
      var targets := doc["target"].fields;
      forall cfg | cfg in targets
        ensures ExpandHome(shared, ExpandHome(shared, targets[cfg].fields, Some(cfg), {}), Some(cfg), {}) ==
                ExpandHome(shared, targets[cfg].fields, Some(cfg), {})
      {
        ExpandHomeTwice(shared, targets[cfg].fields, Some(cfg));
      }
      var after := ExpandTargets(shared, targets, {});
      assert ExpandTargets(shared, after, {}) == after;
    }
  }

  lemma ExpandTableTwice(shared: Fields, table: Fields)
    requires Specs(table)
    ensures ExpandTable(shared, ExpandTable(shared, table)) == ExpandTable(shared, table)
  {
    forall dep | dep in table
      ensures ExpandSpec(shared, dep, ExpandSpec(shared, dep, table[dep])) == ExpandSpec(shared, dep, table[dep])
    {
      ExpandSpecTwice(shared, dep, table[dep]);
    }
  }

  lemma ExpandHomeTwice(shared: Fields, home: Fields, cfg: Option<string>)
    requires HasDepTables(shared, home)
    ensures ExpandHome(shared, ExpandHome(shared, home, cfg, {}), cfg, {}) == ExpandHome(shared, home, cfg, {})
  {
    var once := ExpandHome(shared, home, cfg, {});
    var twice := ExpandHome(shared, once, cfg, {});
    forall kind | kind in home ensures twice[kind] == once[kind] {
      if kind in DEP_KINDS {
        ExpandTableTwice(shared, home[kind].fields);
      }
    }
  }

  /** The features of an entry are absent or already a sorted list without repeats. */
  ghost predicate FeaturesInOrder(fields: Fields) {
    "features" in fields ==>
      IsFeatureList(fields["features"]) && fields["features"] == FeatureList(SortedSet(FeatureSet(fields)))
  }

  lemma AnyFeature(fields: Fields)
    requires "features" in fields && IsFeatureList(fields["features"])
    ensures fields["features"].items != [] ==> FeatureSet(fields) != {}
  {
    var items := fields["features"].items;
    if items != [] {
      assert items[0].s in FeatureSet(fields);
    }
  }

  /** A dependency hoisted into the workspace expands to the entry it had before, exactly when that
      entry's features are in order. */
  lemma HoistedEntryIsTheSame(shared: Fields, dep: string, spec: Toml)
    requires IsSpec(spec) && ListsFeatures(spec) && dep in shared && shared[dep] == spec
    ensures IsSpec(ExpandSpec(shared, dep, Table(map["workspace" := Bool(true)])))
    ensures NormalizeDep(ExpandSpec(shared, dep, Table(map["workspace" := Bool(true)]))) == NormalizeDep(spec) <==>
            FeaturesInOrder(NormalizeDep(spec))
  {
    var hoisted := map["workspace" := Bool(true)];
    assert Inherits(shared, dep, Table(hoisted));
    var entry := Inherited(spec, hoisted);
    var merged := NormalizeDep(spec);
    assert hoisted - {"workspace", "features"} == map[];
    assert merged + map[] == merged;
    assert FeatureSet(merged) + FeatureSet(hoisted) == FeatureSet(merged);
    assert entry ==
           if FeatureSet(merged) == {} then merged
           else merged["features" := FeatureList(SortedSet(FeatureSet(merged)))];
    if "features" in merged && FeatureSet(merged) == {} {
      AnyFeature(merged);
      assert merged["features"] == FeatureList(SortedSet({}));
    }
    if "path" in entry {
      assert "path" in merged && "version" !in entry;
      assert NormalizeDep(Table(entry)) == entry;
    }
  }
}
