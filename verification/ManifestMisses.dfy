/** Which changes the manifest check does not see: values whose dotted keys collide, numbers that change
    their kind, and tables without a value. */
module ManifestMisses {
  import opened Basics
  import opened TomlTree
  import opened ManifestTables
  import opened ManifestFlatten
  import opened ManifestRest
  import opened ManifestCheck

  // ---- Manifests with one value ----

  /** A path where a well-typed manifest can hold a value that the check compares. */
  predicate CanHold(path: Path) {
    && path != [] && !Ignored(path)
    && path !in {["package"], ["workspace"], ["target"], ["workspace", "package"]}
    && !(|path| == 2 && path[0] == "target")
  }

  lemma LeafCanHold(doc: Fields, path: Path)
    requires WellTyped(doc) && HasLeaf(doc, path) && !Ignored(path)
    ensures CanHold(path)
  {
    if |path| == 2 {
      assert path[1..] == [path[1]];
      SubLeaf(doc, path);
    }
  }

  function OneValue(path: Path, value: Toml): Fields
    requires path != []
  {
    map[path[0] := OneLeaf(path[1..], value)]
  }

  lemma OneValueIsOneLeaf(path: Path, value: Toml)
    requires path != []
    ensures Table(OneValue(path, value)) == OneLeaf(path, value)
  {
  }

  lemma LongPath(path: Path, value: Toml)
    requires |path| >= 2
    ensures OneLeaf(path[1..], value) == Table(map[path[1] := OneLeaf(path[2..], value)])
  {
    assert path[1..][0] == path[1] && path[1..][1..] == path[2..];
  }

  lemma NotIgnored(path: Path)
    requires CanHold(path)
    ensures path[0] !in DEP_KINDS
    ensures path[0] in {"package", "workspace"} ==> |path| >= 2
    ensures path[0] == "workspace" ==> path[1] != "dependencies" && (path[1] == "package" ==> |path| >= 3)
    ensures path[0] == "target" ==> |path| >= 3 && path[2] !in DEP_KINDS
  {
    if |path| == 1 {
      assert path == [path[0]];
    } else {
      assert path[..2] == [path[0], path[1]];
      if |path| == 2 {
        assert path == [path[0], path[1]];
      }
    }
  }

  lemma OneValueWellTyped(path: Path, value: Toml)
    requires CanHold(path)
    ensures WellTyped(OneValue(path, value))
    ensures forall ref: TableRef | ref.Valid() :: TableOf(OneValue(path, value), ref).None?
  {
    NotIgnored(path);
    if |path| >= 2 { LongPath(path, value); }
    if |path| >= 3 { LongPath(path[1..], value); }
    assert Sub(Sub(OneValue(path, value), "workspace"), "dependencies") == map[];
  }

  lemma NothingToCover(base: Fields, source: Fields, target: Fields)
    requires WellTyped(base) && WellTyped(source) && WellTyped(target)
    requires forall ref: TableRef | ref.Valid() :: TableOf(base, ref).None? && TableOf(source, ref).None?
    ensures DepsCovered(base, source, target)
  {
    forall ref: TableRef | ref.Valid() ensures RefCovered(base, source, target, ref) {
      ExpandedTables(base, ref);
      ExpandedTables(source, ref);
      assert ExpandedTable(base, ref) == ExpandedTable(source, ref) == map[];
    }
  }

  lemma OneValueLeaf(path: Path, value: Toml, other: Path)
    requires CanHold(path) && !value.Table?
    ensures WellTyped(OneValue(path, value))
    ensures LeafAt(Table(OneValue(path, value)), other) == if other == path then Some(value) else None
    ensures LeafAt(Table(Stripped(OneValue(path, value))), other) == if other == path then Some(value) else None
  {
    OneValueWellTyped(path, value);
    OneValueIsOneLeaf(path, value);
    OneLeafAt(path, value, other);
    StrippedLeaves(OneValue(path, value), other);
  }

  ghost predicate HasOneFlatImage(fields: Fields, flat: Fields) {
    forall other :: IsFlat(Table(fields), "", other) <==> other == flat
  }

  lemma OneValueFlat(path: Path, value: Toml)
    requires CanHold(path) && !value.Table?
    ensures HasOneFlatImage(Stripped(OneValue(path, value)), map[Joined("", path) := value])
  {
    var fields := Stripped(OneValue(path, value));
    forall other ensures LeafAt(Table(fields), other) == if other == path then Some(value) else None {
      OneValueLeaf(path, value, other);
    }
    forall other ensures IsFlat(Table(fields), "", other) <==> other == map[Joined("", path) := value] {
      OneLeafFlat(fields, path, value, other);
    }
  }

  lemma OneLeafFlat(fields: Fields, path: Path, value: Toml, flat: Fields)
    requires forall other :: LeafAt(Table(fields), other) == if other == path then Some(value) else None
    ensures IsFlat(Table(fields), "", flat) <==> flat == map[Joined("", path) := value]
  {
    if IsFlat(Table(fields), "", flat) {
      assert Joined("", path) in flat;
      forall key | key in flat ensures key == Joined("", path) && flat[key] == value {
        var p :| LeafAt(Table(fields), p) == Some(flat[key]) && Joined("", p) == key;
      }
    }
    if flat == map[Joined("", path) := value] {
      assert LeafAt(Table(fields), path) == Some(flat[Joined("", path)]);
    }
  }

  lemma OneImageEach(base: Fields, source: Fields, before: Fields, after: Fields)
    requires WellTyped(base) && WellTyped(source) && SameFields(before, after)
    requires HasOneFlatImage(Stripped(base), before) && HasOneFlatImage(Stripped(source), after)
    ensures AllFlatImagesAgree(base, source) && SomeFlatImagesAgree(base, source)
  {
    assert IsFlat(Table(Stripped(base)), "", before) && IsFlat(Table(Stripped(source)), "", after);
  }

  /** A change that the check lets through whatever the order of keys. */
  ghost predicate IsMissed(base: Fields, source: Fields, target: Fields)
    requires WellTyped(base) && WellTyped(source) && WellTyped(target)
  {
    DepsCovered(base, source, target) && AllFlatImagesAgree(base, source) && SomeFlatImagesAgree(base, source)
  }

  lemma OneValueIsMissed(p: Path, q: Path, v: Toml, w: Toml, target: Fields)
    requires CanHold(p) && CanHold(q) && Joined("", p) == Joined("", q) && WellTyped(target)
    requires Same(v, w) && !v.Table? && !w.Table?
    ensures WellTyped(OneValue(p, v)) && WellTyped(OneValue(q, w)) && IsMissed(OneValue(p, v), OneValue(q, w), target)
  {
    var base, source := OneValue(p, v), OneValue(q, w);
    OneValueWellTyped(p, v);
    OneValueWellTyped(q, w);
    NothingToCover(base, source, target);
    OneValueFlat(p, v);
    OneValueFlat(q, w);
    SameOneKey(Joined("", p), v, w);
    OneImageEach(base, source, map[Joined("", p) := v], map[Joined("", q) := w]);
  }

  lemma SameOneKey(key: string, v: Toml, w: Toml)
    requires Same(v, w)
    ensures SameFields(map[key := v], map[key := w])
  {
  }

  // ---- Keys that collide ----

  /** Moving a value to another path with the same dotted key is missed, for every such pair of paths,
      every value and every target. */
  lemma CollidingMoveIsMissed(p: Path, q: Path, value: Toml, target: Fields)
    requires CanHold(p) && CanHold(q) && p != q && Joined("", p) == Joined("", q)
    requires !value.Table? && WellTyped(target)
    ensures WellTyped(OneValue(p, value)) && WellTyped(OneValue(q, value))
    ensures IsMissed(OneValue(p, value), OneValue(q, value), target)
    ensures !RestUnchanged(OneValue(p, value), OneValue(q, value))
  {
    OneValueIsMissed(p, q, value, value, target);
    OneValueLeaf(p, value, p);
    OneValueLeaf(q, value, p);
  }

  /** The values that the check compares lie under these paths. */
  ghost predicate ValuesIn(doc: Fields, paths: iset<Path>) {
    forall path | HasLeaf(doc, path) && !Ignored(path) :: path in paths
  }

  ghost predicate NoPathsCollide(paths: iset<Path>) {
    forall p, q | p in paths && q in paths && CanHold(p) && CanHold(q) && Joined("", p) == Joined("", q) :: p == q
  }

  /** On manifests with values under these paths, agreeing flat images mean that nothing changed. */
  ghost predicate SoundOn(paths: iset<Path>) {
    forall base, source | WellTyped(base) && WellTyped(source) && ValuesIn(base, paths) && ValuesIn(source, paths) &&
                          SomeFlatImagesAgree(base, source) :: RestUnchanged(base, source)
  }

  /** And a manifest where nothing changed has agreeing flat images, whatever the order of keys. */
  ghost predicate ExactOn(paths: iset<Path>) {
    && SoundOn(paths)
    && forall base, source | WellTyped(base) && WellTyped(source) && ValuesIn(base, paths) && ValuesIn(source, paths) &&
                             RestUnchanged(base, source) :: AllFlatImagesAgree(base, source)
  }

  lemma ValuesDoNotCollide(base: Fields, source: Fields, paths: iset<Path>)
    requires WellTyped(base) && WellTyped(source) && ValuesIn(base, paths) && ValuesIn(source, paths)
    requires NoPathsCollide(paths)
    ensures NoCollision(Stripped(base), Stripped(source))
  {
    var a, b := Stripped(base), Stripped(source);
    forall p | HasLeaf(a, p) || HasLeaf(b, p) ensures p in paths && CanHold(p) {
      StrippedLeaves(base, p);
      StrippedLeaves(source, p);
      LeafCanHold(if HasLeaf(a, p) then base else source, p);
    }
  }

  /** Which manifests the check can be trusted with: exactly those whose values lie under paths that do
      not collide. */
  lemma TrustedExactly(paths: iset<Path>)
    ensures SoundOn(paths) <==> NoPathsCollide(paths)
    ensures ExactOn(paths) <==> NoPathsCollide(paths)
  {
    if NoPathsCollide(paths) {
      forall base, source | WellTyped(base) && WellTyped(source) && ValuesIn(base, paths) && ValuesIn(source, paths)
        ensures SomeFlatImagesAgree(base, source) ==> RestUnchanged(base, source)
        ensures RestUnchanged(base, source) ==> AllFlatImagesAgree(base, source)
      {
        ValuesDoNotCollide(base, source, paths);
        ExactWithoutCollision(base, source);
      }
    } else {
      var p, q :| p in paths && q in paths && CanHold(p) && CanHold(q) && Joined("", p) == Joined("", q) && p != q;
      CollidingPathsAreUnsound(paths, p, q);
    }
  }

  lemma ExactWithoutCollision(base: Fields, source: Fields)
    requires WellTyped(base) && WellTyped(source) && NoCollision(Stripped(base), Stripped(source))
    ensures SomeFlatImagesAgree(base, source) ==> RestUnchanged(base, source)
    ensures RestUnchanged(base, source) ==> AllFlatImagesAgree(base, source)
  {
    var a, b := Stripped(base), Stripped(source);
    RestIsStripped(base, source);
    forall before, after | IsFlat(Table(a), "", before) && IsFlat(Table(b), "", after)
      ensures SameFields(before, after) <==> SameLeaves(a, b)
    {
      FlatImagesAgreeExactly(a, b, before, after);
    }
  }

  lemma CollidingPathsAreUnsound(paths: iset<Path>, p: Path, q: Path)
    requires p in paths && q in paths && CanHold(p) && CanHold(q) && Joined("", p) == Joined("", q) && p != q
    ensures !SoundOn(paths)
  {
    var base, source := OneValue(p, Bool(true)), OneValue(q, Bool(true));
    CollidingMoveIsMissed(p, q, Bool(true), map[]);
    forall other ensures HasLeaf(base, other) ==> other == p
                 ensures HasLeaf(source, other) ==> other == q
    {
      OneValueLeaf(p, Bool(true), other);
      OneValueLeaf(q, Bool(true), other);
    }
    assert ValuesIn(base, paths) && ValuesIn(source, paths);
  }

  const DOTTED_KEY: Path := ["package", "metadata", "docs.rs"]
  const NESTED_KEY: Path := ["package", "metadata", "docs", "rs"]

  lemma MetadataCanHold(path: Path)
    requires |path| >= 3 && path[0] == "package" && path[1] == "metadata"
    ensures CanHold(path)
  {
    assert path[..2] == [path[0], path[1]];
    assert path[..3][0] == path[0];
  }

  lemma MetadataKeysCollide()
    ensures Joined("", DOTTED_KEY) == Joined("", NESTED_KEY)
  {
    var d, n := DOTTED_KEY, NESTED_KEY;
    assert d[1..] == ["metadata", "docs.rs"] && d[1..][1..] == ["docs.rs"];
    assert n[1..] == ["metadata", "docs", "rs"] && n[1..][1..] == ["docs", "rs"] && n[1..][1..][1..] == ["rs"];
    var prefix := Extend(Extend("", "package"), "metadata");
    assert Joined("", d) == Joined(prefix, ["docs.rs"]) == Extend(prefix, "docs.rs");
    assert Joined("", n) == Joined(prefix, ["docs", "rs"]) == Extend(Extend(prefix, "docs"), "rs");
    assert prefix + "." + "docs.rs" == prefix + "." + "docs" + "." + "rs";
  }

  /** A source that turns `[package.metadata] "docs.rs" = …` into `[package.metadata.docs] rs = …` changes
      its manifest, and the check finds nothing. */
  lemma DottedChangeIsMissed(value: Toml, target: Fields)
    requires !value.Table? && WellTyped(target)
    ensures WellTyped(OneValue(DOTTED_KEY, value)) && WellTyped(OneValue(NESTED_KEY, value))
    ensures IsMissed(OneValue(DOTTED_KEY, value), OneValue(NESTED_KEY, value), target)
    ensures !RestUnchanged(OneValue(DOTTED_KEY, value), OneValue(NESTED_KEY, value))
  {
    MetadataCanHold(DOTTED_KEY);
    MetadataCanHold(NESTED_KEY);
    MetadataKeysCollide();
    CollidingMoveIsMissed(DOTTED_KEY, NESTED_KEY, value, target);
  }

  // ---- Numbers that change their kind ----

  ghost predicate RestKindsAgree(base: Fields, source: Fields) {
    forall path | !Ignored(path) && HasLeaf(base, path) && HasLeaf(source, path) ::
      KindsAgree(LeafAt(Table(base), path).value, LeafAt(Table(source), path).value)
  }

  /** The rest keeps every value exactly when it is unchanged for Python and no boolean, integer or float
      became another of these kinds. */
  lemma KeptExactly(base: Fields, source: Fields)
    ensures RestKept(base, source) <==> RestUnchanged(base, source) && RestKindsAgree(base, source)
  {
    forall path
      ensures LeafAt(Table(base), path) == LeafAt(Table(source), path) <==>
              && SameAt(LeafAt(Table(base), path), LeafAt(Table(source), path))
              && (HasLeaf(base, path) && HasLeaf(source, path) ==>
                    KindsAgree(LeafAt(Table(base), path).value, LeafAt(Table(source), path).value))
    {
      if HasLeaf(base, path) && HasLeaf(source, path) {
        EqualIsSameOfOneKind(LeafAt(Table(base), path).value, LeafAt(Table(source), path).value);
      }
    }
  }

  /** A clean check, on values that do not collide, keeps every value outside the dependency tables exactly
      when no number changed its kind. */
  lemma CleanCheckKeepsExactly(base: Fields, source: Fields)
    requires WellTyped(base) && WellTyped(source) && NoCollision(Stripped(base), Stripped(source))
    requires SomeFlatImagesAgree(base, source)
    ensures RestKept(base, source) <==> RestKindsAgree(base, source)
  {
    ExactWithoutCollision(base, source);
    KeptExactly(base, source);
  }

  /** The same for one dependency entry: entries that the check takes for equal are equal exactly when the
      kinds of their numbers agree. */
  lemma SameEntryIsKeptExactly(a: Fields, b: Fields)
    ensures a == b <==> SameFields(a, b) && KindsAgree(Table(a), Table(b))
  {
    EqualIsSameOfOneKind(Table(a), Table(b));
    assert Canon(Table(a)) == Table(CanonFields(a)) && Canon(Table(b)) == Table(CanonFields(b));
  }

  /** Every change of a value to another one that Python calls equal is missed. */
  lemma KindChangeIsMissed(path: Path, v: Toml, w: Toml, target: Fields)
    requires CanHold(path) && WellTyped(target)
    requires Same(v, w) && v != w && !v.Table? && !w.Table?
    ensures WellTyped(OneValue(path, v)) && WellTyped(OneValue(path, w))
    ensures IsMissed(OneValue(path, v), OneValue(path, w), target)
    ensures !RestKept(OneValue(path, v), OneValue(path, w)) && !KindsAgree(v, w)
  {
    OneValueIsMissed(path, path, v, w, target);
    OneValueLeaf(path, v, path);
    OneValueLeaf(path, w, path);
    EqualIsSameOfOneKind(v, w);
  }

  const DEBUG_KEY: Path := ["profile", "release", "debug"]

  /** `[profile.release] debug = true` asks for full debug information and `debug = 1` for limited. The
      check takes the one for the other. */
  lemma DebugLevelIsMissed(target: Fields)
    requires WellTyped(target)
    ensures WellTyped(OneValue(DEBUG_KEY, Bool(true))) && WellTyped(OneValue(DEBUG_KEY, Int(1)))
    ensures IsMissed(OneValue(DEBUG_KEY, Bool(true)), OneValue(DEBUG_KEY, Int(1)), target)
    ensures !RestKept(OneValue(DEBUG_KEY, Bool(true)), OneValue(DEBUG_KEY, Int(1)))
  {
    assert forall k | k in DEP_KINDS :: k[0] != 'p';
    PlainHead(DEBUG_KEY);
    assert Same(Bool(true), Int(1));
    KindChangeIsMissed(DEBUG_KEY, Bool(true), Int(1), target);
  }

  // ---- Tables without a value ----

  /** A clean check, on values that do not collide, keeps the tree outside the dependency tables exactly when
      the tables without a value agree, and keeps it value for value exactly when no number changed its kind
      either. */
  lemma CleanCheckKeepsTreeExactly(base: Fields, source: Fields)
    requires WellTyped(base) && WellTyped(source) && NoCollision(Stripped(base), Stripped(source))
    requires SomeFlatImagesAgree(base, source)
    ensures Same(Outside(base), Outside(source)) <==> BareTablesAgree(base, source)
    ensures Outside(base) == Outside(source) <==> BareTablesAgree(base, source) && RestKindsAgree(base, source)
  {
    ExactWithoutCollision(base, source);
    KeptExactly(base, source);
    RestTreeExactly(base, source);
    RestTreeKeptExactly(base, source);
  }

  /** Every change of tables without a value, and of nothing else, is missed. */
  lemma BareTableChangeIsMissed(base: Fields, source: Fields, target: Fields)
    requires WellTyped(base) && WellTyped(source) && WellTyped(target) && NoCollision(Stripped(base), Stripped(source))
    requires DepsCovered(base, source, target) && RestUnchanged(base, source) && !BareTablesAgree(base, source)
    ensures AllFlatImagesAgree(base, source) && !Same(Outside(base), Outside(source))
  {
    ExactWithoutCollision(base, source);
    RestTreeExactly(base, source);
  }

  lemma TablePathTyped(path: Path)
    requires path != [] && !Ignored(path)
    ensures WellTyped(OneValue(path, Table(map[])))
    ensures forall ref: TableRef | ref.Valid() :: TableOf(OneValue(path, Table(map[])), ref).None?
  {
    var value := Table(map[]);
    if |path| == 1 {
      assert path == [path[0]] && path[1..] == [];
    } else {
      LongPath(path, value);
      assert path[..2] == [path[0], path[1]];
      if |path| >= 3 {
        LongPath(path[1..], value);
      } else {
        assert path[2..] == [];
      }
    }
    assert Sub(Sub(OneValue(path, value), "workspace"), "dependencies") == map[];
  }

  lemma NoLeafFlat(fields: Fields)
    requires forall path :: !HasLeaf(fields, path)
    ensures HasOneFlatImage(fields, map[])
  {
    forall path ensures LeafAt(Table(fields), path).None? {
      assert !HasLeaf(fields, path);
    }
    forall flat ensures IsFlat(Table(fields), "", flat) <==> flat == map[] {
      if IsFlat(Table(fields), "", flat) {
        assert forall key :: key !in flat;
        assert flat.Keys == {};
      }
    }
  }

  lemma NoValues(path: Path)
    requires path != [] && !Ignored(path)
    ensures WellTyped(OneValue(path, Table(map[])))
    ensures forall other :: !HasLeaf(OneValue(path, Table(map[])), other)
    ensures HasOneFlatImage(Stripped(OneValue(path, Table(map[]))), map[])
  {
    var doc := OneValue(path, Table(map[]));
    TablePathTyped(path);
    OneValueIsOneLeaf(path, Table(map[]));
    forall other ensures !HasLeaf(doc, other) && !HasLeaf(Stripped(doc), other) {
      OneTableAt(path, other);
      StrippedLeaves(doc, other);
    }
    NoLeafFlat(Stripped(doc));
  }

  lemma NothingAtAll()
    ensures WellTyped(map[]) && forall path :: !HasLeaf(map[], path)
    ensures HasOneFlatImage(Stripped(map[]), map[])
    ensures forall ref: TableRef | ref.Valid() :: TableOf(map[], ref).None?
  {
    forall path ensures !HasLeaf(map[], path) && !HasLeaf(Stripped(map[]), path) {
      StrippedLeaves(map[], path);
    }
    NoLeafFlat(Stripped(map[]));
  }

  lemma BareAtItsPath(path: Path, other: Path)
    requires path != [] && !Ignored(path)
    ensures BareTable(OneValue(path, Table(map[])), other) ==> other == [] || !Ignored(other)
    ensures BareTable(OneValue(path, Table(map[])), path) && !BareTable(map[], path)
  {
    TableUnderOneLeaf(path);
    OneValueIsOneLeaf(path, Table(map[]));
  }

  lemma {:induction false} TableUnderOneLeaf(path: Path)
    ensures TableUnder(OneLeaf(path, Table(map[])), path) == Some(map[])
    decreases |path|
  {
    if path != [] {
      TableUnderOneLeaf(path[1..]);
    }
  }

  /** At every path outside the ignored ones: a source that adds an empty table there changes its manifest,
      and the check finds nothing, whatever the target. */
  lemma EmptyTableIsMissed(path: Path, target: Fields)
    requires path != [] && !Ignored(path) && WellTyped(target)
    ensures WellTyped(map[]) && WellTyped(OneValue(path, Table(map[])))
    ensures IsMissed(map[], OneValue(path, Table(map[])), target)
    ensures RestKept(map[], OneValue(path, Table(map[])))
    ensures !Same(Outside(map[]), Outside(OneValue(path, Table(map[]))))
  {
    var source := OneValue(path, Table(map[]));
    NothingAtAll();
    NoValues(path);
    TablePathTyped(path);
    NothingToCover(map[], source, target);
    OneImageEach(map[], source, map[], map[]);
    forall other ensures LeafAt(Table(map[]), other) == LeafAt(Table(source), other) {
      assert !HasLeaf(map[], other) && !HasLeaf(source, other);
    }
    BareAtItsPath(path, path);
    RestTreeExactly(map[], source);
  }

  /** An added `[workspace]` makes the crate a workspace root. The check takes it for no change. */
  lemma EmptyWorkspaceIsMissed(target: Fields)
    requires WellTyped(target)
    ensures OneValue(["workspace"], Table(map[])) == map["workspace" := Table(map[])]
    ensures WellTyped(map[]) && WellTyped(map["workspace" := Table(map[])])
    ensures IsMissed(map[], map["workspace" := Table(map[])], target)
    ensures !Same(Outside(map[]), Outside(map["workspace" := Table(map[])]))
  {
    assert ["workspace"][1..] == [] && ["workspace"][..1] == ["workspace"];
    KindsAreOther();
    assert "workspace" !in DEP_KINDS;
    EmptyTableIsMissed(["workspace"], target);
  }

  // ---- Which manifests the check keeps as trees ----

  /** The tables below the root that hold no value lie under these paths. */
  ghost predicate BareTablesIn(doc: Fields, tables: iset<Path>) {
    forall path | BareTable(doc, path) && path != [] :: path in tables
  }

  /** On manifests with values under `paths` and bare tables under `tables`, agreeing flat images mean the
      same tree. */
  ghost predicate TreeSoundOn(paths: iset<Path>, tables: iset<Path>) {
    forall base, source | && WellTyped(base) && WellTyped(source) && SomeFlatImagesAgree(base, source)
                          && ValuesIn(base, paths) && ValuesIn(source, paths)
                          && BareTablesIn(base, tables) && BareTablesIn(source, tables) ::
      Same(Outside(base), Outside(source))
  }

  ghost predicate NoTablesIn(tables: iset<Path>) {
    forall path | path in tables :: path == [] || Ignored(path)
  }

  lemma RootIsBareTogether(base: Fields, source: Fields)
    requires RestUnchanged(base, source)
    requires forall path | path != [] :: !BareTable(base, path) && !BareTable(source, path)
    requires BareTable(base, [])
    ensures BareTable(source, [])
  {
    var end := SomeEnd(Outside(source));
    OutsideLeaf(source, end);
    BareIsEmptyOutside(source, end);
    if LeafAt(Outside(source), end).Some? {
      assert !Ignored(end) && SameAt(LeafAt(Table(base), end), LeafAt(Table(source), end));
      OutsideLeaf(base, end);
      BareIsEmptyOutside(base, []);
    }
  }

  lemma NoBareTables(base: Fields, source: Fields, tables: iset<Path>)
    requires NoTablesIn(tables) && BareTablesIn(base, tables) && BareTablesIn(source, tables)
    requires RestUnchanged(base, source)
    ensures BareTablesAgree(base, source)
  {
    forall path | path != [] ensures !BareTable(base, path) && !BareTable(source, path) {
    }
    if BareTable(base, []) {
      RootIsBareTogether(base, source);
    }
    if BareTable(source, []) {
      forall path | !Ignored(path) ensures SameAt(LeafAt(Table(source), path), LeafAt(Table(base), path)) {
        assert SameAt(LeafAt(Table(base), path), LeafAt(Table(source), path));
      }
      RootIsBareTogether(source, base);
    }
  }

  lemma TableIsUnsound(paths: iset<Path>, tables: iset<Path>, path: Path)
    requires path in tables && path != [] && !Ignored(path)
    ensures !TreeSoundOn(paths, tables)
  {
    var source := OneValue(path, Table(map[]));
    EmptyTableIsMissed(path, map[]);
    NothingAtAll();
    NoValues(path);
    OneValueIsOneLeaf(path, Table(map[]));
    forall other | other != [] ensures !BareTable(map[], other) {
    }
    forall other | BareTable(source, other) && other != [] ensures other == path {
      OnlyBareTable(path, other);
    }
    assert ValuesIn(map[], paths) && ValuesIn(source, paths);
  }

  lemma OnlyBareTable(path: Path, other: Path)
    requires path != [] && !Ignored(path) && BareTable(OneValue(path, Table(map[])), other)
    ensures other == path
  {
    var source := OneValue(path, Table(map[]));
    OneValueIsOneLeaf(path, Table(map[]));
    assert [] + path == path;
    OnlyEmptyTable(path, [], other);
    BareIsEmptyOutside(source, other);
  }

  lemma {:induction false} OnlyEmptyTable(path: Path, prefix: Path, other: Path)
    requires !Ignored(prefix + path)
    ensures EmptyAt(Without(OneLeaf(path, Table(map[])), prefix), other) ==> other == path
    decreases |path|
  {
    if path != [] {
      var next := prefix + [path[0]];
      StepDown(prefix, path);
      if Ignored(next) {
        IgnoredBelow(next, path[1..]);
      }
      if other != [] && other[0] == path[0] {
        OnlyEmptyTable(path[1..], next, other[1..]);
        assert path == [path[0]] + path[1..] && other == [other[0]] + other[1..];
      }
      EmptyHere(OneLeaf(path, Table(map[])), prefix);
    }
  }

  lemma CollisionIsUnsound(paths: iset<Path>, tables: iset<Path>, p: Path, q: Path)
    requires p in paths && q in paths && CanHold(p) && CanHold(q) && Joined("", p) == Joined("", q) && p != q
    ensures !TreeSoundOn(paths, tables)
  {
    var base, source := OneValue(p, Bool(true)), OneValue(q, Bool(true));
    CollidingMoveIsMissed(p, q, Bool(true), map[]);
    forall other ensures HasLeaf(base, other) ==> other == p
                 ensures HasLeaf(source, other) ==> other == q
    {
      OneValueLeaf(p, Bool(true), other);
      OneValueLeaf(q, Bool(true), other);
    }
    OneValueHasNoBareTable(p, Bool(true));
    OneValueHasNoBareTable(q, Bool(true));
    RestTreeExactly(base, source);
    assert ValuesIn(base, paths) && ValuesIn(source, paths);
  }

  lemma OneValueHasNoBareTable(path: Path, value: Toml)
    requires CanHold(path) && !value.Table?
    ensures forall other :: !BareTable(OneValue(path, value), other)
  {
    OneValueIsOneLeaf(path, value);
    assert [] + path == path;
    forall other ensures !BareTable(OneValue(path, value), other) {
      NoEmptyTable(path, [], value, other);
      BareIsEmptyOutside(OneValue(path, value), other);
    }
  }

  lemma {:induction false} NoEmptyTable(path: Path, prefix: Path, value: Toml, other: Path)
    requires !Ignored(prefix + path) && !value.Table?
    ensures !EmptyAt(Without(OneLeaf(path, value), prefix), other)
    decreases |path|
  {
    if path != [] {
      var next := prefix + [path[0]];
      StepDown(prefix, path);
      if Ignored(next) {
        IgnoredBelow(next, path[1..]);
      }
      if other != [] && other[0] == path[0] {
        NoEmptyTable(path[1..], next, value, other[1..]);
      }
      EmptyHere(OneLeaf(path, value), prefix);
    }
  }

  /** Which manifests a clean check keeps as trees: exactly those whose values lie under paths that do not
      collide, and that have no table without a value. */
  lemma TreesTrustedExactly(paths: iset<Path>, tables: iset<Path>)
    ensures TreeSoundOn(paths, tables) <==> NoPathsCollide(paths) && NoTablesIn(tables)
  {
    if NoPathsCollide(paths) && NoTablesIn(tables) {
      forall base, source | && WellTyped(base) && WellTyped(source) && SomeFlatImagesAgree(base, source)
                            && ValuesIn(base, paths) && ValuesIn(source, paths)
                            && BareTablesIn(base, tables) && BareTablesIn(source, tables)
        ensures Same(Outside(base), Outside(source))
      {
        ValuesDoNotCollide(base, source, paths);
        ExactWithoutCollision(base, source);
        NoBareTables(base, source, tables);
        RestTreeExactly(base, source);
      }
    }
    if !NoPathsCollide(paths) {
      var p, q :| p in paths && q in paths && CanHold(p) && CanHold(q) && Joined("", p) == Joined("", q) && p != q;
      CollisionIsUnsound(paths, tables, p, q);
    }
    if !NoTablesIn(tables) {
      var path :| path in tables && path != [] && !Ignored(path);
      TableIsUnsound(paths, tables, path);
    }
  }

  // ---- Empty dependency tables ----

  /** Inside the dependency tables the check compares entries. A dependency table that only one of base and
      source has is empty. */
  lemma OnlyEmptyDepTablesComeAndGo(base: Fields, source: Fields, target: Fields, ref: TableRef)
    requires WellTyped(base) && WellTyped(source) && WellTyped(target) && ref.Valid()
    requires DepsCovered(base, source, target)
    ensures TableOf(base, ref).Some? && TableOf(source, ref).None? ==> TableOf(base, ref).value == map[]
    ensures TableOf(base, ref).None? && TableOf(source, ref).Some? ==> TableOf(source, ref).value == map[]
  {
    assert RefCovered(base, source, target, ref);
    ExpandedTables(base, ref);
    ExpandedTables(source, ref);
    assert ExpandedTable(base, ref).Keys == ExpandedTable(source, ref).Keys;
    SameKeysExpanded(base, ref);
    SameKeysExpanded(source, ref);
  }

  lemma SameKeysExpanded(doc: Fields, ref: TableRef)
    requires WellTyped(doc) && ref.Valid()
    ensures ExpandedTable(doc, ref).Keys == if TableOf(doc, ref).Some? then TableOf(doc, ref).value.Keys else {}
  {
    ExpandedTables(doc, ref);
  }
}
