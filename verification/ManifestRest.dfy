/** What is left of a manifest outside its dependency tables and own versions, as a tree. */
module ManifestRest {
  import opened Basics
  import opened Sequences
  import opened TomlTree
  import opened ManifestTables
  import opened ManifestFlatten

  /** The paths that the comparison of the rest leaves out: dependency tables and own versions. */
  predicate Ignored(path: Path) {
    && path != []
    && (|| path[0] in DEP_KINDS
        || path[..if |path| < 2 then |path| else 2] in {["package", "version"], ["workspace", "dependencies"]}
        || path[..if |path| < 3 then |path| else 3] == ["workspace", "package", "version"]
        || (|path| >= 3 && path[0] == "target" && path[2] in DEP_KINDS))
  }

  /** Outside the ignored paths the source holds what the base held. */
  ghost predicate RestUnchanged(base: Fields, source: Fields) {
    forall path | !Ignored(path) :: SameAt(LeafAt(Table(base), path), LeafAt(Table(source), path))
  }

  /** Outside the ignored paths the source holds the very values of the base. */
  ghost predicate RestKept(base: Fields, source: Fields) {
    forall path | !Ignored(path) :: LeafAt(Table(base), path) == LeafAt(Table(source), path)
  }

  lemma IgnoredBelow(path: Path, more: Path)
    requires Ignored(path)
    ensures Ignored(path + more)
  {
    var all := path + more;
    assert all[0] == path[0];
    assert |path| >= 2 ==> all[..2] == path[..2];
    assert |path| >= 3 ==> all[..3] == path[..3] && all[2] == path[2];
    assert |path| == 2 ==> path[..2] == path;
    assert |path| == 1 ==> path[..1] == path;
  }

  // ---- The tree without the ignored paths ----

  /** The tree under `prefix`, without what stands at ignored paths. */
  function Without(t: Toml, prefix: Path): Toml
    decreases t
  {
    if t.Table? then
      Table(map key | key in t.fields && !Ignored(prefix + [key]) :: Without(t.fields[key], prefix + [key]))
    else t
  }

  function Outside(doc: Fields): Toml {
    Without(Table(doc), [])
  }

  lemma StepDown(prefix: Path, path: Path)
    requires path != []
    ensures prefix + path == prefix + [path[0]] + path[1..]
  {
    Associate(prefix, [path[0]], path[1..]);
    assert path == [path[0]] + path[1..];
  }

  lemma {:induction false} WithoutLeaf(t: Toml, prefix: Path, path: Path)
    requires !Ignored(prefix)
    ensures LeafAt(Without(t, prefix), path) == if Ignored(prefix + path) then None else LeafAt(t, path)
    decreases |path|
  {
    if path == [] {
      assert prefix + path == prefix;
    } else {
      StepDown(prefix, path);
      if Ignored(prefix + [path[0]]) {
        IgnoredBelow(prefix + [path[0]], path[1..]);
      } else if t.Table? && path[0] in t.fields {
        WithoutLeaf(t.fields[path[0]], prefix + [path[0]], path[1..]);
      }
    }
  }

  /** The table at the end of `path`, if there is one. */
  function TableUnder(t: Toml, path: Path): Option<Fields>
    decreases |path|
  {
    if path == [] then (if t.Table? then Some(t.fields) else None)
    else if t.Table? && path[0] in t.fields then TableUnder(t.fields[path[0]], path[1..])
    else None
  }

  /** A table outside the ignored paths that holds nothing outside them. */
  predicate BareTable(doc: Fields, path: Path) {
    && !Ignored(path)
    && TableUnder(Table(doc), path).Some?
    && forall key | key in TableUnder(Table(doc), path).value :: Ignored(path + [key])
  }

  ghost predicate BareTablesAgree(base: Fields, source: Fields) {
    forall path :: BareTable(base, path) <==> BareTable(source, path)
  }

  lemma {:induction false} WithoutEmpty(t: Toml, prefix: Path, path: Path)
    requires !Ignored(prefix)
    ensures EmptyAt(Without(t, prefix), path) <==>
            && !Ignored(prefix + path)
            && TableUnder(t, path).Some?
            && forall key | key in TableUnder(t, path).value :: Ignored(prefix + path + [key])
    decreases |path|
  {
    if path == [] {
      assert prefix + path == prefix;
      EmptyHere(t, prefix);
    } else {
      StepDown(prefix, path);
      if Ignored(prefix + [path[0]]) {
        IgnoredBelow(prefix + [path[0]], path[1..]);
      } else if t.Table? && path[0] in t.fields {
        WithoutEmpty(t.fields[path[0]], prefix + [path[0]], path[1..]);
      }
    }
  }

  lemma EmptyHere(t: Toml, prefix: Path)
    ensures Without(t, prefix) == Table(map[]) <==> t.Table? && forall key | key in t.fields :: Ignored(prefix + [key])
  {
    if t.Table? {
      var fields := Without(t, prefix).fields;
      assert forall key :: key in fields <==> key in t.fields && !Ignored(prefix + [key]);
      assert fields == map[] <==> forall key :: key !in fields;
    }
  }

  lemma BareIsEmptyOutside(doc: Fields, path: Path)
    ensures EmptyAt(Outside(doc), path) <==> BareTable(doc, path)
  {
    WithoutEmpty(Table(doc), [], path);
    assert [] + path == path;
  }

  lemma OutsideLeaf(doc: Fields, path: Path)
    ensures LeafAt(Outside(doc), path) == if Ignored(path) then None else LeafAt(Table(doc), path)
  {
    WithoutLeaf(Table(doc), [], path);
    assert [] + path == path;
  }

  // ---- Values and bare tables make the tree ----

  /** What the two rests show at one path. */
  lemma RestAt(base: Fields, source: Fields, path: Path)
    ensures SameAt(LeafAt(Outside(base), path), LeafAt(Outside(source), path)) <==>
            (!Ignored(path) ==> SameAt(LeafAt(Table(base), path), LeafAt(Table(source), path)))
    ensures LeafAt(Outside(base), path) == LeafAt(Outside(source), path) <==>
            (!Ignored(path) ==> LeafAt(Table(base), path) == LeafAt(Table(source), path))
    ensures EmptyAt(Outside(base), path) <==> BareTable(base, path)
    ensures EmptyAt(Outside(source), path) <==> BareTable(source, path)
  {
    OutsideLeaf(base, path);
    OutsideLeaf(source, path);
    BareIsEmptyOutside(base, path);
    BareIsEmptyOutside(source, path);
  }

  lemma SameValuesOutside(base: Fields, source: Fields)
    ensures SameValues(Outside(base), Outside(source)) <==> RestUnchanged(base, source)
  {
    var a, b := Outside(base), Outside(source);
    if SameValues(a, b) {
      forall path | !Ignored(path) ensures SameAt(LeafAt(Table(base), path), LeafAt(Table(source), path)) {
        RestAt(base, source, path);
        assert SameAt(LeafAt(a, path), LeafAt(b, path));
      }
    }
    if RestUnchanged(base, source) {
      forall path ensures SameAt(LeafAt(a, path), LeafAt(b, path)) {
        RestAt(base, source, path);
      }
    }
  }

  lemma SameEmptyOutside(base: Fields, source: Fields)
    ensures SameEmptyTables(Outside(base), Outside(source)) <==> BareTablesAgree(base, source)
  {
    var a, b := Outside(base), Outside(source);
    if SameEmptyTables(a, b) {
      forall path ensures BareTable(base, path) <==> BareTable(source, path) {
        RestAt(base, source, path);
        assert EmptyAt(a, path) <==> EmptyAt(b, path);
      }
    }
    if BareTablesAgree(base, source) {
      forall path ensures EmptyAt(a, path) <==> EmptyAt(b, path) {
        RestAt(base, source, path);
        assert BareTable(base, path) <==> BareTable(source, path);
      }
    }
  }

  /** The two rests are the same tree for Python exactly when they hold the same values and the same tables
      without a value. */
  lemma RestTreeExactly(base: Fields, source: Fields)
    ensures Same(Outside(base), Outside(source)) <==> RestUnchanged(base, source) && BareTablesAgree(base, source)
  {
    SameTreeExactly(Outside(base), Outside(source));
    SameValuesOutside(base, source);
    SameEmptyOutside(base, source);
  }

  /** And they are equal trees exactly when the values are the very same. */
  lemma RestTreeKeptExactly(base: Fields, source: Fields)
    ensures Outside(base) == Outside(source) <==> RestKept(base, source) && BareTablesAgree(base, source)
  {
    var a, b := Outside(base), Outside(source);
    SameEmptyOutside(base, source);
    if a == b {
      forall path | !Ignored(path) ensures LeafAt(Table(base), path) == LeafAt(Table(source), path) {
        RestAt(base, source, path);
      }
    }
    if RestKept(base, source) && BareTablesAgree(base, source) {
      forall path ensures LeafAt(a, path) == LeafAt(b, path) && (EmptyAt(a, path) <==> EmptyAt(b, path)) {
        RestAt(base, source, path);
      }
      EndsDetermineTree(a, b);
    }
  }
}
