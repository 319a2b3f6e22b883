/** Flattening of a nested table into dotted key paths, and how much of the tree it keeps. */
module ManifestFlatten {
  import opened Basics
  import opened TomlTree

  type Path = seq<string>

  /** The value at the end of `path`, if the tree has a value (not a table) there. */
  function LeafAt(t: Toml, path: Path): Option<Toml>
    decreases |path|
  {
    if path == [] then (if t.Table? then None else Some(t))
    else if t.Table? && path[0] in t.fields then LeafAt(t.fields[path[0]], path[1..])
    else None
  }

  function Extend(prefix: string, key: string): string {
    if prefix == "" then key else prefix + "." + key
  }

  /** The dotted key that a path becomes. */
  function Joined(prefix: string, path: Path): string
    decreases |path|
  {
    if path == [] then prefix else Joined(Extend(prefix, path[0]), path[1..])
  }

  /** What flattening promises whatever order the keys come in: each leaf's key is present, and
      each key holds the value of some leaf with that key. */
  ghost predicate IsFlat(t: Toml, prefix: string, flat: Fields) {
    && (forall path | LeafAt(t, path).Some? :: Joined(prefix, path) in flat)
    && (forall key | key in flat :: exists path :: LeafAt(t, path) == Some(flat[key]) && Joined(prefix, path) == key)
  }

  ghost predicate IsFlatOf(fields: Fields, keys: set<string>, prefix: string, flat: Fields) {
    && (forall path | path != [] && path[0] in keys && LeafAt(Table(fields), path).Some? ::
          Joined(prefix, path) in flat)
    && (forall key | key in flat :: exists path ::
          LeafAt(Table(fields), path) == Some(flat[key]) && Joined(prefix, path) == key && path != [] &&
          path[0] in keys)
  }

  method Flatten(t: Toml, prefix: string) returns (flat: Fields)
    ensures IsFlat(t, prefix, flat)
    decreases t
  {
    if !t.Table? {
      flat := map[prefix := t];
      assert LeafAt(t, []) == Some(t) && Joined(prefix, []) == prefix;
      return;
    }
    flat := map[];
    var todo := t.fields.Keys;
    while todo != {}
      invariant todo <= t.fields.Keys
      invariant IsFlatOf(t.fields, t.fields.Keys - todo, prefix, flat)
    {
      var key :| key in todo;
      var sub := Flatten(t.fields[key], Extend(prefix, key));
      FlattenStep(t.fields, t.fields.Keys - todo, prefix, flat, key, sub);
      flat := flat + sub;
      todo := todo - {key};
      assert t.fields.Keys - todo == (t.fields.Keys - (todo + {key})) + {key};
    }
    forall path | LeafAt(t, path).Some? ensures Joined(prefix, path) in flat {
      assert path != [] && path[0] in t.fields.Keys;
    }
  }

  lemma FlattenStep(fields: Fields, done: set<string>, prefix: string, flat: Fields, key: string, sub: Fields)
    requires key in fields && key !in done
    requires IsFlatOf(fields, done, prefix, flat)
    requires IsFlat(fields[key], Extend(prefix, key), sub)
    ensures IsFlatOf(fields, done + {key}, prefix, flat + sub)
  {
    var t := Table(fields);
    forall path | path != [] && path[0] in done + {key} && LeafAt(t, path).Some?
      ensures Joined(prefix, path) in flat + sub
    {
      if path[0] == key {
        assert LeafAt(fields[key], path[1..]).Some?;
        assert Joined(Extend(prefix, key), path[1..]) in sub;
      }
    }
    forall k | k in flat + sub
      ensures exists path ::
                LeafAt(t, path) == Some((flat + sub)[k]) && Joined(prefix, path) == k && path != [] &&
                path[0] in done + {key}
    {
      if k in sub {
        var rest :| LeafAt(fields[key], rest) == Some(sub[k]) && Joined(Extend(prefix, key), rest) == k;
        var path := [key] + rest;
        assert path[1..] == rest;
        assert LeafAt(t, path) == Some(sub[k]) && Joined(prefix, path) == k;
      } else {
        var path :| LeafAt(t, path) == Some(flat[k]) && Joined(prefix, path) == k && path != [] && path[0] in done;
        assert path[0] in done + {key};
      }
    }
  }

  // ---- Keys that the dotted form can tell apart ----

  predicate PlainKey(key: string) {
    key != "" && '.' !in key
  }

  /** Every key of every nested table is non-empty and has no dot. */
  predicate PlainKeys(t: Toml)
    decreases t
  {
    t.Table? ==> forall key | key in t.fields :: PlainKey(key) && PlainKeys(t.fields[key])
  }

  predicate PlainPath(path: Path) {
    forall i | 0 <= i < |path| :: PlainKey(path[i])
  }

  lemma {:induction false} LeafPathIsPlain(t: Toml, path: Path)
    requires PlainKeys(t) && LeafAt(t, path).Some?
    ensures PlainPath(path)
    decreases |path|
  {
    if path != [] {
      LeafPathIsPlain(t.fields[path[0]], path[1..]);
      assert forall i | 1 <= i < |path| :: path[i] == path[1..][i - 1];
    }
  }

  function Tail(path: Path): string {
    if path == [] then "" else "." + path[0] + Tail(path[1..])
  }

  lemma {:induction false} JoinedIsTail(prefix: string, path: Path)
    requires prefix != ""
    ensures Joined(prefix, path) == prefix + Tail(path)
    decreases |path|
  {
    if path != [] {
      JoinedIsTail(prefix + "." + path[0], path[1..]);
      assert prefix + "." + path[0] + Tail(path[1..]) == prefix + ("." + path[0] + Tail(path[1..]));
    }
  }

  lemma SameHead(a: string, u: string, b: string, v: string)
    requires '.' !in a && '.' !in b
    requires (u == "" || u[0] == '.') && (v == "" || v[0] == '.')
    requires a + u == b + v
    ensures a == b && u == v
  {
    DotEnds(a, u);
    DotEnds(b, v);
    var s := a + u;
    assert a == s[..|a|] && u == s[|a|..];
    assert s == b + v;
    assert b == s[..|b|] && v == s[|b|..];
  }

  /** The length of the dot-free head of a string. */
  function HeadLength(s: string): nat {
    if s == "" || s[0] == '.' then 0 else 1 + HeadLength(s[1..])
  }

  lemma {:induction false} DotEnds(a: string, u: string)
    requires '.' !in a && (u == "" || u[0] == '.')
    ensures HeadLength(a + u) == |a|
  {
    if a == "" {
      assert a + u == u;
    } else {
      assert (a + u)[1..] == a[1..] + u;
      DotEnds(a[1..], u);
    }
  }

  lemma {:induction false} TailInjective(p: Path, q: Path)
    requires PlainPath(p) && PlainPath(q) && Tail(p) == Tail(q)
    ensures p == q
    decreases |p|
  {
    if p != [] && q != [] {
      assert Tail(p)[1..] == p[0] + Tail(p[1..]);
      assert Tail(q)[1..] == q[0] + Tail(q[1..]);
      SameHead(p[0], Tail(p[1..]), q[0], Tail(q[1..]));
      TailInjective(p[1..], q[1..]);
      assert p == [p[0]] + p[1..] && q == [q[0]] + q[1..];
    }
  }

  /** On plain keys the dotted form determines the path. */
  lemma JoinedInjective(p: Path, q: Path)
    requires PlainPath(p) && PlainPath(q) && Joined("", p) == Joined("", q)
    ensures p == q
  {
    if p != [] { JoinedIsTail(p[0], p[1..]); }
    if q != [] { JoinedIsTail(q[0], q[1..]); }
    if p != [] && q != [] {
      SameHead(p[0], Tail(p[1..]), q[0], Tail(q[1..]));
      assert PlainPath(p[1..]) && PlainPath(q[1..]);
      TailInjective(p[1..], q[1..]);
      assert p == [p[0]] + p[1..] && q == [q[0]] + q[1..];
    }
  }

  // ---- Trees up to empty tables ----

  /** The tree without its empty sub-tables. */
  function Prune(t: Toml): Toml
    decreases t
  {
    if t.Table? then
      Table(map key | key in t.fields && Prune(t.fields[key]) != Table(map[]) :: Prune(t.fields[key]))
    else t
  }

  /** No sub-table is empty. */
  predicate NoEmptyTables(t: Toml)
    decreases t
  {
    t.Table? ==> forall key | key in t.fields :: t.fields[key] != Table(map[]) && NoEmptyTables(t.fields[key])
  }

  lemma {:induction false} PruneKeepsFullTrees(t: Toml)
    requires NoEmptyTables(t)
    ensures Prune(t) == t
    decreases t
  {
    if t.Table? {
      forall key | key in t.fields ensures Prune(t.fields[key]) == t.fields[key] {
        PruneKeepsFullTrees(t.fields[key]);
      }
    }
  }

  lemma {:induction false} PruneKeepsLeaves(t: Toml, path: Path)
    ensures LeafAt(Prune(t), path) == LeafAt(t, path)
    decreases |path|
  {
    if path != [] && t.Table? && path[0] in t.fields {
      PruneKeepsLeaves(t.fields[path[0]], path[1..]);
      assert path[0] !in Prune(t).fields ==> LeafAt(Table(map[]), path[1..]).None?;
    }
  }

  lemma {:induction false} NoLeavesPrunesAway(t: Toml)
    requires forall path :: LeafAt(t, path).None?
    ensures Prune(t) == Table(map[])
    decreases t
  {
    assert LeafAt(t, []).None?;
    forall key | key in t.fields ensures Prune(t.fields[key]) == Table(map[]) {
      forall path ensures LeafAt(t.fields[key], path).None? {
        assert ([key] + path)[1..] == path;
        assert LeafAt(t, [key] + path).None?;
      }
      NoLeavesPrunesAway(t.fields[key]);
    }
  }

  /** Two tables with the same leaves are the same tree once their empty sub-tables are dropped. */
  lemma {:induction false} LeavesDetermineTree(a: Toml, b: Toml)
    requires forall path :: LeafAt(a, path) == LeafAt(b, path)
    ensures Prune(a) == Prune(b)
    decreases a
  {
    assert LeafAt(a, []) == LeafAt(b, []);
    if a.Table? {
      assert b.Table?;
      forall key ensures key in Prune(a).fields <==> key in Prune(b).fields
                 ensures key in Prune(a).fields ==> Prune(a).fields[key] == Prune(b).fields[key]
      {
        forall path ensures key in a.fields ==> LeafAt(a, [key] + path) == LeafAt(a.fields[key], path)
                    ensures key in b.fields ==> LeafAt(b, [key] + path) == LeafAt(b.fields[key], path)
                    ensures LeafAt(a, [key] + path) == LeafAt(b, [key] + path)
        {
          assert ([key] + path)[1..] == path;
        }
        if key in a.fields && key in b.fields {
          forall path ensures LeafAt(a.fields[key], path) == LeafAt(b.fields[key], path) {
            assert LeafAt(a, [key] + path) == LeafAt(b, [key] + path);
          }
          LeavesDetermineTree(a.fields[key], b.fields[key]);
        } else if key in a.fields {
          forall path ensures LeafAt(a.fields[key], path).None? {
            assert LeafAt(a, [key] + path) == LeafAt(b, [key] + path);
          }
          NoLeavesPrunesAway(a.fields[key]);
        } else if key in b.fields {
          forall path ensures LeafAt(b.fields[key], path).None? {
            assert LeafAt(a, [key] + path) == LeafAt(b, [key] + path);
          }
          NoLeavesPrunesAway(b.fields[key]);
        }
      }
    }
  }

  lemma {:induction false} CanonLeaf(t: Toml, path: Path)
    ensures LeafAt(Canon(t), path) == if LeafAt(t, path).Some? then Some(Canon(LeafAt(t, path).value)) else None
    decreases |path|
  {
    if path != [] && t.Table? && path[0] in t.fields {
      CanonLeaf(t.fields[path[0]], path[1..]);
    }
  }

  // ---- Values and empty tables determine a tree ----

  /** An empty table stands at the end of `path`. */
  predicate EmptyAt(t: Toml, path: Path)
    decreases |path|
  {
    if path == [] then t == Table(map[])
    else t.Table? && path[0] in t.fields && EmptyAt(t.fields[path[0]], path[1..])
  }

  predicate HasEnd(t: Toml, path: Path) {
    LeafAt(t, path).Some? || EmptyAt(t, path)
  }

  lemma Below(t: Toml, key: string, path: Path)
    ensures LeafAt(t, [key] + path) == if t.Table? && key in t.fields then LeafAt(t.fields[key], path) else None
    ensures EmptyAt(t, [key] + path) <==> t.Table? && key in t.fields && EmptyAt(t.fields[key], path)
  {
    assert ([key] + path)[1..] == path;
  }

  lemma {:induction false} SomeEnd(t: Toml) returns (path: Path)
    ensures HasEnd(t, path)
    decreases t
  {
    path := [];
    if t.Table? && t.fields != map[] {
      var key :| key in t.fields;
      var rest := SomeEnd(t.fields[key]);
      path := [key] + rest;
      Below(t, key, rest);
    }
  }

  ghost predicate SameEnds(a: Toml, b: Toml) {
    forall path :: LeafAt(a, path) == LeafAt(b, path) && (EmptyAt(a, path) <==> EmptyAt(b, path))
  }

  lemma SameEndsBelow(a: Toml, b: Toml, key: string)
    requires SameEnds(a, b) && a.Table? && b.Table?
    ensures key in a.fields <==> key in b.fields
    ensures key in a.fields && key in b.fields ==> SameEnds(a.fields[key], b.fields[key])
  {
    forall path ensures LeafAt(a, [key] + path) == LeafAt(b, [key] + path)
                ensures EmptyAt(a, [key] + path) <==> EmptyAt(b, [key] + path)
    {
    }
    forall path
      ensures key in a.fields ==> LeafAt(a, [key] + path) == LeafAt(a.fields[key], path)
      ensures key in b.fields ==> LeafAt(b, [key] + path) == LeafAt(b.fields[key], path)
      ensures key in a.fields ==> (EmptyAt(a, [key] + path) <==> EmptyAt(a.fields[key], path))
      ensures key in b.fields ==> (EmptyAt(b, [key] + path) <==> EmptyAt(b.fields[key], path))
      ensures key !in a.fields ==> !HasEnd(a, [key] + path)
      ensures key !in b.fields ==> !HasEnd(b, [key] + path)
    {
      Below(a, key, path);
      Below(b, key, path);
    }
    if key in a.fields {
      var path := SomeEnd(a.fields[key]);
      assert HasEnd(a, [key] + path) && HasEnd(b, [key] + path);
    }
    if key in b.fields {
      var path := SomeEnd(b.fields[key]);
      assert HasEnd(b, [key] + path) && HasEnd(a, [key] + path);
    }
  }

  /** Two trees with the same values and the same empty tables are equal. */
  lemma {:induction false} EndsDetermineTree(a: Toml, b: Toml)
    requires SameEnds(a, b)
    ensures a == b
    decreases a
  {
    assert LeafAt(a, []) == LeafAt(b, []);
    if a.Table? {
      assert b.Table?;
      forall key ensures key in a.fields <==> key in b.fields
                 ensures key in a.fields && key in b.fields ==> a.fields[key] == b.fields[key]
      {
        SameEndsBelow(a, b, key);
        if key in a.fields {
          EndsDetermineTree(a.fields[key], b.fields[key]);
        }
      }
      assert a.fields == b.fields;
    }
  }

  lemma {:induction false} CanonEmpty(t: Toml, path: Path)
    ensures EmptyAt(Canon(t), path) <==> EmptyAt(t, path)
    decreases |path|
  {
    if path == [] {
      if t.Table? {
        assert Canon(t).fields.Keys == t.fields.Keys;
        assert t.fields == map[] <==> t.fields.Keys == {};
        assert Canon(t).fields == map[] <==> Canon(t).fields.Keys == {};
      }
    } else if t.Table? && path[0] in t.fields {
      CanonEmpty(t.fields[path[0]], path[1..]);
    }
  }

  ghost predicate SameValues(a: Toml, b: Toml) {
    forall path :: SameAt(LeafAt(a, path), LeafAt(b, path))
  }

  ghost predicate SameEmptyTables(a: Toml, b: Toml) {
    forall path :: EmptyAt(a, path) <==> EmptyAt(b, path)
  }

  lemma CanonEnds(a: Toml, b: Toml, path: Path)
    ensures LeafAt(Canon(a), path) == LeafAt(Canon(b), path) <==> SameAt(LeafAt(a, path), LeafAt(b, path))
    ensures EmptyAt(Canon(a), path) <==> EmptyAt(a, path)
    ensures EmptyAt(Canon(b), path) <==> EmptyAt(b, path)
  {
    CanonLeaf(a, path);
    CanonLeaf(b, path);
    CanonEmpty(a, path);
    CanonEmpty(b, path);
  }

  /** Python calls two trees equal exactly when they hold equal values under the same paths and have the
      same empty tables. */
  lemma SameTreeExactly(a: Toml, b: Toml)
    ensures Same(a, b) <==> SameValues(a, b) && SameEmptyTables(a, b)
  {
    if Same(a, b) {
      forall path ensures SameAt(LeafAt(a, path), LeafAt(b, path)) && (EmptyAt(a, path) <==> EmptyAt(b, path)) {
        CanonEnds(a, b, path);
      }
    }
    if SameValues(a, b) && SameEmptyTables(a, b) {
      forall path
        ensures LeafAt(Canon(a), path) == LeafAt(Canon(b), path)
        ensures EmptyAt(Canon(a), path) <==> EmptyAt(Canon(b), path)
      {
        CanonEnds(a, b, path);
        assert SameAt(LeafAt(a, path), LeafAt(b, path)) && (EmptyAt(a, path) <==> EmptyAt(b, path));
      }
      EndsDetermineTree(Canon(a), Canon(b));
    }
  }

  // ---- What the flat images of two manifests show ----

  ghost predicate HasLeaf(fields: Fields, path: Path) {
    LeafAt(Table(fields), path).Some?
  }

  /** No two values of the two trees, under different paths, share a dotted key. */
  ghost predicate NoCollision(a: Fields, b: Fields) {
    forall p, q | (HasLeaf(a, p) || HasLeaf(b, p)) && (HasLeaf(a, q) || HasLeaf(b, q)) &&
                  Joined("", p) == Joined("", q) :: p == q
  }

  /** A flat mapping then shows each leaf of either tree under its path, and no more. */
  lemma FlatShowsLeaves(fields: Fields, other: Fields, flat: Fields, path: Path)
    requires NoCollision(fields, other) && IsFlat(Table(fields), "", flat)
    requires HasLeaf(fields, path) || HasLeaf(other, path)
    ensures Get(flat, Joined("", path)) == LeafAt(Table(fields), path)
  {
    var key := Joined("", path);
    if key in flat {
      var p :| LeafAt(Table(fields), p) == Some(flat[key]) && Joined("", p) == key;
      assert HasLeaf(fields, p) && p == path;
    }
  }

  /** The two trees hold the same values, as Python compares them, under the same paths. */
  ghost predicate SameLeaves(a: Fields, b: Fields) {
    forall path :: SameAt(LeafAt(Table(a), path), LeafAt(Table(b), path))
  }

  /** Flattening then loses nothing: the flat images of two manifests agree exactly when the trees
      hold the same values under the same paths. */
  lemma FlatImagesAgreeExactly(a: Fields, b: Fields, flatA: Fields, flatB: Fields)
    requires NoCollision(a, b)
    requires IsFlat(Table(a), "", flatA) && IsFlat(Table(b), "", flatB)
    ensures SameFields(flatA, flatB) <==> SameLeaves(a, b)
  {
    SameFieldsAt(flatA, flatB);
    if SameFields(flatA, flatB) {
      forall path ensures SameAt(LeafAt(Table(a), path), LeafAt(Table(b), path)) {
        if HasLeaf(a, path) || HasLeaf(b, path) {
          FlatShowsLeaves(a, b, flatA, path);
          FlatShowsLeaves(b, a, flatB, path);
          assert SameAt(Get(flatA, Joined("", path)), Get(flatB, Joined("", path)));
        }
      }
    }
    if SameLeaves(a, b) {
      forall key ensures SameAt(Get(flatA, key), Get(flatB, key)) {
        if key in flatA {
          FlatAgreesAt(a, b, flatA, flatB, key);
        } else if key in flatB {
          FlatAgreesAt(b, a, flatB, flatA, key);
        }
      }
    }
  }

  lemma FlatAgreesAt(a: Fields, b: Fields, flatA: Fields, flatB: Fields, key: string)
    requires NoCollision(a, b)
    requires IsFlat(Table(a), "", flatA) && IsFlat(Table(b), "", flatB)
    requires SameLeaves(a, b) && key in flatA
    ensures key in flatB && Same(flatA[key], flatB[key])
  {
    var path :| LeafAt(Table(a), path) == Some(flatA[key]) && Joined("", path) == key;
    assert HasLeaf(a, path);
    assert SameAt(LeafAt(Table(a), path), LeafAt(Table(b), path));
    FlatShowsLeaves(b, a, flatB, path);
  }

  /** The keys on the way to any value are plain. Keys of tables without a value do not count. */
  predicate TellsApart(fields: Fields) {
    PlainKeys(Prune(Table(fields)))
  }

  lemma LeafIsPlain(fields: Fields, path: Path)
    requires TellsApart(fields) && HasLeaf(fields, path)
    ensures PlainPath(path)
  {
    PruneKeepsLeaves(Table(fields), path);
    LeafPathIsPlain(Prune(Table(fields)), path);
  }

  /** Non-empty keys without dots never collide. */
  lemma PlainKeysDoNotCollide(a: Fields, b: Fields)
    requires TellsApart(a) && TellsApart(b)
    ensures NoCollision(a, b)
  {
    forall p, q | (HasLeaf(a, p) || HasLeaf(b, p)) && (HasLeaf(a, q) || HasLeaf(b, q)) && Joined("", p) == Joined("", q)
      ensures p == q
    {
      LeafIsPlain(if HasLeaf(a, p) then a else b, p);
      LeafIsPlain(if HasLeaf(a, q) then a else b, q);
      JoinedInjective(p, q);
    }
  }

  /** The same values under the same paths means the same tree, up to empty sub-tables. */
  lemma SameLeavesIsSameTree(a: Fields, b: Fields)
    ensures SameLeaves(a, b) <==> Prune(Canon(Table(a))) == Prune(Canon(Table(b)))
  {
    var ca, cb := Canon(Table(a)), Canon(Table(b));
    forall path
      ensures LeafAt(ca, path) == LeafAt(cb, path) <==> SameAt(LeafAt(Table(a), path), LeafAt(Table(b), path))
    {
      CanonLeaf(Table(a), path);
      CanonLeaf(Table(b), path);
    }
    if SameLeaves(a, b) {
      LeavesDetermineTree(ca, cb);
    }
    if Prune(ca) == Prune(cb) {
      forall path ensures LeafAt(ca, path) == LeafAt(cb, path) {
        PruneKeepsLeaves(ca, path);
        PruneKeepsLeaves(cb, path);
      }
    }
  }

  /** Without collisions and empty sub-tables, one flat image comes from one tree. */
  lemma FlattenInjective(a: Fields, b: Fields, flat: Fields)
    requires NoCollision(a, b) && NoEmptyTables(Table(a)) && NoEmptyTables(Table(b))
    requires IsFlat(Table(a), "", flat) && IsFlat(Table(b), "", flat)
    ensures a == b
  {
    PruneKeepsFullTrees(Table(a));
    PruneKeepsFullTrees(Table(b));
    forall path ensures LeafAt(Table(a), path) == LeafAt(Table(b), path) {
      if HasLeaf(a, path) || HasLeaf(b, path) {
        FlatShowsLeaves(a, b, flat, path);
        FlatShowsLeaves(b, a, flat, path);
      }
    }
    LeavesDetermineTree(Table(a), Table(b));
  }

  // ---- Trees with one value ----

  /** The tree that holds `value` under `path`, and nothing else. */
  function OneLeaf(path: Path, value: Toml): Toml {
    if path == [] then value else Table(map[path[0] := OneLeaf(path[1..], value)])
  }

  lemma {:induction false} OneLeafAt(path: Path, value: Toml, other: Path)
    requires !value.Table?
    ensures LeafAt(OneLeaf(path, value), other) == if other == path then Some(value) else None
    decreases |path|
  {
    if path != [] && other != [] && other[0] == path[0] {
      OneLeafAt(path[1..], value, other[1..]);
      assert path == [path[0]] + path[1..] && other == [other[0]] + other[1..];
    }
  }

  lemma {:induction false} OneTableAt(path: Path, other: Path)
    ensures LeafAt(OneLeaf(path, Table(map[])), other).None?
    ensures EmptyAt(OneLeaf(path, Table(map[])), other) <==> other == path
    decreases |path|
  {
    assert path != [] ==> path[0] in OneLeaf(path, Table(map[])).fields;
    if path != [] && other != [] && other[0] == path[0] {
      OneTableAt(path[1..], other[1..]);
      assert path == [path[0]] + path[1..] && other == [other[0]] + other[1..];
    }
  }
}
