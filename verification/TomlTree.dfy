/** Parsed TOML. Tables are mappings, and equality of values is Python's: `true`, `1` and `1.0` are equal. */
module TomlTree {
  import opened Basics

  datatype Toml =
    | Str(s: string)
    | Int(n: int)
    | Float(r: real)
    | Bool(b: bool)
    | Other(text: string)   // dates and times
    | Arr(items: seq<Toml>)
    | Table(fields: Fields)

  type Fields = map<string, Toml>

  /** The representative of all values that Python calls equal to `t`. */
  function Canon(t: Toml): Toml
    decreases t
  {
    match t
    case Bool(b) => Float(if b then 1.0 else 0.0)
    case Int(n) => Float(n as real)
    case Arr(items) => Arr(seq(|items|, i requires 0 <= i < |items| => Canon(items[i])))
    case Table(fields) => Table(map k | k in fields :: Canon(fields[k]))
    case _ => t
  }

  predicate Same(a: Toml, b: Toml) {
    Canon(a) == Canon(b)
  }

  function CanonFields(fields: Fields): Fields {
    map k | k in fields :: Canon(fields[k])
  }

  predicate SameFields(a: Fields, b: Fields) {
    CanonFields(a) == CanonFields(b)
  }

  function Get(fields: Fields, key: string): Option<Toml> {
    if key in fields then Some(fields[key]) else None
  }

  /** `a.get(key) == b.get(key)` */
  predicate SameAt(a: Option<Toml>, b: Option<Toml>) {
    (a.None? && b.None?) || (a.Some? && b.Some? && Same(a.value, b.value))
  }

  lemma SameFieldsAt(a: Fields, b: Fields)
    ensures SameFields(a, b) <==> forall key :: SameAt(Get(a, key), Get(b, key))
  {
    if SameFields(a, b) {
      forall key ensures SameAt(Get(a, key), Get(b, key)) {
        assert key in a <==> key in CanonFields(a);
        assert key in b <==> key in CanonFields(b);
        if key in a {
          assert CanonFields(a)[key] == CanonFields(b)[key];
        }
      }
    }
    if forall key :: SameAt(Get(a, key), Get(b, key)) {
      assert forall key :: key in a <==> Get(a, key).Some?;
      assert forall key :: key in b <==> Get(b, key).Some?;
      forall key | key in a ensures key in b && Same(a[key], b[key]) {
        assert SameAt(Get(a, key), Get(b, key));
      }
      forall key | key in b ensures key in a {
        assert SameAt(Get(a, key), Get(b, key));
      }
    }
  }

  // ---- When equal values are the same value ----

  predicate IsNumeric(t: Toml) {
    t.Bool? || t.Int? || t.Float?
  }

  /** No boolean, integer or float of one value faces another of these kinds in the other value, at the
      same array index or table key. */
  predicate KindsAgree(a: Toml, b: Toml)
    decreases a
  {
    if a.Arr? && b.Arr? then
      forall i | 0 <= i < |a.items| && i < |b.items| :: KindsAgree(a.items[i], b.items[i])
    else if a.Table? && b.Table? then
      forall key | key in a.fields && key in b.fields :: KindsAgree(a.fields[key], b.fields[key])
    else
      IsNumeric(a) && IsNumeric(b) ==> a.Bool? == b.Bool? && a.Int? == b.Int?
  }

  /** Two values are equal exactly when Python calls them equal and their kinds agree. */
  lemma {:induction false} EqualIsSameOfOneKind(a: Toml, b: Toml)
    ensures a == b <==> Same(a, b) && KindsAgree(a, b)
    decreases a
  {
    if !Same(a, b) {
    } else if a.Arr? {
      SameItems(a.items, b.items);
      forall i | 0 <= i < |a.items| ensures a.items[i] == b.items[i] <==> KindsAgree(a.items[i], b.items[i]) {
        EqualIsSameOfOneKind(a.items[i], b.items[i]);
      }
    } else if a.Table? {
      SameFieldsAt(a.fields, b.fields);
      forall key ensures (key in a.fields <==> key in b.fields)
                 ensures key in a.fields && key in b.fields ==>
                           (a.fields[key] == b.fields[key] <==> KindsAgree(a.fields[key], b.fields[key]))
      {
        assert SameAt(Get(a.fields, key), Get(b.fields, key));
        if key in a.fields {
          EqualIsSameOfOneKind(a.fields[key], b.fields[key]);
        }
      }
      assert KindsAgree(a, b) ==> a.fields == b.fields;
    }
  }

  lemma SameItems(xs: seq<Toml>, ys: seq<Toml>)
    requires Same(Arr(xs), Arr(ys))
    ensures |xs| == |ys| && forall i | 0 <= i < |xs| :: Same(xs[i], ys[i])
  {
    var cx, cy := Canon(Arr(xs)).items, Canon(Arr(ys)).items;
    forall i | 0 <= i < |xs| ensures Same(xs[i], ys[i]) {
      assert cx[i] == Canon(xs[i]) && cy[i] == Canon(ys[i]);
    }
  }
}
