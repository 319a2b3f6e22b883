/** Removal of null-valued keys from a document, down to a depth limit. */
module JsonNulls {
  import opened Basics
  import opened JsonTree

  const MAX_DEPTH: nat := 64

  /** The value with its null-valued keys dropped, down to `MAX_DEPTH` levels. */
  function StripDepth(value: Json, depth: nat): Json
    decreases value
  {
    if depth > MAX_DEPTH then value
    else
      match value
      case Arr(items) => Arr(seq(|items|, i requires 0 <= i < |items| => StripDepth(items[i], depth + 1)))
      case Obj(fields) => Obj(map k | k in fields && !fields[k].Null? :: StripDepth(fields[k], depth + 1))
      case _ => value
  }

  /** The fields of an object at `depth`, stripped. */
  function StripFields(fields: Entries, depth: nat): Entries {
    map k | k in fields && !fields[k].Null? :: StripDepth(fields[k], depth + 1)
  }

  method StripItems(items: seq<Json>, depth: nat) returns (stripped: seq<Json>)
    ensures |stripped| == |items| && forall i | 0 <= i < |items| :: stripped[i] == StripDepth(items[i], depth)
    decreases items, 1
  {
    stripped := [];
    for i := 0 to |items|
      invariant |stripped| == i && forall k | 0 <= k < i :: stripped[k] == StripDepth(items[k], depth)
    {
      var item := StripNulls(items[i], depth);
      stripped := stripped + [item];
    }
  }

  /** Drop the null-valued keys of every object down to the depth limit. */
  method StripNulls(value: Json, depth: nat) returns (stripped: Json)
    ensures stripped == StripDepth(value, depth)
    decreases value, 0
  {
    if depth > MAX_DEPTH {
      return value;
    }
    match value {
      case Arr(items) =>
        var done := StripItems(items, depth + 1);
        stripped := Arr(done);
      case Obj(fields) =>
        var kept := map k | k in fields && !fields[k].Null? :: fields[k];
        var todo := kept.Keys;
        var done: Entries := map[];
        while todo != {}
          invariant todo <= kept.Keys
          invariant done == map k | k in kept && k !in todo :: StripDepth(kept[k], depth + 1)
        {
          var k :| k in todo;
          var v := StripNulls(fields[k], depth + 1);
          done := done[k := v];
          todo := todo - {k};
        }
        stripped := Obj(done);
      case _ =>
        stripped := value;
    }
  }

  // ---- Against the strip without a limit ----

  /** Every null-valued key dropped, at any depth. A null in an array stays. */
  function StripAll(value: Json): Json
    decreases value
  {
    match value
    case Arr(items) => Arr(seq(|items|, i requires 0 <= i < |items| => StripAll(items[i])))
    case Obj(fields) => Obj(map k | k in fields && !fields[k].Null? :: StripAll(fields[k]))
    case _ => value
  }

  /** No object, at any depth, has a null-valued key. */
  predicate NoNullKeys(value: Json)
    decreases value
  {
    match value
    case Arr(items) => forall i | 0 <= i < |items| :: NoNullKeys(items[i])
    case Obj(fields) => forall k | k in fields :: !fields[k].Null? && NoNullKeys(fields[k])
    case _ => true
  }

  lemma {:induction false} StripAllFixes(value: Json)
    ensures StripAll(value) == value <==> NoNullKeys(value)
    ensures NoNullKeys(StripAll(value))
    ensures StripAll(value).Null? <==> value.Null?
    decreases value
  {
    match value
    case Arr(items) =>
      forall i | 0 <= i < |items|
        ensures StripAll(items[i]) == items[i] <==> NoNullKeys(items[i])
        ensures NoNullKeys(StripAll(items[i]))
      {
        StripAllFixes(items[i]);
      }
      var stripped := StripAll(value).items;
      if stripped == items {
        forall i | 0 <= i < |items| ensures NoNullKeys(items[i]) { assert stripped[i] == StripAll(items[i]); }
      }
      if NoNullKeys(value) { assert stripped == items; }
    case Obj(fields) =>
      forall k | k in fields
        ensures StripAll(fields[k]) == fields[k] <==> NoNullKeys(fields[k])
        ensures NoNullKeys(StripAll(fields[k]))
        ensures StripAll(fields[k]).Null? <==> fields[k].Null?
      {
        StripAllFixes(fields[k]);
      }
      var stripped := StripAll(value).fields;
      if stripped == fields {
        forall k | k in fields ensures !fields[k].Null? && NoNullKeys(fields[k]) {
          assert k in stripped && stripped[k] == StripAll(fields[k]);
        }
      }
      if NoNullKeys(value) { assert stripped == fields; }
    case _ =>
  }

  /** Below the depth limit there is nothing left to drop. */
  predicate CleanBelow(value: Json, depth: nat)
    decreases value
  {
    if depth > MAX_DEPTH then NoNullKeys(value)
    else
      match value
      case Arr(items) => forall i | 0 <= i < |items| :: CleanBelow(items[i], depth + 1)
      case Obj(fields) => forall k | k in fields && !fields[k].Null? :: CleanBelow(fields[k], depth + 1)
      case _ => true
  }

  /** The limited strip is the full one exactly when nothing below the limit needs it. */
  lemma {:induction false} LimitedIsFull(value: Json, depth: nat)
    ensures StripDepth(value, depth) == StripAll(value) <==> CleanBelow(value, depth)
    decreases value
  {
    StripAllFixes(value);
    if depth <= MAX_DEPTH {
      match value
      case Arr(items) =>
        var limited, full := StripDepth(value, depth).items, StripAll(value).items;
        forall i | 0 <= i < |items| ensures limited[i] == full[i] <==> CleanBelow(items[i], depth + 1) {
          LimitedIsFull(items[i], depth + 1);
        }
        if CleanBelow(value, depth) { assert limited == full; }
      case Obj(fields) =>
        var limited, full := StripDepth(value, depth).fields, StripAll(value).fields;
        forall k | k in fields && !fields[k].Null? ensures limited[k] == full[k] <==> CleanBelow(fields[k], depth + 1) {
          LimitedIsFull(fields[k], depth + 1);
        }
        assert limited.Keys == full.Keys;
        if CleanBelow(value, depth) { assert limited == full; }
      case _ =>
    }
  }

  /** No object or array sits deeper than the limit. */
  predicate Shallow(value: Json, depth: nat)
    decreases value
  {
    match value
    case Arr(items) => depth <= MAX_DEPTH && forall i | 0 <= i < |items| :: Shallow(items[i], depth + 1)
    case Obj(fields) => depth <= MAX_DEPTH && forall k | k in fields :: Shallow(fields[k], depth + 1)
    case _ => true
  }

  lemma {:induction false} ShallowIsClean(value: Json, depth: nat)
    requires Shallow(value, depth)
    ensures CleanBelow(value, depth)
    decreases value
  {
    match value
    case Arr(items) =>
      forall i | 0 <= i < |items| ensures CleanBelow(items[i], depth + 1) {
        ShallowIsClean(items[i], depth + 1);
      }
    case Obj(fields) =>
      forall k | k in fields ensures CleanBelow(fields[k], depth + 1) {
        ShallowIsClean(fields[k], depth + 1);
      }
    case _ =>
  }

  /** Stripping twice is stripping once, at any depth. */
  lemma {:induction false} StripIdempotent(value: Json, depth: nat)
    ensures StripDepth(StripDepth(value, depth), depth) == StripDepth(value, depth)
    ensures StripDepth(value, depth).Null? <==> value.Null?
    decreases value
  {
    if depth <= MAX_DEPTH {
      match value
      case Arr(items) =>
        var once := StripDepth(value, depth).items;
        forall i | 0 <= i < |items| ensures StripDepth(once[i], depth + 1) == once[i] {
          StripIdempotent(items[i], depth + 1);
        }
        assert StripDepth(Arr(once), depth).items == once;
      case Obj(fields) =>
        var once := StripDepth(value, depth).fields;
        forall k | k in once ensures StripDepth(once[k], depth + 1) == once[k] && !once[k].Null? {
          StripIdempotent(fields[k], depth + 1);
        }
        assert StripFields(once, depth) == once;
      case _ =>
    }
  }

  // ---- What is at each path ----

  datatype Step = Key(k: string) | Index(i: nat)

  function Child(value: Json, step: Step): Option<Json> {
    match step
    case Key(k) => if value.Obj? && k in value.fields then Some(value.fields[k]) else None
    case Index(i) => if value.Arr? && i < |value.items| then Some(value.items[i]) else None
  }

  function At(value: Json, path: seq<Step>): Option<Json> {
    if path == [] then Some(value)
    else
      match Child(value, path[0])
      case None => None
      case Some(child) => At(child, path[1..])
  }

  /** The path runs through a null-valued key within the depth limit. */
  predicate HitsNullKey(value: Json, depth: nat, path: seq<Step>)
    decreases |path|
  {
    path != [] && depth <= MAX_DEPTH && Child(value, path[0]).Some? &&
    ((path[0].Key? && Child(value, path[0]).value.Null?) ||
      HitsNullKey(Child(value, path[0]).value, depth + 1, path[1..]))
  }

  /** Every path of the stripped value: gone if it runs through a null-valued key within the limit, and
      otherwise what was there, stripped in turn. Deeper than the limit it is untouched. */
  lemma {:induction false} StripAt(value: Json, depth: nat, path: seq<Step>)
    ensures At(StripDepth(value, depth), path) ==
            if HitsNullKey(value, depth, path) || At(value, path).None? then None
            else Some(StripDepth(At(value, path).value, depth + |path|))
    decreases |path|
  {
    if path != [] && Child(value, path[0]).Some? {
      var child := Child(value, path[0]).value;
      StripAt(child, depth + 1, path[1..]);
      if depth > MAX_DEPTH {
        assert Child(StripDepth(value, depth), path[0]) == Some(child);
        assert !HitsNullKey(child, depth + 1, path[1..]);
      } else if path[0].Key? && child.Null? {
        assert Child(StripDepth(value, depth), path[0]).None?;
      } else {
        assert Child(StripDepth(value, depth), path[0]) == Some(StripDepth(child, depth + 1));
      }
    }
  }

  lemma {:induction false} HitsWithinLimit(value: Json, depth: nat, path: seq<Step>)
    requires path != [] && path[|path| - 1].Key? && At(value, path) == Some(Null)
    ensures HitsNullKey(value, depth, path) <==> depth + |path| <= 65
    decreases |path|
  {
    var child := Child(value, path[0]).value;
    if |path| == 1 {
      assert path[1..] == [];
    } else {
      assert !child.Null?;
      HitsWithinLimit(child, depth + 1, path[1..]);
    }
  }

  /** A null-valued key goes exactly when it stands at most 65 levels down. */
  lemma NullGoesExactly(value: Json, path: seq<Step>)
    requires path != [] && path[|path| - 1].Key? && At(value, path) == Some(Null)
    ensures At(StripDepth(value, 0), path).None? <==> |path| <= 65
  {
    HitsWithinLimit(value, 0, path);
    StripAt(value, 0, path);
  }
}
