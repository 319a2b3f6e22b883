/** Whether a path lies within a root, with links resolved in the part that exists. */
module PathResolve {
  import opened Basics

  datatype Part = Root | Current | Parent | Name(text: string)

  type Path = seq<Part>

  /** What the file system answers for a path: where it really is, or nothing when it does not exist. */
  type Canonicalize = Path -> Option<Path>

  // ---- Lexical normalization ----

  ghost predicate IsNormal(path: Path) {
    forall i | 0 <= i < |path| :: path[i].Name? || (i == 0 && path[i].Root?)
  }

  function Pop(path: Path): Path {
    if path != [] && path[|path| - 1].Name? then path[..|path| - 1] else path
  }

  function PushPart(path: Path, part: Part): Path {
    match part
    case Parent => Pop(path)
    case Current => path
    case Root => [Root]
    case Name(_) => path + [part]
  }

  function Normalized(path: Path): Path {
    if path == [] then [] else PushPart(Normalized(path[..|path| - 1]), path[|path| - 1])
  }

  method NormalizePath(path: Path) returns (out: Path)
    ensures out == Normalized(path)
    ensures IsNormal(out)
  {
    out := [];
    for i := 0 to |path|
      invariant out == Normalized(path[..i])
    {
      assert path[..i + 1][..i] == path[..i];
      match path[i]
      case Parent => out := Pop(out);
      case Current =>
      case Root => out := [Root];
      case Name(_) => out := out + [path[i]];
    }
    assert path[..|path|] == path;
    NormalizedIsNormal(path);
  }

  lemma {:induction false} NormalizedIsNormal(path: Path)
    ensures IsNormal(Normalized(path))
    decreases |path|
  {
    if path != [] {
      NormalizedIsNormal(path[..|path| - 1]);
    }
  }

  lemma {:induction false} NormalIsFixed(path: Path)
    requires IsNormal(path)
    ensures Normalized(path) == path
    decreases |path|
  {
    if path != [] {
      var init, last := path[..|path| - 1], path[|path| - 1];
      NormalIsFixed(init);
      assert path == init + [last];
      assert last.Root? ==> init == [];
    }
  }

  // ---- The longest prefix that exists ----

  /** The shortest prefix that is tried: the root of an absolute path, or the empty path. */
  function Shortest(path: Path): nat {
    if path != [] && path[0].Root? then 1 else 0
  }

  function Reversed<T>(xs: seq<T>): seq<T> {
    if xs == [] then [] else [xs[|xs| - 1]] + Reversed(xs[..|xs| - 1])
  }

  ghost predicate IsLongestExisting(path: Path, k: nat, canonicalize: Canonicalize) {
    && Shortest(path) <= k <= |path|
    && canonicalize(path[..k]).Some?
    && forall j | k < j <= |path| :: canonicalize(path[..j]).None?
  }

  ghost predicate NothingExists(path: Path, canonicalize: Canonicalize) {
    forall j | Shortest(path) <= j <= |path| :: canonicalize(path[..j]).None?
  }

  /** The longest existing prefix as the file system names it, then the missing names as they are. */
  ghost predicate ResolvesTo(path: Path, canonicalize: Canonicalize, resolved: Path) {
    var normal := Normalized(path);
    || (exists k: nat :: IsLongestExisting(normal, k, canonicalize) &&
                         resolved == canonicalize(normal[..k]).value + normal[k..])
    || (NothingExists(normal, canonicalize) && resolved == normal)
  }

  method ResolveExisting(path: Path, canonicalize: Canonicalize) returns (resolved: Path)
    ensures ResolvesTo(path, canonicalize, resolved)
  {
    var normal := NormalizePath(path);
    var prefix, rest := normal, [];
    while true
      invariant |prefix| <= |normal| && prefix == normal[..|prefix|]
      invariant Reversed(rest) == normal[|prefix|..]
      invariant Shortest(normal) <= |prefix|
      invariant forall j | |prefix| < j <= |normal| :: canonicalize(normal[..j]).None?
      decreases |prefix|
    {
      var found := canonicalize(prefix);
      if found.Some? {
        assert IsLongestExisting(normal, |prefix|, canonicalize);
        return found.value + Reversed(rest);
      }
      if prefix == [] || !prefix[|prefix| - 1].Name? {
        assert |prefix| == Shortest(normal);
        return normal;
      }
      var name := prefix[|prefix| - 1];
      assert (rest + [name])[..|rest|] == rest;
      assert normal[|prefix| - 1..] == [name] + normal[|prefix|..];
      rest := rest + [name];
      prefix := prefix[..|prefix| - 1];
    }
  }

  predicate StartsWith(path: Path, root: Path) {
    |root| <= |path| && path[..|root|] == root
  }

  lemma ResolvesOnlyTo(path: Path, canonicalize: Canonicalize, a: Path, b: Path)
    requires ResolvesTo(path, canonicalize, a) && ResolvesTo(path, canonicalize, b)
    ensures a == b
  {
  }

  /** The prefixes of `normal` up to length `k`, tried from the longest down. */
  function ResolvedFrom(normal: Path, k: nat, canonicalize: Canonicalize): Path
    requires k <= |normal|
  {
    match canonicalize(normal[..k])
    case Some(place) => place + normal[k..]
    case None => if k > 0 && normal[k - 1].Name? then ResolvedFrom(normal, k - 1, canonicalize) else normal
  }

  function Resolved(path: Path, canonicalize: Canonicalize): Path {
    ResolvedFrom(Normalized(path), |Normalized(path)|, canonicalize)
  }

  lemma {:induction false} ResolvedFromIs(normal: Path, k: nat, canonicalize: Canonicalize)
    requires IsNormal(normal) && Shortest(normal) <= k <= |normal|
    requires forall j | k < j <= |normal| :: canonicalize(normal[..j]).None?
    ensures var resolved := ResolvedFrom(normal, k, canonicalize);
            || (exists i: nat :: IsLongestExisting(normal, i, canonicalize) &&
                                 resolved == canonicalize(normal[..i]).value + normal[i..])
            || (NothingExists(normal, canonicalize) && resolved == normal)
  {
    if canonicalize(normal[..k]).Some? {
      assert IsLongestExisting(normal, k, canonicalize);
    } else if k > 0 && normal[k - 1].Name? {
      ResolvedFromIs(normal, k - 1, canonicalize);
    } else {
      assert k == Shortest(normal);
    }
  }

  /** Every path resolves to exactly one path. */
  lemma ResolvedIs(path: Path, canonicalize: Canonicalize)
    ensures ResolvesTo(path, canonicalize, Resolved(path, canonicalize))
    ensures forall p | ResolvesTo(path, canonicalize, p) :: p == Resolved(path, canonicalize)
  {
    NormalizedIsNormal(path);
    ResolvedFromIs(Normalized(path), |Normalized(path)|, canonicalize);
    forall p | ResolvesTo(path, canonicalize, p) ensures p == Resolved(path, canonicalize) {
      ResolvesOnlyTo(path, canonicalize, p, Resolved(path, canonicalize));
    }
  }

  /** The resolved path starts with the components of the resolved root. */
  predicate Within(root: Path, path: Path, canonicalize: Canonicalize) {
    StartsWith(Resolved(path, canonicalize), Resolved(root, canonicalize))
  }

  method IsWithin(root: Path, path: Path, canonicalize: Canonicalize) returns (within: bool)
    ensures within == Within(root, path, canonicalize)
    ensures forall r, p | ResolvesTo(root, canonicalize, r) && ResolvesTo(path, canonicalize, p) ::
            within == StartsWith(p, r)
  {
    var resolvedPath := ResolveExisting(path, canonicalize);
    var resolvedRoot := ResolveExisting(root, canonicalize);
    within := StartsWith(resolvedPath, resolvedRoot);
    ResolvedIs(root, canonicalize);
    ResolvedIs(path, canonicalize);
  }

  // ---- What containment means on a file system ----

  ghost predicate IsCanonical(path: Path, canonicalize: Canonicalize) {
    && path != [] && path[0].Root? && IsNormal(path)
    && forall k | 1 <= k <= |path| :: canonicalize(path[..k]) == Some(path[..k])
  }

  ghost predicate AnswersCanonical(canonicalize: Canonicalize, path: Path) {
    canonicalize(path).Some? ==> IsCanonical(canonicalize(path).value, canonicalize)
  }

  ghost predicate LooksUpInPlace(canonicalize: Canonicalize, path: Path, name: string) {
    canonicalize(path).Some? ==>
      canonicalize(path + [Name(name)]) == canonicalize(canonicalize(path).value + [Name(name)])
  }

  ghost predicate HasFolder(canonicalize: Canonicalize, path: Path, name: string) {
    canonicalize(path + [Name(name)]).Some? && path != [] ==> canonicalize(path).Some?
  }

  /** A file system answers with paths that go through no link, looks a name up in the folder that a
      path really is, and has no entry below a path that does not exist. */
  ghost predicate IsFileSystem(canonicalize: Canonicalize) {
    && (forall path :: AnswersCanonical(canonicalize, path))
    && (forall path, name :: LooksUpInPlace(canonicalize, path, name))
    && (forall path, name :: HasFolder(canonicalize, path, name))
  }

  lemma NextIsMissing(path: Path, k: nat, canonicalize: Canonicalize)
    requires IsFileSystem(canonicalize) && IsNormal(path)
    requires IsLongestExisting(path, k, canonicalize) && k < |path|
    ensures canonicalize(canonicalize(path[..k]).value + [path[k]]).None?
  {
    assert LooksUpInPlace(canonicalize, path[..k], path[k].text);
    assert path[..k + 1] == path[..k] + [Name(path[k].text)];
  }

  lemma ExistingResolves(root: Path, canonicalize: Canonicalize, resolved: Path)
    requires ResolvesTo(root, canonicalize, resolved)
    requires canonicalize(Normalized(root)).Some?
    ensures resolved == canonicalize(Normalized(root)).value
  {
    var normal := Normalized(root);
    assert normal[..|normal|] == normal;
    assert IsLongestExisting(normal, |normal|, canonicalize);
    ResolvesOnlyTo(root, canonicalize, resolved, canonicalize(normal).value + normal[|normal|..]);
  }

  /** A path whose last names do not exist yet is within an existing root exactly when the real place
      of its existing part is. So a link into the root counts as within, a new file below a link that
      leaves the root does not, and missing names can neither enter the root nor leave it. */
  lemma NewFileIsWithinExactly(root: Path, path: Path, k: nat, canonicalize: Canonicalize, realRoot: Path,
                               resolved: Path)
    requires IsFileSystem(canonicalize)
    requires canonicalize(Normalized(root)).Some?
    requires IsLongestExisting(Normalized(path), k, canonicalize)
    requires ResolvesTo(root, canonicalize, realRoot) && ResolvesTo(path, canonicalize, resolved)
    ensures StartsWith(resolved, realRoot) <==> StartsWith(canonicalize(Normalized(path)[..k]).value, realRoot)
  {
    var normal := Normalized(path);
    var place := canonicalize(normal[..k]).value;
    NormalizedIsNormal(path);
    ExistingResolves(root, canonicalize, realRoot);
    assert AnswersCanonical(canonicalize, Normalized(root));
    ResolvesOnlyTo(path, canonicalize, resolved, place + normal[k..]);
    if |realRoot| <= |place| {
      assert resolved[..|realRoot|] == place[..|realRoot|];
    } else if StartsWith(resolved, realRoot) {
      PrefixReaches(place, normal[k..], realRoot);
      NextIsMissing(normal, k, canonicalize);
    }
  }

  lemma PrefixReaches(place: Path, names: Path, prefix: Path)
    requires StartsWith(place + names, prefix) && |place| < |prefix|
    ensures names != [] && prefix[..|place| + 1] == place + [names[0]]
  {
    assert prefix[..|place| + 1] == (place + names)[..|place| + 1];
  }

  lemma {:induction false} MissingBelowMissing(base: Path, names: Path, canonicalize: Canonicalize, j: nat)
    requires IsFileSystem(canonicalize) && base != []
    requires forall i | 0 <= i < |names| :: names[i].Name?
    requires 1 <= j <= |names| && canonicalize(base + names[..1]).None?
    ensures canonicalize(base + names[..j]).None?
    decreases j
  {
    if j > 1 {
      MissingBelowMissing(base, names, canonicalize, j - 1);
      assert HasFolder(canonicalize, base + names[..j - 1], names[j - 1].text);
      assert base + names[..j] == base + names[..j - 1] + [Name(names[j - 1].text)];
    }
  }

  lemma PlaceIsLongest(normal: Path, k: nat, place: Path, canonicalize: Canonicalize)
    requires IsFileSystem(canonicalize) && IsNormal(normal)
    requires IsLongestExisting(normal, k, canonicalize) && place == canonicalize(normal[..k]).value
    ensures IsCanonical(place, canonicalize)
    ensures IsLongestExisting(place + normal[k..], |place|, canonicalize)
  {
    var names := normal[k..];
    var resolved := place + names;
    assert AnswersCanonical(canonicalize, normal[..k]);
    assert resolved[..|place|] == place == place[..|place|];
    forall j | |place| < j <= |resolved| ensures canonicalize(resolved[..j]).None? {
      NextIsMissing(normal, k, canonicalize);
      assert names[..1] == [normal[k]];
      MissingBelowMissing(place, names, canonicalize, j - |place|);
      assert resolved[..j] == place + names[..j - |place|];
    }
  }

  /** Resolving a resolved path changes nothing, so containment may be asked of either form. */
  lemma ResolvedIsFixed(path: Path, canonicalize: Canonicalize, resolved: Path)
    requires IsFileSystem(canonicalize)
    requires ResolvesTo(path, canonicalize, resolved)
    ensures ResolvesTo(resolved, canonicalize, resolved)
  {
    var normal := Normalized(path);
    NormalizedIsNormal(path);
    if NothingExists(normal, canonicalize) {
      NormalIsFixed(normal);
    } else {
      var k := ExistingPrefix(path, canonicalize, resolved);
      ResolvedIsFixedAt(normal, k, canonicalize(normal[..k]).value, canonicalize);
    }
  }

  lemma ExistingPrefix(path: Path, canonicalize: Canonicalize, resolved: Path) returns (k: nat)
    requires ResolvesTo(path, canonicalize, resolved) && !NothingExists(Normalized(path), canonicalize)
    ensures IsLongestExisting(Normalized(path), k, canonicalize)
    ensures resolved == canonicalize(Normalized(path)[..k]).value + Normalized(path)[k..]
  {
    var normal := Normalized(path);
    k :| IsLongestExisting(normal, k, canonicalize) && resolved == canonicalize(normal[..k]).value + normal[k..];
  }

  lemma ResolvedIsFixedAt(normal: Path, k: nat, place: Path, canonicalize: Canonicalize)
    requires IsFileSystem(canonicalize) && IsNormal(normal)
    requires IsLongestExisting(normal, k, canonicalize) && place == canonicalize(normal[..k]).value
    ensures ResolvesTo(place + normal[k..], canonicalize, place + normal[k..])
  {
    PlaceIsLongest(normal, k, place, canonicalize);
    FixedByPlace(place + normal[k..], place, canonicalize);
  }

  lemma FixedByPlace(resolved: Path, place: Path, canonicalize: Canonicalize)
    requires IsCanonical(place, canonicalize) && IsLongestExisting(resolved, |place|, canonicalize)
    requires StartsWith(resolved, place) && forall i | |place| <= i < |resolved| :: resolved[i].Name?
    ensures ResolvesTo(resolved, canonicalize, resolved)
  {
    assert IsNormal(resolved) by {
      assert forall i | 0 <= i < |place| :: resolved[i] == place[i];
    }
    NormalIsFixed(resolved);
    assert place[..|place|] == place;
    assert resolved == place + resolved[|place|..];
  }
}
