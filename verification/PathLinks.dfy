/** `..` is taken off a path before links are resolved. When that gives the place that the system opens, and
    when it does not. */
module PathLinks {
  import opened Basics
  import opened PathResolve

  // ---- Where the system goes ----

  /** The place that the system reaches part by part: a name is looked up where the walk is, and `..` leaves
      that place, not the name that led to it. */
  function Opened(path: Path, canonicalize: Canonicalize): Option<Path> {
    if path == [] then None
    else
      var before, last := Opened(path[..|path| - 1], canonicalize), path[|path| - 1];
      match last
      case Root => canonicalize([Root])
      case Current => before
      case Parent => if before.Some? then Some(Pop(before.value)) else None
      case Name(_) => if before.Some? then canonicalize(before.value + [last]) else None
  }

  ghost predicate IsAbsolute(path: Path) {
    path != [] && path[0].Root?
  }

  /** Taking `..` off first leads to the place that the system opens, if it opens one. */
  ghost predicate Agrees(path: Path, canonicalize: Canonicalize) {
    Opened(path, canonicalize).Some? ==> canonicalize(Normalized(path)) == Opened(path, canonicalize)
  }

  /** An existing entry really lies in the folder that it is looked up in. A link to somewhere else does
      not. */
  ghost predicate StaysInFolder(folder: Path, name: string, canonicalize: Canonicalize) {
    canonicalize(folder).Some? && canonicalize(folder + [Name(name)]).Some? ==>
      Pop(canonicalize(folder + [Name(name)]).value) == canonicalize(folder).value
  }

  /** No `..` of the path comes after a link that leaves its folder. */
  ghost predicate NoParentAfterLink(path: Path, canonicalize: Canonicalize) {
    forall i, folder, name | 0 <= i < |path| && path[i].Parent? && Normalized(path[..i]) == folder + [Name(name)] ::
      StaysInFolder(folder, name, canonicalize)
  }

  ghost predicate HasRoot(canonicalize: Canonicalize) {
    IsFileSystem(canonicalize) && canonicalize([Root]) == Some([Root])
  }

  lemma {:induction false} AbsoluteStays(path: Path)
    requires IsAbsolute(path)
    ensures IsAbsolute(Normalized(path)) && IsNormal(Normalized(path))
    decreases |path|
  {
    NormalizedIsNormal(path);
    var init := path[..|path| - 1];
    if init == [] {
      assert Normalized(init) == [];
    } else {
      AbsoluteStays(init);
    }
  }

  lemma LastName(path: Path) returns (folder: Path, name: string)
    requires IsAbsolute(path) && IsNormal(path) && |path| > 1
    ensures path == folder + [Name(name)] && folder == Pop(path) && IsAbsolute(folder)
  {
    folder, name := path[..|path| - 1], path[|path| - 1].text;
  }

  /** A path without `..` after such a link is opened where its normalized form says. */
  lemma {:induction false} PathAgrees(path: Path, canonicalize: Canonicalize)
    requires HasRoot(canonicalize) && IsAbsolute(path) && NoParentAfterLink(path, canonicalize)
    ensures Agrees(path, canonicalize)
    decreases |path|
  {
    var init, last := path[..|path| - 1], path[|path| - 1];
    if init != [] && !last.Root? {
      InitIsFine(path, canonicalize);
      PathAgrees(init, canonicalize);
      if Opened(init, canonicalize).Some? {
        StepAgrees(path, init, last, canonicalize);
      }
    }
  }

  lemma InitIsFine(path: Path, canonicalize: Canonicalize)
    requires path != [] && NoParentAfterLink(path, canonicalize)
    ensures NoParentAfterLink(path[..|path| - 1], canonicalize)
  {
    var init := path[..|path| - 1];
    assert forall i | 0 <= i < |init| :: init[i] == path[i] && init[..i] == path[..i];
  }

  lemma StepAgrees(path: Path, init: Path, last: Part, canonicalize: Canonicalize)
    requires HasRoot(canonicalize) && IsAbsolute(init) && path == init + [last] && !last.Root?
    requires NoParentAfterLink(path, canonicalize)
    requires Opened(init, canonicalize).Some? && Agrees(init, canonicalize)
    ensures Agrees(path, canonicalize)
  {
    var normal, place := Normalized(init), Opened(init, canonicalize).value;
    assert path[..|path| - 1] == init;
    AbsoluteStays(init);
    if last.Parent? {
      if |normal| > 1 {
        var folder, name := LastName(normal);
        assert path[|init|].Parent? && path[..|init|] == init;
        assert StaysInFolder(folder, name, canonicalize);
        assert HasFolder(canonicalize, folder, name);
      } else {
        assert normal == [Root];
      }
    } else if last.Name? {
      assert LooksUpInPlace(canonicalize, normal, last.text);
      assert last == Name(last.text);
    }
  }

  // ---- Exactly which file systems ----

  /** No link leaves its folder. */
  ghost predicate LinksStay(canonicalize: Canonicalize) {
    forall folder, name | IsAbsolute(folder) && IsNormal(folder) :: StaysInFolder(folder, name, canonicalize)
  }

  lemma {:induction false} NormalIsOpened(path: Path, canonicalize: Canonicalize)
    requires HasRoot(canonicalize) && IsAbsolute(path) && IsNormal(path) && canonicalize(path).Some?
    ensures Opened(path, canonicalize) == canonicalize(path)
    decreases |path|
  {
    if |path| > 1 {
      var folder, name := LastName(path);
      assert HasFolder(canonicalize, folder, name);
      NormalIsOpened(folder, canonicalize);
      assert LooksUpInPlace(canonicalize, folder, name);
      assert path[..|path| - 1] == folder;
    } else {
      assert path == [Root];
    }
  }

  /** Going into an entry and out again. */
  lemma InAndOut(folder: Path, name: string, canonicalize: Canonicalize)
    requires HasRoot(canonicalize) && IsAbsolute(folder) && IsNormal(folder)
    ensures Agrees(folder + [Name(name)] + [Parent], canonicalize) ==> StaysInFolder(folder, name, canonicalize)
  {
    var inside := folder + [Name(name)];
    var path := inside + [Parent];
    assert path[..|path| - 1] == inside && inside[..|inside| - 1] == folder;
    if canonicalize(folder).Some? && canonicalize(inside).Some? {
      NormalIsOpened(inside, canonicalize);
      NormalIsFixed(inside);
      assert Pop(inside) == folder;
    }
  }

  lemma NormalizedPrefixesStay(path: Path, canonicalize: Canonicalize)
    requires LinksStay(canonicalize) && IsAbsolute(path)
    ensures NoParentAfterLink(path, canonicalize)
  {
    forall i, folder, name | 0 <= i < |path| && path[i].Parent? && Normalized(path[..i]) == folder + [Name(name)]
      ensures StaysInFolder(folder, name, canonicalize)
    {
      AbsoluteStays(path[..i]);
      var normal := folder + [Name(name)];
      assert normal == Normalized(path[..i]);
      assert folder == normal[..|normal| - 1];
      NameNeedsFolder(folder, name);
    }
  }

  lemma NameNeedsFolder(folder: Path, name: string)
    requires IsAbsolute(folder + [Name(name)]) && IsNormal(folder + [Name(name)])
    ensures IsAbsolute(folder) && IsNormal(folder)
  {
    var normal := folder + [Name(name)];
    assert folder == [] ==> normal == [Name(name)];
    assert forall i | 0 <= i < |folder| :: folder[i] == normal[i];
  }

  /** Taking `..` off first is right for every path exactly when no link leaves its folder. */
  lemma LexicalIsRightExactly(canonicalize: Canonicalize)
    requires HasRoot(canonicalize)
    ensures (forall path | IsAbsolute(path) :: Agrees(path, canonicalize)) <==> LinksStay(canonicalize)
  {
    if LinksStay(canonicalize) {
      forall path | IsAbsolute(path) ensures Agrees(path, canonicalize) {
        NormalizedPrefixesStay(path, canonicalize);
        PathAgrees(path, canonicalize);
      }
    }
    if forall path | IsAbsolute(path) :: Agrees(path, canonicalize) {
      forall folder, name | IsAbsolute(folder) && IsNormal(folder) ensures StaysInFolder(folder, name, canonicalize) {
        assert IsAbsolute(folder + [Name(name)] + [Parent]);
        InAndOut(folder, name, canonicalize);
      }
    }
  }

  // ---- Containment ----

  /** The system opens `path`, and `names` go on from there: none, or names of which the first is missing, so
      that a file or folder can be created there. */
  ghost predicate Reaches(path: Path, names: Path, canonicalize: Canonicalize) {
    && IsAbsolute(path) && Opened(path, canonicalize).Some?
    && (forall i | 0 <= i < |names| :: names[i].Name?)
    && (names != [] ==> canonicalize(Opened(path, canonicalize).value + names[..1]).None?)
  }

  lemma {:induction false} NormalizedUpTo(path: Path, names: Path, k: nat)
    requires k <= |names| && forall i | 0 <= i < |names| :: names[i].Name?
    ensures Normalized(path + names[..k]) == Normalized(path) + names[..k]
  {
    if k == 0 {
      assert path + names[..0] == path && Normalized(path) + names[..0] == Normalized(path);
    } else {
      NormalizedUpTo(path, names, k - 1);
      NormalizedStep(path + names[..k - 1], names[k - 1]);
      NextName(path, names, k);
      NextName(Normalized(path), names, k);
    }
  }

  lemma NextName(path: Path, names: Path, k: nat)
    requires 1 <= k <= |names|
    ensures path + names[..k] == path + names[..k - 1] + [names[k - 1]]
  {
  }

  lemma NormalizedNames(path: Path, names: Path)
    requires forall i | 0 <= i < |names| :: names[i].Name?
    ensures Normalized(path + names) == Normalized(path) + names
  {
    NormalizedUpTo(path, names, |names|);
    assert names[..|names|] == names;
  }

  lemma NormalizedStep(path: Path, last: Part)
    ensures Normalized(path + [last]) == PushPart(Normalized(path), last)
  {
    assert (path + [last])[..|path|] == path;
  }

  /** A path to an existing place or to new files below it resolves to where the system has them. */
  lemma ResolvedIsReached(path: Path, names: Path, canonicalize: Canonicalize)
    requires HasRoot(canonicalize) && NoParentAfterLink(path, canonicalize) && Reaches(path, names, canonicalize)
    ensures Resolved(path + names, canonicalize) == Opened(path, canonicalize).value + names
  {
    var normal, place := Normalized(path), Opened(path, canonicalize).value;
    PathAgrees(path, canonicalize);
    AbsoluteStays(path);
    NormalizedNames(path, names);
    ResolvedIs(path + names, canonicalize);
    MissingNames(normal, names, place, canonicalize);
    var all := normal + names;
    assert all[..|normal|] == normal && all[|normal|..] == names;
    assert IsLongestExisting(all, |normal|, canonicalize);
    assert ResolvesTo(path + names, canonicalize, place + names);
  }

  lemma MissingNames(normal: Path, names: Path, place: Path, canonicalize: Canonicalize)
    requires IsFileSystem(canonicalize) && IsAbsolute(normal) && canonicalize(normal) == Some(place)
    requires forall i | 0 <= i < |names| :: names[i].Name?
    requires names != [] ==> canonicalize(place + names[..1]).None?
    ensures forall j | |normal| < j <= |normal + names| :: canonicalize((normal + names)[..j]).None?
  {
    forall j | |normal| < j <= |normal + names| ensures canonicalize((normal + names)[..j]).None? {
      var name := names[0].text;
      assert names[..1] == [Name(name)];
      assert LooksUpInPlace(canonicalize, normal, name);
      MissingBelowMissing(normal, names, canonicalize, j - |normal|);
      assert (normal + names)[..j] == normal + names[..j - |normal|];
    }
  }

  /** The containment test answers for the place that the system reaches. */
  ghost predicate AnswersFor(root: Path, path: Path, names: Path, canonicalize: Canonicalize)
    requires Reaches(path, names, canonicalize)
  {
    Within(root, path + names, canonicalize) <==>
    StartsWith(Opened(path, canonicalize).value + names, Resolved(root, canonicalize))
  }

  /** For a path without `..` after a leaving link it does, whether the path exists or its last names are
      new. */
  lemma WithinIsTrueToTheSystem(root: Path, path: Path, names: Path, canonicalize: Canonicalize)
    requires HasRoot(canonicalize) && NoParentAfterLink(path, canonicalize) && Reaches(path, names, canonicalize)
    ensures AnswersFor(root, path, names, canonicalize)
  {
    ResolvedIsReached(path, names, canonicalize);
  }

  ghost predicate AlwaysAnswers(canonicalize: Canonicalize) {
    forall root, path, names | IsAbsolute(root) && Reaches(path, names, canonicalize) ::
      AnswersFor(root, path, names, canonicalize)
  }

  lemma CanonicalIsResolved(place: Path, canonicalize: Canonicalize)
    requires IsCanonical(place, canonicalize)
    ensures Resolved(place, canonicalize) == place
  {
    NormalIsFixed(place);
    assert place[..|place|] == place;
    ResolvedIs(place, canonicalize);
    ExistingResolves(place, canonicalize, Resolved(place, canonicalize));
  }

  lemma PopIsCanonical(place: Path, canonicalize: Canonicalize)
    requires IsCanonical(place, canonicalize)
    ensures IsCanonical(Pop(place), canonicalize)
  {
    var above := Pop(place);
    if |place| > 1 {
      assert forall k | 1 <= k <= |above| :: above[..k] == place[..k];
    } else {
      assert place == [Root];
    }
  }

  /** Where an entry leaves its folder, the test is wrong for one of two roots: the folder's place, and the
      place that `..` leads to. */
  lemma LeavingLinkMisleads(folder: Path, name: string, canonicalize: Canonicalize)
    requires HasRoot(canonicalize) && IsAbsolute(folder) && IsNormal(folder)
    requires AlwaysAnswers(canonicalize)
    ensures StaysInFolder(folder, name, canonicalize)
  {
    var inside := folder + [Name(name)];
    var path := inside + [Parent];
    if canonicalize(folder).Some? && canonicalize(inside).Some? {
      var here, there := canonicalize(folder).value, Pop(canonicalize(inside).value);
      InAndOutPlaces(folder, name, canonicalize);
      assert Reaches(path, [], canonicalize);
      assert AnswersFor(here, path, [], canonicalize) && AnswersFor(there, path, [], canonicalize);
      assert path + [] == path && there + [] == there;
    }
  }

  lemma InAndOutPlaces(folder: Path, name: string, canonicalize: Canonicalize)
    requires HasRoot(canonicalize) && IsAbsolute(folder) && IsNormal(folder)
    requires canonicalize(folder).Some? && canonicalize(folder + [Name(name)]).Some?
    ensures var path := folder + [Name(name)] + [Parent];
            var here, there := canonicalize(folder).value, Pop(canonicalize(folder + [Name(name)]).value);
            && IsAbsolute(path) && IsAbsolute(here) && IsAbsolute(there)
            && Opened(path, canonicalize) == Some(there) && Resolved(path, canonicalize) == here
            && Resolved(here, canonicalize) == here && Resolved(there, canonicalize) == there
  {
    var inside := folder + [Name(name)];
    var path := inside + [Parent];
    assert path[..|path| - 1] == inside && inside[..|inside| - 1] == folder && Pop(inside) == folder;
    NormalIsOpened(inside, canonicalize);
    NormalIsFixed(inside);
    assert AnswersCanonical(canonicalize, folder) && AnswersCanonical(canonicalize, inside);
    ResolvedIs(path, canonicalize);
    ExistingResolves(path, canonicalize, Resolved(path, canonicalize));
    PopIsCanonical(canonicalize(inside).value, canonicalize);
    CanonicalIsResolved(canonicalize(folder).value, canonicalize);
    CanonicalIsResolved(Pop(canonicalize(inside).value), canonicalize);
  }

  /** The containment test is right for every root and every path, existing or new, exactly when no link
      leaves its folder. */
  lemma WithinIsRightExactly(canonicalize: Canonicalize)
    requires HasRoot(canonicalize)
    ensures AlwaysAnswers(canonicalize) <==> LinksStay(canonicalize)
  {
    if LinksStay(canonicalize) {
      forall root, path, names | IsAbsolute(root) && Reaches(path, names, canonicalize)
        ensures AnswersFor(root, path, names, canonicalize)
      {
        NormalizedPrefixesStay(path, canonicalize);
        WithinIsTrueToTheSystem(root, path, names, canonicalize);
      }
    }
    if AlwaysAnswers(canonicalize) {
      forall folder, name | IsAbsolute(folder) && IsNormal(folder) ensures StaysInFolder(folder, name, canonicalize) {
        LeavingLinkMisleads(folder, name, canonicalize);
      }
    }
  }

  // ---- Trees with links ----

  /** A tree of real places, closed under parents, with links that lead to places. */
  datatype Tree = Tree(places: set<Path>, links: map<Path, Path>) {
    ghost predicate Valid() {
      && [Root] in places
      && (forall p | p in places :: IsAbsolute(p) && IsNormal(p) && Pop(p) in places)
      && (forall p | p in links :: links[p] in places && p !in places)
    }

    function Lookup(path: Path): Option<Path> {
      if path in places then Some(path) else if path in links then Some(links[path]) else None
    }

    function Find(path: Path): Option<Path> {
      if path == [Root] then Some(path)
      else if |path| < 2 || !path[|path| - 1].Name? then None
      else
        match Find(path[..|path| - 1])
        case Some(folder) => Lookup(folder + [path[|path| - 1]])
        case None => None
    }

    function Canonicalizer(): Canonicalize {
      (path: Path) => Find(path)
    }
  }

  lemma FindIsPlace(tree: Tree, path: Path)
    requires tree.Valid() && tree.Find(path).Some?
    ensures tree.Find(path).value in tree.places
  {
  }

  lemma {:induction false} PlaceIsFound(tree: Tree, path: Path)
    requires tree.Valid() && path in tree.places
    ensures tree.Find(path) == Some(path)
    decreases |path|
  {
    if |path| > 1 {
      var folder, name := LastName(path);
      PlaceIsFound(tree, folder);
      assert path[..|path| - 1] == folder && path == folder + [path[|path| - 1]];
    } else {
      assert path == [Root];
    }
  }

  lemma {:induction false} PrefixIsPlace(tree: Tree, path: Path, k: nat)
    requires tree.Valid() && path in tree.places && 1 <= k <= |path|
    ensures path[..k] in tree.places
    decreases |path|
  {
    if k < |path| {
      var folder, name := LastName(path);
      PrefixIsPlace(tree, folder, k);
      assert path[..k] == folder[..k];
    } else {
      assert path[..k] == path;
    }
  }

  lemma FindNext(tree: Tree, path: Path, name: string)
    requires path != []
    ensures tree.Find(path + [Name(name)]) ==
            match tree.Find(path) case Some(folder) => tree.Lookup(folder + [Name(name)]) case None => None
  {
    var next := path + [Name(name)];
    assert next[..|next| - 1] == path && next[|next| - 1] == Name(name);
    assert next != [Root];
  }

  /** Every such tree is a file system, whatever is missing and wherever its links lead. */
  lemma TreeIsFileSystem(tree: Tree)
    requires tree.Valid()
    ensures HasRoot(tree.Canonicalizer())
  {
    var canonicalize := tree.Canonicalizer();
    forall path ensures AnswersCanonical(canonicalize, path) {
      if canonicalize(path).Some? {
        FindIsPlace(tree, path);
        PlaceIsCanonical(tree, canonicalize(path).value);
      }
    }
    forall path, name ensures LooksUpInPlace(canonicalize, path, name) {
      if canonicalize(path).Some? {
        var place := canonicalize(path).value;
        FindIsPlace(tree, path);
        PlaceIsFound(tree, place);
        FindNext(tree, path, name);
        FindNext(tree, place, name);
      }
    }
    forall path, name ensures HasFolder(canonicalize, path, name) {
      if path != [] {
        FindNext(tree, path, name);
      }
    }
  }

  lemma PlaceIsCanonical(tree: Tree, place: Path)
    requires tree.Valid() && place in tree.places
    ensures IsCanonical(place, tree.Canonicalizer())
  {
    forall k | 1 <= k <= |place| ensures tree.Canonicalizer()(place[..k]) == Some(place[..k]) {
      PrefixIsPlace(tree, place, k);
      PlaceIsFound(tree, place[..k]);
    }
  }

  // ---- A link that leaves the root ----

  const CACHE: Path := [Root, Name("cache")]
  const DATA: Path := [Root, Name("data")]
  const SUB: Path := [Root, Name("data"), Name("sub")]
  const LINK: Path := [Root, Name("cache"), Name("link")]

  /** `/cache/link` leads to `/data/sub`. */
  function Linked(): Tree {
    Tree({[Root], CACHE, DATA, SUB}, map[LINK := SUB])
  }

  lemma LinkedIsValid()
    ensures Linked().Valid()
  {
    assert Pop(SUB) == DATA;
    assert Pop(CACHE) == [Root] == Pop(DATA);
  }

  lemma LinkedAnswers(canonicalize: Canonicalize)
    requires canonicalize == Linked().Canonicalizer()
    ensures canonicalize(CACHE) == Some(CACHE) && canonicalize(LINK) == Some(SUB)
  {
    LinkedIsValid();
    PlaceIsFound(Linked(), CACHE);
    FindNext(Linked(), CACHE, "link");
    assert CACHE + [Name("link")] == LINK;
  }

  /** The path `/cache/link/..` counts as within `/cache`, and the system opens `/data`. */
  lemma ParentAfterLinkEscapes()
    ensures var canonicalize, path := Linked().Canonicalizer(), LINK + [Parent];
            && HasRoot(canonicalize)
            && ResolvesTo(CACHE, canonicalize, CACHE) && ResolvesTo(path, canonicalize, CACHE)
            && Opened(path, canonicalize) == Some(DATA) && !StartsWith(DATA, CACHE)
  {
    var canonicalize, path := Linked().Canonicalizer(), LINK + [Parent];
    LinkedIsValid();
    TreeIsFileSystem(Linked());
    LinkedAnswers(canonicalize);
    NormalIsFixed(CACHE);
    ResolvesHere(CACHE, canonicalize);
    ThroughTheLink(path, canonicalize);
    ResolvesHere(path, canonicalize);
    assert DATA[1] != CACHE[1];
  }

  lemma ThroughTheLink(path: Path, canonicalize: Canonicalize)
    requires HasRoot(canonicalize) && path == LINK + [Parent] && canonicalize(LINK) == Some(SUB)
    ensures Normalized(path) == CACHE && Opened(path, canonicalize) == Some(DATA)
  {
    NormalIsOpened(LINK, canonicalize);
    NormalIsFixed(LINK);
    assert path[..|path| - 1] == LINK;
    assert Pop(LINK) == CACHE && Pop(SUB) == DATA;
  }

  lemma ResolvesHere(path: Path, canonicalize: Canonicalize)
    requires Normalized(path) == CACHE && canonicalize(CACHE) == Some(CACHE)
    ensures ResolvesTo(path, canonicalize, CACHE)
  {
    assert CACHE[..2] == CACHE && IsLongestExisting(CACHE, 2, canonicalize);
    assert CACHE + CACHE[2..] == CACHE;
  }
}
