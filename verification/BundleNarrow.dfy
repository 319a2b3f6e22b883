/** Which bundles fire, and what `--scope` does to that. */
module BundleNarrow {
  import opened Basics
  import opened TextOrder
  import opened BundleSelect

  // ---- Which bundles fire ----

  function EnabledNames(active: ActiveScopes): set<string> {
    set s, n | s in active.scopes && n in s.enable :: n
  }

  function DisabledNames(active: ActiveScopes): set<string> {
    set s, n | s in active.scopes && n in s.disable :: n
  }

  predicate HasTagIn(bundle: Bundle, tags: set<string>) {
    exists t | t in bundle.when :: t in tags
  }

  predicate PassesFilter(bundle: Bundle, tag: Option<string>) {
    tag.None? || tag.value in bundle.when
  }

  predicate Fires(bundle: Bundle, active: ActiveScopes, tag: Option<string>) {
    && bundle.name !in DisabledNames(active)
    && PassesFilter(bundle, tag)
    && (HasTagIn(bundle, active.tags) || bundle.name in EnabledNames(active))
  }

  /** The firing bundles, in declaration order. */
  function Firing(bundles: seq<Bundle>, active: ActiveScopes, tag: Option<string>): (firing: seq<Bundle>)
    ensures forall b :: b in firing <==> b in bundles && Fires(b, active, tag)
  {
    if bundles == [] then []
    else
      var rest := Firing(bundles[1..], active, tag);
      if Fires(bundles[0], active, tag) then [bundles[0]] + rest else rest
  }

  lemma {:induction false} SubsequenceMembers<T>(xs: seq<T>, ys: seq<T>, x: T)
    requires Subsequence(xs, ys) && x in xs
    ensures x in ys
    decreases |ys|
  {
    if xs[0] == ys[0] && Subsequence(xs[1..], ys[1..]) {
      if x != xs[0] {
        SubsequenceMembers(xs[1..], ys[1..], x);
      }
    } else {
      SubsequenceMembers(xs, ys[1..], x);
    }
  }

  lemma {:induction false} FiringMonotone(bundles: seq<Bundle>, less: ActiveScopes, more: ActiveScopes,
                                          tag: Option<string>)
    requires forall b | b in bundles :: Fires(b, less, tag) ==> Fires(b, more, tag)
    ensures Subsequence(Firing(bundles, less, tag), Firing(bundles, more, tag))
  {
    if bundles != [] {
      FiringMonotone(bundles[1..], less, more, tag);
      var b := bundles[0];
      var xs, ys := Firing(bundles[1..], less, tag), Firing(bundles[1..], more, tag);
      assert ([b] + xs)[1..] == xs && ([b] + ys)[1..] == ys;
    }
  }

  // ---- The tags of an evaluated environment ----

  const MAX_TAGS: nat := 64

  lemma {:induction false} SortedSize(xs: seq<string>, s: set<string>)
    requires StrictlySorted(xs)
    requires forall x :: x in xs <==> x in s
    ensures |xs| == |s|
    decreases |xs|
  {
    if xs == [] {
      assert s == {};
    } else {
      var init, last := xs[..|xs| - 1], xs[|xs| - 1];
      assert xs == init + [last];
      assert last !in init;
      SortedSize(init, s - {last});
    }
  }

  /** The alphabetically first tags, as many as the cap allows. */
  ghost function CapTags(tags: set<string>): (kept: set<string>)
    ensures kept <= tags
    ensures |tags| <= 64 ==> kept == tags
    ensures |tags| > 64 ==> |kept| == 64
    ensures forall t, u | t in kept && u in tags - kept :: Le(t, u)
  {
    if |tags| <= MAX_TAGS then tags
    else
      var xs := SortedSet(tags);
      SortedSize(xs, tags);
      var kept := set t | t in xs[..MAX_TAGS];
      SortedSize(xs[..MAX_TAGS], kept);
      kept
  }

  method CapAggregateTags(tags: set<string>) returns (kept: set<string>)
    ensures kept == CapTags(tags)
  {
    if |tags| <= MAX_TAGS {
      return tags;
    }
    var xs := SortStrings(tags);
    SortedSize(xs, tags);
    kept := set t | t in xs[..MAX_TAGS];
  }

  function ScopeTags(scopes: seq<Scope>): set<string> {
    set s, t | s in scopes && t in s.tags :: t
  }

  function OsTag(os: string): set<string> {
    if os == "" then {} else {os}
  }

  function TagUnion(scopes: seq<Scope>, os: string, extraTags: set<string>): set<string> {
    ScopeTags(scopes) + OsTag(os) + extraTags
  }

  /** What the environment evaluates to, once its scopes have matched. */
  ghost function Evaluated(scopes: seq<Scope>, os: string, extraTags: set<string>): ActiveScopes {
    ActiveScopes(scopes, CapTags(TagUnion(scopes, os, extraTags)), extraTags)
  }

  method Evaluate(scopes: seq<Scope>, os: string, extraTags: set<string>) returns (active: ActiveScopes)
    ensures active == Evaluated(scopes, os, extraTags)
  {
    var tags := ScopeTags(scopes);
    if os != "" {
      tags := tags + {os};
    }
    tags := tags + extraTags;
    assert tags == TagUnion(scopes, os, extraTags);
    tags := CapAggregateTags(tags);
    active := ActiveScopes(scopes, tags, extraTags);
  }

  // ---- Narrowing ----

  /** The scopes of this id, each disabling what is given. */
  function ScopesOf(scopes: seq<Scope>, id: string, disabled: seq<string>): (kept: seq<Scope>)
    ensures forall s :: s in kept <==> exists o | o in scopes :: o.id == id && s == o.(disable := disabled)
  {
    if scopes == [] then []
    else
      var rest := ScopesOf(scopes[1..], id, disabled);
      assert scopes == [scopes[0]] + scopes[1..];
      if scopes[0].id == id then [scopes[0].(disable := disabled)] + rest else rest
  }

  ghost function Narrowed(active: ActiveScopes, os: string, id: string): ActiveScopes {
    var kept := ScopesOf(active.scopes, id, SortedSet(DisabledNames(active)));
    if kept == [] then ActiveScopes([], {}, {})
    else ActiveScopes(kept, TagUnion(kept, os, active.extraTags), active.extraTags)
  }

  ghost function SelectedScopes(active: ActiveScopes, os: string, scope: Option<string>): ActiveScopes {
    match scope
    case None => active
    case Some(id) => Narrowed(active, os, id)
  }

  method SelectFiring(bundles: seq<Bundle>, active: ActiveScopes, os: string, scope: Option<string>,
                      tag: Option<string>)
    returns (firing: seq<Bundle>, selected: ActiveScopes)
    ensures selected == SelectedScopes(active, os, scope)
    ensures firing == Firing(bundles, selected, tag)
  {
    if scope.None? {
      return Firing(bundles, active, tag), active;
    }
    var allDisabled := SortStrings(DisabledNames(active));
    var kept := ScopesOf(active.scopes, scope.value, allDisabled);
    if kept == [] {
      selected := ActiveScopes([], {}, {});
      return Firing(bundles, selected, tag), selected;
    }
    var tags := ScopeTags(kept);
    if os != "" {
      tags := tags + {os};
    }
    tags := tags + active.extraTags;
    assert tags == TagUnion(kept, os, active.extraTags);
    selected := ActiveScopes(kept, tags, active.extraTags);
    firing := Firing(bundles, selected, tag);
  }

  // ---- What narrowing keeps ----

  ghost predicate Known(active: ActiveScopes, id: string) {
    exists s | s in active.scopes :: s.id == id
  }

  lemma NarrowedScopes(active: ActiveScopes, os: string, id: string)
    ensures Known(active, id) <==> Narrowed(active, os, id).scopes != []
    ensures forall s :: s in Narrowed(active, os, id).scopes <==>
                        exists o | o in active.scopes ::
                          o.id == id && s == o.(disable := SortedSet(DisabledNames(active)))
  {
    var disabled := SortedSet(DisabledNames(active));
    var kept := ScopesOf(active.scopes, id, disabled);
    if Known(active, id) {
      var o :| o in active.scopes && o.id == id;
      assert o.(disable := disabled) in kept;
    }
    if kept != [] {
      assert kept[0] in kept;
    }
  }

  /** Every active disable survives the narrowing, so the narrowed scopes alone still tell what is off. */
  lemma NarrowedDisables(active: ActiveScopes, os: string, id: string)
    ensures DisabledNames(Narrowed(active, os, id)) == if Known(active, id) then DisabledNames(active) else {}
  {
    NarrowedScopes(active, os, id);
    var narrowed := Narrowed(active, os, id);
    if Known(active, id) {
      forall n ensures n in DisabledNames(narrowed) <==> n in DisabledNames(active) {
        assert narrowed.scopes[0] in narrowed.scopes;
        assert forall s | s in narrowed.scopes :: s.disable == SortedSet(DisabledNames(active));
      }
    }
  }

  lemma NarrowedEnables(active: ActiveScopes, os: string, id: string, name: string)
    ensures name in EnabledNames(Narrowed(active, os, id)) <==>
            exists s | s in active.scopes :: s.id == id && name in s.enable
  {
    NarrowedScopes(active, os, id);
    var narrowed := Narrowed(active, os, id);
    if s :| s in active.scopes && s.id == id && name in s.enable {
      var k := s.(disable := SortedSet(DisabledNames(active)));
      assert k in narrowed.scopes && name in k.enable;
    }
  }

  lemma NarrowedTags(active: ActiveScopes, os: string, id: string, tag: string)
    ensures tag in Narrowed(active, os, id).tags <==>
            exists s | s in active.scopes :: s.id == id && tag in TagUnion([s], os, active.extraTags)
  {
    NarrowedScopes(active, os, id);
    var narrowed := Narrowed(active, os, id);
    if s :| s in active.scopes && s.id == id && tag in TagUnion([s], os, active.extraTags) {
      var k := s.(disable := SortedSet(DisabledNames(active)));
      assert k in narrowed.scopes && k.tags == s.tags;
    }
    if tag in narrowed.tags {
      assert narrowed.scopes[0] in narrowed.scopes;
      var k :| k in narrowed.scopes && (tag in k.tags || tag in OsTag(os) || tag in active.extraTags);
      var o :| o in active.scopes && o.id == id && k == o.(disable := SortedSet(DisabledNames(active)));
      assert o in [o] && o.tags == k.tags;
    }
  }

  /** What one scope contributes: its own tags and enables, the OS tag and the extra tags. */
  ghost predicate SelectedBy(bundle: Bundle, scope: Scope, os: string, extraTags: set<string>) {
    HasTagIn(bundle, TagUnion([scope], os, extraTags)) || bundle.name in scope.enable
  }

  /** With `--scope`, exactly those bundles fire that some scope of that id selects, that pass the tag
      filter, and that no active scope at all disables. An id that no scope has fires nothing. */
  lemma NarrowedFiresExactly(bundles: seq<Bundle>, active: ActiveScopes, os: string, id: string, tag: Option<string>)
    ensures forall b :: b in Firing(bundles, Narrowed(active, os, id), tag) <==>
                        && b in bundles
                        && b.name !in DisabledNames(active)
                        && PassesFilter(b, tag)
                        && exists s | s in active.scopes :: s.id == id && SelectedBy(b, s, os, active.extraTags)
    ensures !Known(active, id) ==> Firing(bundles, Narrowed(active, os, id), tag) == []
  {
    forall b: Bundle ensures Fires(b, Narrowed(active, os, id), tag) <==>
                             b.name !in DisabledNames(active) && PassesFilter(b, tag) &&
                             exists s | s in active.scopes :: s.id == id && SelectedBy(b, s, os, active.extraTags)
    {
      NarrowedFires(b, active, os, id, tag);
    }
    var firing := Firing(bundles, Narrowed(active, os, id), tag);
    if firing != [] {
      assert firing[0] in firing;
    }
  }

  lemma NarrowedFires(b: Bundle, active: ActiveScopes, os: string, id: string, tag: Option<string>)
    ensures Fires(b, Narrowed(active, os, id), tag) <==>
            b.name !in DisabledNames(active) && PassesFilter(b, tag) &&
            exists s | s in active.scopes :: s.id == id && SelectedBy(b, s, os, active.extraTags)
  {
    var narrowed := Narrowed(active, os, id);
    NarrowedScopes(active, os, id);
    NarrowedDisables(active, os, id);
    NarrowedEnables(active, os, id, b.name);
    forall t
      ensures t in narrowed.tags <==>
              exists s | s in active.scopes :: s.id == id && t in TagUnion([s], os, active.extraTags)
    {
      NarrowedTags(active, os, id, t);
    }
    if HasTagIn(b, narrowed.tags) {
      var t :| t in b.when && t in narrowed.tags;
      var s :| s in active.scopes && s.id == id && t in TagUnion([s], os, active.extraTags);
      assert SelectedBy(b, s, os, active.extraTags);
    }
    if s :| s in active.scopes && s.id == id && SelectedBy(b, s, os, active.extraTags) {
      if t :| t in b.when && t in TagUnion([s], os, active.extraTags) {
        assert t in narrowed.tags;
      }
    }
  }

  // ---- Narrowing turns nothing on ----

  predicate TagsComplete(active: ActiveScopes, os: string) {
    TagUnion(active.scopes, os, active.extraTags) <= active.tags
  }

  lemma NarrowedTagsWithin(active: ActiveScopes, os: string, id: string)
    ensures Narrowed(active, os, id).tags <= TagUnion(active.scopes, os, active.extraTags)
  {
    forall t | t in Narrowed(active, os, id).tags ensures t in TagUnion(active.scopes, os, active.extraTags) {
      NarrowedTags(active, os, id, t);
    }
  }

  lemma NarrowedFiresWithin(b: Bundle, active: ActiveScopes, os: string, id: string, tag: Option<string>)
    requires TagsComplete(active, os)
    ensures Fires(b, Narrowed(active, os, id), tag) ==> Fires(b, active, tag)
  {
    NarrowedFires(b, active, os, id, tag);
    NarrowedTagsWithin(active, os, id);
    NarrowedEnables(active, os, id, b.name);
  }

  /** The narrowed bundles are some of the full ones, in the same order. */
  lemma NarrowingTurnsNothingOn(bundles: seq<Bundle>, active: ActiveScopes, os: string, id: string, tag: Option<string>)
    requires TagsComplete(active, os)
    ensures Subsequence(Firing(bundles, Narrowed(active, os, id), tag), Firing(bundles, active, tag))
  {
    forall b | b in bundles ensures Fires(b, Narrowed(active, os, id), tag) ==> Fires(b, active, tag) {
      NarrowedFiresWithin(b, active, os, id, tag);
    }
    FiringMonotone(bundles, Narrowed(active, os, id), active, tag);
  }

  lemma NarrowedTierWithin(b: Bundle, active: ActiveScopes, os: string, id: string, p: nat)
    requires HasTier(b, Narrowed(active, os, id), p)
    ensures HasTier(b, active, p)
  {
    NarrowedScopes(active, os, id);
    if p > 0 {
      var kind := PRECEDENCE[TOP - p];
      var t :| t in b.when && t in KindTags(Narrowed(active, os, id), kind);
      assert t in KindTags(active, kind);
    }
  }

  /** Whatever narrowing places, the full selection places too, from the same folder and at least as high. */
  lemma NarrowingRaisesNothing(bundles: seq<Bundle>, active: ActiveScopes, os: string, id: string, tag: Option<string>,
                               configDir: string, hasContent: string -> bool, i: nat)
    requires TagsComplete(active, os)
    requires var narrowed := Narrowed(active, os, id);
             i < |BundleRefs(narrowed, Firing(bundles, narrowed, tag), configDir, hasContent)|
    ensures var narrowed := Narrowed(active, os, id);
            var ref := BundleRefs(narrowed, Firing(bundles, narrowed, tag), configDir, hasContent)[i];
            exists full | full in BundleRefs(active, Firing(bundles, active, tag), configDir, hasContent) ::
              full.name == ref.name && full.path == ref.path && ref.precedence <= full.precedence
  {
    var narrowed := Narrowed(active, os, id);
    var some, every := Firing(bundles, narrowed, tag), Firing(bundles, active, tag);
    var refs := BundleRefs(narrowed, some, configDir, hasContent);
    var fulls := BundleRefs(active, every, configDir, hasContent);
    var ref := refs[i];
    PlacementIsHighestTier(narrowed, some, configDir, hasContent);
    PlacementIsHighestTier(active, every, configDir, hasContent);
    assert IsHighestTier(ref.name, narrowed, some, ref.precedence);
    var b :| b in some && b.name == ref.name && HasTier(b, narrowed, ref.precedence);
    NarrowedFiresWithin(b, active, os, id, tag);
    NarrowedTierWithin(b, active, os, id, ref.precedence);
    assert ref in refs && ref.name in NamesOf(refs);
    assert b in every && ref.name in NamesOf(fulls);
    var full :| full in fulls && full.name == ref.name;
    var j :| 0 <= j < |fulls| && fulls[j] == full;
    assert IsHighestTier(full.name, active, every, full.precedence);
  }

  // ---- When the tag cap lets narrowing turn a bundle on ----

  /** A name longer than every name of the set. */
  lemma {:induction false} FreshName(names: set<string>) returns (name: string)
    ensures forall n | n in names :: |n| < |name|
  {
    if names == {} {
      name := "";
    } else {
      var n :| n in names;
      var shorter := FreshName(names - {n});
      name := shorter + n + "x";
      assert forall m | m in names :: m in names - {n} || m == n;
    }
  }

  ghost predicate NeverTurnsOn(active: ActiveScopes, os: string) {
    forall bundles, id, tag :: Subsequence(Firing(bundles, Narrowed(active, os, id), tag), Firing(bundles, active, tag))
  }

  lemma DroppedTagTurnsOn(active: ActiveScopes, os: string, id: string, t: string)
    requires t in Narrowed(active, os, id).tags && t !in active.tags
    ensures !NeverTurnsOn(active, os)
  {
    var narrowed := Narrowed(active, os, id);
    var name := FreshName(EnabledNames(active) + DisabledNames(active));
    var b := Bundle(name, [t]);
    NarrowedDisables(active, os, id);
    assert b.when[0] == t;
    assert Fires(b, narrowed, None);
    assert !Fires(b, active, None);
    assert b in Firing([b], narrowed, None);
    if Subsequence(Firing([b], narrowed, None), Firing([b], active, None)) {
      SubsequenceMembers(Firing([b], narrowed, None), Firing([b], active, None), b);
    }
  }

  /** The full selection cuts the tags at the cap and the narrowed one does not. So narrowing can never
      turn a bundle on exactly when all tags together are within the cap, or when there is no scope to
      narrow to. */
  lemma NarrowingIsSafeExactly(scopes: seq<Scope>, os: string, extraTags: set<string>)
    ensures NeverTurnsOn(Evaluated(scopes, os, extraTags), os) <==>
            scopes == [] || |TagUnion(scopes, os, extraTags)| <= MAX_TAGS
  {
    var active, all := Evaluated(scopes, os, extraTags), TagUnion(scopes, os, extraTags);
    if |all| <= MAX_TAGS {
      forall bundles, id, tag
        ensures Subsequence(Firing(bundles, Narrowed(active, os, id), tag), Firing(bundles, active, tag))
      {
        NarrowingTurnsNothingOn(bundles, active, os, id, tag);
      }
    } else if scopes == [] {
      forall bundles, id, tag
        ensures Subsequence(Firing(bundles, Narrowed(active, os, id), tag), Firing(bundles, active, tag))
      {
        NarrowedFiresExactly(bundles, active, os, id, tag);
      }
    } else {
      var t := SomeDropped(all);
      var s := SomeSource(scopes, os, extraTags, t);
      NarrowedTags(active, os, s.id, t);
      DroppedTagTurnsOn(active, os, s.id, t);
    }
  }

  lemma SomeDropped(all: set<string>) returns (t: string)
    requires |all| > MAX_TAGS
    ensures t in all && t !in CapTags(all)
  {
    assert all != CapTags(all);
    t :| t in all && t !in CapTags(all);
  }

  lemma SomeSource(scopes: seq<Scope>, os: string, extraTags: set<string>, t: string) returns (s: Scope)
    requires scopes != [] && t in TagUnion(scopes, os, extraTags)
    ensures s in scopes && t in TagUnion([s], os, extraTags)
  {
    if t in ScopeTags(scopes) {
      s :| s in scopes && t in s.tags;
    } else {
      s := scopes[0];
    }
    assert s in [s];
  }

  // ---- A case over the cap ----

  function As(n: nat): (text: string)
    ensures |text| == n
  {
    seq(n, i => 'a')
  }

  lemma {:induction false} AsOrder(m: nat, n: nat)
    requires m <= n
    ensures Le(As(m), As(n))
  {
    if m > 0 {
      AsOrder(m - 1, n - 1);
      assert As(m)[1..] == As(m - 1) && As(n)[1..] == As(n - 1);
    }
  }

  function CrowdedScopes(): seq<Scope> {
    [Scope("lab", "network", seq(MAX_TAGS, i requires 0 <= i => As(i + 1)), [], []),
     Scope("desk", "host", ["b"], [], [])]
  }

  /** The tag after the first 64 is dropped. */
  lemma NextIsDropped(sorted: seq<string>, tags: set<string>)
    requires StrictlySorted(sorted) && |sorted| > MAX_TAGS
    requires forall t :: t in sorted <==> t in tags
    ensures sorted[MAX_TAGS] !in CapTags(tags)
  {
    SortedUnique(sorted, SortedSet(tags));
    SortedSize(sorted, tags);
  }

  lemma CrowdedInOrder(sorted: seq<string>)
    requires |sorted| == MAX_TAGS + 1 && sorted[MAX_TAGS] == "b"
    requires forall i | 0 <= i < MAX_TAGS :: sorted[i] == As(i + 1)
    ensures StrictlySorted(sorted)
  {
    forall i, j | 0 <= i < j < |sorted| ensures Le(sorted[i], sorted[j]) && sorted[i] != sorted[j] {
      if j < MAX_TAGS {
        AsOrder(i + 1, j + 1);
      } else {
        assert sorted[i][0] == 'a';
      }
    }
  }

  lemma CrowdedTags(t: string)
    ensures t in TagUnion(CrowdedScopes(), "", {}) <==> t in CrowdedScopes()[0].tags + ["b"]
  {
    assert CrowdedScopes()[0] in CrowdedScopes() && CrowdedScopes()[1] in CrowdedScopes();
    assert CrowdedScopes()[1].tags == ["b"];
  }

  lemma CrowdedCap()
    ensures "b" !in CapTags(TagUnion(CrowdedScopes(), "", {}))
  {
    var sorted := CrowdedScopes()[0].tags + ["b"];
    var all := TagUnion(CrowdedScopes(), "", {});
    forall t ensures t in sorted <==> t in all { CrowdedTags(t); }
    CrowdedInOrder(sorted);
    NextIsDropped(sorted, all);
  }

  lemma FiringOne(bundle: Bundle, active: ActiveScopes)
    ensures Firing([bundle], active, None) == if Fires(bundle, active, None) then [bundle] else []
  {
    assert [bundle][1..] == [];
  }

  lemma CrowdedDropsTheDesk(bundle: Bundle, active: ActiveScopes)
    requires bundle.when == ["b"] && active.scopes == CrowdedScopes() && "b" !in active.tags
    ensures !Fires(bundle, active, None)
  {
    assert EnabledNames(active) == {};
  }

  lemma NamedScopeFires(bundle: Bundle, active: ActiveScopes, os: string, scope: Scope, t: string)
    requires scope in active.scopes && t in scope.tags && t in bundle.when && bundle.name !in DisabledNames(active)
    ensures Fires(bundle, Narrowed(active, os, scope.id), None)
  {
    NarrowedFires(bundle, active, os, scope.id, None);
    assert scope in [scope] && t in TagUnion([scope], os, active.extraTags);
    assert SelectedBy(bundle, scope, os, active.extraTags);
  }

  lemma CrowdedFiresTheDesk(bundle: Bundle, active: ActiveScopes)
    requires bundle.when == ["b"] && active.scopes == CrowdedScopes()
    ensures Fires(bundle, Narrowed(active, "", "desk"), None)
  {
    var desk := CrowdedScopes()[1];
    assert desk in active.scopes && "b" in desk.tags && bundle.when[0] == "b";
    NamedScopeFires(bundle, active, "", desk, "b");
  }

  /** Two scopes with 65 tags between them: naming the second turns its bundle on. */
  lemma NarrowingCanTurnOn(bundle: Bundle)
    requires bundle.when == ["b"]
    ensures Firing([bundle], Evaluated(CrowdedScopes(), "", {}), None) == []
    ensures Firing([bundle], Narrowed(Evaluated(CrowdedScopes(), "", {}), "", "desk"), None) == [bundle]
  {
    var active := Evaluated(CrowdedScopes(), "", {});
    CrowdedCap();
    CrowdedDropsTheDesk(bundle, active);
    CrowdedFiresTheDesk(bundle, active);
    FiringOne(bundle, active);
    FiringOne(bundle, Narrowed(active, "", "desk"));
  }

  // ---- The firing rule in words ----

  ghost predicate IsActiveTag(scopes: seq<Scope>, os: string, extraTags: set<string>, tag: string) {
    (exists s | s in scopes :: tag in s.tags) || (os != "" && tag == os) || tag in extraTags
  }

  ghost predicate IsDisabled(scopes: seq<Scope>, name: string) {
    exists s | s in scopes :: name in s.disable
  }

  ghost predicate IsEnabled(scopes: seq<Scope>, name: string) {
    exists s | s in scopes :: name in s.enable
  }

  lemma ActiveTagsAre(scopes: seq<Scope>, os: string, extraTags: set<string>, tag: string)
    ensures tag in TagUnion(scopes, os, extraTags) <==> IsActiveTag(scopes, os, extraTags, tag)
  {
  }

  /** The tags that sort before `tag`. */
  function TagsBefore(tags: set<string>, tag: string): set<string> {
    set u | u in tags && Le(u, tag) && u != tag
  }

  lemma SubsetIsSmaller(a: set<string>, b: set<string>)
    requires a <= b
    ensures |a| <= |b|
  {
    assert b == a + (b - a);
  }

  /** A tag is kept exactly when fewer than 64 others sort before it. */
  lemma KeptExactly(tags: set<string>, tag: string)
    ensures tag in CapTags(tags) <==> tag in tags && |TagsBefore(tags, tag)| < 64
  {
    var kept, before := CapTags(tags), TagsBefore(tags, tag);
    if tag in kept {
      forall u | u in before ensures u in kept - {tag} {
        if u !in kept {
          LeAntisymmetric(tag, u);
        }
      }
      SubsetIsSmaller(before, kept - {tag});
    } else if tag in tags {
      assert kept <= before;
      SubsetIsSmaller(kept, before);
    }
  }

  /** The active tags: those that a scope, the operating system or the environment gives, and before which fewer
      than 64 of them sort. */
  ghost predicate Counts(scopes: seq<Scope>, os: string, extraTags: set<string>, tag: string) {
    IsActiveTag(scopes, os, extraTags, tag) && |TagsBefore(TagUnion(scopes, os, extraTags), tag)| < 64
  }

  /** A bundle fires exactly when no scope disables it, it has the tag that the command line asks for, and a tag
      of it counts or a scope enables it. */
  lemma FiresInWords(scopes: seq<Scope>, os: string, extraTags: set<string>, bundle: Bundle, tag: Option<string>)
    ensures Fires(bundle, Evaluated(scopes, os, extraTags), tag) <==>
            && !IsDisabled(scopes, bundle.name)
            && (tag.Some? ==> tag.value in bundle.when)
            && (IsEnabled(scopes, bundle.name) || exists t | t in bundle.when :: Counts(scopes, os, extraTags, t))
  {
    var active := Evaluated(scopes, os, extraTags);
    forall t ensures t in active.tags <==> Counts(scopes, os, extraTags, t) {
      ActiveTagsAre(scopes, os, extraTags, t);
      KeptExactly(TagUnion(scopes, os, extraTags), t);
    }
    if t :| t in bundle.when && Counts(scopes, os, extraTags, t) {
      assert t in active.tags;
    }
    assert bundle.name in DisabledNames(active) <==> IsDisabled(scopes, bundle.name);
    assert bundle.name in EnabledNames(active) <==> IsEnabled(scopes, bundle.name);
  }

  /** The firing bundles of two lists in a row are those of the first and then those of the second. */
  lemma {:induction false} FiringConcat(a: seq<Bundle>, b: seq<Bundle>, active: ActiveScopes, tag: Option<string>)
    ensures Firing(a + b, active, tag) == Firing(a, active, tag) + Firing(b, active, tag)
  {
    if a == [] {
      assert a + b == b;
    } else {
      assert (a + b)[1..] == a[1..] + b;
      FiringConcat(a[1..], b, active, tag);
    }
  }

  /** A firing bundle stands between those before it and those after it. A bundle that does not fire leaves no
      trace. */
  lemma FiringInOrder(before: seq<Bundle>, bundle: Bundle, after: seq<Bundle>, active: ActiveScopes,
                      tag: Option<string>)
    ensures Firing(before + [bundle] + after, active, tag) ==
            Firing(before, active, tag) + (if Fires(bundle, active, tag) then [bundle] else []) +
            Firing(after, active, tag)
  {
    FiringConcat(before + [bundle], after, active, tag);
    FiringConcat(before, [bundle], active, tag);
    assert Firing([bundle], active, tag) == if Fires(bundle, active, tag) then [bundle] else [];
  }
}
