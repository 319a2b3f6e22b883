/** The placement of firing bundles, in the order of their precedence. */
module BundleSelect {
  import opened HookCommand

  datatype Bundle = Bundle(name: string, when: seq<string>)

  datatype Scope = Scope(id: string, kind: string, tags: seq<string>, enable: seq<string>, disable: seq<string>)

  datatype ActiveScopes = ActiveScopes(scopes: seq<Scope>, tags: set<string>, extraTags: set<string>)

  datatype BundleRef = BundleRef(name: string, path: string, precedence: nat)

  /** Scope kinds, strongest first. */
  const PRECEDENCE: seq<string> := ["network", "host", "user", "content", "project"]

  const TOP: nat := 5

  // ---- Tiers ----

  function KindTags(active: ActiveScopes, kind: string): set<string> {
    set s, t | s in active.scopes && s.kind == kind && t in s.tags :: t
  }

  predicate MatchesKind(bundle: Bundle, active: ActiveScopes, kind: string) {
    exists t | t in bundle.when :: t in KindTags(active, kind)
  }

  /** A bundle has precedence `p` when a scope of that tier carries one of its tags. Every bundle has
      precedence 0. */
  predicate HasTier(bundle: Bundle, active: ActiveScopes, p: nat) {
    p == 0 || (p <= TOP && MatchesKind(bundle, active, PRECEDENCE[TOP - p]))
  }

  /** `p` is the highest tier that a firing bundle of this name matches. */
  ghost predicate IsHighestTier(name: string, active: ActiveScopes, firing: seq<Bundle>, p: nat) {
    && (exists b | b in firing :: b.name == name && HasTier(b, active, p))
    && (forall b, q: nat | b in firing && b.name == name && HasTier(b, active, q) :: q <= p)
  }

  // ---- Placement as one list of attempts ----

  datatype Attempt = Attempt(name: string, precedence: nat)

  /** The firing bundles that match tier `p`, in declaration order. */
  function AttemptsAt(active: ActiveScopes, firing: seq<Bundle>, p: nat): seq<Attempt> {
    if firing == [] then []
    else
      var init, last := AttemptsAt(active, firing[..|firing| - 1], p), firing[|firing| - 1];
      if HasTier(last, active, p) then init + [Attempt(last.name, p)] else init
  }

  function AttemptsFrom(active: ActiveScopes, firing: seq<Bundle>, p: nat): seq<Attempt> {
    AttemptsAt(active, firing, p) + (if p == 0 then [] else AttemptsFrom(active, firing, p - 1))
  }

  predicate IsPlaceable(name: string, hasContent: string -> bool) {
    !IsUnsafeJoinTarget(name) && hasContent(name)
  }

  function RefFor(attempt: Attempt, configDir: string): BundleRef {
    BundleRef(attempt.name, JoinPath(JoinPath(configDir, "bundles"), attempt.name), attempt.precedence)
  }

  function NamesOf(refs: seq<BundleRef>): set<string> {
    set r | r in refs :: r.name
  }

  /** Each attempt in turn places its bundle, unless the name is placed already or cannot be. */
  function Placed(attempts: seq<Attempt>, configDir: string, hasContent: string -> bool): seq<BundleRef> {
    if attempts == [] then []
    else
      var init, last := Placed(attempts[..|attempts| - 1], configDir, hasContent), attempts[|attempts| - 1];
      if last.name in NamesOf(init) || !IsPlaceable(last.name, hasContent) then init
      else init + [RefFor(last, configDir)]
  }

  function BundleRefs(active: ActiveScopes, firing: seq<Bundle>, configDir: string,
                      hasContent: string -> bool): seq<BundleRef> {
    Placed(AttemptsFrom(active, firing, TOP), configDir, hasContent)
  }

  // ---- The nested loops ----

  method PushRef(refs: seq<BundleRef>, seen: set<string>, attempt: Attempt, configDir: string,
                 hasContent: string -> bool,
                 ghost attempts: seq<Attempt>)
    returns (moreRefs: seq<BundleRef>, moreSeen: set<string>)
    requires refs == Placed(attempts, configDir, hasContent) && seen == NamesOf(refs)
    ensures moreRefs == Placed(attempts + [attempt], configDir, hasContent) && moreSeen == NamesOf(moreRefs)
  {
    assert (attempts + [attempt])[..|attempts|] == attempts;
    moreRefs, moreSeen := refs, seen;
    if attempt.name in seen || IsUnsafeJoinTarget(attempt.name) || !hasContent(attempt.name) {
      return;
    }
    moreSeen := seen + {attempt.name};
    moreRefs := refs + [RefFor(attempt, configDir)];
  }

  method PlaceTier(active: ActiveScopes, firing: seq<Bundle>, p: nat, configDir: string, hasContent: string -> bool,
                   refs: seq<BundleRef>, seen: set<string>, ghost attempts: seq<Attempt>)
    returns (moreRefs: seq<BundleRef>, moreSeen: set<string>)
    requires refs == Placed(attempts, configDir, hasContent) && seen == NamesOf(refs)
    ensures moreRefs == Placed(attempts + AttemptsAt(active, firing, p), configDir, hasContent) &&
            moreSeen == NamesOf(moreRefs)
  {
    moreRefs, moreSeen := refs, seen;
    assert attempts + AttemptsAt(active, firing[..0], p) == attempts;
    for i := 0 to |firing|
      invariant moreRefs == Placed(attempts + AttemptsAt(active, firing[..i], p), configDir, hasContent)
      invariant moreSeen == NamesOf(moreRefs)
    {
      assert firing[..i + 1][..i] == firing[..i];
      if HasTier(firing[i], active, p) {
        ghost var before := attempts + AttemptsAt(active, firing[..i], p);
        moreRefs, moreSeen := PushRef(moreRefs, moreSeen, Attempt(firing[i].name, p), configDir, hasContent, before);
        assert before + [Attempt(firing[i].name, p)] == attempts + AttemptsAt(active, firing[..i + 1], p);
      }
    }
    assert firing[..|firing|] == firing;
  }

  /** The attempts made so far and those from tier `p` down are all of them. */
  ghost predicate LeavesFrom(attempts: seq<Attempt>, active: ActiveScopes, firing: seq<Bundle>, p: nat,
                             all: seq<Attempt>) {
    all == attempts + AttemptsFrom(active, firing, p)
  }

  lemma LeavesBelow(attempts: seq<Attempt>, active: ActiveScopes, firing: seq<Bundle>, p: nat, all: seq<Attempt>)
    requires LeavesFrom(attempts, active, firing, p, all)
    ensures p > 0 ==> LeavesFrom(attempts + AttemptsAt(active, firing, p), active, firing, p - 1, all)
    ensures p == 0 ==> attempts + AttemptsAt(active, firing, p) == all
  {
    if p == 0 {
      assert AttemptsAt(active, firing, p) + [] == AttemptsAt(active, firing, p);
    }
  }

  method BuildBundleRefs(active: ActiveScopes, firing: seq<Bundle>, configDir: string, hasContent: string -> bool)
    returns (refs: seq<BundleRef>)
    ensures refs == BundleRefs(active, firing, configDir, hasContent)
  {
    refs := [];
    var seen: set<string> := {};
    ghost var attempts: seq<Attempt> := [];
    ghost var all := AttemptsFrom(active, firing, TOP);
    assert LeavesFrom(attempts, active, firing, TOP, all);
    for tier := 0 to |PRECEDENCE|
      invariant refs == Placed(attempts, configDir, hasContent) && seen == NamesOf(refs)
      invariant LeavesFrom(attempts, active, firing, TOP - tier, all)
    {
      var p := |PRECEDENCE| - tier;
      refs, seen := PlaceTier(active, firing, p, configDir, hasContent, refs, seen, attempts);
      LeavesBelow(attempts, active, firing, p, all);
      attempts := attempts + AttemptsAt(active, firing, p);
    }
    refs, seen := PlaceTier(active, firing, 0, configDir, hasContent, refs, seen, attempts);
    LeavesBelow(attempts, active, firing, 0, all);
  }

  // ---- What the placement means ----

  lemma {:induction false} AttemptsAtAre(active: ActiveScopes, firing: seq<Bundle>, p: nat, name: string, q: nat)
    ensures Attempt(name, q) in AttemptsAt(active, firing, p) <==>
            q == p && exists b | b in firing :: b.name == name && HasTier(b, active, p)
    decreases |firing|
  {
    if firing != [] {
      var init, last := firing[..|firing| - 1], firing[|firing| - 1];
      AttemptsAtAre(active, init, p, name, q);
      assert firing == init + [last];
    }
  }

  lemma {:induction false} AttemptsFromAre(active: ActiveScopes, firing: seq<Bundle>, p: nat, name: string, q: nat)
    ensures Attempt(name, q) in AttemptsFrom(active, firing, p) <==>
            q <= p && exists b | b in firing :: b.name == name && HasTier(b, active, q)
  {
    AttemptsAtAre(active, firing, p, name, q);
    if p > 0 {
      AttemptsFromAre(active, firing, p - 1, name, q);
      var here, rest := AttemptsAt(active, firing, p), AttemptsFrom(active, firing, p - 1);
      assert Attempt(name, q) in here + rest <==> Attempt(name, q) in here || Attempt(name, q) in rest;
    } else {
      assert AttemptsAt(active, firing, p) + [] == AttemptsAt(active, firing, p);
    }
  }

  predicate NonIncreasing(attempts: seq<Attempt>) {
    forall i, j | 0 <= i < j < |attempts| :: attempts[i].precedence >= attempts[j].precedence
  }

  lemma {:induction false} AttemptsFall(active: ActiveScopes, firing: seq<Bundle>, p: nat)
    ensures NonIncreasing(AttemptsFrom(active, firing, p))
    ensures forall a | a in AttemptsFrom(active, firing, p) :: a.precedence <= p
  {
    var here := AttemptsAt(active, firing, p);
    forall a | a in here ensures a.precedence == p {
      AttemptsAtAre(active, firing, p, a.name, a.precedence);
      assert a == Attempt(a.name, a.precedence);
    }
    if p > 0 {
      AttemptsFall(active, firing, p - 1);
      var rest := AttemptsFrom(active, firing, p - 1);
      var all := here + rest;
      forall i, j | 0 <= i < j < |all| ensures all[i].precedence >= all[j].precedence {
        if j < |here| {
          assert all[i] in here && all[j] in here;
        } else if i < |here| {
          assert all[i] in here && all[j] in rest;
        } else {
          assert all[i] == rest[i - |here|] && all[j] == rest[j - |here|];
        }
      }
    } else {
      assert here + [] == here;
      assert forall i | 0 <= i < |here| :: here[i] in here;
    }
  }

  /** Where the name is first attempted. */
  function FirstAt(attempts: seq<Attempt>, name: string): (n: nat)
    ensures n <= |attempts|
    ensures n < |attempts| ==> attempts[n].name == name
    ensures forall i | 0 <= i < n :: attempts[i].name != name
  {
    if attempts == [] || attempts[0].name == name then 0 else 1 + FirstAt(attempts[1..], name)
  }

  lemma FirstAtAppend(attempts: seq<Attempt>, last: Attempt, name: string)
    ensures var n, m := FirstAt(attempts, name), FirstAt(attempts + [last], name);
            m == if n < |attempts| || last.name == name then n else |attempts| + 1
  {
    var all := attempts + [last];
    assert forall i | 0 <= i < |attempts| :: all[i] == attempts[i];
    assert all[|attempts|] == last;
  }

  /** Every ref comes from the first attempt at its name, and refs stand in the order of those. */
  ghost predicate FollowsAttempts(refs: seq<BundleRef>, attempts: seq<Attempt>, configDir: string) {
    && (forall i | 0 <= i < |refs| :: IsFirstAttempt(refs[i], attempts, configDir))
    && (forall i, j | 0 <= i < j < |refs| :: FirstAt(attempts, refs[i].name) < FirstAt(attempts, refs[j].name))
  }

  predicate IsFirstAttempt(ref: BundleRef, attempts: seq<Attempt>, configDir: string) {
    var n := FirstAt(attempts, ref.name);
    n < |attempts| && ref == RefFor(attempts[n], configDir)
  }

  /** A name is placed exactly when it is attempted and can be placed. */
  ghost predicate PlacesExactly(refs: seq<BundleRef>, attempts: seq<Attempt>, hasContent: string -> bool) {
    forall name :: name in NamesOf(refs) <==> IsPlaceable(name, hasContent) && FirstAt(attempts, name) < |attempts|
  }

  lemma {:induction false} PlacedLaws(attempts: seq<Attempt>, configDir: string, hasContent: string -> bool)
    ensures FollowsAttempts(Placed(attempts, configDir, hasContent), attempts, configDir)
    ensures PlacesExactly(Placed(attempts, configDir, hasContent), attempts, hasContent)
    decreases |attempts|
  {
    if attempts == [] {
      return;
    }
    var init, last := attempts[..|attempts| - 1], attempts[|attempts| - 1];
    PlacedLaws(init, configDir, hasContent);
    assert attempts == init + [last];
    var before := Placed(init, configDir, hasContent);
    PassedOver(init, last, before, configDir);
    if last.name in NamesOf(before) || !IsPlaceable(last.name, hasContent) {
      NamesPassedOver(init, last, before, hasContent);
    } else {
      PlacedNext(init, last, before, configDir, hasContent);
      NamesPlacedNext(init, last, before, configDir, hasContent);
    }
  }

  lemma PassedOver(init: seq<Attempt>, last: Attempt, refs: seq<BundleRef>, configDir: string)
    requires FollowsAttempts(refs, init, configDir)
    ensures FollowsAttempts(refs, init + [last], configDir)
  {
    forall i | 0 <= i < |refs|
      ensures FirstAt(init + [last], refs[i].name) == FirstAt(init, refs[i].name)
      ensures IsFirstAttempt(refs[i], init + [last], configDir)
    {
      assert IsFirstAttempt(refs[i], init, configDir);
      FirstAtAppend(init, last, refs[i].name);
    }
  }

  lemma PlacedNext(init: seq<Attempt>, last: Attempt, refs: seq<BundleRef>, configDir: string,
                   hasContent: string -> bool)
    requires FollowsAttempts(refs, init, configDir) && FollowsAttempts(refs, init + [last], configDir)
    requires PlacesExactly(refs, init, hasContent)
    requires last.name !in NamesOf(refs) && IsPlaceable(last.name, hasContent)
    ensures FollowsAttempts(refs + [RefFor(last, configDir)], init + [last], configDir)
  {
    var attempts, more := init + [last], refs + [RefFor(last, configDir)];
    FirstAtAppend(init, last, last.name);
    assert FirstAt(attempts, last.name) == |init|;
    forall i | 0 <= i < |more| ensures IsFirstAttempt(more[i], attempts, configDir) {
      if i < |refs| {
        assert IsFirstAttempt(refs[i], attempts, configDir);
      }
    }
    forall i, j | 0 <= i < j < |more| ensures FirstAt(attempts, more[i].name) < FirstAt(attempts, more[j].name) {
      if j == |refs| {
        assert IsFirstAttempt(refs[i], init, configDir);
        FirstAtAppend(init, last, refs[i].name);
      } else {
        assert more[i] == refs[i] && more[j] == refs[j];
      }
    }
  }

  lemma NamesPassedOver(init: seq<Attempt>, last: Attempt, refs: seq<BundleRef>, hasContent: string -> bool)
    requires PlacesExactly(refs, init, hasContent)
    requires last.name in NamesOf(refs) || !IsPlaceable(last.name, hasContent)
    ensures PlacesExactly(refs, init + [last], hasContent)
  {
    forall name
      ensures name in NamesOf(refs) <==> IsPlaceable(name, hasContent) && FirstAt(init + [last], name) < |init + [last]|
    {
      FirstAtAppend(init, last, name);
    }
  }

  lemma NamesPlacedNext(init: seq<Attempt>, last: Attempt, refs: seq<BundleRef>, configDir: string,
                        hasContent: string -> bool)
    requires PlacesExactly(refs, init, hasContent)
    requires IsPlaceable(last.name, hasContent)
    ensures PlacesExactly(refs + [RefFor(last, configDir)], init + [last], hasContent)
  {
    var more := refs + [RefFor(last, configDir)];
    assert NamesOf(more) == NamesOf(refs) + {last.name} by {
      assert more[|refs|].name == last.name && more[|refs|] in more;
      assert forall r | r in refs :: r in more;
    }
    forall name
      ensures name in NamesOf(more) <==> IsPlaceable(name, hasContent) && FirstAt(init + [last], name) < |init + [last]|
    {
      FirstAtAppend(init, last, name);
    }
  }

  /** Each firing bundle name that is safe and has content is placed exactly once, with the highest tier
      that a firing bundle of that name matches. The list falls in precedence, and within one tier it
      keeps the declaration order. */
  lemma PlacementIsHighestTier(active: ActiveScopes, firing: seq<Bundle>, configDir: string, hasContent: string -> bool)
    ensures var refs := BundleRefs(active, firing, configDir, hasContent);
            && (forall name :: name in NamesOf(refs) <==>
                               IsPlaceable(name, hasContent) && exists b | b in firing :: b.name == name)
            && (forall i, j | 0 <= i < j < |refs| :: refs[i].name != refs[j].name)
            && (forall i | 0 <= i < |refs| :: IsHighestTier(refs[i].name, active, firing, refs[i].precedence))
            && (forall i, j | 0 <= i < j < |refs| :: refs[i].precedence >= refs[j].precedence)
            && FollowsAttempts(refs, AttemptsFrom(active, firing, TOP), configDir)
  {
    var attempts := AttemptsFrom(active, firing, TOP);
    var refs := BundleRefs(active, firing, configDir, hasContent);
    PlacedLaws(attempts, configDir, hasContent);
    AttemptsFall(active, firing, TOP);
    forall name ensures FirstAt(attempts, name) < |attempts| <==> exists b | b in firing :: b.name == name {
      AttemptedNames(active, firing, name);
    }
    forall i | 0 <= i < |refs| ensures IsHighestTier(refs[i].name, active, firing, refs[i].precedence) {
      FirstIsHighest(active, firing, refs[i].name);
    }
  }

  lemma AttemptedNames(active: ActiveScopes, firing: seq<Bundle>, name: string)
    ensures FirstAt(AttemptsFrom(active, firing, TOP), name) < |AttemptsFrom(active, firing, TOP)| <==>
            exists b | b in firing :: b.name == name
  {
    var attempts := AttemptsFrom(active, firing, TOP);
    var n := FirstAt(attempts, name);
    if n < |attempts| {
      assert attempts[n] in attempts && attempts[n] == Attempt(name, attempts[n].precedence);
      AttemptsFromAre(active, firing, TOP, name, attempts[n].precedence);
    }
    if b :| b in firing && b.name == name {
      assert HasTier(b, active, 0);
      AttemptsFromAre(active, firing, TOP, name, 0);
      var i :| 0 <= i < |attempts| && attempts[i] == Attempt(name, 0);
    }
  }

  lemma FirstIsHighest(active: ActiveScopes, firing: seq<Bundle>, name: string)
    requires var attempts := AttemptsFrom(active, firing, TOP); FirstAt(attempts, name) < |attempts|
    ensures var attempts := AttemptsFrom(active, firing, TOP);
            IsHighestTier(name, active, firing, attempts[FirstAt(attempts, name)].precedence)
  {
    var attempts := AttemptsFrom(active, firing, TOP);
    var n := FirstAt(attempts, name);
    var p := attempts[n].precedence;
    AttemptsFall(active, firing, TOP);
    assert attempts[n] == Attempt(name, p) && attempts[n] in attempts;
    AttemptsFromAre(active, firing, TOP, name, p);
    forall b, q: nat | b in firing && b.name == name && HasTier(b, active, q) ensures q <= p {
      AttemptsFromAre(active, firing, TOP, name, q);
      assert Attempt(name, q) in attempts;
      var i :| 0 <= i < |attempts| && attempts[i] == Attempt(name, q);
      assert n <= i;
    }
  }

  // ---- The precedence by scope kind ----

  /** A firing bundle of this name has a tag that an active scope of this kind carries. */
  ghost predicate MatchedBy(name: string, active: ActiveScopes, firing: seq<Bundle>, kind: string) {
    exists b, s, t | b in firing && s in active.scopes && t in s.tags ::
      b.name == name && s.kind == kind && t in b.when
  }

  /** A network scope counts most, then host, user, content and project. */
  ghost function StrongestKind(name: string, active: ActiveScopes, firing: seq<Bundle>): nat {
    if MatchedBy(name, active, firing, "network") then 5
    else if MatchedBy(name, active, firing, "host") then 4
    else if MatchedBy(name, active, firing, "user") then 3
    else if MatchedBy(name, active, firing, "content") then 2
    else if MatchedBy(name, active, firing, "project") then 1
    else 0
  }

  lemma MatchesKindIs(bundle: Bundle, active: ActiveScopes, kind: string)
    ensures MatchesKind(bundle, active, kind) <==>
            exists s, t | s in active.scopes && t in s.tags :: s.kind == kind && t in bundle.when
  {
    if MatchesKind(bundle, active, kind) {
      var t :| t in bundle.when && t in KindTags(active, kind);
      var s :| s in active.scopes && s.kind == kind && t in s.tags;
    }
  }

  ghost predicate SomeHasTier(name: string, active: ActiveScopes, firing: seq<Bundle>, p: nat) {
    exists b | b in firing :: b.name == name && HasTier(b, active, p)
  }

  lemma TierIsKind(name: string, active: ActiveScopes, firing: seq<Bundle>, p: nat, kind: string)
    requires 1 <= p <= 5
    requires kind == ["project", "content", "user", "host", "network"][p - 1]
    ensures SomeHasTier(name, active, firing, p) <==> MatchedBy(name, active, firing, kind)
  {
    assert kind == PRECEDENCE[TOP - p];
    if SomeHasTier(name, active, firing, p) {
      var b :| b in firing && b.name == name && HasTier(b, active, p);
      MatchesKindIs(b, active, kind);
    }
    if MatchedBy(name, active, firing, kind) {
      var b, s, t :| b in firing && s in active.scopes && t in s.tags &&
                     b.name == name && s.kind == kind && t in b.when;
      MatchesKindIs(b, active, kind);
      assert HasTier(b, active, p);
    }
  }

  lemma HighestIsStrongest(name: string, active: ActiveScopes, firing: seq<Bundle>, p: nat)
    requires IsHighestTier(name, active, firing, p)
    ensures p == StrongestKind(name, active, firing)
  {
    TierIsKind(name, active, firing, 5, "network");
    TierIsKind(name, active, firing, 4, "host");
    TierIsKind(name, active, firing, 3, "user");
    TierIsKind(name, active, firing, 2, "content");
    TierIsKind(name, active, firing, 1, "project");
    assert SomeHasTier(name, active, firing, p);
    forall q: nat | SomeHasTier(name, active, firing, q) ensures q <= p {
    }
  }

  /** Every placed bundle has the precedence of the strongest scope kind that matches it. */
  lemma PrecedenceByKind(active: ActiveScopes, firing: seq<Bundle>, configDir: string, hasContent: string -> bool,
                         i: nat)
    requires i < |BundleRefs(active, firing, configDir, hasContent)|
    ensures var ref := BundleRefs(active, firing, configDir, hasContent)[i];
            ref.precedence == StrongestKind(ref.name, active, firing)
  {
    var ref := BundleRefs(active, firing, configDir, hasContent)[i];
    PlacementIsHighestTier(active, firing, configDir, hasContent);
    assert IsHighestTier(ref.name, active, firing, ref.precedence);
    HighestIsStrongest(ref.name, active, firing, ref.precedence);
  }

  lemma PairFalls(active: ActiveScopes, firing: seq<Bundle>, configDir: string, hasContent: string -> bool,
                  i: nat, j: nat)
    requires i < |BundleRefs(active, firing, configDir, hasContent)|
    requires j < |BundleRefs(active, firing, configDir, hasContent)|
    ensures var refs := BundleRefs(active, firing, configDir, hasContent);
            i <= j ==> refs[i].precedence >= refs[j].precedence
  {
    PlacementIsHighestTier(active, firing, configDir, hasContent);
  }

  /** A bundle with a stronger match comes before one with a weaker match. */
  lemma StrongerComesFirst(active: ActiveScopes, firing: seq<Bundle>, configDir: string, hasContent: string -> bool,
                           i: nat, j: nat)
    requires var refs := BundleRefs(active, firing, configDir, hasContent);
             && i < |refs| && j < |refs|
             && StrongestKind(refs[j].name, active, firing) < StrongestKind(refs[i].name, active, firing)
    ensures i < j
  {
    PrecedenceByKind(active, firing, configDir, hasContent, i);
    PrecedenceByKind(active, firing, configDir, hasContent, j);
    PairFalls(active, firing, configDir, hasContent, j, i);
  }

  lemma OnlyProjectIsWeak(name: string, active: ActiveScopes, firing: seq<Bundle>)
    requires forall kind | MatchedBy(name, active, firing, kind) :: kind == "project"
    ensures StrongestKind(name, active, firing) <= 1
  {
    forall kind | kind in {"network", "host", "user", "content"} ensures !MatchedBy(name, active, firing, kind) {
      assert kind[0] != 'p' && "project"[0] == 'p';
    }
  }

  /** A bundle that a network scope matches comes before one that only a project scope matches. */
  lemma NetworkBeforeProject(active: ActiveScopes, firing: seq<Bundle>, configDir: string,
                             hasContent: string -> bool, i: nat, j: nat)
    requires var refs := BundleRefs(active, firing, configDir, hasContent);
             && i < |refs| && j < |refs|
             && MatchedBy(refs[i].name, active, firing, "network")
             && (forall kind | MatchedBy(refs[j].name, active, firing, kind) :: kind == "project")
    ensures i < j
  {
    OnlyProjectIsWeak(BundleRefs(active, firing, configDir, hasContent)[j].name, active, firing);
    StrongerComesFirst(active, firing, configDir, hasContent, i, j);
  }

  // ---- Ties and folders ----

  ghost predicate DeclaredBefore(firing: seq<Bundle>, a: string, b: string) {
    exists x, y | 0 <= x < y < |firing| :: firing[x].name == a && firing[y].name == b
  }

  lemma {:induction false} AttemptsInOrder(active: ActiveScopes, firing: seq<Bundle>, p: nat, i: nat, j: nat)
    requires i < j < |AttemptsAt(active, firing, p)|
    ensures var attempts := AttemptsAt(active, firing, p); DeclaredBefore(firing, attempts[i].name, attempts[j].name)
    decreases |firing|
  {
    var n := |firing| - 1;
    var init := AttemptsAt(active, firing[..n], p);
    var attempts := AttemptsAt(active, firing, p);
    if j < |init| {
      AttemptsInOrder(active, firing[..n], p, i, j);
      var x, y :| 0 <= x < y < n && firing[..n][x].name == init[i].name && firing[..n][y].name == init[j].name;
      assert firing[x].name == attempts[i].name && firing[y].name == attempts[j].name;
    } else {
      AttemptsAtAre(active, firing[..n], p, init[i].name, init[i].precedence);
      assert init[i] == Attempt(init[i].name, init[i].precedence) && init[i] in init;
      var b :| b in firing[..n] && b.name == init[i].name;
      var x :| 0 <= x < n && firing[..n][x] == b;
      assert firing[x].name == attempts[i].name && firing[n].name == attempts[j].name;
    }
  }

  lemma TierFalls(active: ActiveScopes, firing: seq<Bundle>, p: nat, i: nat, j: nat)
    requires i < |AttemptsAt(active, firing, p)| <= j < |AttemptsFrom(active, firing, p)|
    ensures var attempts := AttemptsFrom(active, firing, p); attempts[j].precedence < attempts[i].precedence
  {
    var here, rest := AttemptsAt(active, firing, p), AttemptsFrom(active, firing, p - 1);
    AttemptsAtAre(active, firing, p, here[i].name, here[i].precedence);
    assert here[i] in here && here[i] == Attempt(here[i].name, here[i].precedence);
    AttemptsFall(active, firing, p - 1);
    assert AttemptsFrom(active, firing, p)[j] == rest[j - |here|] && rest[j - |here|] in rest;
  }

  lemma {:induction false} AttemptsOfTier(active: ActiveScopes, firing: seq<Bundle>, p: nat, i: nat, j: nat)
    requires i < j < |AttemptsFrom(active, firing, p)|
    requires var attempts := AttemptsFrom(active, firing, p); attempts[i].precedence == attempts[j].precedence
    ensures var attempts := AttemptsFrom(active, firing, p); DeclaredBefore(firing, attempts[i].name, attempts[j].name)
  {
    var here := AttemptsAt(active, firing, p);
    var rest := if p == 0 then [] else AttemptsFrom(active, firing, p - 1);
    var attempts := AttemptsFrom(active, firing, p);
    assert attempts == here + rest;
    if j < |here| {
      assert attempts[i] == here[i] && attempts[j] == here[j];
      AttemptsInOrder(active, firing, p, i, j);
    } else if i < |here| {
      TierFalls(active, firing, p, i, j);
    } else {
      assert attempts[i] == rest[i - |here|] && attempts[j] == rest[j - |here|];
      AttemptsOfTier(active, firing, p - 1, i - |here|, j - |here|);
    }
  }

  /** Bundles of one precedence stand in the order of their declaration. */
  lemma TiesInDeclarationOrder(active: ActiveScopes, firing: seq<Bundle>, configDir: string,
                               hasContent: string -> bool, i: nat, j: nat)
    requires var refs := BundleRefs(active, firing, configDir, hasContent);
             i < j < |refs| && refs[i].precedence == refs[j].precedence
    ensures var refs := BundleRefs(active, firing, configDir, hasContent);
            DeclaredBefore(firing, refs[i].name, refs[j].name)
  {
    var attempts := AttemptsFrom(active, firing, TOP);
    var refs := BundleRefs(active, firing, configDir, hasContent);
    PlacedLaws(attempts, configDir, hasContent);
    assert IsFirstAttempt(refs[i], attempts, configDir) && IsFirstAttempt(refs[j], attempts, configDir);
    AttemptsOfTier(active, firing, TOP, FirstAt(attempts, refs[i].name), FirstAt(attempts, refs[j].name));
  }

  lemma FolderOf(attempt: Attempt, configDir: string)
    requires !IsUnsafeJoinTarget(attempt.name)
    ensures RefFor(attempt, configDir).path ==
            configDir + (if configDir == "" || configDir[|configDir| - 1] == '/' then "" else "/") + "bundles/" +
            attempt.name
  {
    var folder := configDir + Separator(configDir) + "bundles";
    assert folder[|folder| - 1] == 's';
    assert folder + "/" + attempt.name == configDir + Separator(configDir) + "bundles/" + attempt.name;
  }

  lemma PlacedIsAttempted(active: ActiveScopes, firing: seq<Bundle>, configDir: string, hasContent: string -> bool,
                          i: nat)
    returns (attempt: Attempt)
    requires i < |BundleRefs(active, firing, configDir, hasContent)|
    ensures var ref := BundleRefs(active, firing, configDir, hasContent)[i];
            ref == RefFor(attempt, configDir) && ref.name == attempt.name && IsPlaceable(ref.name, hasContent)
  {
    var attempts := AttemptsFrom(active, firing, TOP);
    var refs := BundleRefs(active, firing, configDir, hasContent);
    PlacedLaws(attempts, configDir, hasContent);
    assert IsFirstAttempt(refs[i], attempts, configDir);
    attempt := attempts[FirstAt(attempts, refs[i].name)];
    assert refs[i] in refs && refs[i].name in NamesOf(refs);
  }

  /** The folder of a placed bundle is `bundles/<name>` under the config folder. */
  lemma PlacedFolder(active: ActiveScopes, firing: seq<Bundle>, configDir: string, hasContent: string -> bool, i: nat)
    requires i < |BundleRefs(active, firing, configDir, hasContent)|
    ensures var ref := BundleRefs(active, firing, configDir, hasContent)[i];
            ref.path ==
            configDir + (if configDir == "" || configDir[|configDir| - 1] == '/' then "" else "/") + "bundles/" +
            ref.name
  {
    var attempt := PlacedIsAttempted(active, firing, configDir, hasContent, i);
    FolderOf(attempt, configDir);
  }
}
