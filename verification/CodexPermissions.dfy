/** Classification of neutral permission rules into a Codex filesystem profile, all or nothing. */
module CodexPermissions {
  import opened Basics

  datatype Rule = Rule(tool: string, pattern: Option<string>, paths: seq<string>)

  datatype Permissions = Permissions(allow: seq<Rule>, ask: seq<Rule>, deny: seq<Rule>)

  datatype Access = Read | Write | Deny {
    function Rank(): nat {
      match this
      case Read => 0
      case Write => 1
      case Deny => 2
    }
  }

  datatype Decision =
    | Empty
    | Rendered(entries: map<string, Access>)
    | Refused(unmappable: nat, mappable: nat)

  function Max(a: Access, b: Access): Access {
    if a.Rank() >= b.Rank() then a else b
  }

  /** Equivalent spellings of a path: without one leading `./` and one trailing `/`. */
  function NormalizePath(path: string): string {
    var trimmed := if "./" <= path then path[2..] else path;
    if |trimmed| >= 2 && trimmed[|trimmed| - 1] == '/' then trimmed[..|trimmed| - 1] else trimmed
  }

  function MappableAccess(tool: string): Option<Access> {
    if tool == "Read" then Some(Read)
    else if tool == "Edit" || tool == "Write" || tool == "MultiEdit" then Some(Write)
    else None
  }

  /** A rule that a filesystem entry can say: paths only, on a tool that reads or writes files. */
  predicate IsMappable(rule: Rule) {
    rule.paths != [] && rule.pattern.None? && MappableAccess(rule.tool).Some?
  }

  /** A rule of the `allow` or of the `deny` list. */
  datatype Tiered = Tiered(rule: Rule, denied: bool)

  function AccessOf(tiered: Tiered): Access
    requires IsMappable(tiered.rule)
  {
    if tiered.denied then Deny else MappableAccess(tiered.rule.tool).value
  }

  function TieredRules(perms: Permissions): seq<Tiered> {
    seq(|perms.allow|, i requires 0 <= i < |perms.allow| => Tiered(perms.allow[i], false)) +
    seq(|perms.deny|, i requires 0 <= i < |perms.deny| => Tiered(perms.deny[i], true))
  }

  predicate Names(tiered: Tiered, path: string) {
    exists i | 0 <= i < |tiered.rule.paths| :: NormalizePath(tiered.rule.paths[i]) == path
  }

  // ---- What the profile says ----

  /** `access` is the strongest access that a rule of `rules` gives to `path`. */
  ghost predicate IsStrongest(rules: seq<Tiered>, path: string, access: Access) {
    && (exists i | 0 <= i < |rules| ::
          IsMappable(rules[i].rule) && Names(rules[i], path) && AccessOf(rules[i]) == access)
    && (forall i | 0 <= i < |rules| ::
          IsMappable(rules[i].rule) && Names(rules[i], path) ==> AccessOf(rules[i]).Rank() <= access.Rank())
  }

  /** The entries give each named path its strongest access, and hold no other path. */
  ghost predicate IsProfileOf(entries: map<string, Access>, rules: seq<Tiered>) {
    && (forall path | path in entries :: IsStrongest(rules, path, entries[path]))
    && (forall i, path | 0 <= i < |rules| && IsMappable(rules[i].rule) && Names(rules[i], path) :: path in entries)
  }

  function CountUnmappable(rules: seq<Tiered>): (n: nat)
    ensures n <= |rules|
  {
    if rules == [] then 0
    else CountUnmappable(rules[..|rules| - 1]) + (if IsMappable(rules[|rules| - 1].rule) then 0 else 1)
  }

  ghost predicate IsDecision(perms: Permissions, decision: Decision) {
    var rules := TieredRules(perms);
    var unmappable := |perms.ask| + CountUnmappable(rules);
    if |rules| + |perms.ask| == 0 then decision == Empty
    else if unmappable > 0 then decision == Refused(unmappable, |rules| + |perms.ask| - unmappable)
    else decision.Rendered? && IsProfileOf(decision.entries, rules)
  }

  // ---- The loop ----

  lemma AddRule(entries: map<string, Access>, longer: map<string, Access>, rules: seq<Tiered>, tiered: Tiered)
    requires IsProfileOf(entries, rules) && IsMappable(tiered.rule)
    requires forall path :: path in longer <==> path in entries || Names(tiered, path)
    requires forall path | path in longer ::
               longer[path] == if !Names(tiered, path) then entries[path]
                               else if path in entries then Max(entries[path], AccessOf(tiered))
                               else AccessOf(tiered)
    ensures IsProfileOf(longer, rules + [tiered])
  {
    var all := rules + [tiered];
    assert all[|rules|] == tiered;
    forall path | path in longer ensures IsStrongest(all, path, longer[path]) {
      if path in entries {
        assert IsStrongest(rules, path, entries[path]);
        var i :| 0 <= i < |rules| && IsMappable(rules[i].rule) && Names(rules[i], path) &&
          AccessOf(rules[i]) == entries[path];
        assert all[i] == rules[i];
      }
      forall i | 0 <= i < |all| && IsMappable(all[i].rule) && Names(all[i], path)
        ensures AccessOf(all[i]).Rank() <= longer[path].Rank()
      {
        if i < |rules| {
          assert all[i] == rules[i];
          assert path in entries;
        }
      }
    }
    forall i, path | 0 <= i < |all| && IsMappable(all[i].rule) && Names(all[i], path) ensures path in longer {
      if i < |rules| { assert all[i] == rules[i]; }
    }
  }

  method AddPaths(entries: map<string, Access>, tiered: Tiered) returns (longer: map<string, Access>)
    requires IsMappable(tiered.rule)
    ensures forall path :: path in longer <==> path in entries || Names(tiered, path)
    ensures forall path | path in longer ::
              longer[path] == if !Names(tiered, path) then entries[path]
                              else if path in entries then Max(entries[path], AccessOf(tiered))
                              else AccessOf(tiered)
  {
    longer := entries;
    var paths, access := tiered.rule.paths, AccessOf(tiered);
    for i := 0 to |paths|
      invariant forall path :: path in longer <==> path in entries || NamedIn(paths[..i], path)
      invariant forall path | path in longer :: longer[path] == AccessAfter(entries, paths[..i], access, path)
    {
      var path := NormalizePath(paths[i]);
      NamedNext(paths, i);
      longer := longer[path := if path in longer then Max(longer[path], access) else access];
    }
    assert paths[..|paths|] == paths;
  }

  predicate NamedIn(paths: seq<string>, path: string) {
    exists k | 0 <= k < |paths| :: NormalizePath(paths[k]) == path
  }

  lemma NamedNext(paths: seq<string>, i: nat)
    requires i < |paths|
    ensures forall path :: NamedIn(paths[..i + 1], path) <==>
            NamedIn(paths[..i], path) || NormalizePath(paths[i]) == path
  {
    var less, more := paths[..i], paths[..i + 1];
    assert more[i] == paths[i] && forall k | 0 <= k < i :: more[k] == less[k];
    forall path ensures NamedIn(more, path) <==> NamedIn(less, path) || NormalizePath(paths[i]) == path {
      if k :| 0 <= k < |less| && NormalizePath(less[k]) == path {
        assert NormalizePath(more[k]) == path;
      }
      if k :| 0 <= k < |more| && NormalizePath(more[k]) == path {
        assert k < i ==> NormalizePath(less[k]) == path;
      }
    }
  }

  /** What `path` gets once `paths` ask for `access`. */
  function AccessAfter(entries: map<string, Access>, paths: seq<string>, access: Access, path: string): Access {
    if !NamedIn(paths, path) then (if path in entries then entries[path] else access)
    else if path in entries then Max(entries[path], access)
    else access
  }

  method ClassifyPermissionProfile(perms: Permissions) returns (decision: Decision)
    ensures IsDecision(perms, decision)
  {
    var total := |perms.allow| + |perms.ask| + |perms.deny|;
    var rules := TieredRules(perms);
    if total == 0 {
      return Empty;
    }
    var entries: map<string, Access> := map[];
    var unmappable, mappable := |perms.ask|, 0;
    for i := 0 to |rules|
      invariant unmappable == |perms.ask| + CountUnmappable(rules[..i])
      invariant mappable == i - CountUnmappable(rules[..i]) >= 0
      invariant IsProfileOf(entries, rules[..i])
    {
      assert rules[..i + 1] == rules[..i] + [rules[i]];
      if IsMappable(rules[i].rule) {
        mappable := mappable + 1;
        var longer := AddPaths(entries, rules[i]);
        AddRule(entries, longer, rules[..i], rules[i]);
        entries := longer;
      } else {
        unmappable := unmappable + 1;
        SkipRule(entries, rules[..i], rules[i]);
      }
    }
    assert rules[..|rules|] == rules;
    decision := if unmappable > 0 then Refused(unmappable, mappable) else Rendered(entries);
  }

  lemma SkipRule(entries: map<string, Access>, rules: seq<Tiered>, tiered: Tiered)
    requires IsProfileOf(entries, rules) && !IsMappable(tiered.rule)
    ensures IsProfileOf(entries, rules + [tiered])
  {
    var all := rules + [tiered];
    forall path | path in entries ensures IsStrongest(all, path, entries[path]) {
      assert IsStrongest(rules, path, entries[path]);
      var i :| 0 <= i < |rules| && IsMappable(rules[i].rule) && Names(rules[i], path) &&
        AccessOf(rules[i]) == entries[path];
      assert all[i] == rules[i];
    }
  }

  // ---- What a decision means ----

  lemma {:induction false} NoneUnmappable(rules: seq<Tiered>)
    ensures CountUnmappable(rules) == 0 <==> forall i | 0 <= i < |rules| :: IsMappable(rules[i].rule)
  {
    if rules != [] {
      NoneUnmappable(rules[..|rules| - 1]);
    }
  }

  /** The profile is refused exactly when some rule asks, or is patterned, pathless or on another
      tool. The two counts of a refusal add up to the number of rules. */
  lemma RefusedExactly(perms: Permissions, decision: Decision)
    requires IsDecision(perms, decision)
    ensures decision.Refused? <==>
              perms.ask != [] || (exists i | 0 <= i < |perms.allow| :: !IsMappable(perms.allow[i])) ||
              (exists i | 0 <= i < |perms.deny| :: !IsMappable(perms.deny[i]))
    ensures decision.Refused? ==> decision.unmappable + decision.mappable == |perms.allow| + |perms.ask| + |perms.deny|
    ensures decision.Empty? <==> perms.allow == [] && perms.ask == [] && perms.deny == []
  {
    var rules := TieredRules(perms);
    NoneUnmappable(rules);
    forall i | 0 <= i < |perms.allow| ensures rules[i].rule == perms.allow[i] {}
    forall i | 0 <= i < |perms.deny| ensures rules[|perms.allow| + i].rule == perms.deny[i] {}
    if i :| 0 <= i < |rules| && !IsMappable(rules[i].rule) {
      if i < |perms.allow| {
        assert !IsMappable(perms.allow[i]);
      } else {
        assert !IsMappable(perms.deny[i - |perms.allow|]);
      }
    }
  }

  lemma DeniedPath(rules: seq<Tiered>, i: nat, k: nat, entries: map<string, Access>)
    requires i < |rules| && rules[i].denied && IsMappable(rules[i].rule) && k < |rules[i].rule.paths|
    requires IsProfileOf(entries, rules)
    ensures var path := NormalizePath(rules[i].rule.paths[k]); path in entries && entries[path] == Deny
  {
    var path := NormalizePath(rules[i].rule.paths[k]);
    assert Names(rules[i], path);
    assert IsStrongest(rules, path, entries[path]);
  }

  /** A rendered profile names at least one path, and a denied path stays denied whatever else allows
      it. */
  lemma DenyWins(perms: Permissions, decision: Decision)
    requires IsDecision(perms, decision) && decision.Rendered?
    ensures decision.entries != map[]
    ensures forall i, k | 0 <= i < |perms.deny| && 0 <= k < |perms.deny[i].paths| ::
              var path := NormalizePath(perms.deny[i].paths[k]);
              path in decision.entries && decision.entries[path] == Deny
  {
    var rules := TieredRules(perms);
    NoneUnmappable(rules);
    assert |rules| > 0 && IsMappable(rules[0].rule);
    var first := NormalizePath(rules[0].rule.paths[0]);
    assert Names(rules[0], first);
    assert first in decision.entries;
    forall i, k | 0 <= i < |perms.deny| && 0 <= k < |perms.deny[i].paths|
      ensures var path := NormalizePath(perms.deny[i].paths[k]);
              path in decision.entries && decision.entries[path] == Deny
    {
      assert rules[|perms.allow| + i] == Tiered(perms.deny[i], true);
      DeniedPath(rules, |perms.allow| + i, k, decision.entries);
    }
  }

  lemma {:induction false} CountByRule(rules: seq<Tiered>)
    ensures CountUnmappable(rules) == |Unmappable(multiset(rules))|
  {
    if rules != [] {
      var init, last := rules[..|rules| - 1], rules[|rules| - 1];
      CountByRule(init);
      assert rules == init + [last];
      assert multiset(rules) == multiset(init) + multiset{last};
      UnmappableAdd(multiset(init), last);
    }
  }

  /** The unmappable rules among `rules`, with their multiplicities. */
  ghost function Unmappable(rules: multiset<Tiered>): multiset<Tiered>
    decreases |rules|
  {
    if rules == multiset{} then multiset{}
    else
      var t :| t in rules;
      var rest := Unmappable(rules - multiset{t});
      if IsMappable(t.rule) then rest else rest + multiset{t}
  }

  lemma {:induction false} UnmappableCounts(rules: multiset<Tiered>, t: Tiered)
    ensures Unmappable(rules)[t] == if IsMappable(t.rule) then 0 else rules[t]
    decreases |rules|
  {
    if rules != multiset{} {
      var u :| u in rules && Unmappable(rules) ==
               (if IsMappable(u.rule) then Unmappable(rules - multiset{u})
                else Unmappable(rules - multiset{u}) + multiset{u});
      UnmappableCounts(rules - multiset{u}, t);
    }
  }

  lemma UnmappableAdd(rules: multiset<Tiered>, t: Tiered)
    ensures Unmappable(rules + multiset{t}) ==
            Unmappable(rules) + (if IsMappable(t.rule) then multiset{} else multiset{t})
  {
    forall u
      ensures Unmappable(rules + multiset{t})[u] ==
              (Unmappable(rules) + (if IsMappable(t.rule) then multiset{} else multiset{t}))[u]
    {
      UnmappableCounts(rules + multiset{t}, u);
      UnmappableCounts(rules, u);
    }
  }

  /** The order of the rules does not matter: two rule lists with the same rules in the same tiers
      give the same decision. */
  lemma OrderDoesNotMatter(a: Permissions, b: Permissions, first: Decision, second: Decision)
    requires multiset(TieredRules(a)) == multiset(TieredRules(b)) && |a.ask| == |b.ask|
    requires IsDecision(a, first) && IsDecision(b, second)
    ensures first == second
  {
    var ra, rb := TieredRules(a), TieredRules(b);
    CountByRule(ra);
    CountByRule(rb);
    SameLength(ra, rb);
    if first.Rendered? && second.Rendered? {
      OneProfile(ra, rb, first.entries, second.entries);
    }
  }

  lemma SameLength(a: seq<Tiered>, b: seq<Tiered>)
    requires multiset(a) == multiset(b)
    ensures |a| == |b|
  {
    assert |a| == |multiset(a)| && |b| == |multiset(b)|;
  }

  lemma OneProfile(a: seq<Tiered>, b: seq<Tiered>, first: map<string, Access>, second: map<string, Access>)
    requires multiset(a) == multiset(b) && IsProfileOf(first, a) && IsProfileOf(second, b)
    ensures first == second
  {
    forall path ensures path in first <==> path in second
                ensures path in first && path in second ==> first[path] == second[path]
    {
      if path in first { SameStrongest(a, b, path, first[path]); }
      if path in second { SameStrongest(b, a, path, second[path]); }
      if path in first && path in second { OneStrongest(b, path, first[path], second[path]); }
    }
  }

  lemma OneStrongest(rules: seq<Tiered>, path: string, a: Access, b: Access)
    requires IsStrongest(rules, path, a) && IsStrongest(rules, path, b)
    ensures a == b
  {
  }

  lemma SameStrongest(a: seq<Tiered>, b: seq<Tiered>, path: string, access: Access)
    requires multiset(a) == multiset(b) && IsStrongest(a, path, access)
    ensures IsStrongest(b, path, access)
    ensures exists i | 0 <= i < |b| :: IsMappable(b[i].rule) && Names(b[i], path)
  {
    var i :| 0 <= i < |a| && IsMappable(a[i].rule) && Names(a[i], path) && AccessOf(a[i]) == access;
    assert a[i] in multiset(a);
    assert a[i] in b;
    var j :| 0 <= j < |b| && b[j] == a[i];
    forall k | 0 <= k < |b| && IsMappable(b[k].rule) && Names(b[k], path)
      ensures AccessOf(b[k]).Rank() <= access.Rank()
    {
      assert b[k] in multiset(b);
      assert b[k] in a;
      var l :| 0 <= l < |a| && a[l] == b[k];
    }
  }

  // ---- The profile in the words of the rules ----

  /** A path as a profile lists it: not `.`, without a leading `./` and a trailing slash. */
  predicate IsPlain(path: string) {
    path != "" && path != "." && !("./" <= path) && (|path| >= 2 ==> path[|path| - 1] != '/')
  }

  /** The spellings of one path. */
  predicate Spells(text: string, path: string) {
    text == path || text == "./" + path || text == path + "/" || text == "./" + path + "/"
  }

  lemma SpelledPath(path: string)
    requires IsPlain(path)
    ensures NormalizePath(path) == path && NormalizePath("./" + path) == path
    ensures NormalizePath(path + "/") == path && NormalizePath("./" + path + "/") == path
  {
    assert ("./" + path)[2..] == path;
    assert (path + "/")[..|path|] == path;
    assert ("./" + path + "/")[2..] == path + "/";
    assert !("./" <= path + "/") by {
      assert |path| >= 2 ==> (path + "/")[..2] == path[..2];
      assert |path| == 1 ==> path == [path[0]];
    }
  }

  /** Four spellings name one path, and no other text does. */
  lemma SpellingsExactly(text: string, path: string)
    requires IsPlain(path)
    ensures NormalizePath(text) == path <==> Spells(text, path)
  {
    SpelledPath(path);
    if NormalizePath(text) == path {
      var trimmed := if "./" <= text then text[2..] else text;
      assert text == trimmed || text == "./" + trimmed;
      assert trimmed == path || trimmed == path + "/";
      assert "./" + (path + "/") == "./" + path + "/";
    }
  }

  ghost predicate NamedBy(rules: seq<Rule>, tools: set<string>, path: string) {
    exists i, k | 0 <= i < |rules| && 0 <= k < |rules[i].paths| ::
      rules[i].tool in tools && Spells(rules[i].paths[k], path)
  }

  ghost predicate Gives(rules: seq<Tiered>, path: string, access: Access) {
    exists i | 0 <= i < |rules| :: IsMappable(rules[i].rule) && Names(rules[i], path) && AccessOf(rules[i]) == access
  }

  lemma NamesExactly(tiered: Tiered, path: string)
    requires IsPlain(path)
    ensures Names(tiered, path) <==> exists k | 0 <= k < |tiered.rule.paths| :: Spells(tiered.rule.paths[k], path)
  {
    forall k | 0 <= k < |tiered.rule.paths|
      ensures NormalizePath(tiered.rule.paths[k]) == path <==> Spells(tiered.rule.paths[k], path)
    {
      SpellingsExactly(tiered.rule.paths[k], path);
    }
  }

  lemma AllowGives(perms: Permissions, tools: set<string>, access: Access, path: string)
    requires IsPlain(path) && (access == Read || access == Write)
    requires tools == if access == Read then {"Read"} else {"Edit", "Write", "MultiEdit"}
    requires forall i | 0 <= i < |perms.allow| :: IsMappable(perms.allow[i])
    ensures Gives(TieredRules(perms), path, access) <==> NamedBy(perms.allow, tools, path)
  {
    var rules := TieredRules(perms);
    if Gives(rules, path, access) {
      var i :| 0 <= i < |rules| && IsMappable(rules[i].rule) && Names(rules[i], path) && AccessOf(rules[i]) == access;
      assert i < |perms.allow| && rules[i].rule == perms.allow[i];
      NamesExactly(rules[i], path);
      var k :| 0 <= k < |perms.allow[i].paths| && Spells(perms.allow[i].paths[k], path);
      assert perms.allow[i].tool in tools;
    }
    if NamedBy(perms.allow, tools, path) {
      var i, k :| 0 <= i < |perms.allow| && 0 <= k < |perms.allow[i].paths| &&
                  perms.allow[i].tool in tools && Spells(perms.allow[i].paths[k], path);
      assert rules[i] == Tiered(perms.allow[i], false);
      NamesExactly(rules[i], path);
      assert AccessOf(rules[i]) == access;
    }
  }

  lemma DenyGives(perms: Permissions, path: string)
    requires IsPlain(path)
    requires forall i | 0 <= i < |perms.deny| :: IsMappable(perms.deny[i])
    ensures Gives(TieredRules(perms), path, Deny) <==> NamedBy(perms.deny, {"Read", "Edit", "Write", "MultiEdit"}, path)
  {
    var rules, n := TieredRules(perms), |perms.allow|;
    if Gives(rules, path, Deny) {
      var i :| 0 <= i < |rules| && IsMappable(rules[i].rule) && Names(rules[i], path) && AccessOf(rules[i]) == Deny;
      assert i >= n && rules[i].rule == perms.deny[i - n];
      NamesExactly(rules[i], path);
      var k :| 0 <= k < |perms.deny[i - n].paths| && Spells(perms.deny[i - n].paths[k], path);
      assert perms.deny[i - n].tool in {"Read", "Edit", "Write", "MultiEdit"};
    }
    if NamedBy(perms.deny, {"Read", "Edit", "Write", "MultiEdit"}, path) {
      var i, k :| 0 <= i < |perms.deny| && 0 <= k < |perms.deny[i].paths| &&
                  perms.deny[i].tool in {"Read", "Edit", "Write", "MultiEdit"} && Spells(perms.deny[i].paths[k], path);
      assert rules[n + i] == Tiered(perms.deny[i], true);
      NamesExactly(rules[n + i], path);
    }
  }

  /** A rendered profile denies what a deny rule names, lets write what else a rule for a writing tool allows, lets
      read what else a `Read` rule allows, and says nothing of other paths. */
  lemma ProfileInWords(perms: Permissions, decision: Decision, path: string)
    requires IsDecision(perms, decision) && decision.Rendered? && IsPlain(path)
    ensures Lookup(decision.entries, path) ==
            if NamedBy(perms.deny, {"Read", "Edit", "Write", "MultiEdit"}, path) then Some(Deny)
            else if NamedBy(perms.allow, {"Edit", "Write", "MultiEdit"}, path) then Some(Write)
            else if NamedBy(perms.allow, {"Read"}, path) then Some(Read)
            else None
  {
    var rules := TieredRules(perms);
    RefusedExactly(perms, decision);
    DenyGives(perms, path);
    AllowGives(perms, {"Edit", "Write", "MultiEdit"}, Write, path);
    AllowGives(perms, {"Read"}, Read, path);
    StrongestGiven(decision.entries, rules, path);
  }

  function Lookup(entries: map<string, Access>, path: string): Option<Access> {
    if path in entries then Some(entries[path]) else None
  }

  lemma StrongestGiven(entries: map<string, Access>, rules: seq<Tiered>, path: string)
    requires IsProfileOf(entries, rules)
    ensures Lookup(entries, path) ==
            if Gives(rules, path, Deny) then Some(Deny)
            else if Gives(rules, path, Write) then Some(Write)
            else if Gives(rules, path, Read) then Some(Read)
            else None
  {
    if path in entries {
      assert IsStrongest(rules, path, entries[path]);
      assert Gives(rules, path, entries[path]);
    }
  }

  /** The rules that a profile cannot say. */
  lemma RefusedInWords(perms: Permissions, decision: Decision)
    requires IsDecision(perms, decision)
    ensures decision.Refused? <==>
            || perms.ask != []
            || exists rule | rule in perms.allow || rule in perms.deny ::
                 rule.paths == [] || rule.pattern.Some? || rule.tool !in {"Read", "Edit", "Write", "MultiEdit"}
  {
    RefusedExactly(perms, decision);
    if i :| 0 <= i < |perms.allow| && !IsMappable(perms.allow[i]) {
      assert perms.allow[i] in perms.allow;
    }
    if i :| 0 <= i < |perms.deny| && !IsMappable(perms.deny[i]) {
      assert perms.deny[i] in perms.deny;
    }
  }
}
