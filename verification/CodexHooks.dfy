/** The hooks table that the Codex adapter renders: declared hooks, then llmenv's own. */
module CodexHooks {
  import opened Basics
  import opened HookWords
  import opened HookCommand
  import opened HookResolve

  datatype Hook = Hook(event: string, matcher: Option<string>, isMcpTool: bool, command: Option<string>,
    bundle: Option<string>)

  datatype Slippage = Slippage(enabled: bool, ruleReinjection: bool, selfCritique: bool)

  datatype Manifest = Manifest(
    hooks: seq<Hook>,
    mcps: seq<string>,
    sessionLog: bool,
    taskTracker: bool,
    slippage: Option<Slippage>,
    throttle: bool)

  datatype Group = Group(matcher: Option<string>, command: string)

  datatype Registration = Registration(event: string, group: Group)

  const MEMORY_MCP_NAME: string := "icm"

  const SUPPORTED_HOOK_EVENTS: set<string> :=
    {"PreToolUse", "PermissionRequest", "PostToolUse", "PreCompact", "PostCompact", "SessionStart", "SessionEnd",
     "UserPromptSubmit", "SubagentStart", "SubagentStop", "Stop"}

  const HOOK_RUN: string := "llmenv hook-run --engine codex "
  const CONFIG_CONTEXT: string := "llmenv config-context --engine codex"
  const CONFIG_GUARD: string := "llmenv config-guard --engine codex"
  const THROTTLE: string := "llmenv throttle "

  const BASELINE_EVENTS: seq<(string, string)> := [("session_start", "SessionStart"), ("session_end", "SessionEnd")]

  const SESSION_LOG_EVENTS: seq<(string, string)> :=
    [("user_prompt_submit", "UserPromptSubmit"), ("pre_tool_use", "PreToolUse"), ("post_tool_use", "PostToolUse"),
     ("stop", "Stop"), ("subagent_stop", "SubagentStop"), ("pre_compact", "PreCompact")]

  // ---- The shared lifecycle table ----

  datatype Lifecycle = Lifecycle(event: string, registered: bool)

  function LifecycleRegistrations(m: Manifest): seq<Lifecycle> {
    [ Lifecycle("session_start", true),
      Lifecycle("session_end", true),
      Lifecycle("turn_start", MEMORY_MCP_NAME in m.mcps),
      Lifecycle("stop", m.sessionLog || m.taskTracker ||
        (m.slippage.Some? && m.slippage.value.enabled && m.slippage.value.selfCritique)) ]
  }

  predicate LifecycleRegistered(m: Manifest, event: string) {
    exists i | 0 <= i < |LifecycleRegistrations(m)| ::
      LifecycleRegistrations(m)[i].event == event && LifecycleRegistrations(m)[i].registered
  }

  predicate RuleReinjection(m: Manifest) {
    m.slippage.Some? && m.slippage.value.enabled && m.slippage.value.ruleReinjection
  }

  /** Session logging registers a `pre_tool_use` without a matcher, so for every tool. */
  predicate UnmatchedPreToolUse(m: Manifest, sessionLogIncludesIt: bool) {
    sessionLogIncludesIt && m.sessionLog
  }

  // ---- What is registered, in order ----

  predicate IsRunnable(hook: Hook) {
    hook.event in SUPPORTED_HOOK_EVENTS && !hook.isMcpTool && hook.command.Some?
  }

  function ResolvedHook(hook: Hook): Registration
    requires IsRunnable(hook)
  {
    var command := hook.command.value;
    var resolved := if hook.bundle.Some? then ResolvedRelative(command, hook.bundle.value) else None;
    Registration(hook.event, Group(hook.matcher, if resolved.Some? then resolved.value else command))
  }

  /** The declared hooks that Codex can run, in order. */
  function Declared(hooks: seq<Hook>): seq<Registration> {
    if hooks == [] then []
    else
      var init, last := Declared(hooks[..|hooks| - 1]), hooks[|hooks| - 1];
      if IsRunnable(last) then init + [ResolvedHook(last)] else init
  }

  function Unmatched(event: string, command: string): Registration {
    Registration(event, Group(None, command))
  }

  function When(condition: bool, registrations: seq<Registration>): seq<Registration> {
    if condition then registrations else []
  }

  function RunOn(events: seq<(string, string)>): seq<Registration> {
    seq(|events|, i requires 0 <= i < |events| => Unmatched(events[i].1, HOOK_RUN + events[i].0))
  }

  predicate SessionLogHasPreToolUse() {
    exists i | 0 <= i < |SESSION_LOG_EVENTS| :: SESSION_LOG_EVENTS[i].0 == "pre_tool_use"
  }

  /** The config notices, and the `Read` guard unless session logging covers every tool. */
  function OwnGuards(m: Manifest): seq<Registration> {
    [ Unmatched("SessionStart", CONFIG_CONTEXT),
      Registration("PreToolUse", Group(Some("^(Write|Edit|MultiEdit)$"), CONFIG_GUARD)) ] +
    When(!UnmatchedPreToolUse(m, SessionLogHasPreToolUse()),
         [Registration("PreToolUse", Group(Some("^Read$"), HOOK_RUN + "pre_tool_use"))])
  }

  function OwnThrottle(m: Manifest): seq<Registration> {
    When(m.throttle,
         [Unmatched("PreToolUse", THROTTLE + "pre-tool"), Unmatched("UserPromptSubmit", THROTTLE + "prompt")])
  }

  /** The per-prompt hooks: the rules digest and the memory recall. */
  function OwnPrompt(m: Manifest): seq<Registration> {
    When(RuleReinjection(m) && !m.sessionLog && !LifecycleRegistered(m, "turn_start"),
         [Unmatched("UserPromptSubmit", HOOK_RUN + "user_prompt_submit")]) +
    When(LifecycleRegistered(m, "turn_start"), [Unmatched("UserPromptSubmit", HOOK_RUN + "turn_start")])
  }

  function OwnLog(m: Manifest): seq<Registration> {
    if m.sessionLog then RunOn(SESSION_LOG_EVENTS)
    else When(LifecycleRegistered(m, "stop"), [Unmatched("Stop", HOOK_RUN + "stop")])
  }

  /** What llmenv registers for itself, in order. */
  function Own(m: Manifest): seq<Registration> {
    OwnGuards(m) + (OwnThrottle(m) + (RunOn(BASELINE_EVENTS) + (OwnPrompt(m) + OwnLog(m))))
  }

  /** The groups registered for `event`, in order. */
  function GroupsFor(registrations: seq<Registration>, event: string): seq<Group> {
    if registrations == [] then []
    else
      var init, last := GroupsFor(registrations[..|registrations| - 1], event), registrations[|registrations| - 1];
      if last.event == event then init + [last.group] else init
  }

  lemma {:induction false} GroupsConcat(a: seq<Registration>, b: seq<Registration>, event: string)
    ensures GroupsFor(a + b, event) == GroupsFor(a, event) + GroupsFor(b, event)
    decreases |b|
  {
    if b == [] {
      assert a + b == a;
    } else {
      assert (a + b)[..|a + b| - 1] == a + b[..|b| - 1];
      GroupsConcat(a, b[..|b| - 1], event);
    }
  }

  // ---- The table that the loops build ----

  type Table = map<string, seq<Group>>

  /** The table holds, for each event, its groups in order, and no event without one. */
  ghost predicate IsTableOf(table: Table, registrations: seq<Registration>) {
    forall event :: if event in table then table[event] == GroupsFor(registrations, event) && table[event] != []
                    else GroupsFor(registrations, event) == []
  }

  method Push(table: Table, registration: Registration, ghost before: seq<Registration>) returns (longer: Table)
    requires IsTableOf(table, before)
    ensures IsTableOf(longer, before + [registration])
  {
    var groups := if registration.event in table then table[registration.event] else [];
    longer := table[registration.event := groups + [registration.group]];
    var all := before + [registration];
    assert all[..|all| - 1] == before;
    forall event ensures if event in longer then longer[event] == GroupsFor(all, event) && longer[event] != []
                         else GroupsFor(all, event) == []
    {
      assert if event in table then table[event] == GroupsFor(before, event) && table[event] != []
             else GroupsFor(before, event) == [];
    }
  }

  method PushRunOn(table: Table, events: seq<(string, string)>, ghost before: seq<Registration>) returns (longer: Table)
    requires IsTableOf(table, before)
    ensures IsTableOf(longer, before + RunOn(events))
  {
    longer := table;
    ghost var all := RunOn(events);
    assert before + all[..0] == before;
    for i := 0 to |events|
      invariant IsTableOf(longer, before + all[..i])
    {
      longer := Push(longer, Unmatched(events[i].1, HOOK_RUN + events[i].0), before + all[..i]);
      assert before + all[..i + 1] == before + all[..i] + [all[i]];
    }
    assert all[..|events|] == all;
  }

  method EmitGuards(m: Manifest, table: Table, ghost before: seq<Registration>) returns (longer: Table)
    requires IsTableOf(table, before)
    ensures IsTableOf(longer, before + OwnGuards(m))
  {
    var context := Unmatched("SessionStart", CONFIG_CONTEXT);
    var guard := Registration("PreToolUse", Group(Some("^(Write|Edit|MultiEdit)$"), CONFIG_GUARD));
    longer := Push(table, context, before);
    longer := Push(longer, guard, before + [context]);
    assert before + [context] + [guard] == before + [context, guard];
    if !UnmatchedPreToolUse(m, SessionLogHasPreToolUse()) {
      var read := Registration("PreToolUse", Group(Some("^Read$"), HOOK_RUN + "pre_tool_use"));
      longer := Push(longer, read, before + [context, guard]);
      assert before + [context, guard] + [read] == before + OwnGuards(m);
    } else {
      assert before + [context, guard] == before + OwnGuards(m);
    }
  }

  method EmitThrottle(m: Manifest, table: Table, ghost before: seq<Registration>) returns (longer: Table)
    requires IsTableOf(table, before)
    ensures IsTableOf(longer, before + OwnThrottle(m))
  {
    longer := table;
    if m.throttle {
      var tool := Unmatched("PreToolUse", THROTTLE + "pre-tool");
      var prompt := Unmatched("UserPromptSubmit", THROTTLE + "prompt");
      longer := Push(longer, tool, before);
      longer := Push(longer, prompt, before + [tool]);
      assert before + [tool] + [prompt] == before + OwnThrottle(m);
    } else {
      assert before + [] == before;
    }
  }

  method EmitPrompt(m: Manifest, table: Table, ghost before: seq<Registration>) returns (longer: Table)
    requires IsTableOf(table, before)
    ensures IsTableOf(longer, before + OwnPrompt(m))
  {
    longer := table;
    ghost var done := before;
    if RuleReinjection(m) && !m.sessionLog && !LifecycleRegistered(m, "turn_start") {
      var digest := Unmatched("UserPromptSubmit", HOOK_RUN + "user_prompt_submit");
      longer := Push(longer, digest, done);
      done := done + [digest];
    }
    if LifecycleRegistered(m, "turn_start") {
      var recall := Unmatched("UserPromptSubmit", HOOK_RUN + "turn_start");
      longer := Push(longer, recall, done);
      done := done + [recall];
    }
    assert done == before + OwnPrompt(m);
  }

  method EmitLog(m: Manifest, table: Table, ghost before: seq<Registration>) returns (longer: Table)
    requires IsTableOf(table, before)
    ensures IsTableOf(longer, before + OwnLog(m))
  {
    longer := table;
    if m.sessionLog {
      longer := PushRunOn(longer, SESSION_LOG_EVENTS, before);
    } else if LifecycleRegistered(m, "stop") {
      longer := Push(longer, Unmatched("Stop", HOOK_RUN + "stop"), before);
    } else {
      assert before + [] == before;
    }
  }

  lemma OwnRegroups(before: seq<Registration>, m: Manifest)
    ensures before + OwnGuards(m) + OwnThrottle(m) + RunOn(BASELINE_EVENTS) + OwnPrompt(m) + OwnLog(m) ==
            before + Own(m)
  {
    Regroup5(before, OwnGuards(m), OwnThrottle(m), RunOn(BASELINE_EVENTS), OwnPrompt(m), OwnLog(m));
  }

  lemma Regroup5(z: seq<Registration>, a: seq<Registration>, b: seq<Registration>, c: seq<Registration>,
                 d: seq<Registration>, e: seq<Registration>)
    ensures z + a + b + c + d + e == z + (a + (b + (c + (d + e))))
  {
  }

  /** Register the hooks that llmenv wires itself. */
  method EmitBaselineHooks(m: Manifest, table: Table, ghost before: seq<Registration>) returns (longer: Table)
    requires IsTableOf(table, before)
    ensures IsTableOf(longer, before + Own(m))
  {
    longer := EmitGuards(m, table, before);
    ghost var done := before + OwnGuards(m);
    longer := EmitThrottle(m, longer, done);
    done := done + OwnThrottle(m);
    longer := PushRunOn(longer, BASELINE_EVENTS, done);
    done := done + RunOn(BASELINE_EVENTS);
    longer := EmitPrompt(m, longer, done);
    done := done + OwnPrompt(m);
    longer := EmitLog(m, longer, done);
    done := done + OwnLog(m);
    OwnRegroups(before, m);
  }

  method RenderHooks(m: Manifest) returns (table: Table)
    ensures IsTableOf(table, Declared(m.hooks) + Own(m))
    ensures forall event :: (if event in table then table[event] else []) ==
                            GroupsFor(Declared(m.hooks), event) + GroupsFor(Own(m), event)
  {
    table := map[];
    for i := 0 to |m.hooks|
      invariant IsTableOf(table, Declared(m.hooks[..i]))
    {
      assert m.hooks[..i + 1][..i] == m.hooks[..i];
      if IsRunnable(m.hooks[i]) {
        table := Push(table, ResolvedHook(m.hooks[i]), Declared(m.hooks[..i]));
      }
    }
    assert m.hooks[..|m.hooks|] == m.hooks;
    table := EmitBaselineHooks(m, table, Declared(m.hooks));
    forall event ensures (if event in table then table[event] else []) ==
                         GroupsFor(Declared(m.hooks), event) + GroupsFor(Own(m), event)
    {
      GroupsConcat(Declared(m.hooks), Own(m), event);
      assert if event in table then table[event] == GroupsFor(Declared(m.hooks) + Own(m), event) && table[event] != []
             else GroupsFor(Declared(m.hooks) + Own(m), event) == [];
    }
  }

  // ---- How often a call reaches a command ----

  /** A group runs for a tool when it has no matcher or its matcher matches. */
  predicate RunsFor(group: Group, tool: string, matches: (string, string) -> bool) {
    group.matcher.None? || matches(group.matcher.value, tool)
  }

  /** How many registrations of `event` run `command` for `tool`. */
  function Hits(rs: seq<Registration>, event: string, tool: string, command: string,
                matches: (string, string) -> bool): nat {
    if rs == [] then 0
    else
      Hits(rs[..|rs| - 1], event, tool, command, matches) +
      (var r := rs[|rs| - 1];
       if r.event == event && r.group.command == command && RunsFor(r.group, tool, matches) then 1 else 0)
  }

  /** How many registrations run `command`, on any event. */
  function Runs(rs: seq<Registration>, command: string): nat {
    if rs == [] then 0
    else Runs(rs[..|rs| - 1], command) + (if rs[|rs| - 1].group.command == command then 1 else 0)
  }

  lemma {:induction false} HitsConcat(a: seq<Registration>, b: seq<Registration>, event: string, tool: string,
                                      command: string,
                                      matches: (string, string) -> bool)
    ensures Hits(a + b, event, tool, command, matches) ==
            Hits(a, event, tool, command, matches) + Hits(b, event, tool, command, matches)
    ensures Runs(a + b, command) == Runs(a, command) + Runs(b, command)
    decreases |b|
  {
    if b == [] {
      assert a + b == a;
    } else {
      assert (a + b)[..|a + b| - 1] == a + b[..|b| - 1];
      HitsConcat(a, b[..|b| - 1], event, tool, command, matches);
    }
  }

  /** How often a pair is in a list. */
  function Times(events: seq<(string, string)>, name: string, event: string): nat {
    if events == [] then 0
    else Times(events[..|events| - 1], name, event) + (if events[|events| - 1] == (name, event) then 1 else 0)
  }

  lemma HookRunInjective(a: string, b: string)
    ensures HOOK_RUN + a == HOOK_RUN + b <==> a == b
  {
    assert (HOOK_RUN + a)[|HOOK_RUN|..] == a && (HOOK_RUN + b)[|HOOK_RUN|..] == b;
  }

  lemma {:induction false} RunOnHits(events: seq<(string, string)>, name: string, event: string, tool: string,
                                     matches: (string, string) -> bool)
    ensures Hits(RunOn(events), event, tool, HOOK_RUN + name, matches) == Times(events, name, event)
  {
    if events != [] {
      var init, last := events[..|events| - 1], events[|events| - 1];
      RunOnHits(init, name, event, tool, matches);
      assert RunOn(events)[..|events| - 1] == RunOn(init);
      HookRunInjective(last.0, name);
    }
  }

  lemma {:induction false} RunOnRuns(events: seq<(string, string)>, name: string)
    ensures Runs(RunOn(events), HOOK_RUN + name) == NameTimes(events, name)
  {
    if events != [] {
      var init, last := events[..|events| - 1], events[|events| - 1];
      RunOnRuns(init, name);
      assert RunOn(events)[..|events| - 1] == RunOn(init);
      HookRunInjective(last.0, name);
    }
  }

  function NameTimes(events: seq<(string, string)>, name: string): nat {
    if events == [] then 0
    else NameTimes(events[..|events| - 1], name) + (if events[|events| - 1].0 == name then 1 else 0)
  }

  function Hit(r: Registration, event: string, tool: string, command: string, matches: (string, string) -> bool): nat {
    if r.event == event && r.group.command == command && RunsFor(r.group, tool, matches) then 1 else 0
  }

  function Ran(r: Registration, command: string): nat {
    if r.group.command == command then 1 else 0
  }

  lemma HitsOne(r: Registration, event: string, tool: string, command: string, matches: (string, string) -> bool)
    ensures Hits([r], event, tool, command, matches) == Hit(r, event, tool, command, matches)
    ensures Runs([r], command) == Ran(r, command)
  {
    assert [r][..0] == [];
  }

  lemma HitsTwo(a: Registration, b: Registration, event: string, tool: string, command: string,
                matches: (string, string) -> bool)
    ensures Hits([a, b], event, tool, command, matches) ==
            Hit(a, event, tool, command, matches) + Hit(b, event, tool, command, matches)
    ensures Runs([a, b], command) == Ran(a, command) + Ran(b, command)
  {
    assert [a, b][..1] == [a];
    HitsOne(a, event, tool, command, matches);
  }

  lemma OtherCommands(name: string)
    ensures CONFIG_CONTEXT != HOOK_RUN + name && CONFIG_GUARD != HOOK_RUN + name
    ensures THROTTLE + "pre-tool" != HOOK_RUN + name && THROTTLE + "prompt" != HOOK_RUN + name
  {
    assert (HOOK_RUN + name)[7] == HOOK_RUN[7] == 'h';
    assert CONFIG_CONTEXT[7] == 'c' && CONFIG_GUARD[7] == 'c';
    assert (THROTTLE + "pre-tool")[7] == 't' && (THROTTLE + "prompt")[7] == 't';
  }

  function One(condition: bool): nat {
    if condition then 1 else 0
  }

  lemma TimesAppend(init: seq<(string, string)>, last: (string, string), name: string, event: string)
    ensures Times(init + [last], name, event) == Times(init, name, event) + One(last == (name, event))
    ensures NameTimes(init + [last], name) == NameTimes(init, name) + One(last.0 == name)
  {
    assert (init + [last])[..|init|] == init;
  }

  lemma SessionLogCounts(name: string, event: string)
    ensures Times(SESSION_LOG_EVENTS, name, event) ==
            One(("user_prompt_submit", "UserPromptSubmit") == (name, event)) +
            One(("pre_tool_use", "PreToolUse") == (name, event)) +
            One(("post_tool_use", "PostToolUse") == (name, event)) + One(("stop", "Stop") == (name, event)) +
            One(("subagent_stop", "SubagentStop") == (name, event)) +
            One(("pre_compact", "PreCompact") == (name, event))
    ensures NameTimes(SESSION_LOG_EVENTS, name) ==
            One("user_prompt_submit" == name) + One("pre_tool_use" == name) + One("post_tool_use" == name) +
            One("stop" == name) +
            One("subagent_stop" == name) + One("pre_compact" == name)
  {
    TimesOfSix(SESSION_LOG_EVENTS, name, event);
  }

  lemma TimesOfSix(all: seq<(string, string)>, name: string, event: string)
    requires |all| == 6
    ensures Times(all, name, event) ==
            One(all[0] == (name, event)) + One(all[1] == (name, event)) + One(all[2] == (name, event)) +
            One(all[3] == (name, event)) + One(all[4] == (name, event)) + One(all[5] == (name, event))
    ensures NameTimes(all, name) ==
            One(all[0].0 == name) + One(all[1].0 == name) + One(all[2].0 == name) +
            One(all[3].0 == name) + One(all[4].0 == name) + One(all[5].0 == name)
  {
    TimesOfThree(all[..3], name, event);
    TimesUpTo(all, 3, name, event);
    TimesUpTo(all, 4, name, event);
    TimesUpTo(all, 5, name, event);
    assert all[..6] == all;
  }

  lemma TimesOfThree(all: seq<(string, string)>, name: string, event: string)
    requires |all| == 3
    ensures Times(all, name, event) == One(all[0] == (name, event)) + One(all[1] == (name, event)) +
            One(all[2] == (name, event))
    ensures NameTimes(all, name) == One(all[0].0 == name) + One(all[1].0 == name) + One(all[2].0 == name)
  {
    TimesUpTo(all, 0, name, event);
    TimesUpTo(all, 1, name, event);
    TimesUpTo(all, 2, name, event);
    assert all[..0] == [] && all[..3] == all;
  }

  lemma TimesUpTo(all: seq<(string, string)>, i: nat, name: string, event: string)
    requires i < |all|
    ensures Times(all[..i + 1], name, event) == Times(all[..i], name, event) + One(all[i] == (name, event))
    ensures NameTimes(all[..i + 1], name) == NameTimes(all[..i], name) + One(all[i].0 == name)
  {
    TimesAppend(all[..i], all[i], name, event);
    assert all[..i + 1] == all[..i] + [all[i]];
  }

  lemma SessionLogTimes()
    ensures SessionLogHasPreToolUse()
    ensures Times(SESSION_LOG_EVENTS, "pre_tool_use", "PreToolUse") == 1
    ensures NameTimes(SESSION_LOG_EVENTS, "stop") == 1 && NameTimes(SESSION_LOG_EVENTS, "turn_start") == 0
    ensures Times(SESSION_LOG_EVENTS, "stop", "Stop") == 1
  {
    assert SESSION_LOG_EVENTS[1].0 == "pre_tool_use";
    SessionLogCounts("pre_tool_use", "PreToolUse");
    SessionLogCounts("stop", "Stop");
    SessionLogCounts("turn_start", "");
    assert "pre_compact"[0] != "turn_start"[0] && "post_tool_use"[0] != "turn_start"[0];
  }

  lemma BaselineTimes(name: string, event: string)
    requires name !in {"session_start", "session_end"}
    ensures Times(BASELINE_EVENTS, name, event) == 0 && NameTimes(BASELINE_EVENTS, name) == 0
  {
    TimesAppend([], ("session_start", "SessionStart"), name, event);
    TimesAppend([("session_start", "SessionStart")], ("session_end", "SessionEnd"), name, event);
    assert BASELINE_EVENTS == [("session_start", "SessionStart")] + [("session_end", "SessionEnd")];
    assert [] + [("session_start", "SessionStart")] == [("session_start", "SessionStart")];
  }

  lemma OwnHitsSplit(m: Manifest, event: string, tool: string, command: string, matches: (string, string) -> bool)
    ensures Hits(Own(m), event, tool, command, matches) ==
            Hits(OwnGuards(m), event, tool, command, matches) + Hits(OwnThrottle(m), event, tool, command, matches) +
            Hits(RunOn(BASELINE_EVENTS), event, tool, command, matches) +
            Hits(OwnPrompt(m), event, tool, command, matches) +
            Hits(OwnLog(m), event, tool, command, matches)
    ensures Runs(Own(m), command) ==
            Runs(OwnGuards(m), command) + Runs(OwnThrottle(m), command) + Runs(RunOn(BASELINE_EVENTS), command) +
            Runs(OwnPrompt(m), command) + Runs(OwnLog(m), command)
  {
    HitsConcat(OwnPrompt(m), OwnLog(m), event, tool, command, matches);
    HitsConcat(RunOn(BASELINE_EVENTS), OwnPrompt(m) + OwnLog(m), event, tool, command, matches);
    HitsConcat(OwnThrottle(m), RunOn(BASELINE_EVENTS) + (OwnPrompt(m) + OwnLog(m)), event, tool, command, matches);
    HitsConcat(OwnGuards(m), OwnThrottle(m) + (RunOn(BASELINE_EVENTS) + (OwnPrompt(m) + OwnLog(m))), event, tool,
      command, matches);
  }

  lemma GuardHits(m: Manifest, event: string, tool: string, name: string, matches: (string, string) -> bool)
    ensures Hits(OwnGuards(m), event, tool, HOOK_RUN + name, matches) ==
            if !m.sessionLog && event == "PreToolUse" && name == "pre_tool_use" && matches("^Read$", tool) then 1 else 0
    ensures Runs(OwnGuards(m), HOOK_RUN + name) == if !m.sessionLog && name == "pre_tool_use" then 1 else 0
  {
    var command := HOOK_RUN + name;
    OtherCommands(name);
    SessionLogTimes();
    HookRunInjective(name, "pre_tool_use");
    var context := Unmatched("SessionStart", CONFIG_CONTEXT);
    var guard := Registration("PreToolUse", Group(Some("^(Write|Edit|MultiEdit)$"), CONFIG_GUARD));
    var read := Registration("PreToolUse", Group(Some("^Read$"), HOOK_RUN + "pre_tool_use"));
    HitsTwo(context, guard, event, tool, command, matches);
    HitsOne(read, event, tool, command, matches);
    HitsConcat([context, guard], When(!m.sessionLog, [read]), event, tool, command, matches);
  }

  lemma ThrottleHits(m: Manifest, event: string, tool: string, name: string, matches: (string, string) -> bool)
    ensures Hits(OwnThrottle(m), event, tool, HOOK_RUN + name, matches) == 0
    ensures Runs(OwnThrottle(m), HOOK_RUN + name) == 0
  {
    OtherCommands(name);
    HitsTwo(Unmatched("PreToolUse", THROTTLE + "pre-tool"), Unmatched("UserPromptSubmit", THROTTLE + "prompt"),
            event, tool, HOOK_RUN + name, matches);
  }

  lemma PromptHits(m: Manifest, event: string, tool: string, name: string, matches: (string, string) -> bool)
    requires name in {"pre_tool_use", "stop", "turn_start"}
    ensures event != "UserPromptSubmit" || name != "turn_start" ==>
            Hits(OwnPrompt(m), event, tool, HOOK_RUN + name, matches) == 0
    ensures event == "UserPromptSubmit" && name == "turn_start" ==>
              Hits(OwnPrompt(m), event, tool, HOOK_RUN + name, matches) ==
                if LifecycleRegistered(m, "turn_start") then 1 else 0
    ensures Runs(OwnPrompt(m), HOOK_RUN + name) ==
            if name == "turn_start" && LifecycleRegistered(m, "turn_start") then 1 else 0
  {
    var command := HOOK_RUN + name;
    var digest, recall := Unmatched("UserPromptSubmit", HOOK_RUN + "user_prompt_submit"),
      Unmatched("UserPromptSubmit", HOOK_RUN + "turn_start");
    HookRunInjective(name, "user_prompt_submit");
    HookRunInjective(name, "turn_start");
    HitsOne(digest, event, tool, command, matches);
    HitsOne(recall, event, tool, command, matches);
    HitsConcat(When(RuleReinjection(m) && !m.sessionLog && !LifecycleRegistered(m, "turn_start"), [digest]),
               When(LifecycleRegistered(m, "turn_start"), [recall]), event, tool, command, matches);
  }

  lemma LogHits(m: Manifest, tool: string, matches: (string, string) -> bool)
    ensures Hits(OwnLog(m), "PreToolUse", tool, HOOK_RUN + "pre_tool_use", matches) == if m.sessionLog then 1 else 0
    ensures Runs(OwnLog(m), HOOK_RUN + "stop") == if m.sessionLog || LifecycleRegistered(m, "stop") then 1 else 0
    ensures Hits(OwnLog(m), "Stop", tool, HOOK_RUN + "stop", matches) ==
            if m.sessionLog || LifecycleRegistered(m, "stop") then 1 else 0
    ensures Runs(OwnLog(m), HOOK_RUN + "turn_start") == 0
  {
    SessionLogTimes();
    RunOnHits(SESSION_LOG_EVENTS, "pre_tool_use", "PreToolUse", tool, matches);
    RunOnHits(SESSION_LOG_EVENTS, "stop", "Stop", tool, matches);
    RunOnRuns(SESSION_LOG_EVENTS, "stop");
    RunOnRuns(SESSION_LOG_EVENTS, "turn_start");
    HookRunInjective("stop", "turn_start");
    var stop := Unmatched("Stop", HOOK_RUN + "stop");
    HitsOne(stop, "PreToolUse", tool, HOOK_RUN + "pre_tool_use", matches);
    HitsOne(stop, "Stop", tool, HOOK_RUN + "stop", matches);
    HitsOne(stop, "Stop", tool, HOOK_RUN + "turn_start", matches);
  }

  // ---- Declared hooks do not add to it ----

  lemma {:induction false} RewrittenHasSlash(s: string, dir: string)
    requires AnyTouched(s, OnRelative(dir))
    ensures '/' in Rewritten(s, OnRelative(dir))
    decreases |s|
  {
    var n := WordEnd(s);
    OnRelativeOf(s[..n], dir);
    if n == |s| {
      assert s[..n] == s;
      TouchedHasSlash(s, dir);
    } else {
      FirstWordText(s, OnRelative(dir), n);
      FirstWordTouch(s, OnRelative(dir), n);
      if OnRelative(dir)(s[..n]).changed {
        TouchedHasSlash(s[..n], dir);
      } else {
        RewrittenHasSlash(s[n + 1..], dir);
      }
    }
  }

  lemma TouchedHasSlash(word: string, dir: string)
    requires OnRelative(dir)(word).changed
    ensures '/' in OnRelative(dir)(word).text
  {
    OnRelativeOf(word, dir);
    var parts := SplitWord(word);
    var i :| 0 <= i < |parts.core| && parts.core[i] == '/';
    var path := JoinPath(dir, parts.core);
    var start := |dir + Separator(dir)|;
    assert path[start + i] == '/';
    assert OnRelative(dir)(word).text[|parts.prefix| + start + i] == '/';
  }

  lemma ResolvedIsNotOwn(hook: Hook, command: string)
    requires IsRunnable(hook) && hook.command != Some(command) && '/' !in command
    ensures ResolvedHook(hook).group.command != command
  {
    if hook.bundle.Some? && AnyTouched(hook.command.value, OnRelative(hook.bundle.value)) {
      RewrittenHasSlash(hook.command.value, hook.bundle.value);
    }
  }

  /** Hooks that do not declare a command of llmenv's never run it, also after their paths are
      resolved. */
  lemma {:induction false} DeclaredHits(hooks: seq<Hook>, event: string, tool: string, command: string,
                                        matches: (string, string) -> bool)
    requires '/' !in command
    requires forall i | 0 <= i < |hooks| :: hooks[i].command != Some(command)
    ensures Hits(Declared(hooks), event, tool, command, matches) == 0 && Runs(Declared(hooks), command) == 0
    decreases |hooks|
  {
    if hooks != [] {
      var init, last := hooks[..|hooks| - 1], hooks[|hooks| - 1];
      DeclaredHits(init, event, tool, command, matches);
      if IsRunnable(last) {
        ResolvedIsNotOwn(last, command);
        HitsOne(ResolvedHook(last), event, tool, command, matches);
        HitsConcat(Declared(init), [ResolvedHook(last)], event, tool, command, matches);
      }
    }
  }

  lemma HookRunHasNoSlash(name: string)
    requires '/' !in name
    ensures '/' !in HOOK_RUN + name
  {
  }

  /** For every list of declared hooks that leave llmenv's commands alone: a `Read` call reaches
      `hook-run pre_tool_use` exactly once, and any other tool once or not at all, as session logging
      is on or off. */
  lemma PreToolUseReach(m: Manifest, tool: string, matches: (string, string) -> bool)
    requires matches("^Read$", tool) <==> tool == "Read"
    requires forall i | 0 <= i < |m.hooks| :: m.hooks[i].command != Some(HOOK_RUN + "pre_tool_use")
    ensures Hits(Declared(m.hooks) + Own(m), "PreToolUse", tool, HOOK_RUN + "pre_tool_use", matches) ==
            if tool == "Read" || m.sessionLog then 1 else 0
  {
    var command := HOOK_RUN + "pre_tool_use";
    HookRunHasNoSlash("pre_tool_use");
    DeclaredHits(m.hooks, "PreToolUse", tool, command, matches);
    HitsConcat(Declared(m.hooks), Own(m), "PreToolUse", tool, command, matches);
    OwnHitsSplit(m, "PreToolUse", tool, command, matches);
    GuardHits(m, "PreToolUse", tool, "pre_tool_use", matches);
    ThrottleHits(m, "PreToolUse", tool, "pre_tool_use", matches);
    RunOnHits(BASELINE_EVENTS, "pre_tool_use", "PreToolUse", tool, matches);
    BaselineTimes("pre_tool_use", "PreToolUse");
    PromptHits(m, "PreToolUse", tool, "pre_tool_use", matches);
    LogHits(m, tool, matches);
  }

  /** `stop` and `turn_start` are registered once when the shared lifecycle table says so, and
      otherwise not at all. */
  lemma LifecycleAgrees(m: Manifest, name: string)
    requires name in {"stop", "turn_start"}
    requires forall i | 0 <= i < |m.hooks| :: m.hooks[i].command != Some(HOOK_RUN + name)
    ensures Runs(Declared(m.hooks) + Own(m), HOOK_RUN + name) == if LifecycleRegistered(m, name) then 1 else 0
  {
    var command := HOOK_RUN + name;
    var matches := (pattern: string, tool: string) => false;
    HookRunHasNoSlash(name);
    DeclaredHits(m.hooks, "Stop", "", command, matches);
    HitsConcat(Declared(m.hooks), Own(m), "Stop", "", command, matches);
    OwnHitsSplit(m, "Stop", "", command, matches);
    GuardHits(m, "Stop", "", name, matches);
    ThrottleHits(m, "Stop", "", name, matches);
    RunOnRuns(BASELINE_EVENTS, name);
    BaselineTimes(name, "Stop");
    PromptHits(m, "Stop", "", name, matches);
    LogHits(m, "", matches);
    LifecycleTable(m);
  }

  /** The native event that each of the two is for. */
  function NativeEvent(name: string): string {
    if name == "stop" then "Stop" else "UserPromptSubmit"
  }

  lemma LifecycleLogHits(m: Manifest, event: string, tool: string, name: string, matches: (string, string) -> bool)
    requires name in {"stop", "turn_start"}
    ensures Hits(OwnLog(m), event, tool, HOOK_RUN + name, matches) ==
            if name == "stop" && event == "Stop" && (m.sessionLog || LifecycleRegistered(m, "stop")) then 1 else 0
  {
    SessionLogCounts(name, event);
    RunOnHits(SESSION_LOG_EVENTS, name, event, tool, matches);
    HookRunInjective(name, "stop");
    HitsOne(Unmatched("Stop", HOOK_RUN + "stop"), event, tool, HOOK_RUN + name, matches);
  }

  /** Each of the two is reached once on its native event when the shared lifecycle table says so, and on no
      other event. */
  lemma LifecycleHits(m: Manifest, name: string, event: string, tool: string, matches: (string, string) -> bool)
    requires name in {"stop", "turn_start"}
    requires forall i | 0 <= i < |m.hooks| :: m.hooks[i].command != Some(HOOK_RUN + name)
    ensures Hits(Declared(m.hooks) + Own(m), event, tool, HOOK_RUN + name, matches) ==
            if event == NativeEvent(name) && LifecycleRegistered(m, name) then 1 else 0
  {
    var command := HOOK_RUN + name;
    HookRunHasNoSlash(name);
    DeclaredHits(m.hooks, event, tool, command, matches);
    HitsConcat(Declared(m.hooks), Own(m), event, tool, command, matches);
    OwnHitsSplit(m, event, tool, command, matches);
    GuardHits(m, event, tool, name, matches);
    ThrottleHits(m, event, tool, name, matches);
    RunOnHits(BASELINE_EVENTS, name, event, tool, matches);
    BaselineTimes(name, event);
    PromptHits(m, event, tool, name, matches);
    LifecycleLogHits(m, event, tool, name, matches);
    LifecycleTable(m);
  }

  lemma LifecycleTable(m: Manifest)
    ensures m.sessionLog ==> LifecycleRegistered(m, "stop")
  {
    var table := LifecycleRegistrations(m);
    assert m.sessionLog ==> table[3].event == "stop" && table[3].registered;
  }

  // ---- The same, read off the rendered table ----

  function GroupHits(groups: seq<Group>, tool: string, command: string, matches: (string, string) -> bool): nat {
    if groups == [] then 0
    else
      GroupHits(groups[..|groups| - 1], tool, command, matches) +
      One(groups[|groups| - 1].command == command && RunsFor(groups[|groups| - 1], tool, matches))
  }

  lemma {:induction false} HitsAreGroupHits(rs: seq<Registration>, event: string, tool: string, command: string,
                                            matches: (string, string) -> bool)
    ensures GroupHits(GroupsFor(rs, event), tool, command, matches) == Hits(rs, event, tool, command, matches)
  {
    if rs != [] {
      var init, last := rs[..|rs| - 1], rs[|rs| - 1];
      HitsAreGroupHits(init, event, tool, command, matches);
      if last.event == event {
        assert (GroupsFor(init, event) + [last.group])[..|GroupsFor(init, event)|] == GroupsFor(init, event);
      }
    }
  }

  /** In the rendered table, a call of `tool` reaches `hook-run pre_tool_use` exactly once if the tool is
      `Read` or session logging is on, and otherwise never. */
  lemma RenderedReach(m: Manifest, table: Table, tool: string, matches: (string, string) -> bool)
    requires IsTableOf(table, Declared(m.hooks) + Own(m))
    requires matches("^Read$", tool) <==> tool == "Read"
    requires forall i | 0 <= i < |m.hooks| :: m.hooks[i].command != Some(HOOK_RUN + "pre_tool_use")
    ensures GroupHits(if "PreToolUse" in table then table["PreToolUse"] else [],
                      tool, HOOK_RUN + "pre_tool_use", matches) ==
            if tool == "Read" || m.sessionLog then 1 else 0
  {
    var rs := Declared(m.hooks) + Own(m);
    PreToolUseReach(m, tool, matches);
    HitsAreGroupHits(rs, "PreToolUse", tool, HOOK_RUN + "pre_tool_use", matches);
    assert if "PreToolUse" in table then table["PreToolUse"] == GroupsFor(rs, "PreToolUse") && table["PreToolUse"] != []
           else GroupsFor(rs, "PreToolUse") == [];
  }

  function GroupsOf(table: Table, event: string): seq<Group> {
    if event in table then table[event] else []
  }

  /** In the rendered table, `stop` stands once under `Stop` and `turn_start` once under `UserPromptSubmit` when
      the shared lifecycle table says so, for every tool, and neither stands under any other event. */
  lemma RenderedLifecycle(m: Manifest, table: Table, name: string, event: string, tool: string,
                          matches: (string, string) -> bool)
    requires IsTableOf(table, Declared(m.hooks) + Own(m)) && name in {"stop", "turn_start"}
    requires forall i | 0 <= i < |m.hooks| :: m.hooks[i].command != Some(HOOK_RUN + name)
    ensures GroupHits(GroupsOf(table, event), tool, HOOK_RUN + name, matches) ==
            if event == NativeEvent(name) && LifecycleRegistered(m, name) then 1 else 0
  {
    var rs := Declared(m.hooks) + Own(m);
    LifecycleHits(m, name, event, tool, matches);
    HitsAreGroupHits(rs, event, tool, HOOK_RUN + name, matches);
    assert GroupsOf(table, event) == GroupsFor(rs, event);
  }

  // ---- The declared hooks one by one ----

  /** Declared hooks in a row register in that order. */
  lemma {:induction false} DeclaredConcat(a: seq<Hook>, b: seq<Hook>)
    ensures Declared(a + b) == Declared(a) + Declared(b)
    decreases |b|
  {
    if b == [] {
      assert a + b == a;
    } else {
      assert (a + b)[..|a + b| - 1] == a + b[..|b| - 1];
      DeclaredConcat(a, b[..|b| - 1]);
    }
  }

  predicate IsCodexEvent(event: string) {
    event in {"PreToolUse", "PermissionRequest", "PostToolUse", "PreCompact", "PostCompact", "SessionStart",
              "SessionEnd", "UserPromptSubmit", "SubagentStart", "SubagentStop", "Stop"}
  }

  /** The command that a hook declares, resolved if a bundle declares it. */
  function CommandOf(hook: Hook): string
    requires hook.command.Some?
  {
    match hook.bundle
    case None => hook.command.value
    case Some(dir) => Rewritten(hook.command.value, OnRelative(dir))
  }

  lemma RunnableExactly(hook: Hook)
    ensures IsRunnable(hook) <==> hook.command.Some? && !hook.isMcpTool && IsCodexEvent(hook.event)
  {
  }

  lemma ResolvedHookIs(hook: Hook)
    requires IsRunnable(hook)
    ensures ResolvedHook(hook) == Registration(hook.event, Group(hook.matcher, CommandOf(hook)))
  {
    if hook.bundle.Some? {
      RelativeOrSame(hook.command.value, hook.bundle.value);
    }
  }

  /** A hook with a command registers once, on its own event and with its own matcher, when Codex has the event.
      Other hooks register nothing. */
  lemma DeclaredOne(hook: Hook)
    ensures Declared([hook]) ==
            if hook.command.Some? && !hook.isMcpTool && IsCodexEvent(hook.event)
            then [Registration(hook.event, Group(hook.matcher, CommandOf(hook)))]
            else []
  {
    assert [hook][..0] == [];
    RunnableExactly(hook);
    if IsRunnable(hook) {
      ResolvedHookIs(hook);
    }
  }

  // ---- What llmenv registers, in words ----

  predicate IsOn(r: Registration, event: string, command: string) {
    r.event == event && r.group.matcher.None? && r.group.command == command
  }

  predicate IsMatched(r: Registration, event: string, matcher: string, command: string) {
    r.event == event && r.group.matcher == Some(matcher) && r.group.command == command
  }

  predicate IsHookRun(r: Registration, event: string, name: string) {
    IsOn(r, event, "llmenv hook-run --engine codex " + name)
  }

  /** llmenv's own guards and notices. */
  predicate IsGuard(m: Manifest, r: Registration) {
    || IsOn(r, "SessionStart", "llmenv config-context --engine codex")
    || IsMatched(r, "PreToolUse", "^(Write|Edit|MultiEdit)$", "llmenv config-guard --engine codex")
    || (!m.sessionLog && IsMatched(r, "PreToolUse", "^Read$", "llmenv hook-run --engine codex pre_tool_use"))
  }

  predicate IsThrottle(m: Manifest, r: Registration) {
    && m.throttle
    && (|| IsOn(r, "PreToolUse", "llmenv throttle pre-tool")
        || IsOn(r, "UserPromptSubmit", "llmenv throttle prompt"))
  }

  predicate IsPrompt(m: Manifest, r: Registration) {
    if "icm" in m.mcps then IsHookRun(r, "UserPromptSubmit", "turn_start")
    else
      && !m.sessionLog && m.slippage.Some? && m.slippage.value.enabled && m.slippage.value.ruleReinjection
      && IsHookRun(r, "UserPromptSubmit", "user_prompt_submit")
  }

  predicate IsLog(m: Manifest, r: Registration) {
    if m.sessionLog then
      || IsHookRun(r, "UserPromptSubmit", "user_prompt_submit") || IsHookRun(r, "PreToolUse", "pre_tool_use")
      || IsHookRun(r, "PostToolUse", "post_tool_use") || IsHookRun(r, "Stop", "stop")
      || IsHookRun(r, "SubagentStop", "subagent_stop") || IsHookRun(r, "PreCompact", "pre_compact")
    else
      && (m.taskTracker || (m.slippage.Some? && m.slippage.value.enabled && m.slippage.value.selfCritique))
      && IsHookRun(r, "Stop", "stop")
  }

  lemma {:induction false} RunOnAre(events: seq<(string, string)>, r: Registration)
    ensures r in RunOn(events) <==> exists i | 0 <= i < |events| :: IsHookRun(r, events[i].1, events[i].0)
  {
    var all := RunOn(events);
    if r in all {
      var i :| 0 <= i < |all| && all[i] == r;
      assert IsHookRun(r, events[i].1, events[i].0);
    }
    if i :| 0 <= i < |events| && IsHookRun(r, events[i].1, events[i].0) {
      assert all[i] == r;
    }
  }

  lemma RegisteredExactly(m: Manifest)
    ensures LifecycleRegistered(m, "turn_start") <==> "icm" in m.mcps
    ensures LifecycleRegistered(m, "stop") <==>
            || m.sessionLog || m.taskTracker
            || (m.slippage.Some? && m.slippage.value.enabled && m.slippage.value.selfCritique)
  {
    var all := LifecycleRegistrations(m);
    assert all[2].event == "turn_start" && all[3].event == "stop";
    assert all[0].event[0] == 's' && all[0].event[1] == 'e' && all[1].event[1] == 'e';
  }

  lemma GuardsAre(m: Manifest, r: Registration)
    ensures r in OwnGuards(m) <==> IsGuard(m, r)
  {
    SessionLogTimes();
    assert HOOK_RUN + "pre_tool_use" == "llmenv hook-run --engine codex pre_tool_use";
  }

  lemma ThrottlesAre(m: Manifest, r: Registration)
    ensures r in OwnThrottle(m) <==> IsThrottle(m, r)
  {
    assert THROTTLE + "pre-tool" == "llmenv throttle pre-tool" && THROTTLE + "prompt" == "llmenv throttle prompt";
  }

  lemma PromptsAre(m: Manifest, r: Registration)
    ensures r in OwnPrompt(m) <==> IsPrompt(m, r)
  {
    RegisteredExactly(m);
  }

  lemma LogsAre(m: Manifest, r: Registration)
    ensures r in OwnLog(m) <==> IsLog(m, r)
  {
    RegisteredExactly(m);
    if m.sessionLog {
      SessionLogsAre(r);
    }
  }

  lemma SessionLogsAre(r: Registration)
    ensures r in RunOn(SESSION_LOG_EVENTS) <==>
            || IsHookRun(r, "UserPromptSubmit", "user_prompt_submit") || IsHookRun(r, "PreToolUse", "pre_tool_use")
            || IsHookRun(r, "PostToolUse", "post_tool_use") || IsHookRun(r, "Stop", "stop")
            || IsHookRun(r, "SubagentStop", "subagent_stop") || IsHookRun(r, "PreCompact", "pre_compact")
  {
    RunOnAre(SESSION_LOG_EVENTS, r);
    var all := SESSION_LOG_EVENTS;
    SixOf(all, r);
  }

  lemma SixOf(all: seq<(string, string)>, r: Registration)
    requires |all| == 6
    ensures (exists i | 0 <= i < |all| :: IsHookRun(r, all[i].1, all[i].0)) <==>
            || IsHookRun(r, all[0].1, all[0].0) || IsHookRun(r, all[1].1, all[1].0) || IsHookRun(r, all[2].1, all[2].0)
            || IsHookRun(r, all[3].1, all[3].0) || IsHookRun(r, all[4].1, all[4].0) || IsHookRun(r, all[5].1, all[5].0)
  {
  }

  lemma BaselineAre(r: Registration)
    ensures r in RunOn(BASELINE_EVENTS) <==>
            IsHookRun(r, "SessionStart", "session_start") || IsHookRun(r, "SessionEnd", "session_end")
  {
    RunOnAre(BASELINE_EVENTS, r);
    var all := BASELINE_EVENTS;
    assert all[0] == ("session_start", "SessionStart") && all[1] == ("session_end", "SessionEnd");
  }

  /** Exactly what llmenv registers for itself. */
  lemma OwnInWords(m: Manifest, r: Registration)
    ensures r in Own(m) <==>
            || IsGuard(m, r) || IsThrottle(m, r)
            || IsHookRun(r, "SessionStart", "session_start") || IsHookRun(r, "SessionEnd", "session_end")
            || IsPrompt(m, r) || IsLog(m, r)
  {
    GuardsAre(m, r);
    ThrottlesAre(m, r);
    BaselineAre(r);
    PromptsAre(m, r);
    LogsAre(m, r);
    InFive(OwnGuards(m), OwnThrottle(m), RunOn(BASELINE_EVENTS), OwnPrompt(m), OwnLog(m), r);
  }

  lemma InFive(a: seq<Registration>, b: seq<Registration>, c: seq<Registration>, d: seq<Registration>,
               e: seq<Registration>, r: Registration)
    ensures r in a + (b + (c + (d + e))) <==> r in a || r in b || r in c || r in d || r in e
  {
  }
}
