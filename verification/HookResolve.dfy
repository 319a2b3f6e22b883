/** The two resolution passes together, and what a second run of them does. */
module HookResolve {
  import opened Basics
  import opened Sequences
  import opened HookWords
  import opened HookCommand
  import opened HookFiles
  import opened HookScripts
  import PathResolve

  // ---- Composition ----

  /** A word that does not change keeps its text. */
  ghost predicate KeepsText(on: string -> WordResult) {
    forall word :: !on(word).changed ==> on(word).text == word
  }

  lemma ByCoreKeepsText(rewrite: string -> Rewrite)
    ensures KeepsText(ByCore(rewrite))
  {
  }

  lemma {:induction false} UntouchedIsSame(s: string, on: string -> WordResult)
    requires KeepsText(on) && !AnyTouched(s, on)
    ensures Rewritten(s, on) == s
    decreases |s|
  {
    var n := WordEnd(s);
    if n == |s| {
      assert s[..n] == s;
    } else {
      FirstWordTouch(s, on, n);
      UntouchedIsSame(s[n + 1..], on);
      FirstWordText(s, on, n);
      CutAt(s, n);
    }
  }

  function OrElse(first: Option<string>, second: string): string {
    if first.Some? then first.value else second
  }

  /** The hook command that a bundle's command becomes: the relative pass, then the file pass over its
      result. */
  ghost function ResolvedCommand(command: string, out: string, keys: set<string>): Result<string, string> {
    var relative := Rewritten(command, OnRelative(out));
    match FirstRefusal(relative, OnFiles(out, keys))
    case Some(key) => Err(key)
    case None => Ok(Rewritten(relative, OnFiles(out, keys)))
  }

  lemma RelativeOrSame(command: string, out: string)
    ensures OrElse(ResolvedRelative(command, out), command) == Rewritten(command, OnRelative(out))
  {
    if !AnyTouched(command, OnRelative(out)) {
      ByCoreKeepsText(RelativeRewrite(out));
      UntouchedIsSame(command, OnRelative(out));
    }
  }

  lemma FilesOrSame(command: string, out: string, keys: set<string>)
    requires ResolvedByFiles(command, out, keys).Ok?
    ensures OrElse(ResolvedByFiles(command, out, keys).value, command) == Rewritten(command, OnFiles(out, keys))
  {
    if !AnyTouched(command, OnFiles(out, keys)) {
      ByCoreKeepsText((core: string) => FileRewriteSpec(core, out, keys));
      UntouchedIsSame(command, OnFiles(out, keys));
    }
  }

  /** Whether a word names a script path that is outside the bundle files and outside the cache. */
  predicate IsUnresolved(word: string, out: string, canonicalize: PathResolve.Canonicalize) {
    var core := SplitWord(word).core;
    IsScriptPath(core) && !PathResolve.Within(Components(out), Components(core), canonicalize)
  }

  function Warning(name: string, word: string): string {
    name + "\0" + SplitWord(word).core
  }

  /** The warnings for some words: one for each bundle and unresolved path. */
  function WarningsFor(name: string, words: seq<string>, out: string, canonicalize: PathResolve.Canonicalize):
    set<string>
  {
    set word | word in words && IsUnresolved(word, out, canonicalize) :: Warning(name, word)
  }

  /** Resolve a hook command of the bundle `name`. `canonicalize` is what the file system answers. */
  method ResolveHookCommand(command: string, bundle: Option<string>, out: string, keys: set<string>,
                            canonicalize: PathResolve.Canonicalize, warned: set<string>)
    returns (r: Result<string, string>, warnedAfter: set<string>)
    ensures bundle.None? ==> r == Ok(command) && warnedAfter == warned
    ensures bundle.Some? ==> r == ResolvedCommand(command, out, keys)
    ensures bundle.Some? && r.Err? ==> warnedAfter == warned
    ensures bundle.Some? && r.Ok? ==>
              warnedAfter == warned + WarningsFor(bundle.value, Words(r.value), out, canonicalize)
  {
    warnedAfter := warned;
    if bundle.None? {
      return Ok(command), warned;
    }
    var relative := ResolveBundleRelativePaths(command, out);
    RelativeOrSame(command, out);
    var before := OrElse(relative, command);
    var byFiles := ResolveAgainstFiles(before, out, keys);
    match byFiles {
      case Err(key) => r := Err(key);
      case Ok(text) =>
        FilesOrSame(before, out, keys);
        var resolved := OrElse(text, before);
        r := Ok(resolved);
        warnedAfter := AddWarnings(bundle.value, Words(resolved), out, canonicalize, warned);
    }
  }

  method AddWarnings(name: string, words: seq<string>, out: string, canonicalize: PathResolve.Canonicalize,
                     warned: set<string>)
    returns (after: set<string>)
    ensures after == warned + WarningsFor(name, words, out, canonicalize)
  {
    after := warned;
    for i := 0 to |words|
      invariant after == warned + WarningsFor(name, words[..i], out, canonicalize)
    {
      OneMoreWarning(name, words, out, canonicalize, i);
      var unresolved := CheckWord(words[i], out, canonicalize);
      if unresolved {
        after := after + {Warning(name, words[i])};
      }
    }
    assert words[..|words|] == words;
  }

  method CheckWord(word: string, out: string, canonicalize: PathResolve.Canonicalize) returns (unresolved: bool)
    ensures unresolved == IsUnresolved(word, out, canonicalize)
  {
    var core := SplitWord(word).core;
    if !IsScriptPath(core) {
      return false;
    }
    var within := PathResolve.IsWithin(Components(out), Components(core), canonicalize);
    unresolved := !within;
  }

  lemma OneMoreWarning(name: string, words: seq<string>, out: string, canonicalize: PathResolve.Canonicalize, i: nat)
    requires i < |words|
    ensures WarningsFor(name, words[..i + 1], out, canonicalize) ==
            WarningsFor(name, words[..i], out, canonicalize) +
            (if IsUnresolved(words[i], out, canonicalize) then {Warning(name, words[i])} else {})
  {
    assert words[..i + 1] == words[..i] + [words[i]];
  }

  lemma JoinIsSpaceFree(dir: string, rel: string)
    requires SpaceFree(dir) && SpaceFree(rel)
    ensures SpaceFree(JoinPath(dir, rel))
  {
    assert !IsWhitespace('/');
  }

  lemma PartsAreSpaceFree(parts: Split)
    requires SpaceFree(parts.prefix) && SpaceFree(parts.core) && SpaceFree(parts.suffix)
    ensures SpaceFree(JoinParts(parts))
  {
  }

  lemma RelativeTextIsSpaceFree(word: string, out: string)
    requires SpaceFree(word) && SpaceFree(out)
    ensures SpaceFree(OnRelative(out)(word).text)
  {
    var parts := SplitWord(word);
    OnRelativeOf(word, out);
    SplitWordLaws(word);
    SpaceFreeParts(parts);
    JoinIsSpaceFree(out, parts.core);
    PartsAreSpaceFree(parts.(core := JoinPath(out, parts.core)));
  }

  lemma OnFilesOf(word: string, out: string, keys: set<string>)
    ensures var parts := SplitWord(word);
            OnFiles(out, keys)(word) ==
            match FileRewriteSpec(parts.core, out, keys)
            case Replace(text) => WordResult(JoinParts(parts.(core := text)), true, None)
            case Refuse(key) => WordResult(word, false, Some(key))
            case Keep => WordResult(word, false, None)
  {
  }

  lemma MatchIsSpaceFree(word: string, key: string)
    requires SpaceFree(word) && EndsWith(word, key)
    ensures SpaceFree(key)
  {
    assert forall i | 0 <= i < |key| :: key[i] == word[|word| - |key| + i];
  }

  lemma FileTextIsSpaceFree(word: string, out: string, keys: set<string>)
    requires SpaceFree(word) && SpaceFree(out)
    ensures SpaceFree(OnFiles(out, keys)(word).text)
  {
    var parts := SplitWord(word);
    OnFilesOf(word, out, keys);
    SplitWordLaws(word);
    SpaceFreeParts(parts);
    if FileRewriteSpec(parts.core, out, keys).Replace? {
      var key := LongestMatch(parts.core, keys).value;
      MatchIsSpaceFree(parts.core, key);
      JoinIsSpaceFree(out, key);
      PartsAreSpaceFree(parts.(core := JoinPath(out, key)));
    }
  }

  /** With a cache folder without whitespace, the two passes work word by word: the words of the
      result are the words of the command through both passes, with the same whitespace between. */
  lemma ResolvedWordByWord(command: string, out: string, keys: set<string>)
    requires SpaceFree(out) && ResolvedCommand(command, out, keys).Ok?
    ensures var resolved := ResolvedCommand(command, out, keys).value;
            && Spaces(resolved) == Spaces(command)
            && |Words(resolved)| == |Words(command)|
            && forall i | 0 <= i < |Words(command)| ::
                 Words(resolved)[i] == OnFiles(out, keys)(OnRelative(out)(Words(command)[i]).text).text
  {
    var relative := Rewritten(command, OnRelative(out));
    WordsAreSpaceFree(command);
    forall i | 0 <= i < |Words(command)| ensures SpaceFree(OnRelative(out)(Words(command)[i]).text) {
      RelativeTextIsSpaceFree(Words(command)[i], out);
    }
    RewrittenWords(command, OnRelative(out));
    WordsAreSpaceFree(relative);
    forall i | 0 <= i < |Words(relative)| ensures SpaceFree(OnFiles(out, keys)(Words(relative)[i]).text) {
      FileTextIsSpaceFree(Words(relative)[i], out, keys);
    }
    RewrittenWords(relative, OnFiles(out, keys));
  }
}
