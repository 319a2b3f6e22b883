/** A second run over a resolved hook command: when it changes nothing, for every absolute cache folder. */
module HookStable {
  import opened Basics
  import opened Sequences
  import opened HookWords
  import opened HookCommand
  import opened HookSettles
  import opened HookFiles
  import opened HookResolve

  // ---- Whitespace never goes away ----

  lemma {:induction false} SpacesConcat(a: string, space: char, b: string)
    requires IsWhitespace(space)
    ensures Words(a + ([space] + b)) == Words(a) + Words(b)
    ensures Spaces(a + ([space] + b)) == Spaces(a) + ([space] + Spaces(b))
    decreases |a|
  {
    if IsOneWord(a) {
      WholeIsSpaceFree(a);
      OneWordReads(a);
      FirstWordReads(a, space, b);
      assert [] + ([space] + Spaces(b)) == [space] + Spaces(b);
    } else {
      var word, first, rest := FirstWordAndRest(a);
      SpacesConcat(rest, space, b);
      FirstWordReads(word, first, rest + ([space] + b));
      AssociateFour(word, [first], rest, [space] + b);
      Associate([word], Words(rest), Words(b));
      Associate([first], Spaces(rest), [space] + Spaces(b));
    }
  }

  lemma SpaceFreeHasNone(s: string)
    ensures SpaceFree(s) <==> |Spaces(s)| == 0
  {
    if IsOneWord(s) {
      WholeIsSpaceFree(s);
      OneWordReads(s);
    } else {
      var word, space, rest := FirstWordAndRest(s);
      assert s[|word|] == space;
    }
  }

  predicate SomeSpaced(words: seq<string>, on: string -> WordResult) {
    exists i | 0 <= i < |words| :: !SpaceFree(on(words[i]).text)
  }

  lemma SomeSpacedFrom(word: string, words: seq<string>, on: string -> WordResult)
    requires SomeSpaced([word] + words, on)
    ensures !SpaceFree(on(word).text) || SomeSpaced(words, on)
  {
    var all := [word] + words;
    var i :| 0 <= i < |all| && !SpaceFree(on(all[i]).text);
    if i > 0 {
      assert all[i] == words[i - 1];
    }
  }

  /** Rewriting keeps each whitespace character, and adds those of the texts that it puts in. */
  lemma {:induction false} RewrittenSpaces(s: string, on: string -> WordResult)
    ensures |Spaces(Rewritten(s, on))| >= |Spaces(s)|
    ensures SomeSpaced(Words(s), on) ==> |Spaces(Rewritten(s, on))| > |Spaces(s)|
    decreases |s|
  {
    if IsOneWord(s) {
      WholeIsSpaceFree(s);
      OneWordReads(s);
      SingleWord(s, on);
      SpaceFreeHasNone(on(s).text);
    } else {
      var word, space, rest := FirstWordAndRest(s);
      RewrittenSpaces(rest, on);
      RewrittenConcat(word, space, rest, on);
      SingleWord(word, on);
      SpacesConcat(on(word).text, space, Rewritten(rest, on));
      SpaceFreeHasNone(on(word).text);
      if SomeSpaced(Words(s), on) {
        SomeSpacedFrom(word, Words(rest), on);
      }
    }
  }

  // ---- Known files that a word can end with ----

  /** A known file that a word of a command can end with. */
  predicate CanMatch(key: string) {
    SpaceFree(key) && (key != "" ==> key[|key| - 1] !in CLOSING)
  }

  /** No known file, joined to the cache folder, ends with a longer known file. */
  ghost predicate NoLongerMatch(out: string, keys: set<string>) {
    forall key, other | key in keys && CanMatch(key) && !IsUnsafeJoinTarget(key) &&
                        other in keys && SuffixMatches(JoinPath(out, key), other) :: |other| <= |key|
  }

  /** No known file that a word can end with is safe to join. */
  predicate NoSafeMatch(keys: set<string>) {
    forall key | key in keys && CanMatch(key) :: IsUnsafeJoinTarget(key)
  }

  lemma CoreHasFile(core: string, key: string)
    requires core != "" && core[|core| - 1] !in CLOSING && SpaceFree(core) && EndsWith(core, key)
    ensures CanMatch(key)
  {
    MatchIsSpaceFree(core, key);
    if key != "" {
      assert key[|key| - 1] == core[|core| - 1];
    }
  }

  lemma JoinMatches(out: string, key: string)
    requires IsAbsolute(out) && !IsUnsafeJoinTarget(key)
    ensures IsAbsolute(JoinPath(out, key)) && '/' in JoinPath(out, key) && SuffixMatches(JoinPath(out, key), key)
    ensures |JoinPath(out, key)| == |out + Separator(out)| + |key|
  {
    var path, end := JoinPath(out, key), out + Separator(out);
    assert path == end + key;
    assert path[0] == '/';
    assert path[|path| - |key|..] == key;
    assert path[|end| - 1] == end[|end| - 1] == '/';
  }

  lemma StableWord(word: string, out: string, keys: set<string>)
    requires IsAbsolute(out) && SpaceFree(out) && NoLongerMatch(out, keys) && SpaceFree(word)
    ensures WordStable(word, OnFiles(out, keys))
  {
    OnFilesOf(word, out, keys);
    FileTextIsSpaceFree(word, out, keys);
    var parts := SplitWord(word);
    SplitWordLaws(word);
    SpaceFreeParts(parts);
    if FileRewriteSpec(parts.core, out, keys).Replace? {
      var key := LongestMatch(parts.core, keys).value;
      CoreHasFile(parts.core, key);
      ResolvedWordStays(parts, out, keys, key);
    }
  }

  /** A known file joined to the cache folder, between marks, resolves to itself. */
  lemma ResolvedWordStays(parts: Split, out: string, keys: set<string>, key: string)
    requires IsAbsolute(out) && NoLongerMatch(out, keys) && IsSplit(parts)
    requires key in keys && CanMatch(key) && !IsUnsafeJoinTarget(key)
    ensures var text := JoinParts(parts.(core := JoinPath(out, key)));
            OnFiles(out, keys)(text) == WordResult(text, true, None)
  {
    var path := JoinPath(out, key);
    JoinMatches(out, key);
    assert IsLongestMatch(path, keys, key);
    LongestMatchIs(path, keys, key);
    JoinKeepsBare(out, key);
    SplitWordOf(parts.(core := path));
    OnFilesOf(JoinParts(parts.(core := path)), out, keys);
  }

  lemma JoinKeepsBare(out: string, key: string)
    requires IsAbsolute(out) && !IsUnsafeJoinTarget(key) && CanMatch(key)
    ensures var path := JoinPath(out, key); path[0] !in OPENING && path[|path| - 1] !in CLOSING
  {
    JoinMatches(out, key);
    var path, end := JoinPath(out, key), out + Separator(out);
    assert path == end + key;
    if key == "" {
      assert path == end && end[|end| - 1] == '/';
    } else {
      assert path[|path| - 1] == key[|key| - 1];
    }
  }

  lemma {:induction false} LengthBound(keys: set<string>) returns (n: nat)
    ensures forall key | key in keys :: |key| < n
    decreases |keys|
  {
    if keys == {} {
      n := 0;
    } else {
      var key :| key in keys;
      var m := LengthBound(keys - {key});
      n := if |key| < m then m else |key| + 1;
    }
  }

  /** A word that starts with `~`, so that it is not bundle-relative, and ends with the file. */
  function Filler(n: nat, key: string): string {
    seq(n, i => '~') + ("/" + key)
  }

  lemma FillerIsBare(n: nat, key: string)
    requires n > 0 && CanMatch(key)
    ensures var word := Filler(n, key);
            && SpaceFree(word) && SplitWord(word) == Split("", word, "")
            && word != "" && word[0] == '~'
  {
    var word := Filler(n, key);
    assert !IsWhitespace('/') && !IsWhitespace('~');
    assert SpaceFree("/" + key);
    assert word[0] == '~';
    assert word[|word| - 1] == if key == "" then '/' else key[|key| - 1];
    BareWord(word);
  }

  lemma FillerEndsWith(n: nat, key: string, other: string)
    requires |other| < n && SuffixMatches(Filler(n, key), other)
    ensures |other| <= |key|
  {
    var word := Filler(n, key);
    assert |word| == n + 1 + |key|;
    assert forall i | 0 <= i < n :: word[i] == '~';
  }

  /** For each known file there is a word that ends with it and with no longer one. */
  lemma WordFor(key: string, keys: set<string>) returns (word: string)
    requires key in keys && CanMatch(key)
    ensures SpaceFree(word) && '/' in word && SplitWord(word) == Split("", word, "")
    ensures IsLongestMatch(word, keys, key) && word[0] == '~'
  {
    var n := LengthBound(keys);
    word := Filler(n, key);
    FillerIsBare(n, key);
    assert word[n] == '/' && word[|word| - |key|..] == key;
    forall other | other in keys && SuffixMatches(word, other) ensures |other| <= |key| {
      FillerEndsWith(n, key, other);
    }
  }

  /** A bare word whose longest known file is `key`. */
  lemma BareWordOutcome(word: string, out: string, keys: set<string>, key: string)
    requires word != "" && '/' in word && SplitWord(word) == Split("", word, "") &&
             LongestMatch(word, keys) == Some(key)
    ensures OnFiles(out, keys)(word) ==
            if IsUnsafeJoinTarget(key) then WordResult(word, false, Some(key))
            else WordResult(JoinPath(out, key), true, None)
  {
    OnFilesOf(word, out, keys);
    var outcome := FileOutcome(Some(key), out);
    assert FileRewriteSpec(word, out, keys) == outcome;
    if outcome.Replace? {
      BareParts(outcome.text);
    }
  }

  lemma LongerIsFound(word: string, keys: set<string>, other: string)
    requires other in keys && SuffixMatches(word, other)
    ensures LongestMatch(word, keys).Some? && |LongestMatch(word, keys).value| >= |other|
  {
    LongestExists(word, keys, other);
  }

  lemma {:induction false} LongestExists(word: string, keys: set<string>, other: string)
    requires other in keys && SuffixMatches(word, other)
    ensures exists key :: IsLongestMatch(word, keys, key)
    decreases |word| - |other|
  {
    if !IsLongestMatch(word, keys, other) {
      var longer :| longer in keys && SuffixMatches(word, longer) && |longer| > |other|;
      LongestExists(word, keys, longer);
    }
  }

  // ---- The file pass on a folder without whitespace ----

  /** A second file pass over a resolved command changes no text and refuses nothing. */
  ghost predicate FilesStable(out: string, keys: set<string>) {
    forall command | !Refuses(command, OnFiles(out, keys)) ::
      FixedByFiles(Rewritten(command, OnFiles(out, keys)), out, keys)
  }

  ghost predicate FixedByFiles(command: string, out: string, keys: set<string>) {
    !Refuses(command, OnFiles(out, keys)) && Rewritten(command, OnFiles(out, keys)) == command
  }

  /** Each resolved word resolves to itself. */
  ghost predicate WordStable(word: string, on: string -> WordResult) {
    on(word).refusal.None? ==>
      var text := on(word).text;
      SpaceFree(text) && on(text).text == text && on(text).refusal.None?
  }

  lemma {:induction false} StableByWord(command: string, on: string -> WordResult)
    requires forall word | SpaceFree(word) :: WordStable(word, on)
    requires !Refuses(command, on)
    ensures var once := Rewritten(command, on); !Refuses(once, on) && Rewritten(once, on) == once
    decreases |command|
  {
    if IsOneWord(command) {
      WholeIsSpaceFree(command);
      assert WordStable(command, on);
      SingleWord(command, on);
      SingleWord(on(command).text, on);
    } else {
      var word, space, rest := FirstWordAndRest(command);
      RefusesConcat(word, space, rest, on);
      SingleWord(word, on);
      StableByWord(rest, on);
      assert WordStable(word, on);
      var text := on(word).text;
      SingleWord(text, on);
      RewrittenConcat(word, space, rest, on);
      RewrittenConcat(text, space, Rewritten(rest, on), on);
      RefusesConcat(text, space, Rewritten(rest, on), on);
    }
  }

  lemma UnstablePath(out: string, keys: set<string>, key: string, other: string)
    requires IsAbsolute(out) && key in keys && CanMatch(key) && !IsUnsafeJoinTarget(key)
    requires other in keys && SuffixMatches(JoinPath(out, key), other) && |other| > |key|
    ensures var path := JoinPath(out, key);
            OnFiles(out, keys)(path).refusal.Some? || OnFiles(out, keys)(path).text != path
  {
    var path := JoinPath(out, key);
    JoinMatches(out, key);
    JoinKeepsBare(out, key);
    BareWord(path);
    LongerIsFound(path, keys, other);
    var found := LongestMatch(path, keys).value;
    BareWordOutcome(path, out, keys, found);
    if !IsUnsafeJoinTarget(found) {
      JoinMatches(out, found);
      assert |JoinPath(out, found)| > |path|;
    }
  }

  // ---- The file pass on a folder with whitespace ----

  lemma NeverReplaced(word: string, out: string, keys: set<string>)
    requires NoSafeMatch(keys) && SpaceFree(word)
    ensures !OnFiles(out, keys)(word).changed && OnFiles(out, keys)(word).text == word
  {
    var parts := SplitWord(word);
    OnFilesOf(word, out, keys);
    SplitWordLaws(word);
    SpaceFreeParts(parts);
    if FileRewriteSpec(parts.core, out, keys).Replace? {
      CoreHasFile(parts.core, LongestMatch(parts.core, keys).value);
    }
  }

  lemma {:induction false} NeverRewritten(s: string, out: string, keys: set<string>)
    requires NoSafeMatch(keys)
    ensures Rewritten(s, OnFiles(out, keys)) == s
    decreases |s|
  {
    if IsOneWord(s) {
      WholeIsSpaceFree(s);
      SingleWord(s, OnFiles(out, keys));
      NeverReplaced(s, out, keys);
    } else {
      var word, space, rest := FirstWordAndRest(s);
      NeverRewritten(rest, out, keys);
      RewrittenConcat(word, space, rest, OnFiles(out, keys));
      SingleWord(word, OnFiles(out, keys));
      NeverReplaced(word, out, keys);
    }
  }

  lemma JoinHasSpace(prefix: string, out: string, rel: string, suffix: string)
    requires !SpaceFree(out) && !IsAbsolute(rel)
    ensures !SpaceFree(prefix + JoinPath(out, rel) + suffix)
  {
    var i :| 0 <= i < |out| && IsWhitespace(out[i]);
    var text := prefix + JoinPath(out, rel) + suffix;
    assert text[|prefix| + i] == out[i];
  }

  lemma EndMatches(tail: string, key: string)
    requires tail != "" && tail[|tail| - 1] == '/'
    ensures '/' in tail + key && SuffixMatches(tail + key, key)
  {
    var core := tail + key;
    assert core[|tail| - 1] == '/';
    assert core[|core| - |key|..] == key;
  }

  /** The last word of a folder path with a known file joined to it is refused, or replaced by a text with the
      whitespace of the folder. */
  lemma FileWordFate(last: string, key: string, out: string, keys: set<string>)
    requires !SpaceFree(out) && key in keys && CanMatch(key) && last != "" && last[|last| - 1] == '/'
    ensures OnFiles(out, keys)(last + key).refusal.Some? || !SpaceFree(OnFiles(out, keys)(last + key).text)
  {
    var prefix, tail := SplitOfEnd(last, key, "");
    assert last + key + "" == last + key;
    EndMatches(tail, key);
    LongerIsFound(tail + key, keys, key);
    var found := LongestMatch(tail + key, keys).value;
    OnFilesOf(last + key, out, keys);
    if !IsUnsafeJoinTarget(found) {
      JoinHasSpace(prefix, out, found, "");
    }
  }

  /** So a command that ends with such a word is refused, or grows. */
  lemma LastFileGrows(before: string, space: char, last: string, key: string, out: string, keys: set<string>)
    requires !SpaceFree(out) && key in keys && CanMatch(key) && IsWhitespace(space)
    requires SpaceFree(last) && last != "" && last[|last| - 1] == '/'
    ensures var s, on := before + ([space] + (last + key)), OnFiles(out, keys);
            Refuses(s, on) || |Spaces(Rewritten(s, on))| > |Spaces(s)|
  {
    FileWordFate(last, key, out, keys);
    LastWordGrows(before, space, last + key, OnFiles(out, keys));
  }

  lemma LastWordGrows(before: string, space: char, word: string, on: string -> WordResult)
    requires IsWhitespace(space) && SpaceFree(word) && (on(word).refusal.Some? || !SpaceFree(on(word).text))
    ensures var s := before + ([space] + word); Refuses(s, on) || |Spaces(Rewritten(s, on))| > |Spaces(s)|
  {
    SingleWord(word, on);
    RefusesConcat(before, space, word, on);
    RewrittenConcat(before, space, word, on);
    RewrittenSpaces(before, on);
    SpacesConcat(before, space, word);
    SpacesConcat(Rewritten(before, on), space, on(word).text);
    SpaceFreeHasNone(word);
    SpaceFreeHasNone(on(word).text);
  }

  /** A folder path with whitespace, cut at its last one. */
  lemma CutFolder(out: string) returns (before: string, space: char, last: string)
    requires IsAbsolute(out) && !SpaceFree(out)
    ensures FolderEnd(out) == before + ([space] + last) && IsWhitespace(space)
    ensures SpaceFree(last) && last != "" && last[|last| - 1] == '/' && IsAbsolute(before)
  {
    FolderEndLaws(out);
    before, space, last := LastSpace(FolderEnd(out));
    BeforeIsRooted(before, space, last, FolderEnd(out));
  }

  lemma SpacedPathGrows(out: string, keys: set<string>, key: string)
    requires IsAbsolute(out) && !SpaceFree(out) && key in keys && CanMatch(key) && !IsUnsafeJoinTarget(key)
    ensures !FixedByFiles(JoinPath(out, key), out, keys)
  {
    var before, space, last := CutFolder(out);
    FolderEndLaws(out);
    AssociateFour(before, [space], last, key);
    LastFileGrows(before, space, last, key, out, keys);
  }

  // ---- The file pass, for every absolute folder ----

  /** On a folder without whitespace, no known file joined to it ends with a longer one. On a folder with
      whitespace, no known file can be joined at all. */
  ghost predicate FilesStayPut(out: string, keys: set<string>) {
    if SpaceFree(out) then NoLongerMatch(out, keys) else NoSafeMatch(keys)
  }

  /** The second pass always leaves a resolved command alone exactly then. */
  lemma FilesStableExactly(out: string, keys: set<string>)
    requires IsAbsolute(out)
    ensures FilesStable(out, keys) <==> FilesStayPut(out, keys)
  {
    if FilesStayPut(out, keys) {
      AllWordsStable(out, keys);
      forall command | !Refuses(command, OnFiles(out, keys))
        ensures FixedByFiles(Rewritten(command, OnFiles(out, keys)), out, keys)
      {
        StableByWord(command, OnFiles(out, keys));
      }
    } else {
      var key, word := MovingFile(out, keys);
      SingleWord(word, OnFiles(out, keys));
      assert !Refuses(word, OnFiles(out, keys));
    }
  }

  lemma AllWordsStable(out: string, keys: set<string>)
    requires IsAbsolute(out) && FilesStayPut(out, keys)
    ensures forall word | SpaceFree(word) :: WordStable(word, OnFiles(out, keys))
  {
    forall word | SpaceFree(word) ensures WordStable(word, OnFiles(out, keys)) {
      if SpaceFree(out) {
        StableWord(word, out, keys);
      } else {
        NeverReplaced(word, out, keys);
      }
    }
  }

  /** A word that becomes a path which the file pass does not leave alone. */
  lemma MovingFile(out: string, keys: set<string>) returns (key: string, word: string)
    requires IsAbsolute(out) && !FilesStayPut(out, keys)
    ensures key in keys && CanMatch(key) && !IsUnsafeJoinTarget(key)
    ensures SpaceFree(word) && word != "" && word[0] == '~' && SplitWord(word) == Split("", word, "")
    ensures OnFiles(out, keys)(word) == WordResult(JoinPath(out, key), true, None)
    ensures !FixedByFiles(JoinPath(out, key), out, keys)
  {
    if SpaceFree(out) {
      var other;
      key, other :| key in keys && CanMatch(key) && !IsUnsafeJoinTarget(key) &&
                    other in keys && SuffixMatches(JoinPath(out, key), other) && |other| > |key|;
      UnstablePath(out, keys, key, other);
      JoinIsSpaceFree(out, key);
      SingleWord(JoinPath(out, key), OnFiles(out, keys));
    } else {
      key :| key in keys && CanMatch(key) && !IsUnsafeJoinTarget(key);
      SpacedPathGrows(out, keys, key);
    }
    word := WordFor(key, keys);
    LongestMatchIs(word, keys, key);
    BareWordOutcome(word, out, keys, key);
  }

  /** With the cache folder `/c` and the known files `s` and `c/s`, a second pass moves `/c/s` to
      `/c/c/s`. */
  lemma NestedFileIsUnstable()
    ensures !FilesStable("/c", {"s", "c/s"})
  {
    var path := JoinPath("/c", "s");
    assert path == "/c/s";
    assert path[|path| - |"c/s"|..] == "c/s";
    assert SuffixMatches(path, "c/s");
    SIsAFile();
    assert SpaceFree("/c");
    FilesStableExactly("/c", {"s", "c/s"});
  }

  lemma SIsAFile()
    ensures CanMatch("s") && !IsUnsafeJoinTarget("s")
  {
  }

  /** With the cache folder `/a b` and the known file `s`, a second pass moves `/a b/s` to `/a /a b/s`. */
  lemma SpacedFolderIsUnstable()
    ensures !FilesStable("/a b", {"s"})
  {
    SIsAFile();
    assert IsWhitespace("/a b"[2]);
    FilesStableExactly("/a b", {"s"});
  }

  // ---- The whole resolution ----

  /** Resolving a resolved command again gives the same command, whatever the command. */
  ghost predicate CommandsStable(out: string, keys: set<string>) {
    forall command | ResolvedCommand(command, out, keys).Ok? ::
      Settled(ResolvedCommand(command, out, keys).value, out, keys)
  }

  ghost predicate Settled(command: string, out: string, keys: set<string>) {
    ResolvedCommand(command, out, keys) == Ok(command)
  }

  lemma RelativeIdle(s: string, out: string)
    requires !AnyTouched(s, OnRelative(out))
    ensures Rewritten(s, OnRelative(out)) == s
  {
    ByCoreKeepsText(RelativeRewrite(out));
    UntouchedIsSame(s, OnRelative(out));
  }

  /** A command without relative words is settled when the file pass leaves it alone. */
  lemma SettledByFiles(s: string, out: string, keys: set<string>)
    requires !AnyTouched(s, OnRelative(out))
    ensures Settled(s, out, keys) <==> FixedByFiles(s, out, keys)
  {
    RelativeIdle(s, out);
  }

  /** The file pass makes no relative word on a folder without whitespace. */
  lemma FileWordNotRelative(word: string, out: string, keys: set<string>)
    requires IsAbsolute(out) && SpaceFree(out) && SpaceFree(word) && !OnRelative(out)(word).changed
    ensures !AnyTouched(OnFiles(out, keys)(word).text, OnRelative(out))
  {
    var parts := SplitWord(word);
    OnFilesOf(word, out, keys);
    SplitWordLaws(word);
    SpaceFreeParts(parts);
    SingleWord(word, OnRelative(out));
    if FileRewriteSpec(parts.core, out, keys).Replace? {
      var key := LongestMatch(parts.core, keys).value;
      MatchIsSpaceFree(parts.core, key);
      JoinIsSpaceFree(out, key);
      JoinedIsRooted(parts, JoinPath(out, key), out);
    }
  }

  lemma JoinedIsRooted(parts: Split, path: string, out: string)
    requires AllIn(parts.prefix, OPENING) && IsAbsolute(path) && SpaceFree(path) && SpaceFree(parts.suffix)
    ensures !AnyTouched(JoinParts(parts.(core := path)), OnRelative(out))
  {
    assert (path + parts.suffix)[0] == path[0];
    RootedUntouched(parts.prefix, path + parts.suffix, out);
    Associate(parts.prefix, path, parts.suffix);
  }

  lemma {:induction false} FilesKeepSettled(s: string, out: string, keys: set<string>)
    requires IsAbsolute(out) && SpaceFree(out) && !AnyTouched(s, OnRelative(out))
    ensures !AnyTouched(Rewritten(s, OnFiles(out, keys)), OnRelative(out))
    decreases |s|
  {
    if IsOneWord(s) {
      WholeIsSpaceFree(s);
      SingleWord(s, OnFiles(out, keys));
      SingleWord(s, OnRelative(out));
      FileWordNotRelative(s, out, keys);
    } else {
      var word, space, rest := FirstWordAndRest(s);
      TouchedConcat(word, space, rest, OnRelative(out));
      FilesKeepSettled(rest, out, keys);
      SingleWord(word, OnRelative(out));
      FileWordNotRelative(word, out, keys);
      RewrittenConcat(word, space, rest, OnFiles(out, keys));
      SingleWord(word, OnFiles(out, keys));
      TouchedConcat(OnFiles(out, keys)(word).text, space, Rewritten(rest, OnFiles(out, keys)), OnRelative(out));
    }
  }

  lemma SpaceFreeStable(command: string, out: string, keys: set<string>)
    requires IsAbsolute(out) && SpaceFree(out) && NoLongerMatch(out, keys)
    requires ResolvedCommand(command, out, keys).Ok?
    ensures Settled(ResolvedCommand(command, out, keys).value, out, keys)
  {
    var relative := Rewritten(command, OnRelative(out));
    SpaceFreeFolderSettles(out);
    ResolveSettlesExactly(out);
    FilesStableExactly(out, keys);
    FilesKeepSettled(relative, out, keys);
    SettledByFiles(Rewritten(relative, OnFiles(out, keys)), out, keys);
  }

  /** Some word of the folder's path, before its last one, ends with a known file that cannot be joined, so
      that every command with a relative word is refused. */
  ghost predicate FolderIsRefused(out: string, keys: set<string>) {
    var words := Words(FolderEnd(out));
    exists i | 0 <= i < |words| - 1 :: UnsafeWord(words[i], keys)
  }

  lemma BeforeIsRefused(before: string, space: char, last: string, out: string, keys: set<string>)
    requires FolderEnd(out) == before + ([space] + last) && IsWhitespace(space) && SpaceFree(last)
    ensures FolderIsRefused(out, keys) <==> Refuses(before, OnFiles(out, keys))
  {
    SpacesConcat(before, space, last);
    SpaceFreeIsOneWord(last);
    OneWordReads(last);
    RefusalIsSomeWord(before, OnFiles(out, keys));
    RefusedWordsAreUnsafe(Words(before), out, keys);
    UnsafeBeforeLast(Words(before), last, keys);
  }

  lemma UnsafeBeforeLast(words: seq<string>, last: string, keys: set<string>)
    ensures var all := words + [last];
            (exists i | 0 <= i < |all| - 1 :: UnsafeWord(all[i], keys)) <==>
            (exists i | 0 <= i < |words| :: UnsafeWord(words[i], keys))
  {
    var all := words + [last];
    if i :| 0 <= i < |words| && UnsafeWord(words[i], keys) {
      assert UnsafeWord(all[i], keys);
    }
    if i :| 0 <= i < |all| - 1 && UnsafeWord(all[i], keys) {
      assert UnsafeWord(words[i], keys);
    }
  }

  /** A resolved relative word carries the folder with it, and is refused when the folder is. */
  lemma RelativeWordRefused(word: string, before: string, space: char, last: string, out: string, keys: set<string>)
    requires FolderEnd(out) == before + ([space] + last) && IsWhitespace(space) && IsAbsolute(before)
    requires Refuses(before, OnFiles(out, keys)) && SpaceFree(word) && OnRelative(out)(word).changed
    ensures Refuses(OnRelative(out)(word).text, OnFiles(out, keys))
  {
    var parts := SplitWord(word);
    SplitWordLaws(word);
    OnRelativeOf(word, out);
    JoinedAtLastSpace(parts, before, space, last);
    RefusesConcat(parts.prefix + before, space, last + parts.core + parts.suffix, OnFiles(out, keys));
    BareSlash(before);
    PrefixedCommand(parts.prefix, before, (core: string) => FileRewriteSpec(core, out, keys));
  }

  lemma {:induction false} TouchedIsRefused(s: string, before: string, space: char, last: string, out: string,
                                           keys: set<string>)
    requires FolderEnd(out) == before + ([space] + last) && IsWhitespace(space) && IsAbsolute(before)
    requires Refuses(before, OnFiles(out, keys)) && AnyTouched(s, OnRelative(out))
    ensures Refuses(Rewritten(s, OnRelative(out)), OnFiles(out, keys))
    decreases |s|
  {
    var on, files := OnRelative(out), OnFiles(out, keys);
    if IsOneWord(s) {
      WholeIsSpaceFree(s);
      SingleWord(s, on);
      RelativeWordRefused(s, before, space, last, out, keys);
    } else {
      var word, between, rest := FirstWordAndRest(s);
      TouchedConcat(word, between, rest, on);
      SingleWord(word, on);
      RewrittenConcat(word, between, rest, on);
      RefusesConcat(on(word).text, between, Rewritten(rest, on), files);
      if on(word).changed {
        RelativeWordRefused(word, before, space, last, out, keys);
      } else {
        TouchedIsRefused(rest, before, space, last, out, keys);
      }
    }
  }

  lemma SpacedStable(command: string, out: string, keys: set<string>)
    requires IsAbsolute(out) && !SpaceFree(out) && NoSafeMatch(keys)
    requires FolderHasNoRelativeWord(out) || FolderIsRefused(out, keys)
    requires ResolvedCommand(command, out, keys).Ok?
    ensures Settled(ResolvedCommand(command, out, keys).value, out, keys)
  {
    var relative := Rewritten(command, OnRelative(out));
    NeverRewritten(relative, out, keys);
    if FolderHasNoRelativeWord(out) {
      ResolveSettlesExactly(out);
    } else {
      var before, space, last := CutFolder(out);
      BeforeIsRefused(before, space, last, out, keys);
      if AnyTouched(command, OnRelative(out)) {
        TouchedIsRefused(command, before, space, last, out, keys);
      }
      RelativeIdle(command, out);
    }
    SettledByFiles(relative, out, keys);
  }

  // ---- Commands that do not settle ----

  lemma TildeIsNotRelative(word: string, out: string)
    requires word != "" && word[0] == '~' && SplitWord(word) == Split("", word, "") && SpaceFree(word)
    ensures !AnyTouched(word, OnRelative(out))
  {
    OnRelativeOf(word, out);
    SingleWord(word, OnRelative(out));
  }

  lemma TildeResolves(word: string, path: string, out: string, keys: set<string>)
    requires word != "" && word[0] == '~' && SplitWord(word) == Split("", word, "") && SpaceFree(word)
    requires OnFiles(out, keys)(word) == WordResult(path, true, None)
    ensures ResolvedCommand(word, out, keys) == Ok(path)
  {
    TildeIsNotRelative(word, out);
    RelativeIdle(word, out);
    SingleWord(word, OnFiles(out, keys));
  }

  /** On a folder with whitespace, a path to a known file grows with every run. */
  lemma SpacedPathUnsettled(out: string, keys: set<string>, key: string)
    requires IsAbsolute(out) && !SpaceFree(out) && key in keys && CanMatch(key) && !IsUnsafeJoinTarget(key)
    ensures !Settled(JoinPath(out, key), out, keys)
  {
    var before, space, last := CutFolder(out);
    PathAtLastSpace(out, key, before, space, last);
    LastWordRewritten(before, space, last + key, OnRelative(out));
    if OnRelative(out)(last + key).changed {
      var head, end := LastFileJoinedText(before, space, last, key, out);
      FileTextUnsettled(JoinPath(out, key), Rewritten(before, OnRelative(out)), space, head, end, key, out, keys);
    } else {
      UnchangedText(last + key, out);
      FileTextUnsettled(JoinPath(out, key), Rewritten(before, OnRelative(out)), space, "", last, key, out, keys);
    }
  }

  /** A command that still ends with the file after a slash, once the relative pass is done. */
  lemma FileTextUnsettled(path: string, start: string, space: char, head: string, end: string, key: string, out: string,
                          keys: set<string>)
    requires !SpaceFree(out) && key in keys && CanMatch(key) && IsWhitespace(space)
    requires SpaceFree(end) && end != "" && end[|end| - 1] == '/' && (head == "" || IsWhitespace(head[|head| - 1]))
    requires Rewritten(path, OnRelative(out)) == start + ([space] + (head + (end + key)))
    ensures !Settled(path, out, keys)
  {
    var pre, gap := PutTogether(start, space, head, end + key);
    RewrittenSpaces(path, OnRelative(out));
    LastFileGrows(pre, gap, end, key, out, keys);
  }

  lemma LastWordRewritten(before: string, space: char, word: string, on: string -> WordResult)
    requires IsWhitespace(space) && SpaceFree(word)
    ensures Rewritten(before + ([space] + word), on) == Rewritten(before, on) + ([space] + on(word).text)
  {
    RewrittenConcat(before, space, word, on);
    SingleWord(word, on);
  }

  lemma UnchangedText(word: string, out: string)
    requires !OnRelative(out)(word).changed
    ensures OnRelative(out)(word).text == "" + word
  {
    OnRelativeOf(word, out);
    assert "" + word == word;
  }

  lemma LastFileJoinedText(before: string, space: char, last: string, key: string, out: string)
    returns (head: string, end: string)
    requires FolderEnd(out) == before + ([space] + last) && IsWhitespace(space) && IsAbsolute(out)
    requires SpaceFree(last) && last != "" && last[|last| - 1] == '/' && CanMatch(key)
    requires OnRelative(out)(last + key).changed
    ensures SpaceFree(end) && end != "" && end[|end| - 1] == '/'
    ensures OnRelative(out)(last + key).text == head + (end + key)
    ensures head != "" && IsWhitespace(head[|head| - 1])
  {
    var prefix, tail := LastFileJoined(last, key, before, space, out);
    head, end := prefix + before + [space], last + tail;
    TextAssociate(prefix, before, [space], last, tail, key);
    LastOfThree(prefix, before, space);
  }

  lemma LastOfThree(a: string, b: string, c: char)
    ensures var s := a + b + [c]; s != "" && s[|s| - 1] == c
  {
  }

  lemma TextAssociate(p: string, b: string, s: string, l: string, t: string, k: string)
    ensures p + (b + (s + l) + (t + k)) + "" == p + b + s + (l + t + k)
  {
  }

  lemma PutTogether(start: string, space: char, head: string, file: string) returns (pre: string, gap: char)
    requires IsWhitespace(space) && (head == "" || IsWhitespace(head[|head| - 1]))
    ensures IsWhitespace(gap) && start + ([space] + (head + file)) == pre + ([gap] + file)
  {
    if head == "" {
      pre, gap := start, space;
      assert head + file == file;
    } else {
      var init := head[..|head| - 1];
      pre, gap := start + ([space] + init), head[|head| - 1];
      assert head == init + [gap];
      HeadAssociate(start, [space], init, [gap], file);
    }
  }

  lemma HeadAssociate(a: string, b: string, c: string, d: string, e: string)
    ensures a + (b + (c + d + e)) == a + (b + c) + (d + e)
  {
  }

  lemma PathAtLastSpace(out: string, key: string, before: string, space: char, last: string)
    requires FolderEnd(out) == before + ([space] + last) && IsAbsolute(out) && !IsAbsolute(key)
    ensures JoinPath(out, key) == before + ([space] + (last + key))
  {
    FolderEndLaws(out);
    AssociateFour(before, [space], last, key);
  }

  /** The last word of such a path, when it is bundle-relative: the folder once more, and the word. */
  lemma LastFileJoined(last: string, key: string, before: string, space: char, out: string)
    returns (prefix: string, tail: string)
    requires FolderEnd(out) == before + ([space] + last) && IsAbsolute(out)
    requires SpaceFree(last) && last != "" && last[|last| - 1] == '/' && CanMatch(key)
    requires OnRelative(out)(last + key).changed
    ensures SpaceFree(last + tail) && (last + tail)[|last + tail| - 1] == '/'
    ensures OnRelative(out)(last + key).text == prefix + (before + ([space] + last) + (tail + key)) + ""
  {
    prefix, tail := SplitOfEnd(last, key, "");
    assert last + key + "" == last + key;
    SplitWordLaws(last);
    CoreAfterLast(last, prefix, tail);
    OnRelativeOf(last + key, out);
    FolderEndLaws(out);
  }

  lemma CoreAfterLast(last: string, prefix: string, tail: string)
    requires SpaceFree(last) && JoinParts(Split(prefix, tail, "")) == last && tail != "" && tail[|tail| - 1] == '/'
    ensures SpaceFree(last + tail) && (last + tail)[|last + tail| - 1] == '/'
  {
    SpaceFreeParts(Split(prefix, tail, ""));
  }

  /** A long bundle-relative file name that no known file can end. */
  function LongFile(n: nat): string {
    seq(n, i => 'z') + "/b"
  }

  lemma LongFileIsBare(n: nat)
    requires n > 0
    ensures IsBareRelative(LongFile(n))
  {
    var f := LongFile(n);
    assert |f| == n + 2 && f[n] == '/' && f[n + 1] == 'b' && f[0] == 'z';
    assert forall i | 0 <= i < |f| :: f[i] in {'z', '/', 'b'};
    assert forall i | 0 <= i < |f| :: f[i] != '.';
  }

  lemma LongFileEnds(tail: string, n: nat, key: string)
    requires |key| < n && SuffixMatches(tail + LongFile(n), key)
    ensures key == "b"
  {
    var f := LongFile(n);
    var core := tail + f;
    assert |f| == n + 2 && f[n] == '/' && f[n + 1] == 'b';
    var i := n + 1 - |key|;
    assert core[|tail| + i] == f[i] == '/';
    assert i == n;
    assert core[|core| - 1..] == [f[n + 1]];
  }

  lemma LongFileNotRefused(last: string, n: nat, out: string, keys: set<string>)
    requires NoSafeMatch(keys) && (forall key | key in keys :: |key| < n)
    requires last != "" && last[|last| - 1] == '/'
    ensures OnFiles(out, keys)(last + LongFile(n)).refusal.None?
  {
    var f := LongFile(n);
    assert f[n + 1] == 'b';
    var prefix, tail := SplitOfEnd(last, f, "");
    assert last + f + "" == last + f;
    OnFilesOf(last + f, out, keys);
    if LongestMatch(tail + f, keys).Some? {
      var key := LongestMatch(tail + f, keys).value;
      LongFileEnds(tail, n, key);
      BIsAFile();
    }
  }

  lemma BIsAFile()
    ensures CanMatch("b") && !IsUnsafeJoinTarget("b")
  {
  }

  /** A folder with whitespace and a relative word in its path, which no known file refuses: a relative word
      is resolved again. */
  lemma RelativeFolderUnsettled(out: string, keys: set<string>)
    requires IsAbsolute(out) && !SpaceFree(out) && NoSafeMatch(keys)
    requires !FolderHasNoRelativeWord(out) && !FolderIsRefused(out, keys)
    ensures !CommandsStable(out, keys)
  {
    var bound := LengthBound(keys);
    LongFileResolves(out, keys, bound + 1);
    LongPathUnsettled(out, keys, bound + 1);
    assert !Settled(ResolvedCommand(LongFile(bound + 1), out, keys).value, out, keys);
  }

  lemma LongFileResolves(out: string, keys: set<string>, n: nat)
    requires IsAbsolute(out) && !SpaceFree(out) && NoSafeMatch(keys) && !FolderIsRefused(out, keys)
    requires n > 0 && forall key | key in keys :: |key| < n
    ensures ResolvedCommand(LongFile(n), out, keys) == Ok(FolderEnd(out) + LongFile(n))
  {
    LongFileIsBare(n);
    BareWordJoined(LongFile(n), out);
    FolderPathResolves(out, keys, n);
    NeverRewritten(FolderEnd(out) + LongFile(n), out, keys);
  }

  lemma LongPathUnsettled(out: string, keys: set<string>, n: nat)
    requires IsAbsolute(out) && !SpaceFree(out) && !FolderHasNoRelativeWord(out) && n > 0
    ensures !Settled(FolderEnd(out) + LongFile(n), out, keys)
  {
    LongFileIsBare(n);
    FolderTouched(out);
    BareTouchedAgain(LongFile(n), out);
    TouchedUnsettled(FolderEnd(out) + LongFile(n), out, keys);
  }

  lemma TouchedUnsettled(path: string, out: string, keys: set<string>)
    requires !SpaceFree(out) && AnyTouched(path, OnRelative(out))
    ensures !Settled(path, out, keys)
  {
    TouchedGrows(path, out);
    RewrittenSpaces(Rewritten(path, OnRelative(out)), OnFiles(out, keys));
  }

  lemma FolderPathResolves(out: string, keys: set<string>, n: nat)
    requires IsAbsolute(out) && !SpaceFree(out) && NoSafeMatch(keys) && !FolderIsRefused(out, keys)
    requires n > 0 && forall key | key in keys :: |key| < n
    ensures !Refuses(FolderEnd(out) + LongFile(n), OnFiles(out, keys))
  {
    var f, on := LongFile(n), OnFiles(out, keys);
    var before, space, last := CutFolder(out);
    AssociateFour(before, [space], last, f);
    LongFileIsBare(n);
    BareWordJoined(f, out);
    BeforeIsRefused(before, space, last, out, keys);
    LongFileNotRefused(last, n, out, keys);
    RefusesConcat(before, space, last + f, on);
    SingleWord(last + f, on);
  }

  /** A relative word on a folder with whitespace adds whitespace. */
  lemma TouchedGrows(s: string, out: string)
    requires !SpaceFree(out) && AnyTouched(s, OnRelative(out))
    ensures |Spaces(Rewritten(s, OnRelative(out)))| > |Spaces(s)|
  {
    var on, words := OnRelative(out), Words(s);
    TouchedIsSomeWord(s, on);
    var i :| 0 <= i < |words| && on(words[i]).changed;
    TouchedHasSpace(words[i], out);
    RewrittenSpaces(s, on);
  }

  lemma TouchedHasSpace(word: string, out: string)
    requires !SpaceFree(out) && OnRelative(out)(word).changed
    ensures !SpaceFree(OnRelative(out)(word).text)
  {
    var parts := SplitWord(word);
    OnRelativeOf(word, out);
    JoinHasSpace(parts.prefix, out, parts.core, parts.suffix);
  }

  /** For every absolute cache folder: resolving a resolved command again changes nothing, whatever the
      command, exactly under this condition. */
  ghost predicate CommandsStayPut(out: string, keys: set<string>) {
    FilesStayPut(out, keys) && (SpaceFree(out) || FolderHasNoRelativeWord(out) || FolderIsRefused(out, keys))
  }

  lemma CommandsStableExactly(out: string, keys: set<string>)
    requires IsAbsolute(out)
    ensures CommandsStable(out, keys) <==> CommandsStayPut(out, keys)
  {
    if CommandsStayPut(out, keys) {
      forall command | ResolvedCommand(command, out, keys).Ok?
        ensures Settled(ResolvedCommand(command, out, keys).value, out, keys)
      {
        if SpaceFree(out) {
          SpaceFreeStable(command, out, keys);
        } else {
          SpacedStable(command, out, keys);
        }
      }
    } else if !FilesStayPut(out, keys) {
      var key, word := MovingFile(out, keys);
      var path := JoinPath(out, key);
      TildeResolves(word, path, out, keys);
      if SpaceFree(out) {
        JoinIsSpaceFree(out, key);
        RootedUntouched("", path, out);
        assert "" + path == path;
        SettledByFiles(path, out, keys);
      } else {
        SpacedPathUnsettled(out, keys, key);
      }
      assert !Settled(ResolvedCommand(word, out, keys).value, out, keys);
    } else {
      RelativeFolderUnsettled(out, keys);
    }
  }
}
