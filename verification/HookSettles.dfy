/** Resolving a resolved hook command: when a second pass over the relative words changes nothing. */
module HookSettles {
  import opened Basics
  import opened Sequences
  import opened HookWords
  import opened HookCommand

  /** The folder's path with the separator that a file is joined after. */
  function FolderEnd(dir: string): string {
    dir + Separator(dir)
  }

  lemma FolderEndLaws(dir: string)
    requires IsAbsolute(dir)
    ensures var end := FolderEnd(dir); IsAbsolute(end) && end[|end| - 1] == '/' && !IsWhitespace(end[0])
    ensures SpaceFree(FolderEnd(dir)) <==> SpaceFree(dir)
    ensures forall rel | !IsAbsolute(rel) :: JoinPath(dir, rel) == FolderEnd(dir) + rel
  {
    assert !IsWhitespace('/');
    assert forall i | 0 <= i < |dir| :: FolderEnd(dir)[i] == dir[i];
  }

  // ---- A file joined to the last word of a folder ----

  lemma ParentSplits(dir: string, rel: string)
    requires dir != "" && dir[|dir| - 1] == '/'
    ensures HasParentComponent(dir + rel) <==> HasParentComponent(dir) || HasParentComponent(rel)
  {
    var s := dir + rel;
    if i: nat :| i < |s| && ParentAt(s, i) {
      if i < |dir| {
        assert ParentAt(dir, i);
      } else {
        assert ParentAt(rel, i - |dir|);
      }
    }
    if i: nat :| i < |dir| && ParentAt(dir, i) {
      assert ParentAt(s, i);
    }
    if i: nat :| i < |rel| && ParentAt(rel, i) {
      assert ParentAt(s, i + |dir|);
    }
  }

  lemma RelativeEnd(tail: string, file: string)
    requires tail != "" && tail[|tail| - 1] == '/' && IsRelative(file)
    ensures IsRelative(tail + file) <==> IsRelative(tail)
  {
    var s := tail + file;
    ParentSplits(tail, file);
    assert s[0] == tail[0] && s[|tail| - 1] == '/';
    assert forall i | 0 <= i < |tail| :: s[i] == tail[i];
    assert forall i | |tail| <= i < |s| :: s[i] == file[i - |tail|];
  }

  lemma SlashStops(end: string)
    requires end != "" && end[|end| - 1] == '/'
    ensures LeadingMarks(end, OPENING) < |end|
  {
    assert end[|end| - 1] !in OPENING;
  }

  lemma MarksBefore(last: string) returns (prefix: string, tail: string)
    requires last != "" && last[|last| - 1] == '/'
    ensures last == prefix + tail && AllIn(prefix, OPENING)
    ensures tail != "" && tail[0] !in OPENING && tail[|tail| - 1] == '/'
  {
    var k := LeadingMarks(last, OPENING);
    LeadingMarksAreMarks(last, OPENING);
    SlashStops(last);
    prefix, tail := last[..k], last[k..];
  }

  /** A word that ends with a slash, alone and with a file joined to it: the marks before it, and its core. */
  lemma SplitOfEnd(last: string, core: string, suffix: string) returns (prefix: string, tail: string)
    requires last != "" && last[|last| - 1] == '/' && AllIn(suffix, CLOSING)
    requires core != "" ==> core[|core| - 1] !in CLOSING
    ensures tail != "" && tail[|tail| - 1] == '/'
    ensures SplitWord(last) == Split(prefix, tail, "")
    ensures SplitWord(last + core + suffix) == Split(prefix, tail + core, suffix)
  {
    prefix, tail := MarksBefore(last);
    PrefixedParts(prefix, tail, "");
    assert prefix + tail + "" == last;
    BareJoined(tail, core);
    PrefixedParts(prefix, tail + core, suffix);
    Associate(prefix, tail, core);
  }

  lemma BareJoined(tail: string, core: string)
    requires tail != "" && tail[0] !in OPENING && tail[|tail| - 1] == '/'
    requires core != "" ==> core[|core| - 1] !in CLOSING
    ensures var s := tail + core; s != "" && s[0] !in OPENING && s[|s| - 1] !in CLOSING
  {
    var s := tail + core;
    assert s[0] == tail[0];
    assert core != "" ==> s[|s| - 1] == core[|core| - 1];
    assert core == "" ==> s == tail;
  }

  /** Whether the last word of a folder path makes a bundle-relative word does not depend on the file that is
      joined to it. */
  lemma LastWordDecides(last: string, core: string, suffix: string, dir: string)
    requires last != "" && last[|last| - 1] == '/' && AllIn(suffix, CLOSING)
    requires IsRelative(core) && core[|core| - 1] !in CLOSING
    ensures OnRelative(dir)(last + core + suffix).changed <==> OnRelative(dir)(last).changed
  {
    var prefix, tail := SplitOfEnd(last, core, suffix);
    RelativeEnd(tail, core);
    OnRelativeOf(last, dir);
    OnRelativeOf(last + core + suffix, dir);
  }

  // ---- A rewritten word ----

  /** A rewritten word with whitespace in its folder: the folder up to its last whitespace, and the word after
      that with the file joined to it. */
  lemma JoinedAtLastSpace(parts: Split, before: string, space: char, last: string)
    ensures JoinParts(parts.(core := before + ([space] + last) + parts.core)) ==
            (parts.prefix + before) + ([space] + (last + parts.core + parts.suffix))
  {
  }

  lemma JoinedTogether(parts: Split, end: string)
    ensures JoinParts(parts.(core := end + parts.core)) == parts.prefix + (end + parts.core + parts.suffix)
  {
  }

  lemma BeforeIsRooted(before: string, space: char, last: string, end: string)
    requires end == before + ([space] + last) && end != "" && end[|end| - 1] == '/'
    requires IsAbsolute(end) && IsWhitespace(space) && SpaceFree(last)
    ensures IsAbsolute(before) && last != "" && last[|last| - 1] == '/'
  {
    assert !IsWhitespace('/');
    assert before == "" ==> end == [space] + last;
    assert last == "" ==> end == before + [space];
  }

  lemma BareSlash(s: string)
    requires IsAbsolute(s)
    ensures s[0] !in OPENING && s[0] !in CLOSING && !IsWhitespace(s[0])
  {
  }

  lemma PartsSpaceFree(parts: Split)
    requires SpaceFree(JoinParts(parts))
    ensures SpaceFree(parts.core + parts.suffix) && SpaceFree(parts.prefix)
  {
    SpaceFreeParts(parts);
  }

  /** A bundle-relative word that is resolved is touched again exactly when the folder's own path is. */
  lemma TouchedAgain(parts: Split, dir: string)
    requires IsAbsolute(dir) && IsSplit(parts) && SpaceFree(JoinParts(parts)) && parts.core != ""
    requires IsRelative(parts.core)
    ensures AnyTouched(JoinParts(parts.(core := JoinPath(dir, parts.core))), OnRelative(dir)) <==>
            AnyTouched(FolderEnd(dir), OnRelative(dir))
  {
    var end := FolderEnd(dir);
    FolderEndLaws(dir);
    if SpaceFree(end) {
      WholeTouchedAgain(parts, end, dir);
    } else {
      var before, space, last := LastSpace(end);
      SpacedTouchedAgain(parts, before, space, last, end, dir);
    }
  }

  lemma WholeTouchedAgain(parts: Split, end: string, dir: string)
    requires IsAbsolute(end) && SpaceFree(end) && IsSplit(parts) && SpaceFree(JoinParts(parts))
    ensures !AnyTouched(JoinParts(parts.(core := end + parts.core)), OnRelative(dir))
    ensures !AnyTouched(end, OnRelative(dir))
  {
    PartsSpaceFree(parts);
    JoinedTogether(parts, end);
    var rest := end + parts.core + parts.suffix;
    Associate(end, parts.core, parts.suffix);
    assert rest[0] == end[0];
    RootedUntouched("", end, dir);
    assert "" + end == end;
    RootedUntouched(parts.prefix, rest, dir);
  }

  /** A word whose core starts with `/` is never bundle-relative. */
  lemma RootedUntouched(prefix: string, path: string, dir: string)
    requires AllIn(prefix, OPENING) && IsAbsolute(path) && SpaceFree(path)
    ensures !AnyTouched(prefix + path, OnRelative(dir))
  {
    BareSlash(path);
    PrefixIsSpaceFree(prefix, path);
    SingleWord(prefix + path, OnRelative(dir));
    PrefixKeepsCore(prefix, path);
    RootedCore(path);
    OnRelativeOf(prefix + path, dir);
  }

  lemma RootedCore(path: string)
    requires IsAbsolute(path)
    ensures IsAbsolute(SplitWord(path).core)
  {
    assert path[0] !in OPENING && path[0] !in CLOSING;
    assert LeadingMarks(path, OPENING) == 0 && path[0..] == path;
    assert TrailingMarks(path, CLOSING) > 0;
  }

  lemma SpacedTouchedAgain(parts: Split, before: string, space: char, last: string, end: string, dir: string)
    requires end == before + ([space] + last) && IsAbsolute(end) && end[|end| - 1] == '/'
    requires IsWhitespace(space) && SpaceFree(last)
    requires IsSplit(parts) && SpaceFree(JoinParts(parts)) && parts.core != "" && IsRelative(parts.core)
    ensures AnyTouched(JoinParts(parts.(core := end + parts.core)), OnRelative(dir)) <==>
            AnyTouched(end, OnRelative(dir))
  {
    BeforeIsRooted(before, space, last, end);
    JoinedAtLastSpace(parts, before, space, last);
    LastIsSpaceFree(parts, last);
    PiecesTouchedAgain(parts.prefix, before, space, last, parts.core, parts.suffix, dir);
  }

  lemma PiecesTouchedAgain(prefix: string, before: string, space: char, last: string, core: string, suffix: string,
                           dir: string)
    requires AllIn(prefix, OPENING) && IsAbsolute(before) && IsWhitespace(space)
    requires last != "" && last[|last| - 1] == '/' && AllIn(suffix, CLOSING)
    requires IsRelative(core) && core[|core| - 1] !in CLOSING
    requires SpaceFree(last) && SpaceFree(last + core + suffix)
    ensures AnyTouched((prefix + before) + ([space] + (last + core + suffix)), OnRelative(dir)) ==
            AnyTouched(before + ([space] + last), OnRelative(dir))
  {
    BeforeTouched(prefix, before, dir);
    LastTouchedAgain(last, core, suffix, dir);
    TouchedAlike(prefix + before, before, space, last + core + suffix, last, OnRelative(dir));
  }

  lemma BeforeTouched(prefix: string, before: string, dir: string)
    requires AllIn(prefix, OPENING) && IsAbsolute(before)
    ensures AnyTouched(prefix + before, OnRelative(dir)) == AnyTouched(before, OnRelative(dir))
  {
    BareSlash(before);
    PrefixedCommand(prefix, before, RelativeRewrite(dir));
  }

  lemma LastIsSpaceFree(parts: Split, last: string)
    requires SpaceFree(last) && SpaceFree(JoinParts(parts))
    ensures SpaceFree(last + parts.core + parts.suffix)
  {
    SpaceFreeParts(parts);
  }

  lemma LastTouchedAgain(last: string, core: string, suffix: string, dir: string)
    requires last != "" && last[|last| - 1] == '/' && AllIn(suffix, CLOSING)
    requires IsRelative(core) && core[|core| - 1] !in CLOSING
    requires SpaceFree(last) && SpaceFree(last + core + suffix)
    ensures AnyTouched(last + core + suffix, OnRelative(dir)) <==> AnyTouched(last, OnRelative(dir))
  {
    LastWordDecides(last, core, suffix, dir);
    OneWordTouch(last + core + suffix, last, OnRelative(dir));
  }

  // ---- Whole commands ----

  /** If every word settles after one rewrite, so does the command. */
  lemma {:induction false} SettlesByWord(command: string, on: string -> WordResult)
    requires forall word | SpaceFree(word) :: !AnyTouched(on(word).text, on)
    ensures !AnyTouched(Rewritten(command, on), on)
    decreases |command|
  {
    if IsOneWord(command) {
      WholeIsSpaceFree(command);
      SingleWord(command, on);
    } else {
      var word, space, rest := FirstWordAndRest(command);
      SettlesByWord(rest, on);
      RewrittenConcat(word, space, rest, on);
      SingleWord(word, on);
      TouchedConcat(on(word).text, space, Rewritten(rest, on), on);
    }
  }

  /** Resolving a resolved command changes nothing, whatever the command. */
  ghost predicate AlwaysSettles(dir: string) {
    forall command :: !AnyTouched(Rewritten(command, OnRelative(dir)), OnRelative(dir))
  }

  /** No word of the folder's own path names a file relative to the bundle. */
  predicate FolderHasNoRelativeWord(dir: string) {
    var words := Words(FolderEnd(dir));
    forall i | 0 <= i < |words| :: !IsRelative(SplitWord(words[i]).core)
  }

  lemma ChangedIsRelative(word: string, dir: string)
    ensures OnRelative(dir)(word).changed <==> IsRelative(SplitWord(word).core)
  {
    OnRelativeOf(word, dir);
  }

  lemma FolderTouched(dir: string)
    ensures AnyTouched(FolderEnd(dir), OnRelative(dir)) <==> !FolderHasNoRelativeWord(dir)
  {
    var end := FolderEnd(dir);
    TouchedIsSomeWord(end, OnRelative(dir));
    forall word ensures OnRelative(dir)(word).changed <==> IsRelative(SplitWord(word).core) {
      ChangedIsRelative(word, dir);
    }
  }

  lemma WordSettles(word: string, dir: string)
    requires IsAbsolute(dir) && SpaceFree(word) && !AnyTouched(FolderEnd(dir), OnRelative(dir))
    ensures !AnyTouched(OnRelative(dir)(word).text, OnRelative(dir))
  {
    SplitWordLaws(word);
    OnRelativeOf(word, dir);
    SingleWord(word, OnRelative(dir));
    if OnRelative(dir)(word).changed {
      TouchedAgain(SplitWord(word), dir);
    }
  }

  /** A bundle-relative word without marks. */
  predicate IsBareRelative(word: string) {
    word != "" && word[0] !in OPENING && word[|word| - 1] !in CLOSING && IsRelative(word)
  }

  lemma BareWordJoined(word: string, dir: string)
    requires IsBareRelative(word)
    ensures SpaceFree(word) && Rewritten(word, OnRelative(dir)) == FolderEnd(dir) + word
    ensures OnRelative(dir)(word).changed
  {
    RelativeIsSpaceFree(word);
    BareWord(word);
    OnRelativeOf(word, dir);
    BareParts(JoinPath(dir, word));
    SingleWord(word, OnRelative(dir));
  }

  /** A bare relative word, resolved, is touched again exactly when the folder's own path is. */
  lemma BareTouchedAgain(word: string, dir: string)
    requires IsAbsolute(dir) && IsBareRelative(word)
    ensures AnyTouched(FolderEnd(dir) + word, OnRelative(dir)) <==> AnyTouched(FolderEnd(dir), OnRelative(dir))
  {
    RelativeIsSpaceFree(word);
    BareWord(word);
    SplitWordLaws(word);
    TouchedAgain(Split("", word, ""), dir);
    BareParts(word);
    BareParts(FolderEnd(dir) + word);
  }

  /** For an absolute bundle folder, resolving a resolved command changes nothing, whatever the
      command, exactly when no word of the folder's own path is bundle-relative. */
  lemma ResolveSettlesExactly(dir: string)
    requires IsAbsolute(dir)
    ensures AlwaysSettles(dir) <==> FolderHasNoRelativeWord(dir)
  {
    FolderTouched(dir);
    if FolderHasNoRelativeWord(dir) {
      forall command ensures !AnyTouched(Rewritten(command, OnRelative(dir)), OnRelative(dir)) {
        CommandSettles(command, dir);
      }
    } else {
      SampleUnsettles(dir);
    }
  }

  lemma CommandSettles(command: string, dir: string)
    requires IsAbsolute(dir) && !AnyTouched(FolderEnd(dir), OnRelative(dir))
    ensures !AnyTouched(Rewritten(command, OnRelative(dir)), OnRelative(dir))
  {
    forall word | SpaceFree(word) ensures !AnyTouched(OnRelative(dir)(word).text, OnRelative(dir)) {
      WordSettles(word, dir);
    }
    SettlesByWord(command, OnRelative(dir));
  }

  lemma SampleIsBare()
    ensures IsBareRelative("a/b")
  {
    assert "a/b"[1] == '/';
    assert PathChars("a/b");
  }

  lemma SampleUnsettles(dir: string)
    requires IsAbsolute(dir) && AnyTouched(FolderEnd(dir), OnRelative(dir))
    ensures !AlwaysSettles(dir)
    ensures var once := Rewritten("a/b", OnRelative(dir));
            once == JoinPath(dir, "a/b") && ResolvedRelative(once, dir).Some?
  {
    SampleIsBare();
    BareWordJoined("a/b", dir);
    BareTouchedAgain("a/b", dir);
    assert AnyTouched(Rewritten("a/b", OnRelative(dir)), OnRelative(dir));
  }

  // ---- Folders with and without whitespace ----

  /** A folder without whitespace always meets the condition. */
  lemma SpaceFreeFolderSettles(dir: string)
    requires IsAbsolute(dir) && SpaceFree(dir)
    ensures FolderHasNoRelativeWord(dir)
  {
    FolderEndLaws(dir);
    FolderTouched(dir);
    RootedUntouched("", FolderEnd(dir), dir);
    assert "" + FolderEnd(dir) == FolderEnd(dir);
  }

  lemma SecondWordTouched(first: string, last: string, dir: string)
    requires IsBareRelative(last)
    ensures AnyTouched(first + ([' '] + last), OnRelative(dir))
  {
    var on := OnRelative(dir);
    assert IsWhitespace(' ');
    TouchedConcat(first, ' ', last, on);
    BareWordJoined(last, dir);
    SingleWord(last, on);
  }

  lemma DocsIsRelative()
    ensures IsBareRelative("docs/")
  {
    assert "docs/"[4] == '/' && PathChars("docs/");
  }

  /** With the folder `/my docs`, a resolved command is not settled: `a/b` becomes `/my docs/a/b`, whose
      word `docs/a/b` is resolved again. */
  lemma FolderWithSpaceUnsettles()
    ensures !FolderHasNoRelativeWord("/my docs") && !AlwaysSettles("/my docs")
    ensures var once := Rewritten("a/b", OnRelative("/my docs"));
            once == JoinPath("/my docs", "a/b") && ResolvedRelative(once, "/my docs").Some?
  {
    DocsIsRelative();
    SpacedFolderUnsettles("/my", "docs/", "/my docs");
  }

  lemma SpacedFolderUnsettles(first: string, last: string, dir: string)
    requires IsAbsolute(dir) && IsBareRelative(last) && FolderEnd(dir) == first + ([' '] + last)
    ensures !FolderHasNoRelativeWord(dir) && !AlwaysSettles(dir)
    ensures var once := Rewritten("a/b", OnRelative(dir));
            once == JoinPath(dir, "a/b") && ResolvedRelative(once, dir).Some?
  {
    SecondWordTouched(first, last, dir);
    FolderTouched(dir);
    SampleUnsettles(dir);
  }
}
