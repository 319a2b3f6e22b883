/** Hook paths in pieces and characters: which paths leave a folder, and that no resolved word does. */
module HookInside {
  import opened Basics
  import opened Sequences
  import PyText
  import opened HookWords
  import opened HookCommand
  import opened HookFiles
  import opened HookScripts
  import opened HookResolve
  import PathResolve

  // ---- The pieces of a path ----

  lemma SlashFromSkips(s: string, i: nat, n: nat)
    requires i <= n <= |s| && (n < |s| ==> s[n] == '/') && forall k | i <= k < n :: s[k] != '/'
    ensures SlashFrom(s, i) == n
    decreases n - i
  {
  }

  lemma SlashFromSkipped(s: string, i: nat)
    requires i <= |s|
    ensures forall k | i <= k < SlashFrom(s, i) :: s[k] != '/'
    decreases |s| - i
  {
  }

  lemma OnePiece(piece: string)
    requires '/' !in piece
    ensures Pieces(piece) == [piece]
  {
    SlashFromSkips(piece, 0, |piece|);
  }

  lemma FirstPiece(piece: string, rest: string)
    requires '/' !in piece
    ensures Pieces(piece + ("/" + rest)) == [piece] + Pieces(rest)
  {
    var s := piece + ("/" + rest);
    assert s[|piece|] == '/' && s[..|piece|] == piece && s[|piece| + 1..] == rest;
    SlashFromSkips(s, 0, |piece|);
  }

  /** A path is one piece, or a piece, a slash and another path. */
  lemma CutPiece(s: string) returns (piece: string, rest: Option<string>)
    ensures '/' !in piece
    ensures rest.None? ==> s == piece && Pieces(s) == [piece]
    ensures rest.Some? ==> s == piece + ("/" + rest.value) && Pieces(s) == [piece] + Pieces(rest.value)
  {
    var n := SlashFrom(s, 0);
    SlashFromSkipped(s, 0);
    piece := s[..n];
    assert forall c | c in piece :: c != '/';
    if n == |s| {
      rest := None;
      OnePiece(piece);
    } else {
      rest := Some(s[n + 1..]);
      CutAt(s, n);
      FirstPiece(piece, s[n + 1..]);
    }
  }

  ghost predicate SlashFree(pieces: seq<string>) {
    forall i | 0 <= i < |pieces| :: '/' !in pieces[i]
  }

  /** The pieces hold no slash, and with a slash between them they are the path again. */
  lemma {:induction false} PiecesRejoin(s: string)
    ensures Pieces(s) != [] && SlashFree(Pieces(s)) && PyText.Join(Pieces(s), '/') == s
    decreases |s|
  {
    var piece, rest := CutPiece(s);
    if rest.Some? {
      PiecesRejoin(rest.value);
      PyText.JoinFrom(piece, Pieces(rest.value), '/');
    }
  }

  lemma {:induction false} PiecesJoin(a: string, b: string)
    ensures Pieces(a + ("/" + b)) == Pieces(a) + Pieces(b)
    decreases |a|
  {
    var piece, rest := CutPiece(a);
    FirstPiece(piece, b);
    if rest.Some? {
      PiecesJoin(rest.value, b);
      FirstPiece(piece, rest.value + ("/" + b));
      AssociatePath(piece, rest.value, b);
      Associate([piece], Pieces(rest.value), Pieces(b));
    }
  }

  lemma AssociatePath(a: string, b: string, c: string)
    ensures a + ("/" + b) + ("/" + c) == a + ("/" + (b + ("/" + c)))
  {
  }

  // ---- Unsafe paths ----

  lemma ParentInPiece(piece: string)
    requires '/' !in piece
    ensures HasParentComponent(piece) <==> piece == ".."
  {
    if piece == ".." {
      assert ParentAt(piece, 0);
    }
    assert forall k | 0 <= k < |piece| :: piece[k] in piece;
  }

  lemma ParentInPath(piece: string, rest: string)
    requires '/' !in piece
    ensures HasParentComponent(piece + ("/" + rest)) <==> piece == ".." || HasParentComponent(rest)
  {
    var s := piece + ("/" + rest);
    if piece == ".." {
      assert ParentAt(s, 0);
    }
    if i: nat :| i < |rest| && ParentAt(rest, i) {
      ParentAfter(piece, rest, i);
      assert ParentAt(s, |piece| + 1 + i);
    }
    if i: nat :| i < |s| && ParentAt(s, i) {
      if i > |piece| {
        ParentAfter(piece, rest, i - |piece| - 1);
      } else {
        ParentInFirst(piece, rest, i);
      }
    }
  }

  lemma ParentAfterSlash(s: string, n: nat, i: nat)
    requires 0 < n <= |s| && s[n - 1] == '/'
    ensures ParentAt(s, n + i) <==> ParentAt(s[n..], i)
  {
  }

  lemma ParentAfter(piece: string, rest: string, i: nat)
    ensures ParentAt(piece + ("/" + rest), |piece| + 1 + i) <==> ParentAt(rest, i)
  {
    var s := piece + ("/" + rest);
    assert s[|piece| + 1..] == rest;
    ParentAfterSlash(s, |piece| + 1, i);
  }

  lemma ParentInFirst(piece: string, rest: string, i: nat)
    requires '/' !in piece && i <= |piece| && ParentAt(piece + ("/" + rest), i)
    ensures piece == ".."
  {
    var s, n := piece + ("/" + rest), |piece|;
    assert s[n] == '/' && forall k | 0 <= k < n :: s[k] == piece[k] && piece[k] in piece;
  }

  lemma {:induction false} ParentIsPiece(path: string)
    ensures HasParentComponent(path) <==> ".." in Pieces(path)
    decreases |path|
  {
    var piece, rest := CutPiece(path);
    if rest.Some? {
      ParentInPath(piece, rest.value);
      ParentIsPiece(rest.value);
    } else {
      ParentInPiece(piece);
    }
  }

  /** A path leaves the folder it is joined to exactly when it starts with a slash or one of its pieces is
      `..`. */
  lemma UnsafeExactly(path: string)
    ensures IsUnsafeJoinTarget(path) <==> "/" <= path || ".." in Pieces(path)
  {
    ParentIsPiece(path);
  }

  lemma FirstSmall(c: char)
    ensures 'a' <= c <= 'm' <==> c in "abcdefghijklm"
  {
    if 'a' <= c <= 'm' {
      assert "abcdefghijklm"[c as int - 'a' as int] == c;
    }
  }

  lemma LastSmall(c: char)
    ensures 'n' <= c <= 'z' <==> c in "nopqrstuvwxyz"
  {
    if 'n' <= c <= 'z' {
      assert "nopqrstuvwxyz"[c as int - 'n' as int] == c;
    }
  }

  lemma FirstCapital(c: char)
    ensures 'A' <= c <= 'M' <==> c in "ABCDEFGHIJKLM"
  {
    if 'A' <= c <= 'M' {
      assert "ABCDEFGHIJKLM"[c as int - 'A' as int] == c;
    }
  }

  lemma LastCapital(c: char)
    ensures 'N' <= c <= 'Z' <==> c in "NOPQRSTUVWXYZ"
  {
    if 'N' <= c <= 'Z' {
      assert "NOPQRSTUVWXYZ"[c as int - 'N' as int] == c;
    }
  }

  lemma Digits(c: char)
    ensures '0' <= c <= '9' <==> c in "0123456789"
  {
    if '0' <= c <= '9' {
      assert "0123456789"[c as int - '0' as int] == c;
    }
  }

  predicate InPathAlphabet(c: char) {
    || c in "abcdefghijklm" || c in "nopqrstuvwxyz" || c in "ABCDEFGHIJKLM" || c in "NOPQRSTUVWXYZ"
    || c in "0123456789" || c in "._-+@/"
  }

  lemma PathCharExactly(c: char)
    ensures IsPathChar(c) <==> InPathAlphabet(c)
  {
    FirstSmall(c);
    LastSmall(c);
    FirstCapital(c);
    LastCapital(c);
    Digits(c);
  }

  predicate InAlphabet(s: string) {
    forall c | c in s :: InPathAlphabet(c)
  }

  lemma PathCharsExactly(s: string)
    ensures PathChars(s) <==> InAlphabet(s)
  {
    forall c ensures IsPathChar(c) <==> InPathAlphabet(c) {
      PathCharExactly(c);
    }
    assert forall i | 0 <= i < |s| :: s[i] in s;
  }

  /** The words that the relative pass takes, by their characters and pieces. */
  lemma RelativeExactly(word: string)
    ensures IsRelative(word) <==>
            && '/' in word
            && word[0] !in "/~$-"
            && InAlphabet(word)
            && ".." !in Pieces(word)
  {
    UnsafeExactly(word);
    PathCharsExactly(word);
  }

  // ---- Known files that end a word ----

  ghost predicate LastPieces(w: seq<string>, k: seq<string>) {
    |k| <= |w| && w[|w| - |k|..] == k
  }

  lemma SuffixOf(word: string, before: string, key: string)
    requires word == before + ("/" + key)
    ensures SuffixMatches(word, key)
  {
    assert word[|word| - |key|..] == key && word[|before|] == '/';
  }

  lemma SuffixIs(word: string, key: string) returns (before: string)
    requires SuffixMatches(word, key) && |key| < |word|
    ensures word == before + ("/" + key)
  {
    before := word[..|word| - |key| - 1];
  }

  lemma LastOfTwo(a: seq<string>, b: seq<string>)
    ensures LastPieces(a + b, b)
  {
  }

  /** A known file ends a word exactly when its pieces are the last pieces of the word. */
  lemma SuffixMatchesExactly(word: string, key: string)
    ensures SuffixMatches(word, key) <==> LastPieces(Pieces(word), Pieces(key))
  {
    if SuffixMatches(word, key) {
      PiecesAreLast(word, key);
    }
    if LastPieces(Pieces(word), Pieces(key)) {
      LastPiecesMatch(word, key);
    }
  }

  lemma PiecesAreLast(word: string, key: string)
    requires SuffixMatches(word, key)
    ensures LastPieces(Pieces(word), Pieces(key))
  {
    if |key| < |word| {
      var before := SuffixIs(word, key);
      PiecesJoin(before, key);
      LastOfTwo(Pieces(before), Pieces(key));
    } else {
      assert word == key;
      LastOfTwo([], Pieces(key));
      assert [] + Pieces(key) == Pieces(key);
    }
  }

  lemma LastPiecesMatch(word: string, key: string)
    requires LastPieces(Pieces(word), Pieces(key))
    ensures SuffixMatches(word, key)
  {
    var w, k := Pieces(word), Pieces(key);
    PiecesRejoin(word);
    PiecesRejoin(key);
    var before := w[..|w| - |k|];
    assert w == before + k;
    if before == [] {
      assert w == k;
    } else {
      JoinConcat(before, k);
      SuffixOf(word, PyText.Join(before, '/'), key);
    }
  }

  lemma ShorterHasFewerPieces(word: string, a: string, b: string)
    requires SuffixMatches(word, a) && SuffixMatches(word, b)
    ensures |a| <= |b| <==> |Pieces(a)| <= |Pieces(b)|
  {
    assert |a| == |b| ==> a == b;
    SuffixMatchesExactly(word, a);
    SuffixMatchesExactly(word, b);
    var w, p, q := Pieces(word), Pieces(a), Pieces(b);
    if |p| <= |q| {
      LastOfLast(w, q, p);
      SuffixMatchesExactly(b, a);
    } else {
      LastOfLast(w, p, q);
      SuffixMatchesExactly(a, b);
    }
  }

  lemma LastOfLast(w: seq<string>, p: seq<string>, q: seq<string>)
    requires LastPieces(w, p) && LastPieces(w, q) && |q| <= |p|
    ensures LastPieces(p, q)
  {
    assert w[|w| - |p|..][|p| - |q|..] == w[|w| - |q|..];
  }

  /** `key` ends `word` with more pieces than any other known file that ends it. */
  ghost predicate IsLongestByPieces(word: string, keys: set<string>, key: string) {
    && key in keys && LastPieces(Pieces(word), Pieces(key))
    && forall other | other in keys && LastPieces(Pieces(word), Pieces(other)) :: |Pieces(other)| <= |Pieces(key)|
  }

  lemma LongestByPieces(word: string, keys: set<string>, key: string)
    ensures IsLongestMatch(word, keys, key) <==> IsLongestByPieces(word, keys, key)
  {
    forall other ensures SuffixMatches(word, other) <==> LastPieces(Pieces(word), Pieces(other)) {
      SuffixMatchesExactly(word, other);
    }
    forall other | SuffixMatches(word, key) && SuffixMatches(word, other)
      ensures |other| <= |key| <==> |Pieces(other)| <= |Pieces(key)|
    {
      ShorterHasFewerPieces(word, other, key);
    }
  }

  lemma {:induction false} JoinConcat(xs: seq<string>, ys: seq<string>)
    requires xs != [] && ys != []
    ensures PyText.Join(xs + ys, '/') == PyText.Join(xs, '/') + ("/" + PyText.Join(ys, '/'))
  {
    if |xs| == 1 {
      assert xs == [xs[0]];
      PyText.JoinFrom(xs[0], ys, '/');
    } else {
      var rest := xs[1..];
      assert xs == [xs[0]] + rest && xs + ys == [xs[0]] + (rest + ys);
      JoinConcat(rest, ys);
      PyText.JoinFrom(xs[0], rest + ys, '/');
      PyText.JoinFrom(xs[0], rest, '/');
      AssociatePath(xs[0], PyText.Join(rest, '/'), PyText.Join(ys, '/'));
    }
  }

  // ---- A safe path stays inside ----

  lemma {:induction false} PartsOfConcat(xs: seq<string>, ys: seq<string>)
    ensures PartsOf(xs + ys, false) == PartsOf(xs, false) + PartsOf(ys, false)
  {
    if xs == [] {
      assert xs + ys == ys;
    } else {
      assert (xs + ys)[1..] == xs[1..] + ys;
      PartsOfConcat(xs[1..], ys);
    }
  }

  /** The steps that a path without `..` takes into a folder. */
  function Steps(pieces: seq<string>): PathResolve.Path {
    if pieces == [] then []
    else if pieces[0] == "" || pieces[0] == "." then Steps(pieces[1..])
    else [PathResolve.Name(pieces[0])] + Steps(pieces[1..])
  }

  lemma {:induction false} PartsAreSteps(pieces: seq<string>)
    requires ".." !in pieces
    ensures PartsOf(pieces, false) == Steps(pieces)
  {
    if pieces != [] {
      PartsAreSteps(pieces[1..]);
    }
  }

  lemma {:induction false} StepsAreNames(pieces: seq<string>)
    ensures forall i | 0 <= i < |Steps(pieces)| :: Steps(pieces)[i].Name?
  {
    if pieces != [] {
      StepsAreNames(pieces[1..]);
    }
  }

  /** `path` is `rel` in `dir`: the components of `dir`, and then a step into each piece of `rel`, which never
      goes up. */
  ghost predicate IsInside(path: string, dir: string, rel: string) {
    && Components(path) == Components(dir) + Steps(Pieces(rel))
    && ".." !in Pieces(rel)
    && !("/" <= rel)
  }

  /** A trailing slash adds no component. */
  lemma FolderParts(dir: string, rel: string)
    ensures PartsOf(Pieces(dir + ("/" + rel)), false) == PartsOf(Pieces(dir), false) + PartsOf(Pieces(rel), false)
    ensures PartsOf(Pieces(dir + "/"), false) == PartsOf(Pieces(dir), false)
  {
    PiecesJoin(dir, rel);
    PartsOfConcat(Pieces(dir), Pieces(rel));
    assert dir + "/" == dir + ("/" + "");
    PiecesJoin(dir, "");
    OnePiece("");
    PartsOfConcat(Pieces(dir), [""]);
    assert PartsOf([""], false) == [];
  }

  lemma JoinTexts(dir: string, rel: string) returns (folder: string)
    requires IsAbsolute(dir) && !("/" <= rel)
    ensures JoinPath(dir, rel) == folder + ("/" + rel)
    ensures dir == folder || dir == folder + "/"
  {
    folder := if dir[|dir| - 1] == '/' then dir[..|dir| - 1] else dir;
  }

  lemma JoinComponents(dir: string, rel: string)
    requires IsAbsolute(dir) && !("/" <= rel)
    ensures Components(JoinPath(dir, rel)) == Components(dir) + PartsOf(Pieces(rel), false)
  {
    var folder := JoinTexts(dir, rel);
    FolderParts(folder, rel);
    assert JoinPath(dir, rel)[0] == '/';
    Associate([PathResolve.Root], PartsOf(Pieces(dir), false), PartsOf(Pieces(rel), false));
  }

  /** A path that is safe to join stays in the folder. */
  lemma SafeStaysInside(dir: string, rel: string)
    requires IsAbsolute(dir) && !IsUnsafeJoinTarget(rel)
    ensures IsInside(JoinPath(dir, rel), dir, rel)
  {
    UnsafeExactly(rel);
    JoinComponents(dir, rel);
    PartsAreSteps(Pieces(rel));
  }

  /** What is inside has only names after the folder's components. */
  lemma InsideGoesDown(path: string, dir: string, rel: string)
    requires IsInside(path, dir, rel)
    ensures var inner, outer := Components(path), Components(dir);
            outer <= inner && forall i | |outer| <= i < |inner| :: inner[i].Name?
  {
    StepsAreNames(Pieces(rel));
    var outer, steps := Components(dir), Steps(Pieces(rel));
    var inner: PathResolve.Path := outer + steps;
    forall i | |outer| <= i < |inner| ensures inner[i].Name? {
      assert inner[i] == steps[i - |outer|];
    }
  }

  // ---- What the passes write ----

  /** `text` is `word` with its core replaced by that core under `out`. */
  ghost predicate WrittenByRelative(word: string, text: string, out: string) {
    var parts := SplitWord(word);
    exists path :: text == parts.prefix + path + parts.suffix && IsInside(path, out, parts.core)
  }

  /** `text` is `word` with its core replaced by the longest known file that ends it, under `out`. */
  ghost predicate WrittenByFiles(word: string, text: string, out: string, keys: set<string>) {
    var parts := SplitWord(word);
    exists path, key ::
      && text == parts.prefix + path + parts.suffix
      && IsLongestByPieces(parts.core, keys, key)
      && IsInside(path, out, key)
  }

  /** A slash in the core, and a known file that ends it and does not leave the folder. */
  ghost predicate NamesKnownFile(core: string, keys: set<string>) {
    '/' in core && exists key :: IsLongestByPieces(core, keys, key) && !("/" <= key) && ".." !in Pieces(key)
  }

  /** The relative pass writes the words whose core is such a path, and leaves the others. */
  lemma RelativeWordStaysInside(word: string, out: string)
    requires IsAbsolute(out)
    ensures var text := OnRelative(out)(word).text;
            if IsRelative(SplitWord(word).core) then WrittenByRelative(word, text, out) else text == word
  {
    var parts := SplitWord(word);
    OnRelativeOf(word, out);
    if IsRelative(parts.core) {
      SafeStaysInside(out, parts.core);
      assert OnRelative(out)(word).text == parts.prefix + JoinPath(out, parts.core) + parts.suffix;
    }
  }

  lemma FileIsReplaced(core: string, out: string, keys: set<string>, key: string)
    requires '/' in core && IsLongestByPieces(core, keys, key) && !("/" <= key) && ".." !in Pieces(key)
    ensures FileRewriteSpec(core, out, keys) == Replace(JoinPath(out, key)) && !IsUnsafeJoinTarget(key)
  {
    LongestByPieces(core, keys, key);
    LongestMatchIs(core, keys, key);
    UnsafeExactly(key);
  }

  lemma ReplacedIsFile(core: string, out: string, keys: set<string>)
    requires FileRewriteSpec(core, out, keys).Replace?
    ensures NamesKnownFile(core, keys)
  {
    var key := LongestMatch(core, keys).value;
    LongestByPieces(core, keys, key);
    UnsafeExactly(key);
  }

  /** The file pass writes the words that end with a known file inside the bundle, and leaves the others. */
  lemma FileWordStaysInside(word: string, out: string, keys: set<string>)
    requires IsAbsolute(out)
    ensures var text := OnFiles(out, keys)(word).text;
            if NamesKnownFile(SplitWord(word).core, keys) then WrittenByFiles(word, text, out, keys) else text == word
  {
    var parts := SplitWord(word);
    OnFilesOf(word, out, keys);
    if NamesKnownFile(parts.core, keys) {
      var key :| IsLongestByPieces(parts.core, keys, key) && !("/" <= key) && ".." !in Pieces(key);
      FileIsReplaced(parts.core, out, keys, key);
      SafeStaysInside(out, key);
      assert OnFiles(out, keys)(word).text == parts.prefix + JoinPath(out, key) + parts.suffix;
    } else if FileRewriteSpec(parts.core, out, keys).Replace? {
      ReplacedIsFile(parts.core, out, keys);
    }
  }

  /** Both passes keep the whitespace and replace words, and each word that they write is a path inside the
      cache folder between the word's own marks, for every command that is not refused. */
  lemma ResolvedStaysInside(command: string, out: string, keys: set<string>)
    returns (relative: string, first: seq<string>, second: seq<string>)
    requires IsAbsolute(out) && ResolvedCommand(command, out, keys).Ok?
    ensures |first| == |Words(command)| && relative == Interleave(first, Spaces(command))
    ensures forall i | 0 <= i < |first| ::
              first[i] == Words(command)[i] || WrittenByRelative(Words(command)[i], first[i], out)
    ensures |second| == |Words(relative)|
    ensures ResolvedCommand(command, out, keys).value == Interleave(second, Spaces(relative))
    ensures forall i | 0 <= i < |second| ::
              second[i] == Words(relative)[i] || WrittenByFiles(Words(relative)[i], second[i], out, keys)
  {
    relative := Rewritten(command, OnRelative(out));
    first := MapWords(Words(command), OnRelative(out));
    second := MapWords(Words(relative), OnFiles(out, keys));
    RewrittenIsWordwise(command, OnRelative(out));
    RewrittenIsWordwise(relative, OnFiles(out, keys));
    forall i | 0 <= i < |first|
      ensures first[i] == Words(command)[i] || WrittenByRelative(Words(command)[i], first[i], out)
    {
      RelativeWordStaysInside(Words(command)[i], out);
    }
    forall i | 0 <= i < |second|
      ensures second[i] == Words(relative)[i] || WrittenByFiles(Words(relative)[i], second[i], out, keys)
    {
      FileWordStaysInside(Words(relative)[i], out, keys);
    }
  }

  /** `text` is a path under `out` between marks. */
  ghost predicate IsMarkedPathIn(text: string, out: string) {
    exists prefix, path, suffix, rel ::
      && text == prefix + path + suffix && IsInside(path, out, rel)
      && (forall c | c in prefix :: c in "\"'(") && (forall c | c in suffix :: c in "\"';&|)")
  }

  /** The marks around a word, by their characters. */
  lemma MarksExactly(word: string)
    ensures forall c | c in SplitWord(word).prefix :: c in "\"'("
    ensures forall c | c in SplitWord(word).suffix :: c in "\"';&|)"
    ensures var core := SplitWord(word).core;
            core != "" ==> core[0] !in "\"'(" && core[|core| - 1] !in "\"';&|)"
  {
    SplitWordLaws(word);
  }

  lemma WrittenIsMarkedPath(word: string, text: string, out: string, keys: set<string>)
    requires WrittenByRelative(word, text, out) || WrittenByFiles(word, text, out, keys)
    ensures IsMarkedPathIn(text, out)
  {
    MarksExactly(word);
  }

  /** With a cache folder without whitespace: every word of the resolved command is the command's own, or a path
      inside the cache folder between quotes and punctuation. */
  lemma ResolvedWordsStayInside(command: string, out: string, keys: set<string>)
    requires IsAbsolute(out) && SpaceFree(out) && ResolvedCommand(command, out, keys).Ok?
    ensures var resolved := ResolvedCommand(command, out, keys).value;
            && |Words(resolved)| == |Words(command)|
            && forall i | 0 <= i < |Words(command)| ::
                 Words(resolved)[i] == Words(command)[i] || IsMarkedPathIn(Words(resolved)[i], out)
  {
    var resolved := ResolvedCommand(command, out, keys).value;
    ResolvedWordByWord(command, out, keys);
    forall i | 0 <= i < |Words(command)|
      ensures Words(resolved)[i] == Words(command)[i] || IsMarkedPathIn(Words(resolved)[i], out)
    {
      ResolvedWordStaysInside(Words(command)[i], out, keys);
    }
  }

  lemma ResolvedWordStaysInside(word: string, out: string, keys: set<string>)
    requires IsAbsolute(out)
    ensures var text := OnFiles(out, keys)(OnRelative(out)(word).text).text; text == word || IsMarkedPathIn(text, out)
  {
    var first := OnRelative(out)(word).text;
    var second := OnFiles(out, keys)(first).text;
    RelativeWordStaysInside(word, out);
    FileWordStaysInside(first, out, keys);
    if second != first {
      WrittenIsMarkedPath(first, second, out, keys);
    } else if first != word {
      WrittenIsMarkedPath(word, first, out, keys);
    }
  }

  // ---- What is left alone and what is refused ----

  /** A word with a `..` in its path is left alone by the relative pass. */
  lemma ClimbingWordStays(word: string, out: string)
    requires ".." in Pieces(SplitWord(word).core)
    ensures OnRelative(out)(word).text == word && !OnRelative(out)(word).changed
  {
    UnsafeExactly(SplitWord(word).core);
    OnRelativeOf(word, out);
  }

  /** The known file that ends this word with the most pieces starts with a slash or climbs. */
  ghost predicate NamesClimbingFile(word: string, keys: set<string>) {
    var core := SplitWord(word).core;
    '/' in core &&
    exists key :: IsLongestByPieces(core, keys, key) && ("/" <= key || ".." in Pieces(key))
  }

  lemma UnsafeWordExactly(word: string, keys: set<string>)
    ensures UnsafeWord(word, keys) <==> NamesClimbingFile(word, keys)
  {
    var core := SplitWord(word).core;
    if UnsafeWord(word, keys) {
      var key := LongestMatch(core, keys).value;
      LongestByPieces(core, keys, key);
      UnsafeExactly(key);
    }
    if NamesClimbingFile(word, keys) {
      var key :| IsLongestByPieces(core, keys, key) && ("/" <= key || ".." in Pieces(key));
      LongestByPieces(core, keys, key);
      LongestMatchIs(core, keys, key);
      UnsafeExactly(key);
    }
  }

  /** The file pass refuses a command exactly when one of its words names such a file. */
  lemma RefusedExactly(command: string, cache: string, keys: set<string>)
    ensures ResolvedByFiles(command, cache, keys).Err? <==>
            exists i | 0 <= i < |Words(command)| :: NamesClimbingFile(Words(command)[i], keys)
  {
    RefusalIsUnsafeMatch(command, cache, keys);
    forall i | 0 <= i < |Words(command)|
      ensures UnsafeWord(Words(command)[i], keys) <==> NamesClimbingFile(Words(command)[i], keys)
    {
      UnsafeWordExactly(Words(command)[i], keys);
    }
    if i :| 0 <= i < |Words(command)| && NamesClimbingFile(Words(command)[i], keys) {
      assert UnsafeWord(Words(command)[i], keys);
    }
  }

  // ---- Components, step by step ----

  /** How each further piece of an absolute path adds to its components. */
  lemma ComponentsByStep(dir: string, name: string)
    requires IsAbsolute(dir) && name !in {"", ".", ".."} && '/' !in name
    ensures Components("/") == [PathResolve.Root]
    ensures Components(dir + "/" + name) == Components(dir) + [PathResolve.Name(name)]
    ensures Components(dir + "/..") == Components(dir) + [PathResolve.Parent]
    ensures Components(dir + "/.") == Components(dir) == Components(dir + "/")
  {
    assert "/" == "" + ("/" + "");
    FirstPiece("", "");
    OnePiece("");
    StepFrom(dir, name);
    StepFrom(dir, "..");
    StepFrom(dir, ".");
    StepFrom(dir, "");
    assert dir + "/" == dir + "/" + "" && dir + "/.." == dir + "/" + ".." && dir + "/." == dir + "/" + ".";
    assert Components(dir) + [] == Components(dir);
  }

  lemma StepFrom(dir: string, piece: string)
    requires IsAbsolute(dir) && '/' !in piece
    ensures Components(dir + "/" + piece) == Components(dir) + PartsOf([piece], false)
  {
    assert dir + "/" + piece == dir + ("/" + piece);
    FolderParts(dir, piece);
    OnePiece(piece);
    assert (dir + ("/" + piece))[0] == '/';
    Associate([PathResolve.Root], PartsOf(Pieces(dir), false), PartsOf([piece], false));
  }

  // ---- Script paths ----

  lemma DoubleSlashAfter(root: string, rest: string)
    requires root != "" && root[|root| - 1] == '/'
    ensures HasDoubleSlash(root + rest) <==> HasDoubleSlash(root) || "/" <= rest || HasDoubleSlash(rest)
  {
    var word, n := root + rest, |root|;
    assert forall k | 0 <= k < n :: word[k] == root[k];
    assert forall k | 0 <= k < |rest| :: word[n + k] == rest[k];
    if i :| 0 <= i < |root| - 1 && root[i] == '/' && root[i + 1] == '/' {
      assert word[i] == '/' && word[i + 1] == '/';
    }
    if "/" <= rest {
      assert word[n - 1] == '/' && word[n - 1 + 1] == '/';
    }
    if i :| 0 <= i < |rest| - 1 && rest[i] == '/' && rest[i + 1] == '/' {
      assert word[n + i] == '/' && word[n + i + 1] == '/';
    }
    if i :| 0 <= i < |word| - 1 && word[i] == '/' && word[i + 1] == '/' {
      if i < n - 1 {
        assert root[i] == '/' && root[i + 1] == '/';
      } else if i >= n {
        assert rest[i - n] == '/' && rest[i - n + 1] == '/';
      }
    }
  }

  lemma NoDoubleSlash(piece: string)
    requires '/' !in piece
    ensures !HasDoubleSlash(piece + "/") && !HasDoubleSlash(piece)
  {
    assert forall k | 0 <= k < |piece| :: (piece + "/")[k] == piece[k] && piece[k] in piece;
  }

  predicate EndsInSlash(s: string) {
    s != "" && s[|s| - 1] == '/'
  }

  predicate IsRagged(s: string) {
    s == "" || "/" <= s || EndsInSlash(s) || HasDoubleSlash(s)
  }

  lemma RaggedPiece(piece: string)
    requires '/' !in piece
    ensures IsRagged(piece) <==> piece == ""
  {
    NoDoubleSlash(piece);
    assert piece != "" ==> piece[0] in piece && piece[|piece| - 1] in piece;
  }

  lemma RaggedPath(piece: string, rest: string)
    requires '/' !in piece
    ensures IsRagged(piece + ("/" + rest)) <==> piece == "" || IsRagged(rest)
  {
    var start, path := piece + "/", piece + ("/" + rest);
    NoDoubleSlash(piece);
    DoubleSlashAfter(start, rest);
    assert path == start + rest;
    assert piece != "" ==> path[0] == piece[0] && piece[0] in piece;
    assert path[|path| - 1] == if rest == "" then '/' else rest[|rest| - 1];
  }

  /** No piece is empty exactly when the path is not empty, neither starts nor ends with a slash and has no
      two slashes in a row. */
  lemma {:induction false} EmptyPieces(path: string)
    ensures "" in Pieces(path) <==> IsRagged(path)
    decreases |path|
  {
    var piece, rest := CutPiece(path);
    if rest.None? {
      RaggedPiece(piece);
    } else {
      RaggedPath(piece, rest.value);
      EmptyPieces(rest.value);
    }
  }

  lemma {:induction false} TopFolderIsPiece(rest: string)
    ensures TopFolder(rest) == Pieces(rest)[0]
  {
    var n := SlashFrom(rest, 0);
    SlashFromSkipped(rest, 0);
    TopFolderTo(rest, n);
    assert rest[..|rest|] == rest;
  }

  lemma {:induction false} TopFolderTo(rest: string, n: nat)
    requires n <= |rest| && (n < |rest| ==> rest[n] == '/') && forall k | 0 <= k < n :: rest[k] != '/'
    ensures TopFolder(rest) == rest[..n]
  {
    if n > 0 {
      TopFolderTo(rest[1..], n - 1);
      assert rest[..n] == [rest[0]] + rest[1..][..n - 1];
    }
  }

  /** After its root, a script path is a list of pieces of path characters, none of them empty. */
  ghost predicate IsRootedScript(root: string, rest: string) {
    && IsRoot(root) && !HasDoubleSlash(root)
    && "" !in Pieces(rest)
    && InAlphabet(rest)
    && (root == "/" ==> !IsSystemFolder(Pieces(rest)[0]))
  }

  predicate IsSystemFolder(name: string) {
    name in {"dev", "usr", "bin", "sbin", "etc", "tmp", "var", "proc", "sys", "opt", "System", "Library"}
  }

  lemma SystemFolders(rest: string)
    ensures TopFolder(rest) in SYSTEM_DIRS <==> IsSystemFolder(Pieces(rest)[0])
  {
    TopFolderIsPiece(rest);
  }

  lemma RootEnds(root: string)
    requires IsRoot(root)
    ensures EndsInSlash(root) && ("/" <= root <==> root == "/")
  {
    assert "~/"[0] == '~';
    if root != "/" && root != "~/" {
      assert root[0] == '$';
    }
  }

  lemma StrippedFrom(root: string, rest: string)
    requires IsRoot(root)
    ensures StripPathRoot(root + rest) == Some(rest)
  {
    StripsExactlyTheRoot(root + rest, rest);
  }

  lemma ScriptFrom(root: string, rest: string)
    requires IsRoot(root)
    ensures IsScriptPath(root + rest) <==> IsRootedScript(root, rest)
  {
    var word := root + rest;
    StrippedFrom(root, rest);
    RootEnds(root);
    assert "/" <= word <==> "/" <= root;
    DoubleSlashAfter(root, rest);
    EmptyPieces(rest);
    SystemFolders(rest);
    PathCharsExactly(rest);
  }

  /** The script paths, by root, pieces and characters. */
  lemma ScriptPathExactly(word: string)
    ensures IsScriptPath(word) <==> exists root, rest :: word == root + rest && IsRootedScript(root, rest)
  {
    if IsScriptPath(word) {
      var rest := StripPathRoot(word).value;
      StripsExactlyTheRoot(word, rest);
      var root :| IsRoot(root) && word == root + rest;
      ScriptFrom(root, rest);
    }
    if root, rest :| word == root + rest && IsRootedScript(root, rest) {
      ScriptFrom(root, rest);
    }
  }

  // ---- Warnings ----

  ghost predicate IsFirstNul(text: string, n: nat) {
    n < |text| && text[n] == '\0' && forall i | 0 <= i < n :: text[i] != '\0'
  }

  lemma FirstNul(name: string, core: string)
    requires '\0' !in name
    ensures var text := name + "\0" + core;
            IsFirstNul(text, |name|) && text[..|name|] == name && text[|name| + 1..] == core
  {
    var text := name + "\0" + core;
    assert forall i | 0 <= i < |name| :: text[i] == name[i] && name[i] in name;
  }

  /** One warning for each bundle and path: bundles whose names hold no NUL never share one. */
  lemma WarningsAreDistinct(name: string, word: string, name': string, word': string)
    requires '\0' !in name && '\0' !in name' && Warning(name, word) == Warning(name', word')
    ensures name == name' && SplitWord(word).core == SplitWord(word').core
  {
    FirstNul(name, SplitWord(word).core);
    FirstNul(name', SplitWord(word').core);
    var text := Warning(name, word);
    assert IsFirstNul(text, |name|) && IsFirstNul(text, |name'|);
  }
}
